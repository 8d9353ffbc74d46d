/**
 Iterating over maps and double maps by their logical keys: the iterators of `StorageIterator` with
 the key encodings and the shipped key decoders of `StorageKeys`.
 */
module StorageMaps {
  import opened Prelude
  import opened StorageKeys
  import opened StorageIterator

  function AsOption<T>(r: Result<T>): Option<T> { if r.Ok? then Some(r.value) else None }

  function KeyDecoder<K(!new)>(hasher: StorageHasher, codec: KeyCodec<K>): Bytes -> Option<K> {
    key => AsOption(DecodeMapKey(hasher, codec, key))
  }

  function DoubleKeyDecoder<K1(!new), K2(!new)>(
    hasher1: StorageHasher, codec1: KeyCodec<K1>,
    hasher2: StorageHasher, codec2: KeyCodec<K2>): Bytes -> Option<(K1, K2)> {
    key => AsOption(DecodeDoubleMapKey(hasher1, codec1, hasher2, codec2, key))
  }

  // ---------------------------------------------------------------- maps

  /** The storage keys are those of the logical keys, in storage order. */
  ghost predicate MapKeys<K(!new)>(ks: seq<Bytes>, keys: seq<K>, h: Hashes, prefix: Bytes,
                                   hasher: StorageHasher, codec: KeyCodec<K>)
  {
    && Ascending(ks) && |ks| == |keys|
    && forall i :: 0 <= i < |ks| ==> ks[i] == MapKey(h, prefix, hasher, codec, keys[i])
  }

  /** What is stored under a key, decoded. */
  ghost predicate StoredAs<V>(stored: map<Bytes, Bytes>, decodeValue: Bytes -> Option<V>, key: Bytes, value: V) {
    key in stored && decodeValue(stored[key]) == Some(value)
  }

  /** The i-th answer that yields anything: the value stored under the i-th key, with that logical key if asked for. */
  ghost predicate YieldsEntry<K, V>(a: Answer<K, V>, key: Bytes, k: K, stored: map<Bytes, Bytes>,
                                    decodeValue: Bytes -> Option<V>)
  {
    match a
    case ValueOnly(r) => r.Ok? && r.value.Some? && StoredAs(stored, decodeValue, key, r.value.value)
    case KeyValue(r) =>
      r.Ok? && r.value.Some? && r.value.value.0 == k && StoredAs(stored, decodeValue, key, r.value.value.1)
  }

  lemma AscendingIsDistinct(ks: seq<Bytes>, i: nat, j: nat)
    requires Ascending(ks) && i < j < |ks|
    ensures ks[i] != ks[j]
  {
    LessIsAsymmetric(ks[i], ks[j]);
  }

  /**
   For a map whose keys can be read back, every mix of the two calls under every pattern of failures
   yields the map's entries: the i-th yielding call the i-th logical key and its value, no key twice,
   and all of them by the time the end is reported.
   */
  lemma {:induction false} MapIterationYieldsEveryEntry<K(!new), V>(
    h: Hashes, prefix: Bytes, hasher: StorageHasher, codec: KeyCodec<K>, keys: seq<K>, ks: seq<Bytes>,
    stored: map<Bytes, Bytes>, decodeValue: Bytes -> Option<V>,
    ps: seq<Position>, answers: seq<Answer<K, V>>, n: nat)
    requires h.Sized() && codec.Lawful() && |prefix| == 32 && Reversible(hasher)
    requires MapKeys(ks, keys, h, prefix, hasher, codec)
    requires forall i :: 0 <= i < |keys| ==> hasher.Identity? || codec.enc(keys[i]) != []
    requires IterRun(ks, ValuesOf(stored, decodeValue), PairsOf(stored, KeyDecoder(hasher, codec), decodeValue),
                     ps, answers)
    requires n <= |answers| && ps[0] == Position(0, false)
    ensures |Yielding(answers[..n])| == ps[n].count <= |keys| && (ps[n].done ==> ps[n].count == |keys|)
    ensures forall i :: 0 <= i < ps[n].count ==>
      YieldsEntry(Yielding(answers[..n])[i], ks[i], keys[i], stored, decodeValue)
    ensures forall i, j :: 0 <= i < j < |keys| ==> keys[i] != keys[j]
  {
    hide Yielding, DecodeMapKey, MapKey, Ascending, IterRun, Hashes.Sized, KeyCodec.Lawful;
    var values, pairs := ValuesOf(stored, decodeValue), PairsOf(stored, KeyDecoder(hasher, codec), decodeValue);
    RunShape(ks, values, pairs, ps, answers);
    IteratorYieldsEveryKeyOnce(ks, values, pairs, ps, answers, n);
    forall i | 0 <= i < ps[n].count
      ensures YieldsEntry(Yielding(answers[..n])[i], ks[i], keys[i], stored, decodeValue)
    {
      MapKeyRoundTripIff(h, prefix, hasher, codec, keys[i]);
      assert YieldsAt(Yielding(answers[..n])[i], ks[i], values, pairs);
    }
    forall i, j | 0 <= i < j < |keys|
      ensures keys[i] != keys[j]
    {
      AscendingIsDistinct(ks, i, j);
    }
  }

  lemma RunShape<K, V>(ks: seq<Bytes>, values: map<Bytes, V>, pairs: map<Bytes, (K, V)>,
                       ps: seq<Position>, answers: seq<Answer<K, V>>)
    requires IterRun(ks, values, pairs, ps, answers)
    ensures |ps| == |answers| + 1
  {
  }

  // ---------------------------------------------------------------- double maps

  /** The storage keys are those of one first key and the given second keys, in storage order. */
  ghost predicate DoubleMapKeys<K1(!new), K2(!new)>(
    ks: seq<Bytes>, seconds: seq<K2>, h: Hashes, prefix: Bytes,
    hasher1: StorageHasher, codec1: KeyCodec<K1>, k1: K1,
    hasher2: StorageHasher, codec2: KeyCodec<K2>)
  {
    && |ks| == |seconds|
    && forall i :: 0 <= i < |ks| ==> ks[i] == DoubleMapKey(h, prefix, hasher1, codec1, k1, hasher2, codec2, seconds[i])
  }

  /** What the shipped decoder makes of the second key of an entry. */
  function SecondAsRead<K1(!new), K2(!new)>(
    h: Hashes,
    hasher1: StorageHasher, codec1: KeyCodec<K1>, k1: K1,
    hasher2: StorageHasher, codec2: KeyCodec<K2>, k2: K2): Result<K2> {
    var tail := Tail(h, hasher1, codec1, k1, hasher2, codec2, k2);
    if Reversible(hasher1) && !HasKeyBytes(hasher1, tail) then Err(DecodingFailed)
    else if hasher1.Identity? then FromHash(hasher2, codec2, HashKey(h, hasher2, codec2.enc(k2))).0
    else FromHash(hasher2, codec2, tail).0
  }

  /** An entry decodes exactly when its second key does as the shipped decoder reads it. */
  lemma DoubleKeyDecoded<K1(!new), K2(!new)>(
    h: Hashes, prefix: Bytes,
    hasher1: StorageHasher, codec1: KeyCodec<K1>, k1: K1,
    hasher2: StorageHasher, codec2: KeyCodec<K2>, k2: K2)
    requires h.Sized() && codec1.Lawful() && |prefix| == 32 && Reversible(hasher1)
    ensures
      var read := SecondAsRead(h, hasher1, codec1, k1, hasher2, codec2, k2);
      DoubleKeyDecoder(hasher1, codec1, hasher2, codec2)(
        DoubleMapKey(h, prefix, hasher1, codec1, k1, hasher2, codec2, k2))
      == if read.Ok? then Some((k1, read.value)) else None
  {
    hide DecodeDoubleMapKey, DoubleMapKey, FromHash, HashKey;
    ShippedDecoderReads(h, prefix, hasher1, codec1, k1, hasher2, codec2, k2);
    SplitAt(codec1.enc(k1), HashKey(h, hasher2, codec2.enc(k2)));
    IdentityTail(h, hasher1, codec1, k1, hasher2, codec2, k2);
    var tail := Tail(h, hasher1, codec1, k1, hasher2, codec2, k2);
    assert tail[0..] == tail;
  }

  lemma IdentityTail<K1(!new), K2(!new)>(
    h: Hashes,
    hasher1: StorageHasher, codec1: KeyCodec<K1>, k1: K1,
    hasher2: StorageHasher, codec2: KeyCodec<K2>, k2: K2)
    ensures hasher1.Identity? ==>
      Tail(h, hasher1, codec1, k1, hasher2, codec2, k2) == codec1.enc(k1) + HashKey(h, hasher2, codec2.enc(k2))
  {
  }

  /**
   A double map iterated under one first key, both of whose calls decode the storage key: the i-th
   yielding call gives that first key, the i-th second key as the shipped decoder reads it, and the
   value. If one entry's second key cannot be read so, no call ever gets past that entry.
   */
  lemma {:induction false} DoubleMapIterationYields<K1(!new), K2(!new), V>(
    h: Hashes, prefix: Bytes,
    hasher1: StorageHasher, codec1: KeyCodec<K1>, k1: K1,
    hasher2: StorageHasher, codec2: KeyCodec<K2>, seconds: seq<K2>, ks: seq<Bytes>,
    stored: map<Bytes, Bytes>, decodeValue: Bytes -> Option<V>,
    ps: seq<Position>, answers: seq<Answer<(K1, K2), V>>, n: nat)
    requires h.Sized() && codec1.Lawful() && |prefix| == 32 && Reversible(hasher1)
    requires DoubleMapKeys(ks, seconds, h, prefix, hasher1, codec1, k1, hasher2, codec2)
    requires IterRun(ks, ValuesOf(stored, decodeValue),
                     PairsOf(stored, DoubleKeyDecoder(hasher1, codec1, hasher2, codec2), decodeValue), ps, answers)
    requires n <= |answers| && ps[0] == Position(0, false)
    requires forall i :: 0 <= i < n ==> answers[i].KeyValue?
    ensures |Yielding(answers[..n])| == ps[n].count <= |seconds|
    ensures forall i :: 0 <= i < ps[n].count ==>
      var read := SecondAsRead(h, hasher1, codec1, k1, hasher2, codec2, seconds[i]);
      read.Ok? && YieldsEntry(Yielding(answers[..n])[i], ks[i], (k1, read.value), stored, decodeValue)
    ensures forall i :: 0 <= i < |seconds| && SecondAsRead(h, hasher1, codec1, k1, hasher2, codec2, seconds[i]).Err? ==>
      ps[n].count <= i && !ps[n].done
  {
    hide Yielding, SecondAsRead, DoubleKeyDecoder, DoubleMapKey, IterRun, Hashes.Sized, KeyCodec.Lawful;
    var decode := DoubleKeyDecoder(hasher1, codec1, hasher2, codec2);
    var values, pairs := ValuesOf(stored, decodeValue), PairsOf(stored, decode, decodeValue);
    RunShape(ks, values, pairs, ps, answers);
    IteratorYieldsEveryKeyOnce(ks, values, pairs, ps, answers, n);
    forall i | 0 <= i < |seconds|
      ensures
        var read := SecondAsRead(h, hasher1, codec1, k1, hasher2, codec2, seconds[i]);
        decode(ks[i]) == if read.Ok? then Some((k1, read.value)) else None
    {
      DoubleKeyDecoded(h, prefix, hasher1, codec1, k1, hasher2, codec2, seconds[i]);
    }
    forall i | 0 <= i < ps[n].count
      ensures
        var read := SecondAsRead(h, hasher1, codec1, k1, hasher2, codec2, seconds[i]);
        read.Ok? && YieldsEntry(Yielding(answers[..n])[i], ks[i], (k1, read.value), stored, decodeValue)
    {
      assert YieldsAt(Yielding(answers[..n])[i], ks[i], values, pairs);
      YieldingIsKeyValue(answers, n, i);
    }
    forall i | 0 <= i < |seconds| && SecondAsRead(h, hasher1, codec1, k1, hasher2, codec2, seconds[i]).Err?
      ensures ps[n].count <= i && !ps[n].done
    {
      UndecodableKeyIsNeverPassed(ks, values, pairs, ps, answers, i, n);
    }
  }

  lemma YieldingIsKeyValue<K, V>(answers: seq<Answer<K, V>>, n: nat, i: nat)
    requires n <= |answers| && (forall j :: 0 <= j < n ==> answers[j].KeyValue?) && i < |Yielding(answers[..n])|
    ensures Yielding(answers[..n])[i].KeyValue?
  {
    if n == 0 {
    } else {
      YieldingStep(answers, n);
      if i < |Yielding(answers[..n - 1])| { YieldingIsKeyValue(answers, n - 1, i); }
    }
  }
}
