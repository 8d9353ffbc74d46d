/** Storage keys: how they are built from hashed map keys, and what reading them back gives. */
module StorageKeys {
  import opened Prelude
  import opened Scale

  datatype StorageHasher = Blake2_128 | Blake2_256 | Blake2_128Concat | Twox128 | Twox256 | Twox64Concat | Identity

  /** The hash functions, of which only the output lengths are known. */
  datatype Hashes = Hashes(blake128: Bytes -> Bytes, blake256: Bytes -> Bytes,
                           twox64: Bytes -> Bytes, twox128: Bytes -> Bytes, twox256: Bytes -> Bytes)
  {
    ghost predicate Sized() {
      forall x :: |blake128(x)| == 16 && |twox64(x)| == 8 && |twox128(x)| == 16
    }
  }

  /** How a key type is encoded and decoded. */
  datatype KeyCodec<!K(!new)> = KeyCodec(enc: K -> Bytes, dec: Bytes -> Parsed<K>) {
    /** Decoding reads back exactly what encoding wrote, whatever follows. */
    ghost predicate Lawful() {
      forall k, rest :: dec(enc(k) + rest) == Parsed(k, rest)
    }
  }

  function HashKey(h: Hashes, hasher: StorageHasher, data: Bytes): Bytes {
    match hasher
    case Blake2_128 => h.blake128(data)
    case Blake2_256 => h.blake256(data)
    case Blake2_128Concat => h.blake128(data) + data
    case Twox128 => h.twox128(data)
    case Twox256 => h.twox256(data)
    case Twox64Concat => h.twox64(data) + data
    case Identity => data
  }

  /** The hashers whose output still holds the key. */
  predicate Reversible(hasher: StorageHasher) {
    hasher.Blake2_128Concat? || hasher.Twox64Concat? || hasher.Identity?
  }

  /** How many hash bytes stand before the key. */
  function Offset(hasher: StorageHasher): nat
    requires Reversible(hasher)
  {
    if hasher.Blake2_128Concat? then 16 else if hasher.Twox64Concat? then 8 else 0
  }

  /** `from_hash`, with the slice as the call leaves it: only Identity advances it. */
  function FromHash<K(!new)>(hasher: StorageHasher, codec: KeyCodec<K>, data: Bytes): (Result<K>, Bytes) {
    match hasher
    case Blake2_128Concat => (if |data| < 17 then Err(DecodingFailed) else Outcome(codec.dec(data[16..])), data)
    case Twox64Concat => (if |data| < 9 then Err(DecodingFailed) else Outcome(codec.dec(data[8..])), data)
    case Identity => (Outcome(codec.dec(data)), Left(codec.dec(data)))
    case _ => (Err(Unimplemented), data)
  }

  /** `from_hash` if it advanced the slice past the key for every hasher. */
  function FromHashAdvancing<K(!new)>(hasher: StorageHasher, codec: KeyCodec<K>, data: Bytes): (Result<K>, Bytes) {
    match hasher
    case Blake2_128Concat =>
      if |data| < 17 then (Err(DecodingFailed), data)
      else (Outcome(codec.dec(data[16..])), Left(codec.dec(data[16..])))
    case Twox64Concat =>
      if |data| < 9 then (Err(DecodingFailed), data)
      else (Outcome(codec.dec(data[8..])), Left(codec.dec(data[8..])))
    case Identity => (Outcome(codec.dec(data)), Left(codec.dec(data)))
    case _ => (Err(Unimplemented), data)
  }

  function Outcome<K>(p: Parsed<K>): Result<K> { if p.Bad? then Err(DecodingFailed) else Ok(p.value) }

  function Left<K>(p: Parsed<K>): Bytes { if p.Bad? then [] else p.rest }

  // ---------------------------------------------------------------- maps

  function MapKey<K(!new)>(h: Hashes, prefix: Bytes, hasher: StorageHasher, codec: KeyCodec<K>, k: K): Bytes {
    prefix + HashKey(h, hasher, codec.enc(k))
  }

  function DecodeMapKey<K(!new)>(hasher: StorageHasher, codec: KeyCodec<K>, key: Bytes): Result<K> {
    if |key| < 32 then Err(DecodingFailed) else FromHash(hasher, codec, key[32..]).0
  }

  lemma SplitAt(a: Bytes, b: Bytes)
    ensures (a + b)[|a|..] == b && |a + b| == |a| + |b|
  {
  }

  lemma HashKeySplit(h: Hashes, hasher: StorageHasher, data: Bytes)
    requires h.Sized() && Reversible(hasher)
    ensures |HashKey(h, hasher, data)| == Offset(hasher) + |data|
    ensures HashKey(h, hasher, data)[Offset(hasher)..] == data
  {
  }

  /** What a map key is refused for, before its own bytes are looked at. */
  lemma RefusedMapKeys<K(!new)>(hasher: StorageHasher, codec: KeyCodec<K>, key: Bytes)
    ensures |key| < 32 ==> DecodeMapKey(hasher, codec, key) == Err(DecodingFailed)
    ensures |key| >= 32 && (hasher.Blake2_128? || hasher.Blake2_256? || hasher.Twox128? || hasher.Twox256?) ==>
      DecodeMapKey(hasher, codec, key) == Err(Unimplemented)
    ensures 32 <= |key| <= 48 && hasher.Blake2_128Concat? ==> DecodeMapKey(hasher, codec, key) == Err(DecodingFailed)
    ensures 32 <= |key| <= 40 && hasher.Twox64Concat? ==> DecodeMapKey(hasher, codec, key) == Err(DecodingFailed)
  {
  }

  /** What a map key consists of: the prefix, the hash, and for three hashers the key's own bytes. */
  lemma MapKeyLayout<K(!new)>(h: Hashes, prefix: Bytes, hasher: StorageHasher, codec: KeyCodec<K>, k: K)
    requires h.Sized() && |prefix| == 32
    ensures var key := MapKey(h, prefix, hasher, codec, k);
      && |key| >= 32 && key[..32] == prefix
      && (hasher.Blake2_128? ==> key[32..] == h.blake128(codec.enc(k)))
      && (hasher.Blake2_256? ==> key[32..] == h.blake256(codec.enc(k)))
      && (hasher.Twox128? ==> key[32..] == h.twox128(codec.enc(k)))
      && (hasher.Twox256? ==> key[32..] == h.twox256(codec.enc(k)))
      && (hasher.Blake2_128Concat? ==>
            |key| >= 48 && key[32..48] == h.blake128(codec.enc(k)) && key[48..] == codec.enc(k))
      && (hasher.Twox64Concat? ==>
            |key| >= 40 && key[32..40] == h.twox64(codec.enc(k)) && key[40..] == codec.enc(k))
      && (hasher.Identity? ==> key[32..] == codec.enc(k))
  {
    SplitAt(prefix, HashKey(h, hasher, codec.enc(k)));
    var key := MapKey(h, prefix, hasher, codec, k);
    if hasher.Blake2_128Concat? {
      assert key == prefix + h.blake128(codec.enc(k)) + codec.enc(k);
    } else if hasher.Twox64Concat? {
      assert key == prefix + h.twox64(codec.enc(k)) + codec.enc(k);
    }
  }

  lemma DecodesAlone<K(!new)>(codec: KeyCodec<K>, k: K)
    requires codec.Lawful()
    ensures codec.dec(codec.enc(k)) == Parsed(k, [])
  {
    assert codec.enc(k) + [] == codec.enc(k);
  }

  /** A map key is read back, whatever the hash, unless a hashed key has no bytes of its own. */
  lemma MapKeyRoundTripIff<K(!new)>(h: Hashes, prefix: Bytes, hasher: StorageHasher, codec: KeyCodec<K>, k: K)
    requires h.Sized() && codec.Lawful() && |prefix| == 32
    ensures DecodeMapKey(hasher, codec, MapKey(h, prefix, hasher, codec, k)) == Ok(k)
       <==> Reversible(hasher) && (hasher.Identity? || codec.enc(k) != [])
  {
    SplitAt(prefix, HashKey(h, hasher, codec.enc(k)));
    if Reversible(hasher) {
      HashKeySplit(h, hasher, codec.enc(k));
      DecodesAlone(codec, k);
    }
  }

  /** Two keys share a storage key only if they are the same key, even when their hashes collide. */
  lemma MapKeyInjective<K(!new)>(h: Hashes, prefix: Bytes, hasher: StorageHasher, codec: KeyCodec<K>, a: K, b: K)
    requires h.Sized() && codec.Lawful() && Reversible(hasher)
    requires MapKey(h, prefix, hasher, codec, a) == MapKey(h, prefix, hasher, codec, b)
    ensures a == b
  {
    SplitAt(prefix, HashKey(h, hasher, codec.enc(a)));
    SplitAt(prefix, HashKey(h, hasher, codec.enc(b)));
    HashKeySplit(h, hasher, codec.enc(a));
    HashKeySplit(h, hasher, codec.enc(b));
    DecodesAlone(codec, a);
    DecodesAlone(codec, b);
  }

  // ---------------------------------------------------------------- double maps

  function DoubleMapKey<K1(!new), K2(!new)>(
    h: Hashes, prefix: Bytes,
    hasher1: StorageHasher, codec1: KeyCodec<K1>, k1: K1,
    hasher2: StorageHasher, codec2: KeyCodec<K2>, k2: K2): Bytes {
    prefix + HashKey(h, hasher1, codec1.enc(k1)) + HashKey(h, hasher2, codec2.enc(k2))
  }

  function DecodeDoubleMapKey<K1(!new), K2(!new)>(
    hasher1: StorageHasher, codec1: KeyCodec<K1>,
    hasher2: StorageHasher, codec2: KeyCodec<K2>, key: Bytes): Result<(K1, K2)> {
    if |key| < 32 then Err(DecodingFailed)
    else
      var (k1, left) := FromHash(hasher1, codec1, key[32..]);
      Both(k1, FromHash(hasher2, codec2, left).0)
  }

  function DecodeDoubleMapKeyAdvancing<K1(!new), K2(!new)>(
    hasher1: StorageHasher, codec1: KeyCodec<K1>,
    hasher2: StorageHasher, codec2: KeyCodec<K2>, key: Bytes): Result<(K1, K2)> {
    if |key| < 32 then Err(DecodingFailed)
    else
      var (k1, left) := FromHashAdvancing(hasher1, codec1, key[32..]);
      Both(k1, FromHashAdvancing(hasher2, codec2, left).0)
  }

  function Both<K1, K2>(a: Result<K1>, b: Result<K2>): Result<(K1, K2)> {
    match a
    case Err(e) => Err(e)
    case Ok(x) => match b case Err(e) => Err(e) case Ok(y) => Ok((x, y))
  }

  /**
   What a double-map key consists of: its first part is the map key of the first key, and its second
   what a map key of the second key has after the prefix.
   */
  lemma DoubleMapKeyLayout<K1(!new), K2(!new)>(
    h: Hashes, prefix: Bytes,
    hasher1: StorageHasher, codec1: KeyCodec<K1>, k1: K1,
    hasher2: StorageHasher, codec2: KeyCodec<K2>, k2: K2)
    requires h.Sized() && |prefix| == 32
    ensures
      var first := MapKey(h, prefix, hasher1, codec1, k1);
      var second := MapKey(h, prefix, hasher2, codec2, k2);
      var key := DoubleMapKey(h, prefix, hasher1, codec1, k1, hasher2, codec2, k2);
      |second| >= 32 && |key| >= |first| && key[..|first|] == first && key[|first|..] == second[32..]
  {
    SplitAt(prefix, HashKey(h, hasher2, codec2.enc(k2)));
    SplitAt(MapKey(h, prefix, hasher1, codec1, k1), HashKey(h, hasher2, codec2.enc(k2)));
  }

  /** What stands after the 32 bytes of the prefix. */
  function Tail<K1(!new), K2(!new)>(
    h: Hashes,
    hasher1: StorageHasher, codec1: KeyCodec<K1>, k1: K1,
    hasher2: StorageHasher, codec2: KeyCodec<K2>, k2: K2): Bytes {
    HashKey(h, hasher1, codec1.enc(k1)) + HashKey(h, hasher2, codec2.enc(k2))
  }

  lemma TailSplit<K1(!new), K2(!new)>(
    h: Hashes, prefix: Bytes,
    hasher1: StorageHasher, codec1: KeyCodec<K1>, k1: K1,
    hasher2: StorageHasher, codec2: KeyCodec<K2>, k2: K2)
    requires h.Sized() && Reversible(hasher1)
    ensures DoubleMapKey(h, prefix, hasher1, codec1, k1, hasher2, codec2, k2)
         == prefix + Tail(h, hasher1, codec1, k1, hasher2, codec2, k2)
    ensures var t := Tail(h, hasher1, codec1, k1, hasher2, codec2, k2);
      |t| >= Offset(hasher1) && t[Offset(hasher1)..] == codec1.enc(k1) + HashKey(h, hasher2, codec2.enc(k2))
  {
    HashKeySplit(h, hasher1, codec1.enc(k1));
  }

  /** After the prefix, what `from_hash` needs before it looks at a key: at least one byte past the hash. */
  predicate HasKeyBytes(hasher: StorageHasher, data: Bytes)
    requires Reversible(hasher)
  {
    hasher.Identity? || |data| > Offset(hasher)
  }

  /** With a slice-advancing `from_hash` both keys come back, unless a hash is all there is of one. */
  lemma AdvancingDoubleMapRoundTripIff<K1(!new), K2(!new)>(
    h: Hashes, prefix: Bytes,
    hasher1: StorageHasher, codec1: KeyCodec<K1>, k1: K1,
    hasher2: StorageHasher, codec2: KeyCodec<K2>, k2: K2)
    requires h.Sized() && codec1.Lawful() && codec2.Lawful() && |prefix| == 32
    requires Reversible(hasher1) && Reversible(hasher2)
    ensures DecodeDoubleMapKeyAdvancing(hasher1, codec1, hasher2, codec2,
              DoubleMapKey(h, prefix, hasher1, codec1, k1, hasher2, codec2, k2)) == Ok((k1, k2))
       <==> (HasKeyBytes(hasher1, Tail(h, hasher1, codec1, k1, hasher2, codec2, k2))
          && HasKeyBytes(hasher2, HashKey(h, hasher2, codec2.enc(k2))))
  {
    TailSplit(h, prefix, hasher1, codec1, k1, hasher2, codec2, k2);
    SplitAt(prefix, Tail(h, hasher1, codec1, k1, hasher2, codec2, k2));
    HashKeySplit(h, hasher2, codec2.enc(k2));
    DecodesAlone(codec2, k2);
  }

  /**
   The shipped decoder: after an Identity first key the second decoder starts where it should, but
   after a hashed one it starts over at the first key's hash.
   */
  lemma ShippedDecoderReads<K1(!new), K2(!new)>(
    h: Hashes, prefix: Bytes,
    hasher1: StorageHasher, codec1: KeyCodec<K1>, k1: K1,
    hasher2: StorageHasher, codec2: KeyCodec<K2>, k2: K2)
    requires h.Sized() && codec1.Lawful() && |prefix| == 32 && Reversible(hasher1)
    ensures var got := DecodeDoubleMapKey(hasher1, codec1, hasher2, codec2,
                         DoubleMapKey(h, prefix, hasher1, codec1, k1, hasher2, codec2, k2));
      var tail := Tail(h, hasher1, codec1, k1, hasher2, codec2, k2);
      if !HasKeyBytes(hasher1, tail) then got == Err(DecodingFailed)
      else got == Both(Ok(k1), FromHash(hasher2, codec2, tail[if hasher1.Identity? then |codec1.enc(k1)| else 0..]).0)
  {
    TailSplit(h, prefix, hasher1, codec1, k1, hasher2, codec2, k2);
    SplitAt(prefix, Tail(h, hasher1, codec1, k1, hasher2, codec2, k2));
    SplitAt(codec1.enc(k1), HashKey(h, hasher2, codec2.enc(k2)));
  }

  /** The bytes at the second key's offset in `data` are its encoding, up to what its decoder leaves. */
  predicate ReadsAs<K(==, !new)>(hasher: StorageHasher, codec: KeyCodec<K>, data: Bytes, k: K)
    requires Reversible(hasher)
  {
    HasKeyBytes(hasher, data) && |data| >= Offset(hasher) && Outcome(codec.dec(data[Offset(hasher)..])) == Ok(k)
  }

  /**
   The shipped decoder gives both keys back exactly when there are key bytes to read and, after a
   hashed first key, when the second key happens to be what its decoder reads at its own hash's
   width into the first key's hash. After an Identity first key it is always right.
   */
  lemma ShippedDecoderRightIff<K1(!new), K2(!new)>(
    h: Hashes, prefix: Bytes,
    hasher1: StorageHasher, codec1: KeyCodec<K1>, k1: K1,
    hasher2: StorageHasher, codec2: KeyCodec<K2>, k2: K2)
    requires h.Sized() && codec1.Lawful() && codec2.Lawful() && |prefix| == 32
    requires Reversible(hasher1) && Reversible(hasher2)
    ensures var tail := Tail(h, hasher1, codec1, k1, hasher2, codec2, k2);
      DecodeDoubleMapKey(hasher1, codec1, hasher2, codec2,
        DoubleMapKey(h, prefix, hasher1, codec1, k1, hasher2, codec2, k2)) == Ok((k1, k2))
      <==> (HasKeyBytes(hasher1, tail)
            && if hasher1.Identity? then HasKeyBytes(hasher2, HashKey(h, hasher2, codec2.enc(k2)))
               else ReadsAs(hasher2, codec2, tail, k2))
  {
    ShippedDecoderReads(h, prefix, hasher1, codec1, k1, hasher2, codec2, k2);
    TailSplit(h, prefix, hasher1, codec1, k1, hasher2, codec2, k2);
    HashKeySplit(h, hasher2, codec2.enc(k2));
    DecodesAlone(codec2, k2);
    var tail := Tail(h, hasher1, codec1, k1, hasher2, codec2, k2);
    if hasher1.Identity? {
      HashKeySplit(h, hasher1, codec1.enc(k1));
      SplitAt(codec1.enc(k1), HashKey(h, hasher2, codec2.enc(k2)));
    } else {
      assert tail[0..] == tail;
    }
  }

  /** With one concatenating hasher and one key type it returns the first key twice: right only when they are equal. */
  lemma SameHasherReturnsFirstKeyTwice<K(!new)>(
    h: Hashes, prefix: Bytes, hasher: StorageHasher, codec: KeyCodec<K>, k1: K, k2: K)
    requires h.Sized() && codec.Lawful() && |prefix| == 32
    requires Reversible(hasher) && !hasher.Identity? && codec.enc(k1) != [] && codec.enc(k2) != []
    ensures var got := DecodeDoubleMapKey(hasher, codec, hasher, codec,
                         DoubleMapKey(h, prefix, hasher, codec, k1, hasher, codec, k2));
      got == Ok((k1, k1)) && (got == Ok((k1, k2)) <==> k1 == k2)
  {
    ShippedDecoderReads(h, prefix, hasher, codec, k1, hasher, codec, k2);
    TailSplit(h, prefix, hasher, codec, k1, hasher, codec, k2);
  }

  /** A key type read as a fixed number of bytes. */
  function RawCodec(width: nat): KeyCodec<Bytes> {
    KeyCodec((k: Bytes) => k, (b: Bytes) => Take(b, width))
  }

  /**
   Under the hashers of the era-and-validator map (a 4-byte and a 32-byte key, both Twox64Concat)
   the account read is the era, then the 8 hash bytes of the account, then its first 20 bytes.
   */
  lemma EraValidatorKeyReads(h: Hashes, prefix: Bytes, era: Bytes, account: Bytes)
    requires h.Sized() && |prefix| == 32 && |era| == 4 && |account| == 32
    ensures DecodeDoubleMapKey(Twox64Concat, RawCodec(4), Twox64Concat, RawCodec(32),
              DoubleMapKey(h, prefix, Twox64Concat, RawCodec(4), era, Twox64Concat, RawCodec(32), account))
         == Ok((era, era + h.twox64(account) + account[..20]))
  {
    var tail := Tail(h, Twox64Concat, RawCodec(4), era, Twox64Concat, RawCodec(32), account);
    TailSplit(h, prefix, Twox64Concat, RawCodec(4), era, Twox64Concat, RawCodec(32), account);
    SplitAt(prefix, tail);
    assert tail[8..] == era + (h.twox64(account) + account);
    assert tail[8..][..4] == era;
    assert tail[8..][..32] == era + h.twox64(account) + account[..20];
  }

  /** Double-map keys are injective too: no pair of keys shares a storage key with another pair. */
  lemma DoubleMapKeyInjective<K1(!new), K2(!new)>(
    h: Hashes, prefix: Bytes,
    hasher1: StorageHasher, codec1: KeyCodec<K1>, a1: K1, b1: K1,
    hasher2: StorageHasher, codec2: KeyCodec<K2>, a2: K2, b2: K2)
    requires h.Sized() && codec1.Lawful() && codec2.Lawful() && Reversible(hasher1) && Reversible(hasher2)
    requires DoubleMapKey(h, prefix, hasher1, codec1, a1, hasher2, codec2, a2)
          == DoubleMapKey(h, prefix, hasher1, codec1, b1, hasher2, codec2, b2)
    ensures a1 == b1 && a2 == b2
  {
    TailSplit(h, prefix, hasher1, codec1, a1, hasher2, codec2, a2);
    TailSplit(h, prefix, hasher1, codec1, b1, hasher2, codec2, b2);
    SplitAt(prefix, Tail(h, hasher1, codec1, a1, hasher2, codec2, a2));
    SplitAt(prefix, Tail(h, hasher1, codec1, b1, hasher2, codec2, b2));
    var a, b := HashKey(h, hasher2, codec2.enc(a2)), HashKey(h, hasher2, codec2.enc(b2));
    assert codec1.dec(codec1.enc(a1) + a) == Parsed(a1, a);
    assert codec1.dec(codec1.enc(b1) + b) == Parsed(b1, b);
    HashKeySplit(h, hasher2, codec2.enc(a2));
    HashKeySplit(h, hasher2, codec2.enc(b2));
    DecodesAlone(codec2, a2);
    DecodesAlone(codec2, b2);
  }
}
