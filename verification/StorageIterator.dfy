/**
 The paged iterator over a storage map at a fixed block: keys are fetched a page at a time, kept in
 a reversed buffer, and popped one by one as their values arrive.
 */
module StorageIterator {
  import opened Prelude
  import opened Rpc

  const PAGE_SIZE: nat := 100

  /** The state of one block: the storage keys in order, and what is stored under each. */
  datatype Snapshot = Snapshot(keys: seq<Bytes>, values: map<Bytes, Bytes>) {
    ghost predicate Valid() {
      Ascending(keys) && forall k :: k in keys ==> k in values
    }
  }

  // ---------------------------------------------------------------- the node's side

  /** Byte strings in dictionary order. */
  predicate Less(a: Bytes, b: Bytes) {
    b != [] && (a == [] || a[0] < b[0] || (a[0] == b[0] && Less(a[1..], b[1..])))
  }

  ghost predicate Ascending(keys: seq<Bytes>) {
    forall i, j :: 0 <= i < j < |keys| ==> Less(keys[i], keys[j])
  }

  function Under(keys: seq<Bytes>, prefix: Bytes): seq<Bytes> {
    if keys == [] then []
    else (if prefix <= keys[0] then [keys[0]] else []) + Under(keys[1..], prefix)
  }

  function After(keys: seq<Bytes>, start: Option<Bytes>): seq<Bytes> {
    if keys == [] then []
    else (if start.None? || Less(start.value, keys[0]) then [keys[0]] else []) + After(keys[1..], start)
  }

  /** `state_getKeysPaged`: at most `count` keys under the prefix, strictly after `start`. */
  function KeysPaged(keys: seq<Bytes>, prefix: Bytes, count: nat, start: Option<Bytes>): seq<Bytes> {
    var found := After(Under(keys, prefix), start);
    found[..Min(count, |found|)]
  }

  lemma LessIsAsymmetric(a: Bytes, b: Bytes)
    ensures !(Less(a, b) && Less(b, a))
  {
  }

  lemma UnderIsAscending(keys: seq<Bytes>, prefix: Bytes)
    requires Ascending(keys)
    ensures Ascending(Under(keys, prefix))
    ensures forall k :: k in Under(keys, prefix) <==> k in keys && prefix <= k
  {
    if keys == [] {
    } else {
      var rest := Under(keys[1..], prefix);
      UnderIsAscending(keys[1..], prefix);
      forall j | 0 <= j < |rest|
        ensures Less(keys[0], rest[j])
      {
        assert rest[j] in keys[1..];
      }
    }
  }

  lemma AfterAll(keys: seq<Bytes>, start: Option<Bytes>)
    requires start.Some? ==> forall i :: 0 <= i < |keys| ==> Less(start.value, keys[i])
    ensures After(keys, start) == keys
  {
    if keys == [] {
    } else {
      AfterAll(keys[1..], start);
    }
  }

  /** Asking for what comes after key p of an ascending list skips exactly the first p + 1. */
  lemma {:induction false} AfterKey(keys: seq<Bytes>, p: nat)
    requires Ascending(keys) && p < |keys|
    ensures After(keys, Some(keys[p])) == keys[p + 1..]
  {
    LessIsAsymmetric(keys[0], keys[p]);
    if p == 0 {
      AfterAll(keys[1..], Some(keys[0]));
    } else {
      AfterKey(keys[1..], p - 1);
      assert keys[1..][p..] == keys[p + 1..];
    }
  }

  /** The page after the first p keys is the next keys in order. */
  lemma PageIs(keys: seq<Bytes>, prefix: Bytes, count: nat, p: nat)
    requires Ascending(keys) && p <= |Under(keys, prefix)|
    ensures var ks := Under(keys, prefix);
      KeysPaged(keys, prefix, count, if p == 0 then None else Some(ks[p - 1])) == ks[p..Min(p + count, |ks|)]
  {
    hide Under, After, Less;
    var ks := Under(keys, prefix);
    UnderIsAscending(keys, prefix);
    if p == 0 { AfterAll(ks, None); } else { AfterKey(ks, p - 1); }
    assert ks[p..][..Min(count, |ks| - p)] == ks[p..Min(p + count, |ks|)];
  }

  // ---------------------------------------------------------------- the iterator

  /** Where the iterator stands: how many keys it has yielded, and whether it has seen the end. */
  datatype Position = Position(count: nat, done: bool)

  /** What one call does to the keys `ks` of the map; `take` is what a key yields, if it decodes. */
  ghost predicate IterStep<T>(ks: seq<Bytes>, take: map<Bytes, T>, p: Position, r: Result<Option<T>>, p': Position) {
    if p.done then r == Ok(None) && p' == p
    else match r
      case Ok(Some(x)) =>
        && p.count < |ks| && ks[p.count] in take && x == take[ks[p.count]]
        && p' == Position(p.count + 1, false)
      case Ok(None) => p.count == |ks| && p' == Position(p.count, true)
      case Err(e) => p' == p && (e == DecodingFailed ==> p.count < |ks| && ks[p.count] !in take)
  }

  /** How long a call takes: no RPC once done, else one or two; it reports a failed one exactly if it was the last. */
  ghost predicate IterPace<T>(run: seq<Moment>, from: nat, to: nat, done: bool, r: Result<Option<T>>) {
    if done then to == from else Asked(run, from, to, r != Err(RpcFailed)) && to <= from + 2
  }

  /** A call whose RPCs are answered does not report a failed one, and makes at most two. */
  lemma AnsweredCallSucceeds<T>(run: seq<Moment>, from: nat, to: nat, done: bool, r: Result<Option<T>>)
    requires IterPace(run, from, to, done, r) && Answered(run, from, from + 2) && (done ==> r == Ok(None))
    ensures r != Err(RpcFailed) && from <= to <= from + 2
  {
  }

  /** What `next` yields at each key: its value, where the stored bytes decode. */
  ghost function ValuesOf<V>(stored: map<Bytes, Bytes>, decodeValue: Bytes -> Option<V>): map<Bytes, V> {
    map k | k in stored && decodeValue(stored[k]).Some? :: decodeValue(stored[k]).value
  }

  /** What `next_key_value` yields at each key, where the key decodes as well. */
  ghost function PairsOf<K, V>(stored: map<Bytes, Bytes>, decodeKey: Bytes -> Option<K>,
                               decodeValue: Bytes -> Option<V>): map<Bytes, (K, V)> {
    map k | k in stored && decodeValue(stored[k]).Some? && decodeKey(k).Some? ::
      (decodeKey(k).value, decodeValue(stored[k]).value)
  }

  /** The two ways to yield a key give the same value. */
  ghost predicate Consistent<K, V>(values: map<Bytes, V>, pairs: map<Bytes, (K, V)>) {
    forall k :: k in pairs ==> k in values && pairs[k].1 == values[k]
  }

  lemma ValuesAndPairsAgree<K, V>(stored: map<Bytes, Bytes>, decodeKey: Bytes -> Option<K>,
                                  decodeValue: Bytes -> Option<V>)
    ensures Consistent(ValuesOf(stored, decodeValue), PairsOf(stored, decodeKey, decodeValue))
  {
  }

  class StorageMapIterator<K, V> {
    const node: Node
    const snapshot: Snapshot
    const prefix: Bytes
    // decode_storage_key and decode_storage_value
    const decodeKey: Bytes -> Option<K>
    const decodeValue: Bytes -> Option<V>
    var fetchedKeys: seq<Bytes>
    var lastKey: Option<Bytes>
    var isDone: bool
    ghost var yielded: nat

    ghost function Keys(): seq<Bytes> { Under(snapshot.keys, prefix) }

    ghost function View(): Position
      reads this
    {
      Position(yielded, isDone)
    }

    ghost predicate Valid()
      reads this
    {
      && snapshot.Valid()
      && yielded + |fetchedKeys| <= |Keys()|
      && Reversed(fetchedKeys) == Keys()[yielded..yielded + |fetchedKeys|]
      && lastKey == (if yielded == 0 then None else Some(Keys()[yielded - 1]))
      && (isDone ==> yielded == |Keys()|)
    }

    constructor (node: Node, snapshot: Snapshot, prefix: Bytes,
                 decodeKey: Bytes -> Option<K>, decodeValue: Bytes -> Option<V>)
      requires snapshot.Valid()
      ensures Valid() && View() == Position(0, false)
      ensures this.node == node && this.snapshot == snapshot && this.prefix == prefix
      ensures this.decodeKey == decodeKey && this.decodeValue == decodeValue
    {
      this.node, this.snapshot, this.prefix := node, snapshot, prefix;
      this.decodeKey, this.decodeValue := decodeKey, decodeValue;
      fetchedKeys, lastKey, isDone, yielded := [], None, false, 0;
    }

    ghost function Values(): map<Bytes, V> { ValuesOf(snapshot.values, decodeValue) }

    ghost function Pairs(): map<Bytes, (K, V)> { PairsOf(snapshot.values, decodeKey, decodeValue) }

    method Next() returns (r: Result<Option<V>>)
      requires Valid()
      modifies this, node
      ensures Valid() && old(node.now) <= node.now
      ensures IterStep(Keys(), Values(), old(View()), r, View())
      ensures IterPace(node.run, old(node.now), node.now, old(isDone), r)
      ensures r.Err? ==> r.error == RpcFailed || r.error == DecodingFailed
    {
      hide Reversed, Under, Snapshot.Valid;
      if isDone { return Ok(None); }
      var key := CurrentKey();
      if key.Err? { return Err(key.error); }
      if key.value.None? { return Ok(None); }
      var value := FetchStorageValue(key.value.value);
      if value.Err? { return Err(value.error); }
      Pop();
      r := Ok(Some(value.value));
    }

    method NextKeyValue() returns (r: Result<Option<(K, V)>>)
      requires Valid()
      modifies this, node
      ensures Valid() && old(node.now) <= node.now
      ensures IterStep(Keys(), Pairs(), old(View()), r, View())
      ensures IterPace(node.run, old(node.now), node.now, old(isDone), r)
      ensures r.Err? ==> r.error == RpcFailed || r.error == DecodingFailed
    {
      hide Reversed, Under, Snapshot.Valid;
      if isDone { return Ok(None); }
      var key := CurrentKey();
      if key.Err? { return Err(key.error); }
      if key.value.None? { return Ok(None); }
      var value := FetchStorageValue(key.value.value);
      if value.Err? { return Err(value.error); }
      var decoded := decodeKey(key.value.value);
      if decoded.None? { return Err(DecodingFailed); }
      Pop();
      r := Ok(Some((decoded.value, value.value)));
    }

    /** The last key of the buffer, after refilling it if it is empty. */
    method CurrentKey() returns (key: Result<Option<Bytes>>)
      requires Valid() && !isDone
      modifies this`fetchedKeys, this`isDone, node
      ensures Valid() && old(node.now) <= node.now
      ensures match key
        case Err(e) => e == RpcFailed && !isDone
        case Ok(None) => isDone
        case Ok(Some(k)) => !isDone && fetchedKeys != [] && yielded < |Keys()| && k == Keys()[yielded]
      ensures node.now == old(node.now) + if old(fetchedKeys) == [] then 1 else 0
      ensures old(fetchedKeys) == [] ==> (key.Ok? <==> Up(node.run, old(node.now)))
      ensures old(fetchedKeys) != [] ==> key.Ok? && key.value.Some?
    {
      if fetchedKeys == [] {
        var refill := FetchNewKeys();
        if refill.Err? { return Err(RpcFailed); }
      }
      if fetchedKeys == [] { return Ok(None); }
      assert Reversed(fetchedKeys)[0] == fetchedKeys[|fetchedKeys| - 1];
      key := Ok(Some(fetchedKeys[|fetchedKeys| - 1]));
    }

    /** The next page after the last key yielded; an empty page ends the iteration. */
    method FetchNewKeys() returns (r: Result<()>)
      requires Valid() && !isDone && fetchedKeys == []
      modifies this`fetchedKeys, this`isDone, node
      ensures Valid() && node.now == old(node.now) + 1
      ensures r.Ok? <==> Up(node.run, old(node.now))
      ensures r.Err? ==> fetchedKeys == [] && !isDone
      ensures r.Ok? ==> (isDone <==> fetchedKeys == [])
      ensures r.Ok? ==> Reversed(fetchedKeys) == Keys()[yielded..Min(yielded + 100, |Keys()|)]
    {
      hide KeysPaged, Reversed, Under, Snapshot.Valid;
      var m := node.Ask();
      if m.None? { return Err(RpcFailed); }
      assert Ascending(snapshot.keys) by { SnapshotAscending(); }
      var page := KeysPaged(snapshot.keys, prefix, PAGE_SIZE, lastKey);
      PageIs(snapshot.keys, prefix, PAGE_SIZE, yielded);
      ReversedTwice(page);
      fetchedKeys := Reversed(page);
      if fetchedKeys == [] { isDone := true; }
      r := Ok(());
    }

    lemma SnapshotAscending()
      requires snapshot.Valid()
      ensures Ascending(snapshot.keys)
    {
    }

    method FetchStorageValue(key: Bytes) returns (r: Result<V>)
      requires Valid() && key in Keys()
      modifies node
      ensures Valid() && node.now == old(node.now) + 1
      ensures r == if !Up(node.run, old(node.now)) then Err(RpcFailed)
                   else if key in Values() then Ok(Values()[key]) else Err(DecodingFailed)
    {
      UnderIsAscending(snapshot.keys, prefix);
      var m := node.Ask();
      if m.None? { return Err(RpcFailed); }
      var decoded := decodeValue(snapshot.values[key]);
      r := if decoded.Some? then Ok(decoded.value) else Err(DecodingFailed);
    }

    method Pop()
      requires Valid() && !isDone && fetchedKeys != []
      modifies this`lastKey, this`fetchedKeys, this`yielded
      ensures Valid() && View() == Position(old(yielded) + 1, false)
    {
      var n := |fetchedKeys| - 1;
      ghost var before := Reversed(fetchedKeys);
      assert before[0] == fetchedKeys[n];
      lastKey := Some(fetchedKeys[n]);
      fetchedKeys := fetchedKeys[..n];
      yielded := yielded + 1;
      assert Reversed(fetchedKeys) == before[1..];
    }
  }

  // ---------------------------------------------------------------- whole runs

  /** A call and its answer. */
  datatype Answer<K, V> = ValueOnly(value: Result<Option<V>>) | KeyValue(pair: Result<Option<(K, V)>>)

  ghost predicate AnswerStep<K, V>(ks: seq<Bytes>, values: map<Bytes, V>, pairs: map<Bytes, (K, V)>,
                                   p: Position, a: Answer<K, V>, p': Position)
  {
    match a
    case ValueOnly(r) => IterStep(ks, values, p, r, p')
    case KeyValue(r) => IterStep(ks, pairs, p, r, p')
  }

  ghost predicate IterRun<K, V>(ks: seq<Bytes>, values: map<Bytes, V>, pairs: map<Bytes, (K, V)>,
                                ps: seq<Position>, answers: seq<Answer<K, V>>)
  {
    |ps| == |answers| + 1 && forall i :: 0 <= i < |answers| ==>
      AnswerStep(ks, values, pairs, ps[i], answers[i], ps[i + 1])
  }

  predicate IsEnd<K, V>(a: Answer<K, V>) {
    match a case ValueOnly(r) => r == Ok(None) case KeyValue(r) => r == Ok(None)
  }

  /** The calls that yielded something, in call order. */
  function Yielding<K, V>(answers: seq<Answer<K, V>>): seq<Answer<K, V>> {
    if answers == [] then []
    else
      var last := answers[|answers| - 1];
      Yielding(answers[..|answers| - 1]) + if YieldOf(last) == [] then [] else [last]
  }

  /** What a call yields at a key: its value, or the decoded key with it. */
  ghost predicate YieldsAt<K, V>(a: Answer<K, V>, key: Bytes, values: map<Bytes, V>, pairs: map<Bytes, (K, V)>) {
    match a
    case ValueOnly(r) => key in values && r == Ok(Some(values[key]))
    case KeyValue(r) => key in pairs && r == Ok(Some(pairs[key]))
  }

  /** The values of the yielding calls, in call order. */
  function Yielded<K, V>(answers: seq<Answer<K, V>>): seq<V> {
    if answers == [] then []
    else Yielded(answers[..|answers| - 1]) + YieldOf(answers[|answers| - 1])
  }

  function YieldOf<K, V>(a: Answer<K, V>): seq<V> {
    match a
    case ValueOnly(Ok(Some(v))) => [v]
    case KeyValue(Ok(Some((_, v)))) => [v]
    case _ => []
  }

  /** What one call adds: the next key's yield, or nothing, and whether the end has been seen. */
  lemma AnswerAdds<K, V>(ks: seq<Bytes>, values: map<Bytes, V>, pairs: map<Bytes, (K, V)>,
                         p: Position, a: Answer<K, V>, p': Position)
    requires AnswerStep(ks, values, pairs, p, a, p')
    requires p.count <= |ks| && (p.done ==> p.count == |ks|)
    ensures p'.count <= |ks| && (p'.done ==> p'.count == |ks|)
    ensures YieldOf(a) == [] ==> p'.count == p.count
    ensures YieldOf(a) != [] ==> p.count < |ks| && p'.count == p.count + 1 && YieldsAt(a, ks[p.count], values, pairs)
    ensures p'.done <==> p.done || IsEnd(a)
    ensures p.done ==> IsEnd(a)
  {
  }

  lemma NothingYielding<K, V>()
    ensures Yielding<K, V>([]) == []
  {
  }

  lemma YieldingStep<K, V>(answers: seq<Answer<K, V>>, n: nat)
    requires 0 < n <= |answers|
    ensures var a := answers[n - 1];
      Yielding(answers[..n]) == Yielding(answers[..n - 1]) + if YieldOf(a) == [] then [] else [a]
  {
    hide YieldOf;
    assert answers[..n][..n - 1] == answers[..n - 1];
  }

  /**
   For every mix of the two calls and every pattern of failures, the i-th call that yields anything
   yields the i-th key's value, or its pair: each key's exactly once, in key order. From the first
   None on every call answers None.
   */
  lemma {:induction false} IteratorYieldsEveryKeyOnce<K, V>(
    ks: seq<Bytes>, values: map<Bytes, V>, pairs: map<Bytes, (K, V)>,
    ps: seq<Position>, answers: seq<Answer<K, V>>, n: nat)
    requires IterRun(ks, values, pairs, ps, answers) && n <= |answers|
    requires ps[0] == Position(0, false)
    ensures ps[n].count <= |ks| && |Yielding(answers[..n])| == ps[n].count
    ensures forall i :: 0 <= i < ps[n].count ==> YieldsAt(Yielding(answers[..n])[i], ks[i], values, pairs)
    ensures ps[n].done ==> ps[n].count == |ks|
    ensures ps[n].done <==> exists i :: 0 <= i < n && IsEnd(answers[i])
    ensures n < |answers| && ps[n].done ==> IsEnd(answers[n])
  {
    hide AnswerStep, YieldsAt, YieldOf, IsEnd, Yielding;
    if n == 0 {
      NothingYielding<K, V>();
      assert answers[..n] == [];
    } else {
      IteratorYieldsEveryKeyOnce(ks, values, pairs, ps, answers, n - 1);
      YieldingStep(answers, n);
      AnswerAdds(ks, values, pairs, ps[n - 1], answers[n - 1], ps[n]);
    }
    if n < |answers| { AnswerAdds(ks, values, pairs, ps[n], answers[n], ps[n + 1]); }
  }

  lemma YieldedOfYielding<K, V>(answers: seq<Answer<K, V>>)
    ensures |Yielded(answers)| == |Yielding(answers)|
    ensures forall i :: 0 <= i < |Yielding(answers)| ==> YieldOf(Yielding(answers)[i]) == [Yielded(answers)[i]]
  {
    if answers == [] {
    } else {
      YieldedOfYielding(answers[..|answers| - 1]);
    }
  }

  /** So the values alone are the stored values in key order, by whichever call each was asked for. */
  lemma {:induction false} ValuesComeInKeyOrder<K, V>(
    ks: seq<Bytes>, values: map<Bytes, V>, pairs: map<Bytes, (K, V)>,
    ps: seq<Position>, answers: seq<Answer<K, V>>, n: nat)
    requires IterRun(ks, values, pairs, ps, answers) && Consistent(values, pairs) && n <= |answers|
    requires ps[0] == Position(0, false)
    ensures ps[n].count <= |ks| && |Yielded(answers[..n])| == ps[n].count
    ensures forall i :: 0 <= i < ps[n].count ==> ks[i] in values && Yielded(answers[..n])[i] == values[ks[i]]
  {
    hide Yielding, Yielded;
    IteratorYieldsEveryKeyOnce(ks, values, pairs, ps, answers, n);
    YieldedOfYielding(answers[..n]);
    forall i | 0 <= i < ps[n].count ensures ks[i] in values && Yielded(answers[..n])[i] == values[ks[i]] {
      assert YieldsAt(Yielding(answers[..n])[i], ks[i], values, pairs);
    }
  }

  /** With no failure the run is plain iteration: n calls yield the first n keys, then only None. */
  lemma {:induction false} FaultFreeRunIsPlainIteration<K, V>(
    ks: seq<Bytes>, values: map<Bytes, V>, pairs: map<Bytes, (K, V)>,
    ps: seq<Position>, answers: seq<Answer<K, V>>, n: nat)
    requires IterRun(ks, values, pairs, ps, answers) && n <= |answers| && ps[0] == Position(0, false)
    requires forall i :: 0 <= i < n ==> match answers[i] case ValueOnly(r) => r.Ok? case KeyValue(r) => r.Ok?
    ensures ps[n] == Position(Min(n, |ks|), n > |ks|)
  {
    if n == 0 {
    } else {
      FaultFreeRunIsPlainIteration(ks, values, pairs, ps, answers, n - 1);
      assert AnswerStep(ks, values, pairs, ps[n - 1], answers[n - 1], ps[n]);
    }
  }

  /** A key that does not decode is never passed by calls that decode keys: they fail at it from then on. */
  lemma {:induction false} UndecodableKeyIsNeverPassed<K, V>(
    ks: seq<Bytes>, values: map<Bytes, V>, pairs: map<Bytes, (K, V)>,
    ps: seq<Position>, answers: seq<Answer<K, V>>, bad: nat, n: nat)
    requires IterRun(ks, values, pairs, ps, answers) && n <= |answers| && ps[0] == Position(0, false)
    requires forall i :: 0 <= i < n ==> answers[i].KeyValue?
    requires bad < |ks| && ks[bad] !in pairs
    ensures ps[n].count <= bad && !ps[n].done
  {
    if n == 0 {
    } else {
      UndecodableKeyIsNeverPassed(ks, values, pairs, ps, answers, bad, n - 1);
      assert AnswerStep(ks, values, pairs, ps[n - 1], answers[n - 1], ps[n]);
    }
  }
}
