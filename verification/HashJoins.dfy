/** The hash join operator: execution/executors/hash_join_executor.go. */
module HashJoins {
  import opened Bytes
  import opened Collections
  import opened Values

  /** A tuple of one side, with the value of the join key in it. */
  datatype Row = Row(key: Value, data: seq<byte>)

  /** Keys of one type that `HashValue` takes; it panics on Booleans. */
  predicate KeysOk(rows: seq<Row>, t: Type) {
    t != Boolean && forall i | 0 <= i < |rows| :: TypeOf(rows[i].key) == t && ValueOk(rows[i].key)
  }

  // ---------- what a join means ----------

  /** The rows of the left side that match one right row, in order: the inner loop of a nested-loop join. */
  function Partners(left: seq<Row>, t: Type, r: Row): seq<(Row, Row)>
    requires KeysOk(left, t) && TypeOf(r.key) == t
  {
    if left == [] then []
    else
      var rest := Partners(left[..|left| - 1], t, r);
      var l := left[|left| - 1];
      if !l.key.isNull && !r.key.isNull && CompareEquals(l.key, r.key) then rest + [(l, r)] else rest
  }

  function NestedLoop(left: seq<Row>, right: seq<Row>, t: Type): seq<(Row, Row)>
    requires KeysOk(left, t) && KeysOk(right, t)
    decreases |right|
  {
    if right == [] then [] else Partners(left, t, right[0]) + NestedLoop(left, right[1..], t)
  }

  /** Neither key is NULL, and they are the same integer or string, or floats standing for the same number. */
  predicate SameKey(k: Value, l: Value)
    requires TypeOf(k) == TypeOf(l)
  {
    && !k.isNull && !l.isNull
    && if k.FloatValue? then !FloatOf(k.bits).NaN? && FloatOf(k.bits) == FloatOf(l.bits) else k == l
  }

  /** Which left rows are a right row's partners, in order. */
  lemma {:induction false} PartnersExact(left: seq<Row>, t: Type, r: Row) returns (ks: seq<nat>)
    requires KeysOk(left, t) && TypeOf(r.key) == t && ValueOk(r.key)
    ensures |ks| == |Partners(left, t, r)|
    ensures forall n | 0 <= n < |ks| :: ks[n] < |left| && Partners(left, t, r)[n] == (left[ks[n]], r)
    ensures forall m, n | 0 <= m < n < |ks| :: ks[m] < ks[n]
    ensures forall i: nat | i < |left| :: i in ks <==> SameKey(left[i].key, r.key)
  {
    hide CompareEquals, SameKey, ValueOk;
    if left == [] {
      ks := [];
    } else {
      var n := |left| - 1;
      ks := PartnersExact(left[..n], t, r);
      JoinsExactly(left[n].key, r.key);
      if SameKey(left[n].key, r.key) {
        ks := ks + [n];
      }
    }
  }

  lemma JoinsExactly(k: Value, l: Value)
    requires ValueOk(k) && ValueOk(l) && TypeOf(k) == TypeOf(l)
    ensures !k.isNull && !l.isNull && CompareEquals(k, l) <==> SameKey(k, l)
  {
    hide FloatOf, CompareEquals;
    EqualsExact(k, l);
  }

  predicate Before(p: (nat, nat), q: (nat, nat)) {
    p.1 < q.1 || (p.1 == q.1 && p.0 < q.0)
  }

  /** The output is these pairs of rows, given by their places left and right. */
  ghost predicate Lists(ps: seq<(nat, nat)>, left: seq<Row>, right: seq<Row>, out: seq<(Row, Row)>) {
    |ps| == |out| && forall n | 0 <= n < |ps| ::
         ps[n].0 < |left| && ps[n].1 < |right| && out[n] == (left[ps[n].0], right[ps[n].1])
  }

  ghost predicate Ascending(ps: seq<(nat, nat)>) {
    forall m, n | 0 <= m < n < |ps| :: Before(ps[m], ps[n])
  }

  ghost predicate OneType(left: seq<Row>, right: seq<Row>) {
    forall i, j | 0 <= i < |left| && 0 <= j < |right| :: TypeOf(left[i].key) == TypeOf(right[j].key)
  }

  ghost predicate Complete(ps: seq<(nat, nat)>, left: seq<Row>, right: seq<Row>)
    requires OneType(left, right)
  {
    forall i: nat, j: nat | i < |left| && j < |right| :: (i, j) in ps <==> SameKey(left[i].key, right[j].key)
  }

  function Firsts(ks: seq<nat>): (ps: seq<(nat, nat)>)
    ensures |ps| == |ks| && forall n | 0 <= n < |ks| :: ps[n] == (ks[n], 0)
  {
    seq(|ks|, n requires 0 <= n < |ks| => (ks[n], 0))
  }

  function Shifted(qs: seq<(nat, nat)>): (ps: seq<(nat, nat)>)
    ensures |ps| == |qs| && forall n | 0 <= n < |qs| :: ps[n] == (qs[n].0, qs[n].1 + 1)
  {
    seq(|qs|, n requires 0 <= n < |qs| => (qs[n].0, qs[n].1 + 1))
  }

  /** The nested-loop join is every pair of rows with the same key, once, by right row and then by left row. */
  lemma {:induction false} NestedLoopExact(left: seq<Row>, right: seq<Row>, t: Type) returns (ps: seq<(nat, nat)>)
    requires KeysOk(left, t) && KeysOk(right, t)
    ensures Lists(ps, left, right, NestedLoop(left, right, t)) && Ascending(ps) && Complete(ps, left, right)
    decreases |right|
  {
    hide CompareEquals, SameKey, ValueOk, Partners, TypeOf, Firsts, Shifted;
    if right == [] {
      ps := [];
    } else {
      hide Lists, Ascending, Complete;
      var ks := PartnersExact(left, t, right[0]);
      var qs := NestedLoopExact(left, right[1..], t);
      ps := Firsts(ks) + Shifted(qs);
      ListsMore(left, right, ks, qs, Partners(left, t, right[0]), NestedLoop(left, right[1..], t));
      AscendingMore(ks, qs);
      CompleteMore(left, right, ks, qs);
    }
  }

  lemma ListsMore(left: seq<Row>, right: seq<Row>, ks: seq<nat>, qs: seq<(nat, nat)>, partners: seq<(Row, Row)>,
      out: seq<(Row, Row)>)
    requires right != [] && Lists(qs, left, right[1..], out) && |ks| == |partners|
    requires forall n | 0 <= n < |ks| :: ks[n] < |left| && partners[n] == (left[ks[n]], right[0])
    ensures Lists(Firsts(ks) + Shifted(qs), left, right, partners + out)
  {
  }

  lemma AscendingMore(ks: seq<nat>, qs: seq<(nat, nat)>)
    requires Ascending(qs) && forall m, n | 0 <= m < n < |ks| :: ks[m] < ks[n]
    ensures Ascending(Firsts(ks) + Shifted(qs))
  {
  }

  lemma CompleteMore(left: seq<Row>, right: seq<Row>, ks: seq<nat>, qs: seq<(nat, nat)>)
    requires right != [] && OneType(left, right) && OneType(left, right[1..]) && Complete(qs, left, right[1..])
    requires forall i: nat | i < |left| :: i in ks <==> SameKey(left[i].key, right[0].key)
    ensures Complete(Firsts(ks) + Shifted(qs), left, right)
  {
    hide SameKey, TypeOf;
    forall i: nat, j: nat | i < |left| && j < |right|
      ensures (i, j) in Firsts(ks) + Shifted(qs) <==> SameKey(left[i].key, right[j].key)
    {
      InFirst(ks, Firsts(ks), i, j);
      InRest(qs, Shifted(qs), i, j);
      assert j > 0 ==> right[j] == right[1..][j - 1];
    }
  }

  lemma InFirst(ks: seq<nat>, first: seq<(nat, nat)>, i: nat, j: nat)
    requires |first| == |ks| && forall n | 0 <= n < |ks| :: first[n] == (ks[n], 0)
    ensures (i, j) in first <==> i in ks && j == 0
  {
    if i in ks && j == 0 {
      var n :| 0 <= n < |ks| && ks[n] == i;
      assert first[n] == (i, j);
    }
  }

  lemma InRest(qs: seq<(nat, nat)>, rest: seq<(nat, nat)>, i: nat, j: nat)
    requires |rest| == |qs| && forall n | 0 <= n < |qs| :: rest[n] == (qs[n].0, qs[n].1 + 1)
    ensures (i, j) in rest <==> j > 0 && (i, j - 1) in qs
  {
    if j > 0 && (i, j - 1) in qs {
      var n :| 0 <= n < |qs| && qs[n] == (i, j - 1);
      assert rest[n] == (i, j);
    }
  }

  // ---------- what the hash table delivers ----------

  /** The tuples of one hash value among the first `n` left rows; rows with a NULL key are in none. */
  function Bucket(left: seq<Row>, hash: seq<byte> -> int, h: int, n: nat): (b: seq<nat>)
    requires n <= |left| && forall i | 0 <= i < |left| :: ValueOk(left[i].key)
    ensures forall k | 0 <= k < |b| :: b[k] < n
  {
    if n == 0 then []
    else
      var b := Bucket(left, hash, h, n - 1);
      if !left[n - 1].key.isNull && hash(Serialize(left[n - 1].key)) == h then b + [n - 1] else b
  }

  /** The bucket's tuples that satisfy the predicate with the right row. */
  function Matching(left: seq<Row>, t: Type, bucket: seq<nat>, r: Row): seq<(Row, Row)>
    requires KeysOk(left, t) && TypeOf(r.key) == t && forall k | 0 <= k < |bucket| :: bucket[k] < |left|
  {
    if bucket == [] then []
    else
      (if CompareEquals(left[bucket[0]].key, r.key) then [(left[bucket[0]], r)] else [])
      + Matching(left, t, bucket[1..], r)
  }

  function Probed(left: seq<Row>, t: Type, hash: seq<byte> -> int, r: Row): seq<(Row, Row)>
    requires KeysOk(left, t) && TypeOf(r.key) == t && ValueOk(r.key)
  {
    if r.key.isNull then [] else Matching(left, t, Bucket(left, hash, hash(Serialize(r.key)), |left|), r)
  }

  /** The operator's output. */
  function HashJoined(left: seq<Row>, right: seq<Row>, t: Type, hash: seq<byte> -> int): seq<(Row, Row)>
    requires KeysOk(left, t) && KeysOk(right, t)
    decreases |right|
  {
    if right == [] then [] else Probed(left, t, hash, right[0]) + HashJoined(left, right[1..], t, hash)
  }

  // ---------- the two agree ----------

  /** Two keys that are equal but hash differently. */
  predicate Missed(l: Row, r: Row, t: Type, hash: seq<byte> -> int)
    requires TypeOf(l.key) == t == TypeOf(r.key) && ValueOk(l.key) && ValueOk(r.key)
  {
    !l.key.isNull && !r.key.isNull && CompareEquals(l.key, r.key) && hash(Serialize(l.key)) != hash(Serialize(r.key))
  }

  lemma {:induction false} MatchingSnoc(left: seq<Row>, t: Type, bucket: seq<nat>, k: nat, r: Row)
    requires KeysOk(left, t) && TypeOf(r.key) == t && (forall j | 0 <= j < |bucket| :: bucket[j] < |left|) && k < |left|
    ensures Matching(left, t, bucket + [k], r) ==
            Matching(left, t, bucket, r) + if CompareEquals(left[k].key, r.key) then [(left[k], r)] else []
    decreases |bucket|
  {
    if bucket == [] {
      assert (bucket + [k])[1..] == [];
    } else {
      MatchingSnoc(left, t, bucket[1..], k, r);
      assert (bucket + [k])[1..] == bucket[1..] + [k];
    }
  }

  /** Bucket by bucket, hashing loses exactly the missed pairs, and nothing comes out twice or out of order. */
  lemma {:induction false} ProbeFinds(left: seq<Row>, t: Type, hash: seq<byte> -> int, r: Row, n: nat)
    requires KeysOk(left, t) && TypeOf(r.key) == t && ValueOk(r.key) && !r.key.isNull && n <= |left|
    ensures var m := Matching(left, t, Bucket(left, hash, hash(Serialize(r.key)), n), r);
            var p := Partners(left[..n], t, r);
            && |m| <= |p|
            && (m == p <==> forall i | 0 <= i < n :: !Missed(left[i], r, t, hash))
            && (|m| == |p| ==> m == p)
  {
    hide Serialize, CompareEquals;
    if n > 0 {
      ProbeFinds(left, t, hash, r, n - 1);
      assert left[..n][..n - 1] == left[..n - 1];
      var b := Bucket(left, hash, hash(Serialize(r.key)), n - 1);
      MatchingSnoc(left, t, b, n - 1, r);
    }
  }

  /** The operator's output is the nested-loop join if and only if no two equal keys hash differently. */
  lemma {:induction false} JoinExact(left: seq<Row>, right: seq<Row>, t: Type, hash: seq<byte> -> int)
    requires KeysOk(left, t) && KeysOk(right, t)
    ensures |HashJoined(left, right, t, hash)| <= |NestedLoop(left, right, t)|
    ensures HashJoined(left, right, t, hash) == NestedLoop(left, right, t) <==>
            forall i, j | 0 <= i < |left| && 0 <= j < |right| :: !Missed(left[i], right[j], t, hash)
    decreases |right|
  {
    hide Missed, Bucket, Matching, Partners, Serialize;
    if right != [] {
      var r, rest := right[0], right[1..];
      JoinExact(left, rest, t, hash);
      ProbeExact(left, t, hash, r);
      SplitEqual(Probed(left, t, hash, r), HashJoined(left, rest, t, hash), Partners(left, t, r),
          NestedLoop(left, rest, t));
      forall i, j | 0 <= i < |left| && 0 <= j < |right|
        ensures Missed(left[i], right[j], t, hash)
                <==> if j == 0 then Missed(left[i], r, t, hash) else Missed(left[i], rest[j - 1], t, hash)
      {
      }
      if forall i, j | 0 <= i < |left| && 0 <= j < |right| :: !Missed(left[i], right[j], t, hash) {
        forall i, j | 0 <= i < |left| && 0 <= j < |rest| ensures !Missed(left[i], rest[j], t, hash) {
          assert rest[j] == right[j + 1];
        }
        assert forall i | 0 <= i < |left| :: !Missed(left[i], right[0], t, hash);
      }
    }
  }

  lemma {:induction false} ProbeExact(left: seq<Row>, t: Type, hash: seq<byte> -> int, r: Row)
    requires KeysOk(left, t) && TypeOf(r.key) == t && ValueOk(r.key)
    ensures var m := Probed(left, t, hash, r);
            var p := Partners(left, t, r);
            && |m| <= |p| && (|m| == |p| ==> m == p)
            && (m == p <==> forall i | 0 <= i < |left| :: !Missed(left[i], r, t, hash))
  {
    hide Serialize, CompareEquals, Matching, Bucket;
    if r.key.isNull {
      NoPartners(left, t, r);
    } else {
      ProbeFinds(left, t, hash, r, |left|);
      assert left[..|left|] == left;
    }
  }

  lemma {:induction false} NoPartners(left: seq<Row>, t: Type, r: Row)
    requires KeysOk(left, t) && TypeOf(r.key) == t && r.key.isNull
    ensures Partners(left, t, r) == []
  {
    if left != [] {
      NoPartners(left[..|left| - 1], t, r);
    }
  }

  lemma {:induction false} SplitEqual<T>(a: seq<T>, b: seq<T>, c: seq<T>, d: seq<T>)
    requires |a| <= |c| && |b| <= |d|
    ensures a + b == c + d <==> a == c && b == d
  {
    if a + b == c + d {
      assert |a + b| == |c + d|;
      assert a == (a + b)[..|a|] && c == (c + d)[..|c|] && b == (a + b)[|a|..] && d == (c + d)[|c|..];
    }
  }

  /** Integer and varchar keys never miss, whatever the hash function does. */
  lemma {:induction false} IntegersAndVarcharsJoin(left: seq<Row>, right: seq<Row>, t: Type, hash: seq<byte> -> int)
    requires KeysOk(left, t) && KeysOk(right, t) && (t == Integer || t == Varchar)
    ensures HashJoined(left, right, t, hash) == NestedLoop(left, right, t)
  {
    hide Serialize, CompareEquals;
    forall i, j | 0 <= i < |left| && 0 <= j < |right| ensures !Missed(left[i], right[j], t, hash) {
      EqualIsSameBytes(left[i].key, right[j].key);
    }
    JoinExact(left, right, t, hash);
  }

  /** Float keys miss only where one side has 0 and the other -0. */
  lemma FloatMissesAreZeros(l: Row, r: Row, hash: seq<byte> -> int)
    requires TypeOf(l.key) == Float == TypeOf(r.key) && ValueOk(l.key) && ValueOk(r.key)
    ensures Missed(l, r, Float, hash) ==> {l.key.bits, r.key.bits} == {0, U31}
    ensures {l.key.bits, r.key.bits} == {0, U31} && !l.key.isNull && !r.key.isNull
            && hash(Serialize(l.key)) != hash(Serialize(r.key)) ==>
              Missed(l, r, Float, hash)
  {
    assert l.key.bits == r.key.bits && l.key.isNull == r.key.isNull ==> l.key == r.key;
    if {l.key.bits, r.key.bits} == {0, U31} {
      assert l.key.bits in {0, U31} && r.key.bits in {0, U31};
    }
  }

  // ---------- the operator ----------

  /** `SimpleHashJoinHashTable.GetValue`. */
  function Lookup(jht: map<int, seq<nat>>, h: int): seq<nat> {
    if h in jht then jht[h] else []
  }

  class HashJoinExecutor {
    const left: seq<Row>
    const right: seq<Row>
    const keyType: Type
    const hash: seq<byte> -> int
    /** The temporary tuple pages: left tuples in the order they were stored. */
    var store: seq<Row>
    var jht: map<int, seq<nat>>
    var tmpTuples: seq<nat>
    var index: nat
    var rightTuple: Row
    /** How many tuples the right child has delivered. */
    var rightNext: nat

    /** The table holds every left tuple under its key's hash. */
    ghost predicate Built()
      reads this
    {
      && KeysOk(left, keyType) && KeysOk(right, keyType) && store == left
      && forall h :: Lookup(jht, h) == Bucket(left, hash, h, |left|)
    }

    ghost predicate Valid()
      reads this
    {
      && Built() && index <= |tmpTuples| && rightNext <= |right|
      && (forall k | 0 <= k < |tmpTuples| :: tmpTuples[k] < |left|)
      && TypeOf(rightTuple.key) == keyType
    }

    /** The output still to come. */
    ghost function Pending(): seq<(Row, Row)>
      requires Valid()
      reads this
    {
      Matching(left, keyType, tmpTuples[index..], rightTuple) + HashJoined(left, right[rightNext..], keyType, hash)
    }

    constructor (left: seq<Row>, right: seq<Row>, keyType: Type, hash: seq<byte> -> int, nothing: Row)
      requires KeysOk(left, keyType) && KeysOk(right, keyType) && TypeOf(nothing.key) == keyType
      ensures this.left == left && this.right == right && this.keyType == keyType && this.hash == hash
      ensures store == [] && jht == map[] && tmpTuples == [] && index == 0 && rightNext == 0 && rightTuple == nothing
    {
      this.left, this.right, this.keyType, this.hash := left, right, keyType, hash;
      store, jht, tmpTuples, index, rightNext, rightTuple := [], map[], [], 0, 0, nothing;
    }

    /** `SimpleHashJoinHashTable.Insert`. */
    method InsertTmp(h: int, tmp: nat)
      modifies this`jht
      ensures forall g :: Lookup(jht, g) == if g == h then Lookup(old(jht), g) + [tmp] else Lookup(old(jht), g)
    {
      if h !in jht {
        jht := jht[h := [tmp]];
      } else {
        jht := jht[h := jht[h] + [tmp]];
      }
    }

    /** The loop of `Init`: every left tuple is stored; those with a key that is not NULL go into the table. */
    method BuildTable()
      requires KeysOk(left, keyType) && |store| == 0 && |jht| == 0
      modifies this`store, this`jht
      ensures store == left && forall h :: Lookup(jht, h) == Bucket(left, hash, h, |left|)
    {
      hide Serialize, Bucket, Lookup, ValueOk;
      EmptyBuckets(left, keyType, hash);
      EmptyLookup(jht);
      for i := 0 to |left|
        invariant store == left[..i] && forall h :: Lookup(jht, h) == Bucket(left, hash, h, i)
      {
        BucketNext(left, keyType, hash, i);
        store := store + [left[i]];
        var valueAsKey := left[i].key;
        if !valueAsKey.isNull {
          InsertTmp(hash(Serialize(valueAsKey)), i);
        }
      }
    }

    /** `Init`: the table is built and no output delivered yet. */
    method Init()
      requires KeysOk(left, keyType) && KeysOk(right, keyType) && TypeOf(rightTuple.key) == keyType
      requires |store| == 0 && |jht| == 0 && |tmpTuples| == 0 && index == 0 && rightNext == 0
      modifies this`store, this`jht
      ensures Valid() && Pending() == HashJoined(left, right, keyType, hash)
    {
      hide Serialize, Bucket, Matching, HashJoined, CompareEquals, ValueOk;
      NothingPending(left, right, keyType, hash, rightTuple);
      BuildTable();
      assert tmpTuples[0..] == [];
    }

    /** `IsValidCombination`. */
    predicate IsValidCombination(l: Row, r: Row)
      requires TypeOf(l.key) == TypeOf(r.key)
    {
      CompareEquals(l.key, r.key)
    }

    /** The outer loop of `Next` up to a right tuple that has candidates. */
    method NextCandidates() returns (done: bool)
      requires Valid()
      modifies this`tmpTuples, this`index, this`rightNext, this`rightTuple
      ensures Valid() && Pending() == old(Pending())
      ensures done ==> Pending() == []
      ensures !done ==> index < |tmpTuples|
      ensures |right| - rightNext < old(|right| - rightNext)
              || (rightNext, index, tmpTuples) == old((rightNext, index, tmpTuples)) || done
    {
      hide Serialize, Bucket, Matching, HashJoined, CompareEquals, ValueOk;
      while index == |tmpTuples|
        invariant Valid() && Pending() == old(Pending())
        invariant rightNext >= old(rightNext) && (rightNext == old(rightNext)
                  ==> (index, tmpTuples) == old((index, tmpTuples)))
        decreases |right| - rightNext
      {
        if rightNext == |right| {
          NoMore();
          return true;
        }
        NextRight();
      }
      return false;
    }

    lemma {:induction false} NoMore()
      requires Valid() && index == |tmpTuples| && rightNext == |right|
      ensures Pending() == []
    {
    }

    /** The next right tuple and its bucket. */
    method NextRight()
      requires Valid() && index == |tmpTuples| && rightNext < |right|
      modifies this`tmpTuples, this`index, this`rightNext, this`rightTuple
      ensures Valid() && Pending() == old(Pending()) && rightNext == old(rightNext) + 1
    {
      hide Serialize, Bucket, CompareEquals, Matching, HashJoined;
      ghost var before := right[rightNext..];
      JoinedStep(left, before, keyType, hash, rightTuple);
      assert tmpTuples[index..] == [] && Pending() == HashJoined(left, before, keyType, hash);
      assert TypeOf(right[rightNext].key) == keyType && ValueOk(right[rightNext].key);
      tmpTuples := [];
      index := 0;
      rightTuple := right[rightNext];
      rightNext := rightNext + 1;
      assert before[1..] == right[rightNext..] && tmpTuples[0..] == [];
      if !rightTuple.key.isNull {
        tmpTuples := Lookup(jht, hash(Serialize(rightTuple.key)));
        assert tmpTuples[0..] == tmpTuples;
      }
    }

    /** `Next`: the first pair of the output still to come, or the end. */
    method Next() returns (pair: Option<(Row, Row)>)
      requires Valid()
      modifies this`tmpTuples, this`index, this`rightNext, this`rightTuple
      ensures Valid()
      ensures pair.None? <==> |old(Pending())| == 0
      ensures pair.None? ==> |Pending()| == 0
      ensures pair.Some? ==> pair.value == old(Pending())[0] && Pending() == old(Pending())[1..]
    {
      hide Serialize, Bucket, Matching, HashJoined, CompareEquals, ValueOk;
      while true
        invariant Valid() && Pending() == old(Pending())
        decreases |right| - rightNext, |tmpTuples| - index
      {
        var done := NextCandidates();
        if done {
          return None;
        }
        var found := FindMatch();
        if found {
          var l := store[tmpTuples[index]];
          TakeFirst();
          index := index + 1;
          return Some((l, rightTuple));
        }
      }
    }

    /** The inner loop of `Next`: past the candidates that do not match. */
    method FindMatch() returns (found: bool)
      requires Valid() && index < |tmpTuples|
      modifies this`index
      ensures Valid() && Pending() == old(Pending()) && index >= old(index)
      ensures found <==> index < |tmpTuples|
      ensures found ==> CompareEquals(left[tmpTuples[index]].key, rightTuple.key)
    {
      hide Serialize, Bucket, Matching, HashJoined, CompareEquals, ValueOk;
      while !IsValidCombination(store[tmpTuples[index]], rightTuple)
        invariant Valid() && index < |tmpTuples| && Pending() == old(Pending()) && index >= old(index)
        decreases |tmpTuples| - index
      {
        SkipFirst();
        index := index + 1;
        if index == |tmpTuples| {
          return false;
        }
      }
      return true;
    }

    lemma {:induction false} SkipFirst()
      requires Valid() && index < |tmpTuples| && !CompareEquals(left[tmpTuples[index]].key, rightTuple.key)
      ensures Pending() == Matching(left, keyType, tmpTuples[index + 1..], rightTuple)
              + HashJoined(left, right[rightNext..], keyType, hash)
    {
      hide Serialize, Bucket, HashJoined, CompareEquals, ValueOk;
      assert tmpTuples[index..][1..] == tmpTuples[index + 1..];
    }

    lemma {:induction false} TakeFirst()
      requires Valid() && index < |tmpTuples| && CompareEquals(left[tmpTuples[index]].key, rightTuple.key)
      ensures |Pending()| > 0 && Pending()[0] == (left[tmpTuples[index]], rightTuple)
      ensures Pending()[1..] == Matching(left, keyType, tmpTuples[index + 1..], rightTuple)
              + HashJoined(left, right[rightNext..], keyType, hash)
    {
      hide Serialize, Bucket, HashJoined, CompareEquals, ValueOk;
      assert tmpTuples[index..][1..] == tmpTuples[index + 1..];
    }
  }

  lemma {:induction false} JoinedStep(left: seq<Row>, right: seq<Row>, t: Type, hash: seq<byte> -> int, r: Row)
    requires KeysOk(left, t) && KeysOk(right, t) && right != [] && TypeOf(r.key) == t
    ensures HashJoined(left, right, t, hash) == Probed(left, t, hash, right[0]) + HashJoined(left, right[1..], t, hash)
    ensures Matching(left, t, [], r) == [] && Matching(left, t, [], right[0]) == []
  {
  }

  lemma {:induction false} EmptyLookup(jht: map<int, seq<nat>>)
    requires |jht| == 0
    ensures forall h :: Lookup(jht, h) == []
  {
    assert forall h :: h !in jht;
  }

  lemma {:induction false} EmptyBuckets(left: seq<Row>, t: Type, hash: seq<byte> -> int)
    requires KeysOk(left, t)
    ensures forall h :: Bucket(left, hash, h, 0) == []
  {
  }

  lemma {:induction false} BucketNext(left: seq<Row>, t: Type, hash: seq<byte> -> int, i: nat)
    requires KeysOk(left, t) && i < |left|
    ensures InRange(left[i].key)
    ensures forall h :: Bucket(left, hash, h, i + 1) ==
              if !left[i].key.isNull && hash(Serialize(left[i].key)) == h then Bucket(left, hash, h, i) + [i]
                  else Bucket(left, hash, h, i)
  {
  }

  lemma {:induction false} NothingPending(left: seq<Row>, right: seq<Row>, t: Type, hash: seq<byte> -> int, r: Row)
    requires KeysOk(left, t) && KeysOk(right, t) && TypeOf(r.key) == t
    ensures right[0..] == right && Matching(left, t, [], r) == []
  {
  }

  /** The operator run to its end: for integer and varchar keys, the nested-loop join. */
  method Join(left: seq<Row>, right: seq<Row>, keyType: Type, hash: seq<byte> -> int, nothing: Row)
      returns (rows: seq<(Row, Row)>)
    requires KeysOk(left, keyType) && KeysOk(right, keyType) && TypeOf(nothing.key) == keyType
    ensures rows == HashJoined(left, right, keyType, hash)
    ensures keyType == Integer || keyType == Varchar ==> rows == NestedLoop(left, right, keyType)
  {
    hide HashJoined, NestedLoop, KeysOk, HashJoinExecutor.Pending, HashJoinExecutor.Valid, HashJoinExecutor.Built;
    var e := new HashJoinExecutor(left, right, keyType, hash, nothing);
    e.Init();
    rows := [];
    var pair := e.Next();
    while pair.Some?
      invariant fresh(e) && e.Valid()
      invariant pair.Some? ==> rows + [pair.value] + e.Pending() == HashJoined(left, right, keyType, hash)
      invariant pair.None? ==> rows == HashJoined(left, right, keyType, hash)
      decreases |e.Pending()|, pair.Some?
    {
      rows := rows + [pair.value];
      pair := e.Next();
    }
    if keyType == Integer || keyType == Varchar {
      IntegersAndVarcharsJoin(left, right, keyType, hash);
    }
  }
}
