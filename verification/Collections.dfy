/** Options, and sequences, sets and sums of small things. */
module Collections {

  datatype Option<+T> = None | Some(value: T)

  predicate NoDup<T(==)>(s: seq<T>) {
    forall i, j | 0 <= i < j < |s| :: s[i] != s[j]
  }

  ghost function Interval(a: int, b: int): (r: set<int>)
    ensures forall p :: p in r <==> a <= p < b
    ensures |r| == if a <= b then b - a else 0
    decreases b - a
  {
    if a < b then Interval(a, b - 1) + {b - 1} else {}
  }

  lemma Pick<T>(s: set<T>) returns (x: T)
    requires s != {}
    ensures x in s
  {
    x :| x in s;
  }

  /** A subset as large as the set is the set. */
  lemma SameSize<T>(a: set<T>, b: set<T>)
    requires a <= b && |a| >= |b|
    ensures a == b
  {
    if x :| x in b && x !in a {
      SubsetSize(a, b - {x});
    }
  }

  lemma {:induction false} SubsetSize<T>(a: set<T>, b: set<T>)
    requires a <= b
    ensures |a| <= |b|
  {
    if x :| x in a {
      SubsetSize(a - {x}, b - {x});
    }
  }

  ghost function UnionOf<T>(rs: seq<set<T>>): (u: set<T>)
    ensures forall i | 0 <= i < |rs| :: rs[i] <= u
  {
    if rs == [] then {} else
      var u := UnionOf(rs[..|rs| - 1]);
      assert forall i | 0 <= i < |rs| - 1 :: rs[i] == rs[..|rs| - 1][i];
      u + rs[|rs| - 1]
  }

  function Sum(ns: seq<nat>): nat {
    if ns == [] then 0 else Sum(ns[..|ns| - 1]) + ns[|ns| - 1]
  }

  lemma {:induction false} SumAtLeast(ns: seq<nat>, k: nat)
    requires k < |ns|
    ensures Sum(ns) >= ns[k]
  {
    if k < |ns| - 1 {
      SumAtLeast(ns[..|ns| - 1], k);
    }
  }

  lemma {:induction false} SumPut(ns: seq<nat>, k: nat, n: nat)
    requires k < |ns|
    ensures Sum(ns[k := n]) == Sum(ns) - ns[k] + n
  {
    var l := |ns| - 1;
    if k == l {
      assert ns[k := n][..l] == ns[..l];
    } else {
      SumPut(ns[..l], k, n);
      assert ns[k := n][..l] == ns[..l][k := n];
    }
  }

  lemma {:induction false} UnionMember<T>(rs: seq<set<T>>, x: T)
    requires x in UnionOf(rs)
    ensures exists i | 0 <= i < |rs| :: x in rs[i]
  {
    if x !in rs[|rs| - 1] {
      UnionMember(rs[..|rs| - 1], x);
      var i :| 0 <= i < |rs| - 1 && x in rs[..|rs| - 1][i];
      assert x in rs[i];
    }
  }

  lemma {:induction false} UnionSize<T>(rs: seq<set<T>>, ns: seq<nat>)
    requires |rs| == |ns| && forall i | 0 <= i < |rs| :: |rs[i]| == ns[i]
    requires forall i, j | 0 <= i < j < |rs| :: rs[i] !! rs[j]
    ensures |UnionOf(rs)| == Sum(ns)
  {
    if rs != [] {
      var k := |rs| - 1;
      UnionSize(rs[..k], ns[..k]);
      forall x | x in UnionOf(rs[..k]) ensures x !in rs[k] {
        UnionMember(rs[..k], x);
        var i :| 0 <= i < k && x in rs[..k][i];
        assert x in rs[i];
      }
      assert UnionOf(rs[..k]) !! rs[k];
    }
  }

  lemma {:induction false} UnionWithin<T>(rs: seq<set<T>>, all: set<T>)
    requires forall i | 0 <= i < |rs| :: rs[i] <= all
    ensures UnionOf(rs) <= all
  {
    forall x | x in UnionOf(rs) ensures x in all {
      UnionMember(rs, x);
    }
  }
}
