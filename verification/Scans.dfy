/** What a scan of a table heap finds, as a function of its rows and of the locks others hold. */
module Scans {
  import opened Bytes
  import opened Collections
  import S = Slots
  import opened LogRecords
  import opened Recovery
  import opened Heaps
  import L = Locks

  // ---------- the places a scan looks at ----------

  /** The occupied slots of a page from slot `s` on, lowest first. */
  function PageRids(p: int, d: seq<S.Slot>, s: nat): seq<Rid>
    decreases |d| - s
  {
    if s >= |d| then []
    else if d[s] == S.Empty then PageRids(p, d, s + 1)
    else [Rid(p, s)] + PageRids(p, d, s + 1)
  }

  /** The occupied places from the `i`-th page of the chain on. */
  function RidsFrom(h: Heap, i: nat): seq<Rid>
    requires HeapOk(h)
    decreases |h.chain| - i
  {
    if i >= |h.chain| then [] else PageRids(h.chain[i], h.pages[h.chain[i]].slots, 0) + RidsFrom(h, i + 1)
  }

  /** The occupied places from slot `s` of the `i`-th page on. */
  function RidsBehind(h: Heap, i: nat, s: nat): seq<Rid>
    requires HeapOk(h) && i < |h.chain|
  {
    PageRids(h.chain[i], h.pages[h.chain[i]].slots, s) + RidsFrom(h, i + 1)
  }

  lemma FromHere(h: Heap, i: nat)
    requires HeapOk(h)
    ensures i < |h.chain| ==> RidsFrom(h, i) == RidsBehind(h, i, 0)
    ensures i >= |h.chain| ==> RidsFrom(h, i) == []
  {
  }

  lemma {:induction false} SkipEmpty(p: int, d: seq<S.Slot>, s: nat, k: nat)
    requires s <= k && forall j | s <= j < k && j < |d| :: d[j] == S.Empty
    ensures PageRids(p, d, s) == PageRids(p, d, k)
    decreases k - s
  {
    if s < k {
      SkipEmpty(p, d, s + 1, k);
    }
  }

  /** What `NextTupleSlot` says about the list. */
  lemma NextOnPage(p: int, d: seq<S.Slot>, s: nat, slot: int)
    requires slot == -1 ==> forall j | s <= j < |d| :: d[j] == S.Empty
    requires slot != -1 ==> s <= slot < |d| && d[slot] != S.Empty && forall j | s <= j < slot :: d[j] == S.Empty
    ensures PageRids(p, d, s) == if slot == -1 then [] else [Rid(p, slot)] + PageRids(p, d, slot + 1)
  {
    SkipEmpty(p, d, s, if slot == -1 then if s <= |d| then |d| else s else slot);
  }

  lemma {:induction false} PageRidsAre(p: int, d: seq<S.Slot>, s: nat)
    ensures forall r :: r in PageRids(p, d, s) <==> r.page == p && s <= r.slot < |d| && d[r.slot] != S.Empty
    ensures NoDup(PageRids(p, d, s))
    decreases |d| - s
  {
    if s < |d| {
      PageRidsAre(p, d, s + 1);
    }
  }

  lemma {:induction false} RidsFromAre(h: Heap, i: nat)
    requires HeapOk(h)
    ensures forall r :: r in RidsFrom(h, i) <==>
              (exists j | i <= j < |h.chain| :: r.page == h.chain[j]) && Row(h, r) != S.Empty
    ensures NoDup(RidsFrom(h, i))
    decreases |h.chain| - i
  {
    hide S.Fits, PageRids;
    if i < |h.chain| {
      var p := h.chain[i];
      PageRidsAre(p, h.pages[p].slots, 0);
      RidsFromAre(h, i + 1);
      var here, rest := PageRids(p, h.pages[p].slots, 0), RidsFrom(h, i + 1);
      forall r: Rid ensures r in here + rest <==>
           (exists j | i <= j < |h.chain| :: r.page == h.chain[j]) && Row(h, r) != S.Empty {
        assert r in here + rest <==> r in here || r in rest;
        OnThisOrLater(h, i, r);
      }
      forall r: Rid | r in here ensures r !in rest {
        assert forall j | i + 1 <= j < |h.chain| :: h.chain[j] != p;
      }
      NoDupConcat(here, rest);
    }
  }

  lemma OnThisOrLater(h: Heap, i: nat, r: Rid)
    requires i < |h.chain|
    ensures (exists j | i <= j < |h.chain| :: r.page == h.chain[j]) <==>
            r.page == h.chain[i] || exists j | i + 1 <= j < |h.chain| :: r.page == h.chain[j]
  {
    if j :| i <= j < |h.chain| && r.page == h.chain[j] {
      assert j == i || i + 1 <= j;
    }
  }

  lemma NoDupConcat<T(!new)>(a: seq<T>, b: seq<T>)
    requires NoDup(a) && NoDup(b) && forall x | x in a :: x !in b
    ensures NoDup(a + b)
  {
    forall i, j | 0 <= i < j < |a + b| ensures (a + b)[i] != (a + b)[j] {
      assert i < |a| ==> (a + b)[i] in a;
      assert j >= |a| ==> (a + b)[j] in b;
    }
  }

  /** The scan's order visits every occupied place of the chain exactly once, and nothing else. */
  lemma EveryPlaceOnce(h: Heap)
    requires HeapOk(h)
    ensures NoDup(RidsFrom(h, 0))
    ensures forall r :: r in RidsFrom(h, 0) <==> r.page in h.chain && Row(h, r) != S.Empty
  {
    hide S.Fits, RidsFrom, NoDup;
    RidsFromAre(h, 0);
    forall r: Rid ensures r.page in h.chain <==> exists j | 0 <= j < |h.chain| :: r.page == h.chain[j] {
    }
  }

  /** One place comes before another: on an earlier page of the chain, or on the same page in a lower slot. */
  ghost predicate Earlier(h: Heap, r: Rid, q: Rid) {
    (r.page == q.page && r.slot < q.slot)
    || exists i, j | 0 <= i < j < |h.chain| :: r.page == h.chain[i] && q.page == h.chain[j]
  }

  lemma {:induction false} PageOrder(p: int, d: seq<S.Slot>, s: nat)
    ensures forall k, l | 0 <= k < l < |PageRids(p, d, s)| :: PageRids(p, d, s)[k].slot < PageRids(p, d, s)[l].slot
    ensures forall k | 0 <= k < |PageRids(p, d, s)| :: PageRids(p, d, s)[k].page == p && s <= PageRids(p, d, s)[k].slot
    decreases |d| - s
  {
    if s < |d| {
      PageOrder(p, d, s + 1);
    }
  }

  ghost predicate OnPageFrom(h: Heap, i: nat, r: Rid) {
    exists j | i <= j < |h.chain| :: r.page == h.chain[j]
  }

  /** The scan goes along the chain, and on each page from the lowest slot up. */
  lemma {:induction false} ScanOrder(h: Heap, i: nat)
    requires HeapOk(h)
    ensures forall k, l | 0 <= k < l < |RidsFrom(h, i)| :: Earlier(h, RidsFrom(h, i)[k], RidsFrom(h, i)[l])
    ensures forall k | 0 <= k < |RidsFrom(h, i)| :: OnPageFrom(h, i, RidsFrom(h, i)[k])
    decreases |h.chain| - i
  {
    hide S.Fits, PageRids;
    if i < |h.chain| {
      var p := h.chain[i];
      var here, rest := PageRids(p, h.pages[p].slots, 0), RidsFrom(h, i + 1);
      PageOrder(p, h.pages[p].slots, 0);
      ScanOrder(h, i + 1);
      assert RidsFrom(h, i) == here + rest;
      forall k, l | 0 <= k < l < |here + rest| ensures Earlier(h, (here + rest)[k], (here + rest)[l]) {
        if k < |here| && l >= |here| {
          assert OnPageFrom(h, i + 1, rest[l - |here|]) && here[k].page == h.chain[i];
        }
      }
      forall k | 0 <= k < |here + rest| ensures OnPageFrom(h, i, (here + rest)[k]) {
        if k >= |here| {
          assert OnPageFrom(h, i + 1, rest[k - |here|]);
        }
      }
    }
  }

  // ---------- the rows a scan returns ----------

  /** A shared lock would be granted, or is not needed. */
  predicate CanRead(s: L.Tables, txn: int, rid: Rid) {
    L.IsSharedLocked(s, txn, rid) || L.IsExclusiveLocked(s, txn, rid) || rid !in s.exclusive || s.exclusive[rid] == txn
  }

  /** The lock request at the head of `GetTuple`. */
  function Requested(s: L.Tables, txn: int, rid: Rid): (r: (bool, L.Tables))
    ensures r.0 <==> CanRead(s, txn, rid)
  {
    if L.IsSharedLocked(s, txn, rid) || L.IsExclusiveLocked(s, txn, rid) then (true, s) else L.LockShared(s, txn, rid)
  }

  /** Asking for one row's lock does not change which rows the transaction can read. */
  lemma RequestKeepsReadable(s: L.Tables, txn: int, rid: Rid, other: Rid)
    ensures CanRead(Requested(s, txn, rid).1, txn, other) <==> CanRead(s, txn, other)
  {
  }

  predicate Returned(h: Heap, s: L.Tables, txn: int, rid: Rid) {
    CanRead(s, txn, rid) && Row(h, rid).Live?
  }

  /** The rows of the iterator: `GetTuple` of each place in order, until it gives nothing. */
  function Yields(h: Heap, rids: seq<Rid>, s: L.Tables, txn: int): seq<(Rid, seq<byte>)> {
    if rids == [] || !Returned(h, s, txn, rids[0]) then []
    else [(rids[0], Row(h, rids[0]).bytes)] + Yields(h, rids[1..], s, txn)
  }

  /** The iterator gives the rows of the first places, as far as it can read them, and stops at the first it cannot. */
  lemma {:induction false} YieldsExact(h: Heap, rids: seq<Rid>, s: L.Tables, txn: int)
    ensures var n := |Yields(h, rids, s, txn)|;
            && n <= |rids| && (n < |rids| ==> !Returned(h, s, txn, rids[n]))
            && (forall i | 0 <= i < n :: Returned(h, s, txn, rids[i])
                  && Row(h, rids[i]) == S.Live(Yields(h, rids, s, txn)[i].1) && Yields(h, rids, s, txn)[i].0 == rids[i])
    decreases |rids|
  {
    hide CanRead, Row;
    if rids != [] {
      YieldsExact(h, rids[1..], s, txn);
    }
  }

  lemma NothingToYield(h: Heap, rids: seq<Rid>, s: L.Tables, txn: int)
    ensures |rids| == 0 ==> Yields(h, rids, s, txn) == []
  {
  }

  /** The rows of all places that hold one. */
  function LiveRows(h: Heap, rids: seq<Rid>): (rows: seq<(Rid, seq<byte>)>)
    ensures |rows| <= |rids|
  {
    if rids == [] then []
    else if Row(h, rids[0]).Live? then [(rids[0], Row(h, rids[0]).bytes)] + LiveRows(h, rids[1..])
    else LiveRows(h, rids[1..])
  }

  lemma {:induction false} YieldsSame(h: Heap, rids: seq<Rid>, s: L.Tables, s': L.Tables, txn: int)
    requires forall rid: Rid :: CanRead(s, txn, rid) <==> CanRead(s', txn, rid)
    ensures Yields(h, rids, s, txn) == Yields(h, rids, s', txn)
    decreases |rids|
  {
    if rids != [] {
      YieldsSame(h, rids[1..], s, s', txn);
    }
  }

  lemma YieldsAfterRequest(h: Heap, rids: seq<Rid>, s: L.Tables, txn: int, rid: Rid)
    ensures Yields(h, rids, Requested(s, txn, rid).1, txn) == Yields(h, rids, s, txn)
  {
    forall other: Rid ensures CanRead(Requested(s, txn, rid).1, txn, other) <==> CanRead(s, txn, other) {
      RequestKeepsReadable(s, txn, rid, other);
    }
    YieldsSame(h, rids, Requested(s, txn, rid).1, s, txn);
  }

  lemma {:induction false} NoLiveRows(h: Heap, rids: seq<Rid>)
    ensures LiveRows(h, rids) == [] <==> forall j | 0 <= j < |rids| :: !Row(h, rids[j]).Live?
    decreases |rids|
  {
    if rids != [] {
      NoLiveRows(h, rids[1..]);
      assert rids == [rids[0]] + rids[1..];
    }
  }

  /** A live row lies at or behind a place where the scan stops. */
  predicate CutOff(h: Heap, rids: seq<Rid>, s: L.Tables, txn: int, i: int, j: int) {
    0 <= i <= j < |rids| && !Returned(h, s, txn, rids[i]) && Row(h, rids[j]).Live?
  }

  /**
   The iterator returns every live row if and only if no live row comes at or behind a place where it
   stops: a row marked deleted, or one that somebody else has locked exclusively.
   */
  lemma {:induction false} ScanComplete(h: Heap, rids: seq<Rid>, s: L.Tables, txn: int)
    ensures Yields(h, rids, s, txn) == LiveRows(h, rids) <==> !exists i, j :: CutOff(h, rids, s, txn, i, j)
    decreases |rids|
  {
    hide CanRead, Row;
    if rids == [] {
    } else if Returned(h, s, txn, rids[0]) {
      var rest := rids[1..];
      ScanComplete(h, rest, s, txn);
      assert Yields(h, rids, s, txn)[1..] == Yields(h, rest, s, txn) && LiveRows(h, rids)[1..] == LiveRows(h, rest);
      if i, j :| CutOff(h, rids, s, txn, i, j) {
        assert CutOff(h, rest, s, txn, i - 1, j - 1);
      }
      if i, j :| CutOff(h, rest, s, txn, i, j) {
        assert CutOff(h, rids, s, txn, i + 1, j + 1);
      }
    } else {
      NoLiveRows(h, rids);
      if j :| 0 <= j < |rids| && Row(h, rids[j]).Live? {
        assert CutOff(h, rids, s, txn, 0, j);
      }
    }
  }

  /** A scan that has gone through all the places has returned all live rows. */
  lemma {:induction false} FullScan(h: Heap, rids: seq<Rid>, s: L.Tables, txn: int)
    requires |Yields(h, rids, s, txn)| == |rids|
    ensures Yields(h, rids, s, txn) == LiveRows(h, rids)
    decreases |rids|
  {
    if rids != [] {
      FullScan(h, rids[1..], s, txn);
    }
  }

  lemma {:induction false} LiveRowsAre(h: Heap, rids: seq<Rid>, rid: Rid, b: seq<byte>)
    ensures (rid, b) in LiveRows(h, rids) <==> rid in rids && Row(h, rid) == S.Live(b)
    decreases |rids|
  {
    if rids != [] {
      LiveRowsAre(h, rids[1..], rid, b);
      assert rids == [rids[0]] + rids[1..];
    }
  }

  lemma {:induction false} LiveRowsNoDup(h: Heap, rids: seq<Rid>)
    requires NoDup(rids)
    ensures NoDup(LiveRows(h, rids))
    decreases |rids|
  {
    if rids != [] {
      var rest := rids[1..];
      LiveRowsNoDup(h, rest);
      assert rids[0] !in rest;
      if Row(h, rids[0]).Live? {
        var b := Row(h, rids[0]).bytes;
        LiveRowsAre(h, rest, rids[0], b);
        NoDupConcat([(rids[0], b)], LiveRows(h, rest));
      }
    }
  }

  /** On a heap without marked rows and with every lock granted, the scan returns each live row exactly once. */
  lemma CleanScan(h: Heap, s: L.Tables, txn: int)
    requires HeapOk(h)
    requires forall rid: Rid | rid.page in h.chain :: !Row(h, rid).Marked? && CanRead(s, txn, rid)
    ensures NoDup(Yields(h, RidsFrom(h, 0), s, txn))
    ensures forall rid: Rid, b | true ::
              (rid, b) in Yields(h, RidsFrom(h, 0), s, txn) <==> rid.page in h.chain && Row(h, rid) == S.Live(b)
  {
    hide HeapOk, Row, CanRead, RidsFrom, Yields, LiveRows, NoDup;
    var rids := RidsFrom(h, 0);
    EveryPlaceOnce(h);
    forall i | 0 <= i < |rids| ensures Returned(h, s, txn, rids[i]) {
      assert rids[i] in rids;
    }
    ScanComplete(h, rids, s, txn);
    LiveRowsNoDup(h, rids);
    forall rid: Rid, b | true ensures (rid, b) in LiveRows(h, rids)
        <==> rid.page in h.chain && Row(h, rid) == S.Live(b) {
      LiveRowsAre(h, rids, rid, b);
    }
  }
}
