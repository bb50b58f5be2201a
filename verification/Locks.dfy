/** The lock manager and the lock sets of transactions: storage/access/lock_manager.go, transaction.go. */
module Locks {
  import opened Collections
  import opened LogRecords

  /** The tables of the lock manager and every transaction's own lock sets. */
  datatype Tables = Tables(
    shared: map<Rid, seq<int>>,
    exclusive: map<Rid, int>,
    sharedSets: map<int, seq<Rid>>,
    exclusiveSets: map<int, seq<Rid>>)

  function SharersOf(s: Tables, rid: Rid): seq<int> {
    if rid in s.shared then s.shared[rid] else []
  }

  function SharedSet(s: Tables, txn: int): seq<Rid> {
    if txn in s.sharedSets then s.sharedSets[txn] else []
  }

  function ExclusiveSet(s: Tables, txn: int): seq<Rid> {
    if txn in s.exclusiveSets then s.exclusiveSets[txn] else []
  }

  predicate IsSharedLocked(s: Tables, txn: int, rid: Rid) {
    rid in SharedSet(s, txn)
  }

  predicate IsExclusiveLocked(s: Tables, txn: int, rid: Rid) {
    rid in ExclusiveSet(s, txn)
  }

  // ---------- what the tables must agree on ----------

  /** A write lock excludes every other holder, nobody is listed twice, and only live transactions are. */
  ghost predicate RowOk(s: Tables, live: set<int>, rid: Rid) {
    && NoDup(SharersOf(s, rid))
    && (forall t | t in SharersOf(s, rid) :: t in live)
    && (rid in s.exclusive ==> s.exclusive[rid] in live && forall t | t in SharersOf(s, rid) :: t == s.exclusive[rid])
  }

  /** A live transaction's own sets say what the tables say; an upgraded lock lingers in the shared table. */
  ghost predicate AgreeAt(s: Tables, t: int, rid: Rid) {
    && (IsExclusiveLocked(s, t, rid) <==> rid in s.exclusive && s.exclusive[rid] == t)
    && (t in SharersOf(s, rid) ==> IsSharedLocked(s, t, rid) || IsExclusiveLocked(s, t, rid))
    && (IsSharedLocked(s, t, rid) ==> t in SharersOf(s, rid) && !IsExclusiveLocked(s, t, rid))
  }

  /** The lock invariant. Sets of finished transactions are stale and not mentioned. */
  ghost predicate LocksOk(s: Tables, live: set<int>) {
    && (forall rid :: RowOk(s, live, rid))
    && (forall t, rid | t in live :: AgreeAt(s, t, rid))
    && (forall t | t in live :: NoDup(SharedSet(s, t)))
  }

  // ---------- who holds what ----------

  predicate Writes(s: Tables, t: int, rid: Rid) {
    rid in s.exclusive && s.exclusive[rid] == t
  }

  predicate Reads(s: Tables, t: int, rid: Rid) {
    t in SharersOf(s, rid)
  }

  predicate SameHolds(s: Tables, s': Tables, t: int, rid: Rid) {
    && (Writes(s', t, rid) <==> Writes(s, t, rid)) && (Reads(s', t, rid) <==> Reads(s, t, rid))
    && (IsSharedLocked(s', t, rid) <==> IsSharedLocked(s, t, rid))
    && (IsExclusiveLocked(s', t, rid) <==> IsExclusiveLocked(s, t, rid))
  }

  /** Nobody else's locks and no other row's locks change. */
  ghost predicate OnlyThisLock(s: Tables, s': Tables, txn: int, rid: Rid) {
    forall t, r | t != txn || r != rid :: SameHolds(s, s', t, r)
  }

  // ---------- the operations ----------

  function Without<T(==,!new)>(s: seq<T>, x: T): (r: seq<T>)
    ensures forall y | y != x :: y in r <==> y in s
    ensures NoDup(s) ==> NoDup(r) && x !in r
  {
    if s == [] then []
    else if s[0] == x then
      assert s == [s[0]] + s[1..];
      s[1..]
    else
      var r := Without(s[1..], x);
      assert s == [s[0]] + s[1..];
      assert NoDup(s) ==> NoDup(s[1..]) && s[0] !in s[1..];
      [s[0]] + r
  }

  function LockShared(s: Tables, txn: int, rid: Rid): (bool, Tables) {
    if rid in s.exclusive then (s.exclusive[rid] == txn, s)
    else if txn in SharersOf(s, rid) then (true, s)
    else (true, s.(shared := s.shared[rid := SharersOf(s, rid) + [txn]],
                   sharedSets := s.sharedSets[txn := SharedSet(s, txn) + [rid]]))
  }

  function LockExclusive(s: Tables, txn: int, rid: Rid): (bool, Tables) {
    if rid in s.exclusive then (s.exclusive[rid] == txn, s)
    else if SharersOf(s, rid) != [] then (false, s)
    else (true, s.(exclusive := s.exclusive[rid := txn],
                   exclusiveSets := s.exclusiveSets[txn := ExclusiveSet(s, txn) + [rid]]))
  }

  /** Go panics unless the transaction holds the shared lock. */
  function LockUpgrade(s: Tables, txn: int, rid: Rid): (bool, Tables)
    requires IsSharedLocked(s, txn, rid)
  {
    if rid in s.exclusive then (s.exclusive[rid] == txn, s)
    else (true, s.(exclusive := s.exclusive[rid := txn],
                   exclusiveSets := s.exclusiveSets[txn := ExclusiveSet(s, txn) + [rid]],
                   sharedSets := s.sharedSets[txn := Without(SharedSet(s, txn), rid)]))
  }

  /** `Unlock` of one RID of the list. */
  function UnlockOne(s: Tables, txn: int, rid: Rid): Tables {
    var s1 := if rid in s.exclusive && s.exclusive[rid] == txn then s.(exclusive := s.exclusive - {rid}) else s;
    if rid in s1.shared && txn in s1.shared[rid] then s1.(shared := s1.shared[rid := Without(s1.shared[rid], txn)])
        else s1
  }

  function Unlock(s: Tables, txn: int, rids: seq<Rid>): Tables {
    if rids == [] then s else UnlockOne(Unlock(s, txn, rids[..|rids| - 1]), txn, rids[|rids| - 1])
  }

  /** `releaseLocks`: the transaction's own sets are left as they are. */
  function ReleaseLocks(s: Tables, txn: int): Tables {
    Unlock(s, txn, ExclusiveSet(s, txn) + SharedSet(s, txn))
  }

  lemma NoDupAppend<T(!new)>(s: seq<T>, x: T)
    requires NoDup(s) && x !in s
    ensures NoDup(s + [x])
  {
  }

  lemma InAppend<T(!new)>(s: seq<T>, x: T)
    ensures forall y :: y in s + [x] <==> y in s || y == x
  {
  }

  lemma SharedOnlyThis(s: Tables, txn: int, rid: Rid)
    ensures OnlyThisLock(s, LockShared(s, txn, rid).1, txn, rid)
  {
    InAppend(SharersOf(s, rid), txn);
    InAppend(SharedSet(s, txn), rid);
  }

  lemma ExclusiveOnlyThis(s: Tables, txn: int, rid: Rid)
    ensures OnlyThisLock(s, LockExclusive(s, txn, rid).1, txn, rid)
  {
    InAppend(ExclusiveSet(s, txn), rid);
  }

  lemma UpgradeOnlyThis(s: Tables, txn: int, rid: Rid)
    requires IsSharedLocked(s, txn, rid)
    ensures OnlyThisLock(s, LockUpgrade(s, txn, rid).1, txn, rid)
    ensures !LockUpgrade(s, txn, rid).0 ==> LockUpgrade(s, txn, rid).1 == s
  {
    hide NoDup;
    InAppend(ExclusiveSet(s, txn), rid);
  }

  /** A shared lock is refused only under another's write lock; it is held afterwards and nothing else changes. */
  lemma LockSharedOk(s: Tables, live: set<int>, txn: int, rid: Rid)
    requires LocksOk(s, live) && txn in live
    ensures var (granted, s') := LockShared(s, txn, rid);
            && LocksOk(s', live)
            && (granted <==> rid in s.exclusive ==> Writes(s, txn, rid))
            && (granted ==> IsSharedLocked(s', txn, rid) || IsExclusiveLocked(s', txn, rid))
            && (granted ==> Reads(s', txn, rid) || Writes(s', txn, rid))
            && (Writes(s', txn, rid) <==> Writes(s, txn, rid))
            && (!granted ==> s' == s) && OnlyThisLock(s, s', txn, rid)
  {
    hide NoDup, RowOk, AgreeAt, OnlyThisLock;
    SharedOnlyThis(s, txn, rid);
    var s' := LockShared(s, txn, rid).1;
    assert RowOk(s, live, rid) && AgreeAt(s, txn, rid);
    forall r ensures RowOk(s', live, r) {
      assert RowOk(s, live, r);
      SharedRow(s, live, txn, rid, r);
    }
    forall t, r | t in live ensures AgreeAt(s', t, r) {
      assert AgreeAt(s, t, r) && AgreeAt(s, txn, r);
      SharedAgrees(s, live, txn, rid, t, r);
    }
    SharedSets(s, live, txn, rid);
  }

  lemma SharedRow(s: Tables, live: set<int>, txn: int, rid: Rid, r: Rid)
    requires RowOk(s, live, r) && txn in live
    ensures RowOk(LockShared(s, txn, rid).1, live, r)
  {
    hide NoDup;
    if txn !in SharersOf(s, rid) && NoDup(SharersOf(s, rid)) {
      NoDupAppend(SharersOf(s, rid), txn);
    }
    InAppend(SharersOf(s, rid), txn);
  }

  lemma SharedAgrees(s: Tables, live: set<int>, txn: int, rid: Rid, t: int, r: Rid)
    requires AgreeAt(s, t, r)
    ensures AgreeAt(LockShared(s, txn, rid).1, t, r)
  {
    InAppend(SharersOf(s, rid), txn);
    InAppend(SharedSet(s, txn), rid);
  }

  lemma SharedSets(s: Tables, live: set<int>, txn: int, rid: Rid)
    requires AgreeAt(s, txn, rid) && forall t | t in live :: NoDup(SharedSet(s, t))
    ensures var (granted, s') := LockShared(s, txn, rid);
            && (forall t | t in live :: NoDup(SharedSet(s', t)))
            && (granted <==> rid in s.exclusive ==> Writes(s, txn, rid))
            && (granted ==> IsSharedLocked(s', txn, rid) || IsExclusiveLocked(s', txn, rid))
            && (granted ==> Reads(s', txn, rid) || Writes(s', txn, rid))
            && (Writes(s', txn, rid) <==> Writes(s, txn, rid))
  {
    hide NoDup;
    InAppend(SharersOf(s, rid), txn);
    InAppend(SharedSet(s, txn), rid);
    if rid !in SharedSet(s, txn) && NoDup(SharedSet(s, txn)) {
      NoDupAppend(SharedSet(s, txn), rid);
    }
  }

  /**
   An exclusive lock is granted to the transaction that has it and, on a row nobody has written or read, to
   anybody; it is held afterwards and nothing else changes.
   */
  lemma LockExclusiveOk(s: Tables, live: set<int>, txn: int, rid: Rid)
    requires LocksOk(s, live) && txn in live
    ensures var (granted, s') := LockExclusive(s, txn, rid);
            && LocksOk(s', live)
            && (granted <==> Writes(s, txn, rid) || (rid !in s.exclusive && forall t :: !Reads(s, t, rid)))
            && (granted ==> IsExclusiveLocked(s', txn, rid) && Writes(s', txn, rid))
            && (Reads(s', txn, rid) <==> Reads(s, txn, rid))
            && (!granted ==> s' == s) && OnlyThisLock(s, s', txn, rid)
  {
    hide NoDup, OnlyThisLock;
    ExclusiveOnlyThis(s, txn, rid);
    if SharersOf(s, rid) != [] {
      assert Reads(s, SharersOf(s, rid)[0], rid);
    }
    var s' := LockExclusive(s, txn, rid).1;
    assert RowOk(s, live, rid) && AgreeAt(s, txn, rid);
    if s' != s {
      InAppend(ExclusiveSet(s, txn), rid);
      forall r ensures RowOk(s', live, r) {
        assert RowOk(s, live, r);
      }
      forall t, r | t in live ensures AgreeAt(s', t, r) {
        assert AgreeAt(s, t, r);
      }
    }
  }

  lemma Sole<T(!new)>(s: seq<T>, x: T)
    requires NoDup(s) && x in s && forall y | y in s :: y == x
    ensures s == [x]
  {
    var k := |s| - 1;
    assert s[0] in s && s[k] in s;
    assert s[0] == s[k];
  }

  /** `LockUpgrade` is granted to any sharer, and keeps the tables in order exactly when there is only one. */
  lemma UpgradeNeedsSoleSharer(s: Tables, live: set<int>, txn: int, rid: Rid)
    requires LocksOk(s, live) && txn in live && IsSharedLocked(s, txn, rid)
    ensures LockUpgrade(s, txn, rid).0 && Writes(LockUpgrade(s, txn, rid).1, txn, rid)
    ensures OnlyThisLock(s, LockUpgrade(s, txn, rid).1, txn, rid) && Reads(LockUpgrade(s, txn, rid).1, txn, rid)
    ensures LocksOk(LockUpgrade(s, txn, rid).1, live) <==> SharersOf(s, rid) == [txn]
  {
    hide NoDup, OnlyThisLock;
    UpgradeOnlyThis(s, txn, rid);
    var s' := LockUpgrade(s, txn, rid).1;
    assert RowOk(s, live, rid) && AgreeAt(s, txn, rid);
    if SharersOf(s, rid) == [txn] {
      InAppend(ExclusiveSet(s, txn), rid);
      forall r ensures RowOk(s', live, r) {
        assert RowOk(s, live, r);
      }
      forall t, r | t in live ensures AgreeAt(s', t, r) {
        assert AgreeAt(s, t, r);
      }
    } else if LocksOk(s', live) {
      assert RowOk(s', live, rid) && s'.exclusive[rid] == txn && SharersOf(s', rid) == SharersOf(s, rid);
      forall y | y in SharersOf(s, rid) ensures y == txn {
        assert y in SharersOf(s', rid);
      }
      Sole(SharersOf(s, rid), txn);
    }
  }

  /** `r` is `s` with `txn`'s holds on `rids` gone and nothing else changed. */
  ghost predicate UnlockedAt(s: Tables, r: Tables, txn: int, released: bool, rid: Rid) {
    && (rid in r.exclusive <==> rid in s.exclusive && !(released && s.exclusive[rid] == txn))
    && (rid in r.exclusive ==> r.exclusive[rid] == s.exclusive[rid])
    && NoDup(SharersOf(r, rid))
    && (forall t :: t in SharersOf(r, rid) <==> t in SharersOf(s, rid) && !(released && t == txn))
  }

  lemma {:induction false} UnlockKeepsSets(s: Tables, txn: int, rids: seq<Rid>)
    ensures Unlock(s, txn, rids).sharedSets == s.sharedSets && Unlock(s, txn, rids).exclusiveSets == s.exclusiveSets
  {
    if rids != [] {
      UnlockKeepsSets(s, txn, rids[..|rids| - 1]);
    }
  }

  lemma UnlockOneExact(s: Tables, txn: int, r0: Rid, rid: Rid)
    requires NoDup(SharersOf(s, rid))
    ensures UnlockedAt(s, UnlockOne(s, txn, r0), txn, rid == r0, rid)
  {
    hide NoDup;
  }

  lemma {:induction false} UnlockExact(s: Tables, txn: int, rids: seq<Rid>, rid: Rid)
    requires NoDup(SharersOf(s, rid))
    ensures UnlockedAt(s, Unlock(s, txn, rids), txn, rid in rids, rid)
  {
    hide NoDup, UnlockOne;
    if rids != [] {
      var n := |rids| - 1;
      UnlockExact(s, txn, rids[..n], rid);
      UnlockOneExact(Unlock(s, txn, rids[..n]), txn, rids[n], rid);
      assert rids == rids[..n] + [rids[n]];
    }
  }

  /** After `releaseLocks` the transaction holds nothing and nobody else lost anything. */
  lemma ReleaseOk(s: Tables, live: set<int>, txn: int)
    requires LocksOk(s, live) && txn in live
    ensures var r := ReleaseLocks(s, txn);
            && LocksOk(r, live - {txn})
            && (forall rid :: UnlockedAt(s, r, txn, true, rid))
  {
    hide NoDup;
    var rids := ExclusiveSet(s, txn) + SharedSet(s, txn);
    var r := ReleaseLocks(s, txn);
    UnlockKeepsSets(s, txn, rids);
    forall rid ensures UnlockedAt(s, r, txn, true, rid) {
      assert RowOk(s, live, rid) && AgreeAt(s, txn, rid);
      UnlockExact(s, txn, rids, rid);
    }
    forall rid ensures RowOk(r, live - {txn}, rid) {
      assert RowOk(s, live, rid) && UnlockedAt(s, r, txn, true, rid);
    }
    forall t, rid | t in live - {txn} ensures AgreeAt(r, t, rid) {
      assert AgreeAt(s, t, rid) && UnlockedAt(s, r, txn, true, rid);
    }
  }

  lemma NobodyLeft(s: Tables, r: Tables, txn: int, rid: Rid)
    requires UnlockedAt(s, r, txn, true, rid)
    requires forall u | Writes(s, u, rid) || Reads(s, u, rid) :: u == txn
    ensures rid !in r.exclusive && SharersOf(r, rid) == []
  {
    if rid in s.exclusive {
      assert Writes(s, s.exclusive[rid], rid);
    }
    assert forall t | t in SharersOf(r, rid) :: Reads(s, t, rid);
    if SharersOf(r, rid) != [] {
      var t := SharersOf(r, rid)[0];
      assert t in SharersOf(r, rid) && t == txn by { assert Reads(s, t, rid); }
      assert false;
    }
  }

  /** A row locked by one transaction alone is free for any other once that one has released its locks. */
  lemma FreeAfterRelease(s: Tables, live: set<int>, txn: int, t: int, rid: Rid)
    requires LocksOk(s, live) && txn in live
    requires forall u | Writes(s, u, rid) || Reads(s, u, rid) :: u == txn
    ensures LockExclusive(ReleaseLocks(s, txn), t, rid).0 && LockShared(ReleaseLocks(s, txn), t, rid).0
  {
    hide LocksOk, ReleaseLocks;
    ReleaseOk(s, live, txn);
    assert UnlockedAt(s, ReleaseLocks(s, txn), txn, true, rid);
    NobodyLeft(s, ReleaseLocks(s, txn), txn, rid);
  }

  // ---------- writers alone ----------

  /**
   What the tables say about writers: they are live, and a live transaction's own set agrees. Unlike `LocksOk`
   this survives upgrades beside other sharers.
   */
  ghost predicate WritersOk(s: Tables, live: set<int>) {
    && (forall rid | rid in s.exclusive :: s.exclusive[rid] in live)
    && (forall t, rid | t in live :: IsExclusiveLocked(s, t, rid) <==> rid in s.exclusive && s.exclusive[rid] == t)
  }

  lemma ExclusiveWriter(s: Tables, live: set<int>, txn: int, rid: Rid)
    requires WritersOk(s, live) && txn in live
    ensures var (granted, s') := LockExclusive(s, txn, rid);
            && WritersOk(s', live)
            && (granted <==> Writes(s, txn, rid) || (rid !in s.exclusive && forall t :: !Reads(s, t, rid)))
            && (granted ==> Writes(s', txn, rid) && IsExclusiveLocked(s', txn, rid))
  {
    InAppend(ExclusiveSet(s, txn), rid);
    if SharersOf(s, rid) != [] {
      assert Reads(s, SharersOf(s, rid)[0], rid);
    }
  }

  lemma UpgradeWriter(s: Tables, live: set<int>, txn: int, rid: Rid)
    requires WritersOk(s, live) && txn in live && IsSharedLocked(s, txn, rid)
    ensures var (granted, s') := LockUpgrade(s, txn, rid);
            && WritersOk(s', live)
            && (granted <==> rid in s.exclusive ==> Writes(s, txn, rid))
            && (granted ==> Writes(s', txn, rid) && IsExclusiveLocked(s', txn, rid))
  {
    hide NoDup, Without;
    InAppend(ExclusiveSet(s, txn), rid);
  }

  /**
   A new exclusive lock or an upgrade, with any number of sharers: an upgrade is refused only under another's
   write lock, and either way a granted request makes the transaction the row's one writer.
   */
  lemma WriterAdded(s: Tables, live: set<int>, txn: int, rid: Rid)
    requires WritersOk(s, live) && txn in live
    ensures var (granted, s') := LockExclusive(s, txn, rid);
            && WritersOk(s', live) && OnlyThisLock(s, s', txn, rid)
            && (granted <==> Writes(s, txn, rid) || (rid !in s.exclusive && forall t :: !Reads(s, t, rid)))
            && (granted ==> Writes(s', txn, rid) && IsExclusiveLocked(s', txn, rid))
    ensures IsSharedLocked(s, txn, rid) ==>
              var (granted, s') := LockUpgrade(s, txn, rid);
              && WritersOk(s', live) && OnlyThisLock(s, s', txn, rid)
              && (granted <==> rid in s.exclusive ==> Writes(s, txn, rid))
              && (granted ==> Writes(s', txn, rid) && IsExclusiveLocked(s', txn, rid))
  {
    hide WritersOk, OnlyThisLock, LockExclusive, LockUpgrade;
    ExclusiveWriter(s, live, txn, rid);
    ExclusiveOnlyThis(s, txn, rid);
    if IsSharedLocked(s, txn, rid) {
      UpgradeWriter(s, live, txn, rid);
      UpgradeOnlyThis(s, txn, rid);
    }
  }

  lemma {:induction false} UnlockWriters(s: Tables, txn: int, rids: seq<Rid>, rid: Rid)
    ensures var r := Unlock(s, txn, rids);
            && (rid in r.exclusive <==> rid in s.exclusive && !(rid in rids && s.exclusive[rid] == txn))
            && (rid in r.exclusive ==> r.exclusive[rid] == s.exclusive[rid])
  {
    hide Without;
    if rids != [] {
      var n := |rids| - 1;
      UnlockWriters(s, txn, rids[..n], rid);
      assert rids == rids[..n] + [rids[n]];
    }
  }

  lemma ReleaseWriters(s: Tables, live: set<int>, txn: int)
    requires WritersOk(s, live) && txn in live
    ensures WritersOk(ReleaseLocks(s, txn), live - {txn})
  {
    hide Unlock;
    var rids := ExclusiveSet(s, txn) + SharedSet(s, txn);
    UnlockKeepsSets(s, txn, rids);
    forall rid ensures
        var r := Unlock(s, txn, rids);
        && (rid in r.exclusive <==> rid in s.exclusive && s.exclusive[rid] != txn)
        && (rid in r.exclusive ==> r.exclusive[rid] == s.exclusive[rid])
    {
      UnlockWriters(s, txn, rids, rid);
      assert rid in s.exclusive && s.exclusive[rid] == txn ==> IsExclusiveLocked(s, txn, rid);
    }
  }
}
