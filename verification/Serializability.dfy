/** Runs of transactions under the lock manager, and why the order of release serializes them. */
module Serializability {
  import opened LogRecords
  import opened Locks

  datatype Event =
    | AskShared(txn: int, rid: Rid)
    | AskExclusive(txn: int, rid: Rid)
    | AskUpgrade(txn: int, rid: Rid)
    | Read(txn: int, rid: Rid)
    | Write(txn: int, rid: Rid)
    | Finish(txn: int)

  /** Lock tables and the transactions that have not released their locks yet. */
  datatype State = State(tables: Tables, live: set<int>)

  function Start(txns: set<int>): State {
    State(Tables(map[], map[], map[], map[]), txns)
  }

  function Step(s: State, e: Event): State {
    match e
    case AskShared(t, r) => s.(tables := LockShared(s.tables, t, r).1)
    case AskExclusive(t, r) => s.(tables := LockExclusive(s.tables, t, r).1)
    case AskUpgrade(t, r) => if IsSharedLocked(s.tables, t, r) then s.(tables := LockUpgrade(s.tables, t, r).1) else s
    case Read(_, _) => s
    case Write(_, _) => s
    case Finish(t) => State(ReleaseLocks(s.tables, t), s.live - {t})
  }

  function After(txns: set<int>, run: seq<Event>): State {
    if run == [] then Start(txns) else Step(After(txns, run[..|run| - 1]), run[|run| - 1])
  }

  /** Accesses only under a lock of the transaction's own sets, nothing after release. */
  predicate Enabled(s: State, e: Event) {
    && e.txn in s.live
    && (e.AskUpgrade? ==> IsSharedLocked(s.tables, e.txn, e.rid))
    && (e.Read? ==> IsSharedLocked(s.tables, e.txn, e.rid) || IsExclusiveLocked(s.tables, e.txn, e.rid))
    && (e.Write? ==> IsExclusiveLocked(s.tables, e.txn, e.rid))
  }

  /** The upgrade the code does not check for: no other transaction shares the row. */
  predicate SoleUpgrade(s: State, e: Event) {
    e.AskUpgrade? ==> SharersOf(s.tables, e.rid) == [e.txn]
  }

  predicate CodeRun(txns: set<int>, run: seq<Event>) {
    run == [] || (var n := |run| - 1; CodeRun(txns, run[..n]) && Enabled(After(txns, run[..n]), run[n]))
  }

  predicate GoodRun(txns: set<int>, run: seq<Event>) {
    run == [] ||
    (var n := |run| - 1;
     var s := After(txns, run[..n]);
     GoodRun(txns, run[..n]) && Enabled(s, run[n]) && SoleUpgrade(s, run[n]))
  }

  predicate IsAccess(e: Event) {
    e.Read? || e.Write?
  }

  predicate Conflict(a: Event, b: Event) {
    IsAccess(a) && IsAccess(b) && a.txn != b.txn && a.rid == b.rid && (a.Write? || b.Write?)
  }

  // ---------- locks stay until release ----------

  lemma {:induction false} RunKeepsLocks(txns: set<int>, run: seq<Event>)
    requires GoodRun(txns, run)
    ensures LocksOk(After(txns, run).tables, After(txns, run).live)
  {
    if run == [] {
    } else {
      var n := |run| - 1;
      RunKeepsLocks(txns, run[..n]);
      var s := After(txns, run[..n]);
      match run[n]
      case AskShared(t, r) => LockSharedOk(s.tables, s.live, t, r);
      case AskExclusive(t, r) => LockExclusiveOk(s.tables, s.live, t, r);
      case AskUpgrade(t, r) => UpgradeNeedsSoleSharer(s.tables, s.live, t, r);
      case Finish(t) => ReleaseOk(s.tables, s.live, t);
      case _ =>
    }
  }

  lemma {:induction false} GoodPrefix(txns: set<int>, run: seq<Event>, n: nat)
    requires GoodRun(txns, run) && n <= |run|
    ensures GoodRun(txns, run[..n])
    ensures n < |run| ==> Enabled(After(txns, run[..n]), run[n]) && SoleUpgrade(After(txns, run[..n]), run[n])
                          && After(txns, run[..n + 1]) == Step(After(txns, run[..n]), run[n])
  {
    if n < |run| - 1 {
      GoodPrefix(txns, run[..|run| - 1], n);
      assert run[..|run| - 1][..n] == run[..n] && run[..|run| - 1][..n + 1] == run[..n + 1];
    } else if n == |run| - 1 {
      assert run[..n + 1] == run;
    } else {
      assert run[..n] == run;
    }
  }

  predicate HoldsWrite(s: State, t: int, rid: Rid) {
    rid in s.tables.exclusive && s.tables.exclusive[rid] == t
  }

  predicate HoldsAny(s: State, t: int, rid: Rid) {
    HoldsWrite(s, t, rid) || t in SharersOf(s.tables, rid)
  }

  lemma StepKeepsHolds(s: State, e: Event, t: int, rid: Rid)
    requires LocksOk(s.tables, s.live) && Enabled(s, e) && e != Finish(t)
    ensures HoldsWrite(s, t, rid) ==> HoldsWrite(Step(s, e), t, rid)
    ensures HoldsAny(s, t, rid) ==> HoldsAny(Step(s, e), t, rid)
  {
    if e.Finish? {
      ReleaseOk(s.tables, s.live, e.txn);
      assert UnlockedAt(s.tables, Step(s, e).tables, e.txn, true, rid);
    }
  }

  lemma {:induction false} HoldsUntilFinish(txns: set<int>, run: seq<Event>, i: nat, j: nat, t: int, rid: Rid)
    requires GoodRun(txns, run) && i <= j <= |run|
    requires forall f | i <= f < j :: run[f] != Finish(t)
    ensures HoldsWrite(After(txns, run[..i]), t, rid) ==> HoldsWrite(After(txns, run[..j]), t, rid)
    ensures HoldsAny(After(txns, run[..i]), t, rid) ==> HoldsAny(After(txns, run[..j]), t, rid)
    decreases j
  {
    if i < j {
      HoldsUntilFinish(txns, run, i, j - 1, t, rid);
      GoodPrefix(txns, run, j - 1);
      RunKeepsLocks(txns, run[..j - 1]);
      StepKeepsHolds(After(txns, run[..j - 1]), run[j - 1], t, rid);
    }
  }

  /** Between two conflicting accesses the first transaction has released its locks. */
  lemma ConflictNeedsRelease(txns: set<int>, run: seq<Event>, i: nat, j: nat)
    requires GoodRun(txns, run) && i < j < |run| && Conflict(run[i], run[j])
    ensures exists f | i < f < j :: run[f] == Finish(run[i].txn)
  {
    var a, b := run[i], run[j];
    var rid := a.rid;
    GoodPrefix(txns, run, i);
    GoodPrefix(txns, run, j);
    var si, sj := After(txns, run[..i]), After(txns, run[..j]);
    RunKeepsLocks(txns, run[..i]);
    RunKeepsLocks(txns, run[..j]);
    assert AgreeAt(si.tables, a.txn, rid) && AgreeAt(sj.tables, b.txn, rid) && RowOk(sj.tables, sj.live, rid);
    if forall f | i <= f < j :: run[f] != Finish(a.txn) {
      HoldsUntilFinish(txns, run, i, j, a.txn, rid);
      assert false;
    }
  }

  lemma {:induction false} LiveShrinks(txns: set<int>, run: seq<Event>, f: nat, n: nat)
    requires f < n <= |run| && run[f].Finish?
    ensures run[f].txn !in After(txns, run[..n]).live
    decreases n
  {
    assert run[..n][..n - 1] == run[..n - 1];
    if f < n - 1 {
      LiveShrinks(txns, run, f, n - 1);
    }
  }

  // ---------- the serial order ----------

  /** Where a transaction released its locks; the end of the run if it has not. */
  function ReleasePos(run: seq<Event>, t: int): (p: nat)
    ensures p <= |run|
    ensures p < |run| ==> run[p] == Finish(t)
    ensures forall f | 0 <= f < p :: run[f] != Finish(t)
  {
    if run == [] then 0
    else
      var p := ReleasePos(run[..|run| - 1], t);
      assert forall f | 0 <= f < p :: run[f] == run[..|run| - 1][f];
      if p < |run| - 1 then p else if run[|run| - 1] == Finish(t) then |run| - 1 else |run|
  }

  /** The serial execution: transactions whole, in the order in which they released their locks. */
  predicate SerialBefore(run: seq<Event>, i: nat, j: nat)
    requires i < |run| && j < |run|
  {
    || ReleasePos(run, run[i].txn) < ReleasePos(run, run[j].txn)
    || (run[i].txn == run[j].txn && i < j)
  }

  lemma {:induction false} EventsBeforeRelease(txns: set<int>, run: seq<Event>, j: nat)
    requires GoodRun(txns, run) && j < |run|
    ensures j <= ReleasePos(run, run[j].txn)
  {
    GoodPrefix(txns, run, j);
    var p := ReleasePos(run, run[j].txn);
    if p < j {
      LiveShrinks(txns, run, p, j);
      assert false;
    }
  }

  /** Conflict serializability: the order of lock release agrees with every conflict of the run. */
  lemma ReleaseOrderSerializes(txns: set<int>, run: seq<Event>, i: nat, j: nat)
    requires GoodRun(txns, run) && i < |run| && j < |run| && Conflict(run[i], run[j])
    ensures i < j <==> ReleasePos(run, run[i].txn) < ReleasePos(run, run[j].txn)
  {
    if i < j {
      ConflictNeedsRelease(txns, run, i, j);
      EventsBeforeRelease(txns, run, j);
    } else {
      ConflictNeedsRelease(txns, run, j, i);
      EventsBeforeRelease(txns, run, i);
    }
  }

  /** `w` is the write an access at `j` finds, in the order `before`. */
  ghost predicate Source(run: seq<Event>, before: (nat, nat) -> bool, w: nat, j: nat)
    requires w < |run| && j < |run| && IsAccess(run[j])
  {
    && run[w] == Write(run[w].txn, run[j].rid) && before(w, j)
    && forall w': nat | w' < |run| && run[w'].Write? && run[w'].rid == run[j].rid && before(w, w') :: !before(w', j)
  }

  lemma SameOrder(txns: set<int>, run: seq<Event>, i: nat, j: nat)
    requires GoodRun(txns, run) && i < |run| && j < |run|
    requires IsAccess(run[i]) && IsAccess(run[j]) && run[i].rid == run[j].rid && (run[i].Write? || run[j].Write?)
    ensures i < j <==> SerialBefore(run, i, j)
  {
    if run[i].txn != run[j].txn {
      ReleaseOrderSerializes(txns, run, i, j);
    }
  }

  /** View serializability: every access finds the same write in the run and in the serial execution. */
  lemma ReadsTheSame(txns: set<int>, run: seq<Event>, w: nat, j: nat)
    requires GoodRun(txns, run) && w < |run| && j < |run| && IsAccess(run[j])
    ensures Source(run, (a: nat, b: nat) => a < b, w, j)
       <==> Source(run, (a: nat, b: nat) => a < |run| && b < |run| && SerialBefore(run, a, b), w, j)
  {
    var byTime := (a: nat, b: nat) => a < b;
    var serial := (a: nat, b: nat) => a < |run| && b < |run| && SerialBefore(run, a, b);
    forall a: nat, b: nat | a < |run| && b < |run| && IsAccess(run[a]) && IsAccess(run[b]) && run[a].rid == run[b].rid
        && (run[a].Write? || run[b].Write?)
      ensures byTime(a, b) <==> serial(a, b)
    {
      SameOrder(txns, run, a, b);
    }
  }

  /** Conflicting accesses of the run come in the order that `rank` gives their transactions. */
  ghost predicate RankedBy(run: seq<Event>, rank: int -> int) {
    forall i, j | 0 <= i < j < |run| && Conflict(run[i], run[j]) :: rank(run[i].txn) < rank(run[j].txn)
  }

  /** Two readers, one of whom upgrades and writes between the other's reads. */
  function UpgradeRun(rid: Rid): seq<Event> {
    [AskShared(1, rid), AskShared(2, rid), Read(2, rid), AskUpgrade(1, rid), Write(1, rid), Read(2, rid)]
  }

  lemma OneMore(txns: set<int>, run: seq<Event>, n: nat)
    requires n < |run| && CodeRun(txns, run[..n]) && Enabled(After(txns, run[..n]), run[n])
    ensures CodeRun(txns, run[..n + 1]) && After(txns, run[..n + 1]) == Step(After(txns, run[..n]), run[n])
  {
    hide Step, Enabled;
    assert run[..n + 1][..n] == run[..n];
  }

  lemma UpgradeRunRuns(rid: Rid)
    ensures CodeRun({1, 2}, UpgradeRun(rid))
  {
    hide CodeRun, After;
    var run, txns := UpgradeRun(rid), {1, 2};
    NothingRun(txns);
    assert run[..0] == [] && run[..6] == run;
    OneMore(txns, run, 0);
    var s1 := After(txns, run[..1]);
    assert SharedSet(s1.tables, 1) == [rid] && SharersOf(s1.tables, rid) == [1];
    OneMore(txns, run, 1);
    var s2 := After(txns, run[..2]);
    assert SharedSet(s2.tables, 1) == [rid] && SharedSet(s2.tables, 2) == [rid];
    OneMore(txns, run, 2);
    OneMore(txns, run, 3);
    var s4 := After(txns, run[..4]);
    assert ExclusiveSet(s4.tables, 1) == [rid] && SharedSet(s4.tables, 2) == [rid];
    OneMore(txns, run, 4);
    OneMore(txns, run, 5);
  }

  lemma NothingRun(txns: set<int>)
    ensures CodeRun(txns, []) && After(txns, []) == Start(txns)
  {
  }

  /** The unchecked upgrade admits a run whose conflicts no order of the transactions satisfies. */
  lemma UpgradeBreaksSerializability(rid: Rid, rank: int -> int)
    ensures CodeRun({1, 2}, UpgradeRun(rid)) && !RankedBy(UpgradeRun(rid), rank)
  {
    hide CodeRun;
    UpgradeRunRuns(rid);
    var run := UpgradeRun(rid);
    assert Conflict(run[2], run[4]) && Conflict(run[4], run[5]);
  }
}
