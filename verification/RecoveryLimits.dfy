/** Runs of the engine after which the recovery code does not restore the committed rows. */
module RecoveryLimits {
  import opened Bytes
  import opened Collections
  import opened Slots
  import opened LogRecords
  import opened Recovery
  import opened CrashSafety
  import opened Engines
  import opened ReusedRows
  import L = Locks

  /** One page, not stamped yet. */
  function OnePage(d: seq<Slot>, lsn: int): Db {
    map[0 := PageState(d, lsn)]
  }

  lemma RunStep(db: Db, actions: seq<Action>, n: nat)
    requires n < |actions| && RunOk(db, actions[..n]) && Enabled(Run(db, actions[..n]), actions[n])
    ensures RunOk(db, actions[..n + 1]) && Run(db, actions[..n + 1]) == Do(Run(db, actions[..n]), actions[n])
  {
    hide Do, Enabled;
    assert actions[..n + 1][..n] == actions[..n];
  }

  /** Nobody holds a shared lock. */
  predicate NoSharers(e: Engine) {
    e.tables.shared == map[] && e.tables.sharedSets == map[]
  }

  lemma BeginStep(e: Engine)
    requires e.lastTxn + 1 !in e.live && NoSharers(e)
    ensures var t, e' := e.lastTxn + 1, Do(e, BeginTxn);
            && e'.log == e.log + [LogRecord(|e.log|, t, -1, Begin)] && e'.live == e.live[t := |e.log|]
            && e' == e.(log := e'.log, live := e'.live, lastTxn := t) && NoSharers(e')
  {
  }

  lemma OpStep(e: Engine, t: int, b: Body)
    requires t in e.live && OnSlot(b) && NoSharers(e)
             && (b.rid in e.tables.exclusive ==> e.tables.exclusive[b.rid] == t)
    requires LegalOn(e.db, LogRecord(|e.log|, t, e.live[t], b))
    ensures Enabled(e, Op(t, b))
    ensures var r, e' := LogRecord(|e.log|, t, e.live[t], b), Do(e, Op(t, b));
            && e'.log == e.log + [r] && e'.live == e.live[t := |e.log|] && e'.db == Perform(e.db, r)
            && e' == e.(log := e'.log, live := e'.live, db := e'.db, tables := e'.tables) && NoSharers(e')
            && (b.rid in e'.tables.exclusive ==> e'.tables.exclusive[b.rid] == t)
            && (forall x | x in e'.tables.exclusive :: x == b.rid || x in e.tables.exclusive)
  {
    hide LegalOn, Perform;
  }

  lemma {:induction false} UnlockShares(s: L.Tables, t: int, rids: seq<Rid>)
    requires s.shared == map[]
    ensures L.Unlock(s, t, rids).shared == map[]
  {
    if rids != [] {
      UnlockShares(s, t, rids[..|rids| - 1]);
    }
  }

  lemma FinishStep(e: Engine, t: int, b: Body)
    requires t in e.live && NoSharers(e) && (b.Commit? || b.Abort?)
    ensures var r, e' := LogRecord(|e.log|, t, e.live[t], b), Finish(e, t, b);
            && e'.log == e.log + [r] && e'.live == e.live - {t} && NoSharers(e')
            && e' == e.(log := e'.log, live := e'.live, tables := e'.tables)
  {
    hide L.Unlock;
    var rids := L.ExclusiveSet(e.tables, t) + L.SharedSet(e.tables, t);
    UnlockShares(e.tables, t, rids);
    L.UnlockKeepsSets(e.tables, t, rids);
    assert e.live[t := |e.log|] - {t} == e.live - {t};
  }

  lemma Started(db: Db)
    ensures Run(db, []) == Start(db) && RunOk(db, []) && NoSharers(Start(db))
    ensures forall e :: Enabled(e, BeginTxn) && Enabled(e, FlushLog)
    ensures forall e :: Do(e, FlushLog) == e.(durable := |e.log|)
    ensures forall e, t :: Do(e, AbortTxn(t)) == Finish(e, t, Abort) && (Enabled(e, AbortTxn(t)) <==> t in e.live)
    ensures forall e, t :: Do(e, CommitTxn(t)) == Finish(e, t, Commit).(durable := |e.log| + 1)
    ensures forall e, t :: Enabled(e, CommitTxn(t)) <==> t in e.live && MarksSettled(e, t)
  {
  }

  /** With the whole log on disk redo brings back the pages as they were in memory. */
  lemma RedoneAfterRun(db: Db, actions: seq<Action>)
    requires FreshPages(db) && RunOk(db, actions) && Run(db, actions).durable == |Run(db, actions).log|
    requires Run(db, actions).disk.Keys == db.Keys
    ensures RedoAll(Run(db, actions).disk, Run(db, actions).log) == Run(db, actions).db
  {
    hide Run, RunOk, FreshPages, LogInv, TxnInv, LockInv, DiskInv, RedoAll;
    RunKeeps(db, actions);
    RedoneWhole(db, Run(db, actions));
  }

  lemma RedoneWhole(db: Db, e: Engine)
    requires LogInv(db, e.db, e.log) && DiskInv(db, e) && e.durable == |e.log| && e.disk.Keys == db.Keys
    ensures RedoAll(e.disk, e.log) == e.db
  {
    hide Hist, RedoAll, DiskImage, Legal, WellChained, EndsFinal, HandOver, Settled;
    assert e.log[..|e.log|] == e.log;
    var upTo :| DiskImage(db, e.log, e.disk, upTo);
    RedoRepeatsHistory(db, e.log, e.disk, upTo);
    SameMaps(RedoAll(e.disk, e.log), e.db);
  }

  lemma SameMaps(a: Db, b: Db)
    requires a.Keys == b.Keys && forall p | p in b :: a[p] == b[p]
    ensures a == b
  {
    assert forall p | p in a :: p in a.Keys && a[p] == b[p];
  }

  /** Without marks there is nothing to settle. */
  lemma NoMarks(e: Engine, t: int)
    requires forall i | 0 <= i < |e.log| :: !e.log[i].body.MarkDelete?
    ensures MarksSettled(e, t)
  {
  }

  lemma ActiveStep(log: seq<LogRecord>, n: nat)
    requires n < |log|
    ensures Active(log[..n + 1])
         == if log[n].body.Commit? then Active(log[..n]) - {log[n].txn} else Active(log[..n])[log[n].txn := log[n].lsn]
    ensures Active(log[..0]) == map[] && log[..|log|] == log
  {
    assert log[..n + 1][..n] == log[..n];
  }

  lemma UndoStep(cur: Db, log: seq<LogRecord>, us: seq<nat>, n: nat, now: Db)
    requires (forall i | 0 <= i < |us| :: us[i] < |log|) && n < |us| && UndoRun(cur, log, us[..n]) == Finished(now)
    ensures UndoRun(cur, log, us[..n + 1])
         == if StepSafe(now, log[us[n]]) then Finished(UndoOne(now, log[us[n]])) else Panicked
  {
    assert us[..n + 1][..n] == us[..n];
  }

  lemma NothingYet(db: Db, log: seq<LogRecord>)
    ensures UndoRun(db, log, []) == Finished(db)
  {
  }

  /** A record that is about no row. */
  lemma OffRow(db: Db, r: LogRecord)
    requires !OnSlot(r.body)
    ensures StepSafe(db, r) && UndoOne(db, r) == db
  {
  }

  lemma ChainStep(log: seq<LogRecord>, lsn: nat)
    requires lsn < |log| && -1 <= log[lsn].prevLsn < lsn
    ensures Chain(log, lsn) == [lsn] + Chain(log, log[lsn].prevLsn)
    ensures Chain(log, -1) == []
  {
  }

  /** The one loser of a log is undone along its chain. */
  lemma OneLoser(log: seq<LogRecord>, t: int, lsn: nat)
    requires lsn < |log| && log[lsn].txn == t && forall i | lsn < i < |log| :: log[i].txn != t
    ensures UndoList(log, [t]) == Chain(log, lsn)
  {
    hide Chain;
    Engines.LastOfIs(log, lsn, t);
    assert UndoList(log, [t]) == UndoList(log, []) + Chain(log, lsn) by { assert [t][..0] == []; }
  }

  // ---------- ... a deletion not committed ----------

  /** A transaction deletes a row behind a free slot, and the system goes down before its COMMIT. */
  function DeleteRun(a: seq<byte>): seq<Action> {
    [BeginTxn, Op(1, Body.MarkDelete(Rid(0, 1), [])), Op(1, Body.ApplyDelete(Rid(0, 1), a)), FlushLog]
  }

  function DeleteLog(a: seq<byte>): seq<LogRecord> {
    [ LogRecord(0, 1, -1, Begin),
      LogRecord(1, 1, 0, Body.MarkDelete(Rid(0, 1), [])),
      LogRecord(2, 1, 1, Body.ApplyDelete(Rid(0, 1), a)) ]
  }

  lemma DeleteSteps(a: seq<byte>)
    requires a != []
    ensures var l := DeleteLog(a);
            var d0, d1, d2 := OnePage([Empty, Live(a)], 0), OnePage([Empty, Marked(a)], 1), OnePage([Empty, Empty], 2);
            && LegalOn(d0, l[1]) && Perform(d0, l[1]) == d1
            && LegalOn(d1, l[2]) && Perform(d1, l[2]) == d2
  {
    assert [Empty, Live(a)][1 := Marked(a)] == [Empty, Marked(a)];
    assert [Empty, Marked(a)][1 := Empty] == [Empty, Empty];
  }

  lemma DeleteRunRuns(a: seq<byte>)
    requires a != []
    ensures var db, e := OnePage([Empty, Live(a)], 0), Run(OnePage([Empty, Live(a)], 0), DeleteRun(a));
            && RunOk(db, DeleteRun(a))
            && e.log == DurableLog(e) == DeleteLog(a) && e.durable == 3 && e.disk == db
               && e.db == OnePage([Empty, Empty], 2)
  {
    hide LegalOn, Perform, Run, RunOk, Do, Enabled, OnePage;
    var db, actions := OnePage([Empty, Live(a)], 0), DeleteRun(a);
    DeleteSteps(a);
    Started(db);
    assert actions[..0] == [] && actions[..4] == actions;
    var e0 := Start(db);
    BeginStep(e0);
    RunStep(db, actions, 0);
    var e1 := Do(e0, actions[0]);
    OpStep(e1, 1, actions[1].body);
    RunStep(db, actions, 1);
    var e2 := Do(e1, actions[1]);
    OpStep(e2, 1, actions[2].body);
    RunStep(db, actions, 2);
    RunStep(db, actions, 3);
  }

  lemma DeleteWalk(a: seq<byte>)
    ensures Active(DeleteLog(a)) == map[1 := 2] && UndoList(DeleteLog(a), [1]) == [2, 1, 0]
  {
    hide Active, UndoList, Chain;
    var log := DeleteLog(a);
    ActiveStep(log, 0);
    ActiveStep(log, 1);
    ActiveStep(log, 2);
    OneLoser(log, 1, 2);
    ChainStep(log, 0);
    ChainStep(log, 1);
    ChainStep(log, 2);
  }

  /** The row goes into slot 0. */
  lemma DeleteUndoSteps(a: seq<byte>)
    requires 0 < |a| <= 4048
    ensures var l, d, moved := DeleteLog(a), OnePage([Empty, Empty], 2), OnePage([Live(a), Empty], 2);
            UndoOne(d, l[2]) == moved == UndoOne(moved, l[1]) && StepSafe(d, l[2]) && StepSafe(moved, l[1])
  {
    var d: seq<Slot> := [Empty, Empty];
    FirstFreeIs(d, 0);
    UsedTwo(Empty, Empty);
    assert d[0 := Live(a)] == [Live(a), Empty];
  }

  lemma DeleteUndone(a: seq<byte>)
    requires 0 < |a| <= 4048
    ensures UndoRun(OnePage([Empty, Empty], 2), DeleteLog(a), [2, 1, 0]) == Finished(OnePage([Live(a), Empty], 2))
  {
    hide UndoRun, UndoOne, StepSafe, OnePage;
    var log, cur, moved := DeleteLog(a), OnePage([Empty, Empty], 2), OnePage([Live(a), Empty], 2);
    DeleteUndoSteps(a);
    OffRow(moved, log[0]);
    var us: seq<nat> := [2, 1, 0];
    assert us[..0] == [] && us[..3] == us;
    NothingYet(cur, log);
    UndoStep(cur, log, us, 0, cur);
    UndoStep(cur, log, us, 1, moved);
    UndoStep(cur, log, us, 2, moved);
  }

  /** The run is one of the engine, and after recovery the row sits at another RID. */
  lemma DeletedRowMoves(a: seq<byte>)
    requires 0 < |a| <= 4048
    ensures var db := OnePage([Empty, Live(a)], 0);
            var e, log := Run(db, DeleteRun(a)), DurableLog(Run(db, DeleteRun(a)));
            var after := Recovered(e.disk, log, [1]);
            && FreshPages(db) && RunOk(db, DeleteRun(a)) && Active(log).Keys == {1} && after.Finished?
            && SlotOf(after.db, Rid(0, 1)) == Empty && SlotOf(after.db, Rid(0, 0)) == Live(a)
            && Replay(Live(a), log, Rid(0, 1), LoserRecords(log)) == Live(a)
            && Replay(Empty, log, Rid(0, 0), LoserRecords(log)) == Empty
  {
    hide UndoRun, RedoAll, UndoList, Active, Replay, Run, RunOk;
    var log := DeleteLog(a);
    DeleteRunRuns(a);
    UsedTwo(Empty, Live(a));
    RedoneAfterRun(OnePage([Empty, Live(a)], 0), DeleteRun(a));
    DeleteWalk(a);
    DeleteUndone(a);
    assert forall i | 0 <= i < |log| :: i in LoserRecords(log);
    LastWriteWins(Live(a), log, Rid(0, 1), LoserRecords(log), -1);
    LastWriteWins(Empty, log, Rid(0, 0), LoserRecords(log), -1);
  }

  // ---------- ... an undone UPDATE without room ----------

  /** One transaction shortens a row, another fills the page and commits; then the system goes down. */
  function RoomRun(a: seq<byte>, b: seq<byte>, c: seq<byte>): seq<Action> {
    [BeginTxn, Op(1, Body.Update(Rid(0, 0), a, b)), BeginTxn, Op(2, Body.Insert(Rid(0, 1), c)), CommitTxn(2)]
  }

  function RoomLog(a: seq<byte>, b: seq<byte>, c: seq<byte>): seq<LogRecord> {
    [ LogRecord(0, 1, -1, Begin),
      LogRecord(1, 1, 0, Body.Update(Rid(0, 0), a, b)),
      LogRecord(2, 2, -1, Begin),
      LogRecord(3, 2, 2, Body.Insert(Rid(0, 1), c)),
      LogRecord(4, 2, 3, Commit) ]
  }

  lemma RoomSteps(a: seq<byte>, b: seq<byte>, c: seq<byte>)
    requires Crowded(a, b, c)
    ensures var l := RoomLog(a, b, c);
            var d0, d1, d2 := OnePage([Live(a)], 0), OnePage([Live(b)], 1), OnePage([Live(b), Live(c)], 3);
            && LegalOn(d0, l[1]) && Perform(d0, l[1]) == d1
            && LegalOn(d1, l[3]) && Perform(d1, l[3]) == d2
            && UndoOne(d2, l[1]) == d2 && StepSafe(d2, l[1])
  {
    UsedOne(Live(a));
    UsedOne(Live(b));
    UsedTwo(Live(b), Live(c));
    assert [Live(a)][0 := Live(b)] == [Live(b)];
    FirstFreeIs([Live(b)], 1);
    assert Put([Live(b)], 1, Live(c)) == [Live(b), Live(c)];
  }

  lemma RoomRunRuns(a: seq<byte>, b: seq<byte>, c: seq<byte>)
    requires Crowded(a, b, c)
    ensures var db, e := OnePage([Live(a)], 0), Run(OnePage([Live(a)], 0), RoomRun(a, b, c));
            && RunOk(db, RoomRun(a, b, c))
            && e.log == DurableLog(e) == RoomLog(a, b, c) && e.durable == 5 && e.disk == db
            && e.db == OnePage([Live(b), Live(c)], 3)
  {
    hide LegalOn, Perform, Run, RunOk, Do, Enabled, OnePage, Finish, MarksSettled;
    var db, actions := OnePage([Live(a)], 0), RoomRun(a, b, c);
    RoomSteps(a, b, c);
    Started(db);
    assert actions[..0] == [] && actions[..5] == actions;
    var e0 := Start(db);
    BeginStep(e0);
    RunStep(db, actions, 0);
    var e1 := Do(e0, actions[0]);
    OpStep(e1, 1, actions[1].body);
    RunStep(db, actions, 1);
    var e2 := Do(e1, actions[1]);
    BeginStep(e2);
    RunStep(db, actions, 2);
    var e3 := Do(e2, actions[2]);
    OpStep(e3, 2, actions[3].body);
    RunStep(db, actions, 3);
    NoMarks(Do(e3, actions[3]), 2);
    FinishStep(Do(e3, actions[3]), 2, Commit);
    RunStep(db, actions, 4);
  }

  lemma RoomWalk(a: seq<byte>, b: seq<byte>, c: seq<byte>)
    ensures Active(RoomLog(a, b, c)) == map[1 := 1] && UndoList(RoomLog(a, b, c), [1]) == [1, 0]
  {
    hide Active, UndoList, Chain;
    var log := RoomLog(a, b, c);
    ActiveStep(log, 0);
    ActiveStep(log, 1);
    ActiveStep(log, 2);
    ActiveStep(log, 3);
    ActiveStep(log, 4);
    OneLoser(log, 1, 1);
    ChainStep(log, 0);
    ChainStep(log, 1);
  }

  lemma RoomUndone(a: seq<byte>, b: seq<byte>, c: seq<byte>)
    requires Crowded(a, b, c)
    ensures var cur := OnePage([Live(b), Live(c)], 3); UndoRun(cur, RoomLog(a, b, c), [1, 0]) == Finished(cur)
  {
    hide UndoRun, UndoOne, StepSafe, OnePage;
    var log, cur := RoomLog(a, b, c), OnePage([Live(b), Live(c)], 3);
    RoomSteps(a, b, c);
    OffRow(cur, log[0]);
    var us: seq<nat> := [1, 0];
    assert us[..0] == [] && us[..2] == us;
    NothingYet(cur, log);
    UndoStep(cur, log, us, 0, cur);
    UndoStep(cur, log, us, 1, cur);
  }

  /** The run is one of the engine, and after recovery the loser's short row is still there. */
  lemma ShortenedRowStays(a: seq<byte>, b: seq<byte>, c: seq<byte>)
    requires Crowded(a, b, c)
    ensures var db, rid := OnePage([Live(a)], 0), Rid(0, 0);
            var e, log := Run(db, RoomRun(a, b, c)), DurableLog(Run(db, RoomRun(a, b, c)));
            var after := Recovered(e.disk, log, [1]);
            && FreshPages(db) && RunOk(db, RoomRun(a, b, c)) && Active(log).Keys == {1} && after.Finished?
            && SlotOf(after.db, rid) == Live(b) && a != b
            && Replay(Live(a), log, rid, LoserRecords(log)) == Live(a)
  {
    hide UndoRun, RedoAll, UndoList, Active, Replay, Run, RunOk;
    var log := RoomLog(a, b, c);
    RoomRunRuns(a, b, c);
    UsedOne(Live(a));
    RedoneAfterRun(OnePage([Live(a)], 0), RoomRun(a, b, c));
    RoomWalk(a, b, c);
    RoomUndone(a, b, c);
    assert log[1].txn == 1;
    assert 1 in LoserRecords(log);
    LastWriteWins(Live(a), log, Rid(0, 0), LoserRecords(log), -1);
  }

  // ---------- ... a slot reused after an abort ----------

  /** A transaction inserts a row and aborts; another reuses the slot and commits. */
  function AbortRun(a: seq<byte>, b: seq<byte>): seq<Action> {
    var rid := Rid(0, 0);
    [ BeginTxn, Op(1, Body.Insert(rid, a)), Op(1, Body.ApplyDelete(rid, a)), AbortTxn(1),
      BeginTxn, Op(2, Body.Insert(rid, b)), CommitTxn(2) ]
  }

  function AbortLog(a: seq<byte>, b: seq<byte>): seq<LogRecord> {
    var rid := Rid(0, 0);
    [ LogRecord(0, 1, -1, Begin),
      LogRecord(1, 1, 0, Body.Insert(rid, a)),
      LogRecord(2, 1, 1, Body.ApplyDelete(rid, a)),
      LogRecord(3, 1, 2, Abort),
      LogRecord(4, 2, -1, Begin),
      LogRecord(5, 2, 4, Body.Insert(rid, b)),
      LogRecord(6, 2, 5, Commit) ]
  }

  lemma InsertedAndDropped(a: seq<byte>, b: seq<byte>)
    requires 0 < |a| <= 4064
    ensures var l := AbortLog(a, b);
            var d0, d1, d2 := OnePage([], 0), OnePage([Live(a)], 1), OnePage([Empty], 2);
            && LegalOn(d0, l[1]) && Perform(d0, l[1]) == d1
            && LegalOn(d1, l[2]) && Perform(d1, l[2]) == d2
  {
    assert Lens([]) == [];
    FirstFreeIs([], 0);
    assert Put([], 0, Live(a)) == [Live(a)];
    assert [Live(a)][0 := Empty] == [Empty];
  }

  lemma SlotTakenAgain(a: seq<byte>, b: seq<byte>)
    requires 0 < |b| <= 4056
    ensures var l := AbortLog(a, b);
            var d2, d3 := OnePage([Empty], 2), OnePage([Live(b)], 5);
            LegalOn(d2, l[5]) && Perform(d2, l[5]) == d3
  {
    UsedOne(Empty);
    FirstFreeIs([Empty], 0);
    assert Put([Empty], 0, Live(b)) == [Live(b)];
  }

  lemma AbortUndoSteps(a: seq<byte>, b: seq<byte>)
    requires 0 < |a| && 0 < |b| && |a| + |b| <= 4056
    ensures var l := AbortLog(a, b);
            && UndoOne(OnePage([Live(b)], 5), l[2]) == OnePage([Live(b), Live(a)], 5)
            && UndoOne(OnePage([Live(b), Live(a)], 5), l[1]) == OnePage([Empty, Live(a)], 5)
            && StepSafe(OnePage([Live(b)], 5), l[2]) && StepSafe(OnePage([Live(b), Live(a)], 5), l[1])
  {
    UsedOne(Live(b));
    FirstFreeIs([Live(b)], 1);
    assert Put([Live(b)], 1, Live(a)) == [Live(b), Live(a)];
    assert [Live(b), Live(a)][0 := Empty] == [Empty, Live(a)];
  }

  /** Once all others have finished, a transaction finds no foreign lock. */
  lemma NobodyElse(db: Db, actions: seq<Action>, t: int, rid: Rid)
    requires FreshPages(db) && RunOk(db, actions) && Run(db, actions).live.Keys == {t}
    ensures rid in Run(db, actions).tables.exclusive ==> Run(db, actions).tables.exclusive[rid] == t
  {
    hide Run, RunOk, LogInv, TxnInv, DiskInv;
    RunKeeps(db, actions);
  }

  lemma AbortRunStarts(a: seq<byte>, b: seq<byte>)
    requires 0 < |a| <= 4064
    ensures var db, e := OnePage([], 0), Run(OnePage([], 0), AbortRun(a, b)[..4]);
            && RunOk(db, AbortRun(a, b)[..4])
            && e.log == AbortLog(a, b)[..4] && e.disk == db && e.db == OnePage([Empty], 2)
            && e.live == map[] && e.lastTxn == 1 && NoSharers(e)
  {
    hide LegalOn, Perform, Run, RunOk, Do, Enabled, Finish, OnePage;
    var db, actions := OnePage([], 0), AbortRun(a, b);
    InsertedAndDropped(a, b);
    Started(db);
    assert actions[..0] == [];
    var e0 := Start(db);
    BeginStep(e0);
    RunStep(db, actions, 0);
    var e1 := Do(e0, actions[0]);
    OpStep(e1, 1, actions[1].body);
    RunStep(db, actions, 1);
    var e2 := Do(e1, actions[1]);
    OpStep(e2, 1, actions[2].body);
    RunStep(db, actions, 2);
    FinishStep(Do(e2, actions[2]), 1, Abort);
    RunStep(db, actions, 3);
  }

  lemma EmptyIsFresh()
    ensures FreshPages(OnePage([], 0))
  {
    assert Lens([]) == [];
  }

  lemma AbortRunRuns(a: seq<byte>, b: seq<byte>)
    requires 0 < |a| && 0 < |b| && |a| + |b| <= 4056
    ensures var db, e := OnePage([], 0), Run(OnePage([], 0), AbortRun(a, b));
            && RunOk(db, AbortRun(a, b))
            && e.log == DurableLog(e) == AbortLog(a, b) && e.durable == 7 && e.disk == db
               && e.db == OnePage([Live(b)], 5)
  {
    hide LegalOn, Perform, Run, RunOk, Do, Enabled, Finish, OnePage, FreshPages, MarksSettled;
    var db, actions := OnePage([], 0), AbortRun(a, b);
    EmptyIsFresh();
    AbortRunStarts(a, b);
    SlotTakenAgain(a, b);
    Started(db);
    assert actions[..7] == actions;
    var e4 := Run(db, actions[..4]);
    BeginStep(e4);
    RunStep(db, actions, 4);
    var e5 := Do(e4, actions[4]);
    assert e5.live.Keys == {2};
    NobodyElse(db, actions[..5], 2, Rid(0, 0));
    OpStep(e5, 2, actions[5].body);
    RunStep(db, actions, 5);
    NoMarks(Do(e5, actions[5]), 2);
    FinishStep(Do(e5, actions[5]), 2, Commit);
    RunStep(db, actions, 6);
  }

  lemma AbortWalk(a: seq<byte>, b: seq<byte>)
    ensures Active(AbortLog(a, b)) == map[1 := 3] && UndoList(AbortLog(a, b), [1]) == [3, 2, 1, 0]
  {
    hide Active, UndoList, Chain;
    var log := AbortLog(a, b);
    ActiveStep(log, 0);
    ActiveStep(log, 1);
    ActiveStep(log, 2);
    ActiveStep(log, 3);
    ActiveStep(log, 4);
    ActiveStep(log, 5);
    ActiveStep(log, 6);
    OneLoser(log, 1, 3);
    ChainStep(log, 0);
    ChainStep(log, 1);
    ChainStep(log, 2);
    ChainStep(log, 3);
  }

  lemma AbortUndone(a: seq<byte>, b: seq<byte>)
    requires 0 < |a| && 0 < |b| && |a| + |b| <= 4056
    ensures UndoRun(OnePage([Live(b)], 5), AbortLog(a, b), [3, 2, 1, 0]) == Finished(OnePage([Empty, Live(a)], 5))
  {
    hide UndoRun, UndoOne, StepSafe, OnePage;
    var log, cur, end := AbortLog(a, b), OnePage([Live(b)], 5), OnePage([Empty, Live(a)], 5);
    AbortUndoSteps(a, b);
    OffRow(cur, log[3]);
    OffRow(end, log[0]);
    var us: seq<nat> := [3, 2, 1, 0];
    assert us[..0] == [] && us[..4] == us;
    NothingYet(cur, log);
    UndoStep(cur, log, us, 0, cur);
    UndoStep(cur, log, us, 1, cur);
    UndoStep(cur, log, us, 2, OnePage([Live(b), Live(a)], 5));
    UndoStep(cur, log, us, 3, end);
  }

  /**
   The run is one of the engine: recovery undoes the aborted transaction a second time, wipes out the committed
   row that has taken the slot since, and leaves the aborted row in the next slot.
   */
  lemma AbortedTransactionUndoneTwice(a: seq<byte>, b: seq<byte>)
    requires 0 < |a| && 0 < |b| && |a| + |b| <= 4056
    ensures var db, rid := OnePage([], 0), Rid(0, 0);
            var e, log := Run(db, AbortRun(a, b)), DurableLog(Run(db, AbortRun(a, b)));
            var after := Recovered(e.disk, log, [1]);
            && FreshPages(db) && RunOk(db, AbortRun(a, b)) && Active(log).Keys == {1} && after.Finished?
            && SlotOf(after.db, rid) == Empty
            && Replay(Empty, log, rid, LoserRecords(log)) == Live(b)
            && SlotOf(after.db, Rid(0, 1)) == Live(a)
            && LastAt(RedoAll(e.disk, log), log, UndoList(log, [1]), rid, 2) && LastCommitted(log, rid, 5)
  {
    hide UndoAll, UndoRun, RedoAll, UndoList, Active, Replay, Run, RunOk;
    var log := AbortLog(a, b);
    EmptyIsFresh();
    AbortRunRuns(a, b);
    RedoneAfterRun(OnePage([], 0), AbortRun(a, b));
    AbortWalk(a, b);
    AbortUndone(a, b);
    assert 5 !in LoserRecords(log) && 6 !in LoserRecords(log);
    LastWriteWins(Empty, log, Rid(0, 0), LoserRecords(log), 5);
  }

  // ---------- ... a panic ----------

  /** A transaction inserts a row and aborts, and the system goes down. */
  function PanicRun(a: seq<byte>): seq<Action> {
    var rid := Rid(0, 0);
    [BeginTxn, Op(1, Body.Insert(rid, a)), Op(1, Body.ApplyDelete(rid, a)), AbortTxn(1), FlushLog]
  }

  function PanicLog(a: seq<byte>): seq<LogRecord> {
    var rid := Rid(0, 0);
    [ LogRecord(0, 1, -1, Begin),
      LogRecord(1, 1, 0, Body.Insert(rid, a)),
      LogRecord(2, 1, 1, Body.ApplyDelete(rid, a)),
      LogRecord(3, 1, 2, Abort) ]
  }

  lemma PanicRunRuns(a: seq<byte>)
    requires 0 < |a| <= 4064
    ensures var db, e := OnePage([], 0), Run(OnePage([], 0), PanicRun(a));
            && RunOk(db, PanicRun(a))
            && e.log == DurableLog(e) == PanicLog(a) && e.durable == 4 && e.disk == db && e.db == OnePage([Empty], 2)
  {
    hide LegalOn, Perform, Run, RunOk, Do, Enabled, Finish, OnePage;
    var db, actions := OnePage([], 0), PanicRun(a);
    AbortRunStarts(a, [0]);
    Started(db);
    assert AbortRun(a, [0])[..4] == actions[..4] && AbortLog(a, [0])[..4] == PanicLog(a);
    assert actions[..5] == actions;
    RunStep(db, actions, 4);
  }

  lemma PanicWalk(a: seq<byte>)
    ensures Active(PanicLog(a)) == map[1 := 3] && UndoList(PanicLog(a), [1]) == [3, 2, 1, 0]
  {
    hide Active, UndoList, Chain;
    var log := PanicLog(a);
    ActiveStep(log, 0);
    ActiveStep(log, 1);
    ActiveStep(log, 2);
    ActiveStep(log, 3);
    OneLoser(log, 1, 3);
    ChainStep(log, 0);
    ChainStep(log, 1);
    ChainStep(log, 2);
    ChainStep(log, 3);
  }

  /** The row is too long to go back beside the slot that is left of it. */
  lemma PanicSteps(a: seq<byte>)
    requires 4056 < |a| <= 4064
    ensures var l, d := PanicLog(a), OnePage([Empty], 2);
            StepSafe(d, l[2]) && UndoOne(d, l[2]) == d && !StepSafe(d, l[1])
  {
    UsedOne(Empty);
  }

  lemma PanicUndone(a: seq<byte>)
    requires 4056 < |a| <= 4064
    ensures UndoRun(OnePage([Empty], 2), PanicLog(a), [3, 2, 1, 0]) == Panicked
  {
    hide UndoRun, UndoOne, StepSafe, OnePage;
    var log, cur := PanicLog(a), OnePage([Empty], 2);
    PanicSteps(a);
    OffRow(cur, log[3]);
    var us: seq<nat> := [3, 2, 1, 0];
    assert us[..0] == [] && us[..4] == us;
    NothingYet(cur, log);
    UndoStep(cur, log, us, 0, cur);
    UndoStep(cur, log, us, 1, cur);
    UndoStep(cur, log, us, 2, cur);
    PanicStays(cur, log, us, 3);
  }

  lemma PanicStays(cur: Db, log: seq<LogRecord>, us: seq<nat>, n: nat)
    requires (forall i | 0 <= i < |us| :: us[i] < |log|) && n <= |us| && UndoRun(cur, log, us[..n]).Panicked?
    ensures UndoRun(cur, log, us).Panicked?
  {
    hide UndoRun, UndoRunSafe;
    UndoRunExact(cur, log, us[..n]);
    UndoRunExact(cur, log, us);
    UnsafePrefix(cur, log, us, us[..n]);
  }

  /**
   The run is one of the engine, with a single aborted insertion: undo of its APPLYDELETE finds no room for the
   row, and undo of its INSERT then fails the assertion on the empty slot.
   */
  lemma AbortedInsertPanics(a: seq<byte>)
    requires 4056 < |a| <= 4064
    ensures var db := OnePage([], 0);
            var e, log := Run(db, PanicRun(a)), DurableLog(Run(db, PanicRun(a)));
            && FreshPages(db) && RunOk(db, PanicRun(a)) && Active(log).Keys == {1}
            && (forall rid :: NotReused(log, rid))
            && Recovered(e.disk, log, [1]) == Panicked
  {
    hide UndoRun, RedoAll, UndoList, Active, Run, RunOk;
    EmptyIsFresh();
    PanicRunRuns(a);
    RedoneAfterRun(OnePage([], 0), PanicRun(a));
    PanicWalk(a);
    PanicUndone(a);
  }
}
