/** Recovery end to end: active transactions, prev-LSN chains, and the committed state they leave. */
module CrashSafety {
  import opened Bytes
  import opened Collections
  import opened Slots
  import opened LogRecords
  import opened Recovery

  /** The `active_txn` table `Redo` builds: a COMMIT record removes its transaction, ABORT does not. */
  function Active(log: seq<LogRecord>): map<int, int> {
    if log == [] then map[]
    else
      var n := |log| - 1;
      var r := log[n];
      if r.body.Commit? then Active(log[..n]) - {r.txn} else Active(log[..n])[r.txn := r.lsn]
  }

  /** Position of the last record of a transaction; -1 (InvalidLSN) if it has none. */
  function LastOf(log: seq<LogRecord>, txn: int): (n: int)
    ensures -1 <= n < |log|
    ensures n >= 0 ==> log[n].txn == txn
    ensures forall i | n < i < |log| :: log[i].txn != txn
  {
    if log == [] then -1
    else if log[|log| - 1].txn == txn then |log| - 1
    else LastOf(log[..|log| - 1], txn)
  }

  /** Every record points back to its transaction's previous one. */
  predicate WellChained(log: seq<LogRecord>) {
    forall n | 0 <= n < |log| :: log[n].lsn == n && log[n].prevLsn == LastOf(log[..n], log[n].txn)
  }

  /** The LSNs `Undo` visits from `lsn` back along the prev-LSN pointers. */
  function Chain(log: seq<LogRecord>, lsn: int): (us: seq<nat>)
    ensures forall i | 0 <= i < |us| :: us[i] < |log|
    decreases lsn
  {
    if lsn < 0 || lsn >= |log| then []
    else if log[lsn].prevLsn < lsn then [lsn] + Chain(log, log[lsn].prevLsn)
    else [lsn]
  }

  lemma LastOfPrefix(log: seq<LogRecord>, n: nat, txn: int)
    requires n <= |log|
    ensures var l := LastOf(log[..n], txn);
            -1 <= l < n && (l >= 0 ==> log[l].txn == txn) && forall u | l < u < n :: log[u].txn != txn
  {
    assert forall u | 0 <= u < n :: log[u] == log[..n][u];
  }

  /** The walk visits exactly the transaction's records, newest first, each once. */
  lemma {:induction false} ChainExact(log: seq<LogRecord>, txn: int, n: nat)
    requires WellChained(log) && n <= |log|
    ensures var us := Chain(log, LastOf(log[..n], txn));
            && (forall i | 0 <= i < |us| :: us[i] < n && log[us[i]].txn == txn)
            && (forall u | 0 <= u < n && log[u].txn == txn :: u in us)
            && (forall i, j | 0 <= i < j < |us| :: us[i] > us[j])
    decreases n
  {
    hide LastOf;
    LastOfPrefix(log, n, txn);
    var l := LastOf(log[..n], txn);
    if l >= 0 {
      LastOfPrefix(log, l, txn);
      ChainExact(log, txn, l);
      var ws := Chain(log, log[l].prevLsn);
      assert Chain(log, l) == [l] + ws;
    }
  }

  /** Nothing follows a transaction's COMMIT or ABORT record. */
  predicate EndsFinal(log: seq<LogRecord>) {
    forall i, j | 0 <= i < j < |log| && (log[i].body.Commit? || log[i].body.Abort?) :: log[j].txn != log[i].txn
  }

  predicate Aborted(log: seq<LogRecord>, txn: int) {
    exists i | 0 <= i < |log| :: log[i].txn == txn && log[i].body.Abort?
  }

  /** Strict exclusive locks, as they show in the log: a RID changes hands only after a COMMIT or an ABORT. */
  ghost predicate HandOver(log: seq<LogRecord>) {
    forall i, j, rid | 0 <= i < j < |log| && OnRid(log[i].body, rid) && OnRid(log[j].body, rid)
        && log[i].txn != log[j].txn ::
      log[i].txn !in Active(log[..j]) || Aborted(log[..j], log[i].txn)
  }

  /** No other transaction has written at `rid` after one that aborted. */
  ghost predicate NotReused(log: seq<LogRecord>, rid: Rid) {
    forall i, j | 0 <= i < j < |log| && OnRid(log[i].body, rid) && OnRid(log[j].body, rid)
        && log[i].txn != log[j].txn ::
      !Aborted(log, log[i].txn)
  }

  /** Commit applies or takes back every deletion first: a mark is not the last record before a COMMIT. */
  ghost predicate Settled(log: seq<LogRecord>) {
    forall i, c | 0 <= i < c < |log| && log[i].body.MarkDelete? && log[c].body.Commit? && log[c].txn == log[i].txn ::
      exists j | i < j < c :: log[j].txn == log[i].txn && OnRid(log[j].body, log[i].body.rid)
  }

  /** What every log of a run of the engine satisfies (`Engines.RunKeeps`). */
  ghost predicate EngineLog(db: Db, log: seq<LogRecord>) {
    Legal(db, log) && WellChained(log) && EndsFinal(log) && HandOver(log) && Settled(log)
  }

  /** Positions of the records of transactions without a COMMIT. */
  function LoserRecords(log: seq<LogRecord>): set<nat> {
    set i: nat | i < |log| && log[i].txn in Active(log)
  }

  lemma {:induction false} ActiveMeans(log: seq<LogRecord>, txn: int)
    requires EndsFinal(log) && forall i | 0 <= i < |log| :: log[i].lsn == i
    ensures txn in Active(log) <==> exists i | 0 <= i < |log| ::
              log[i].txn == txn && !log[LastOf(log, txn)].body.Commit?
    ensures txn in Active(log) ==> Active(log)[txn] == LastOf(log, txn)
  {
    if log != [] {
      var n := |log| - 1;
      ActiveMeans(log[..n], txn);
      assert forall i | 0 <= i < n :: log[..n][i] == log[i];
      assert log[n].txn != txn ==> LastOf(log, txn) == LastOf(log[..n], txn);
    }
  }

  /** Once inactive with records in the log, a transaction stays so. */
  lemma InactiveStays(log: seq<LogRecord>, i: nat, j: nat)
    requires EndsFinal(log) && (forall k | 0 <= k < |log| :: log[k].lsn == k)
    requires i < j <= |log| && log[i].txn !in Active(log[..j])
    ensures log[i].txn !in Active(log)
  {
    var t := log[i].txn;
    ActiveMeans(log[..j], t);
    ActiveMeans(log, t);
    var c := LastOf(log[..j], t);
    assert log[..j][i] == log[i];
    assert log[..j][c] == log[c];
    assert log[c].body.Commit?;
    assert LastOf(log, t) == c;
  }

  /** `Undo`'s visits when the transactions come up in the given order. */
  function UndoList(log: seq<LogRecord>, order: seq<int>): (us: seq<nat>)
    ensures forall i | 0 <= i < |us| :: us[i] < |log|
  {
    if order == [] then []
    else UndoList(log, order[..|order| - 1]) + Chain(log, LastOf(log, order[|order| - 1]))
  }

  /** Some iteration order of the `active_txn` map. */
  ghost predicate OrderOf(order: seq<int>, txns: set<int>) {
    && (forall t :: t in txns <==> t in order)
    && (forall i, j | 0 <= i < j < |order| :: order[i] != order[j])
  }

  /** Each record of `us` comes after all later records of its own transaction. */
  ghost predicate NewestFirst(log: seq<LogRecord>, us: seq<nat>) {
    && (forall i | 0 <= i < |us| :: us[i] < |log|)
    && forall i, n | 0 <= i < |us| && us[i] < n < |log| && log[n].txn == log[us[i]].txn :: n in us[..i]
  }

  lemma DescendingNewestFirst(log: seq<LogRecord>, us: seq<nat>, txn: int)
    requires forall i | 0 <= i < |us| :: us[i] < |log| && log[us[i]].txn == txn
    requires forall u | 0 <= u < |log| && log[u].txn == txn :: u in us
    requires forall i, j | 0 <= i < j < |us| :: us[i] > us[j]
    ensures NewestFirst(log, us)
  {
    forall i, n | 0 <= i < |us| && us[i] < n < |log| && log[n].txn == log[us[i]].txn
      ensures n in us[..i]
    {
      assert n in us;
      var k :| 0 <= k < |us| && us[k] == n;
      assert us[..i][k] == n;
    }
  }

  lemma ChainNewestFirst(log: seq<LogRecord>, txn: int)
    requires WellChained(log)
    ensures var us := Chain(log, LastOf(log, txn));
            && NewestFirst(log, us)
            && (forall i | 0 <= i < |us| :: log[us[i]].txn == txn)
            && (forall u | 0 <= u < |log| && log[u].txn == txn :: u in us)
            && (forall i, j | 0 <= i < j < |us| :: us[i] != us[j])
  {
    assert log[..|log|] == log;
    ChainExact(log, txn, |log|);
    DescendingNewestFirst(log, Chain(log, LastOf(log, txn)), txn);
  }

  lemma NewestFirstAppend(log: seq<LogRecord>, vs: seq<nat>, ws: seq<nat>)
    requires NewestFirst(log, vs) && NewestFirst(log, ws)
    ensures NewestFirst(log, vs + ws)
  {
    var us := vs + ws;
    forall i, n | 0 <= i < |us| && us[i] < n < |log| && log[n].txn == log[us[i]].txn
      ensures n in us[..i]
    {
      if i < |vs| {
        assert us[..i] == vs[..i];
      } else {
        assert us[..i] == vs + ws[..i - |vs|];
      }
    }
  }

  lemma {:induction false} UndoListExact(log: seq<LogRecord>, order: seq<int>)
    requires WellChained(log) && forall i, j | 0 <= i < j < |order| :: order[i] != order[j]
    ensures var us := UndoList(log, order);
            && NewestFirst(log, us)
            && (forall i | 0 <= i < |us| :: log[us[i]].txn in order)
            && (forall u | 0 <= u < |log| && log[u].txn in order :: u in us)
            && (forall i, j | 0 <= i < j < |us| :: us[i] != us[j])
  {
    hide LastOf, Chain;
    if order != [] {
      var l := |order| - 1;
      var t := order[l];
      UndoListExact(log, order[..l]);
      ChainNewestFirst(log, t);
      NewestFirstAppend(log, UndoList(log, order[..l]), Chain(log, LastOf(log, t)));
      assert order == order[..l] + [t];
    }
  }

  lemma AbortedLater(log: seq<LogRecord>, n: nat, txn: int)
    requires n <= |log| && Aborted(log[..n], txn)
    ensures Aborted(log, txn)
  {
    var i :| 0 <= i < n && log[..n][i].txn == txn && log[..n][i].body.Abort?;
    assert log[i].txn == txn && log[i].body.Abort?;
  }

  /** Losers in any order, all of them or the first few, give a correct undo order for every row not reused. */
  lemma UndoListOrder(db: Db, log: seq<LogRecord>, order: seq<int>, rid: Rid)
    requires EngineLog(db, log) && NotReused(log, rid)
    requires (forall i | 0 <= i < |order| :: order[i] in Active(log))
    requires forall i, j | 0 <= i < j < |order| :: order[i] != order[j]
    ensures UndoOrder(log, UndoList(log, order), rid)
  {
    var us := UndoList(log, order);
    UndoListExact(log, order);
    forall i, n | 0 <= i < |us| && us[i] < n < |log| && OnRid(log[us[i]].body, rid) && OnRid(log[n].body, rid)
      ensures n in us[..i]
    {
      assert log[us[i]].txn in Active(log);
      if log[n].txn != log[us[i]].txn {
        if log[us[i]].txn !in Active(log[..n]) {
          InactiveStays(log, us[i], n);
        } else {
          AbortedLater(log, n, log[us[i]].txn);
        }
        assert false;
      }
    }
  }

  /** All losers, in any order, cover the losers' records. */
  lemma UndoListCovers(log: seq<LogRecord>, order: seq<int>)
    requires WellChained(log) && OrderOf(order, Active(log).Keys)
    ensures Elems(UndoList(log, order)) == LoserRecords(log)
  {
    UndoListExact(log, order);
  }

  /** All losers, in any order, give a correct undo order of the losers' records. */
  lemma UndoListCoversEngine(db: Db, log: seq<LogRecord>, order: seq<int>, rid: Rid)
    requires EngineLog(db, log) && NotReused(log, rid) && OrderOf(order, Active(log).Keys)
    ensures Elems(UndoList(log, order)) == LoserRecords(log) && UndoOrder(log, UndoList(log, order), rid)
  {
    UndoListCovers(log, order);
    UndoListOrder(db, log, order, rid);
  }

  lemma RedoneFits(db: Db, log: seq<LogRecord>, cur: Db)
    requires Legal(db, log) && PagesFit(db, db.Keys) && db.Keys <= cur.Keys
    requires forall p | p in db :: cur[p].slots == Hist(db, log)[p].slots
    ensures PagesFit(cur, db.Keys)
  {
    HistFits(db, log);
  }

  // ---------- committed rows are not marked ----------

  /** A marked row was marked by the last record not left out. */
  lemma {:induction false} MarkLast(init: Slot, log: seq<LogRecord>, rid: Rid, skip: set<nat>) returns (i: nat)
    requires !init.Marked? && Replay(init, log, rid, skip).Marked?
    ensures i < |log| && i !in skip && OnRid(log[i].body, rid) && log[i].body.MarkDelete?
    ensures forall j | i < j < |log| && OnRid(log[j].body, rid) :: j in skip
  {
    var n := |log| - 1;
    if n !in skip && OnRid(log[n].body, rid) {
      i := n;
    } else {
      i := MarkLast(init, log[..n], rid, skip);
    }
  }

  /** The row the committed transactions leave is not marked. */
  lemma CommittedNotMarked(db: Db, log: seq<LogRecord>, rid: Rid)
    requires EngineLog(db, log) && !SlotOf(db, rid).Marked?
    ensures !Replay(SlotOf(db, rid), log, rid, LoserRecords(log)).Marked?
  {
    hide Active, LastOf, Legal, HandOver, SlotOf, Replay;
    if Replay(SlotOf(db, rid), log, rid, LoserRecords(log)).Marked? {
      var i := MarkLast(SlotOf(db, rid), log, rid, LoserRecords(log));
      ActiveMeans(log, log[i].txn);
      LastOfIsLast(log, i);
      assert false;
    }
  }

  lemma LastOfIsLast(log: seq<LogRecord>, i: nat)
    requires i < |log|
    ensures var c := LastOf(log, log[i].txn); i <= c < |log| && log[c].txn == log[i].txn
  {
  }

  // ---------- recovery ----------

  /** Redo of the log on `disk`, then undo of the losers in the given order. */
  function Recovered(disk: Db, log: seq<LogRecord>, order: seq<int>): Outcome {
    UndoRun(RedoAll(disk, log), log, UndoList(log, order))
  }

  /** The row at `rid` is the one that the committed transactions' records alone put there. */
  predicate Restored(db: Db, log: seq<LogRecord>, after: Db, rid: Rid) {
    SlotOf(after, rid) == Replay(SlotOf(db, rid), log, rid, LoserRecords(log))
  }

  lemma NotMarkedIsSame(s: Slot, e: Slot, dropped: bool)
    requires !e.Marked?
    ensures RightRow(s, e, dropped) <==> s == e
  {
  }

  /** Undo of a redone log in any loser order restores a row not reused, exactly when it does not go wrong there. */
  lemma UndoRestoresCommitted(db: Db, log: seq<LogRecord>, cur: Db, order: seq<int>, rid: Rid)
    requires EngineLog(db, log) && NotReused(log, rid) && PagesFit(cur, db.Keys)
    requires db.Keys <= cur.Keys && forall p | p in db :: cur[p].slots == Hist(db, log)[p].slots
    requires OrderOf(order, Active(log).Keys) && rid.page in db && rid.slot >= 0 && !SlotOf(db, rid).Marked?
    ensures var us := UndoList(log, order);
            Restored(db, log, UndoAll(cur, log, us), rid) <==> !Spoiled(SlotOf(db, rid), cur, log, us, rid)
  {
    hide Spoiled, RightRow, Replay, UndoAll, PagesFit, Active, Legal, Hist, UndoList, LoserRecords, Settled, SlotOf;
    var us := UndoList(log, order);
    UndoListCoversEngine(db, log, order, rid);
    UndoExact(db, log, cur, us, rid);
    CommittedNotMarked(db, log, rid);
    NotMarkedIsSame(SlotOf(UndoAll(cur, log, us), rid), Replay(SlotOf(db, rid), log, rid, LoserRecords(log)),
                    Dropped(log, us, rid));
  }

  /**
   Crash recovery, whatever prefix of the log each page had reached on disk and in whatever order the losers are
   undone. It gets through exactly when no assertion of an undo step fails; and then a RID not reused after an
   abort has the row that the committed transactions' records alone put there, if and only if no undo step goes
   wrong at it.
   */
  lemma RecoveryRestoresCommitted(db: Db, log: seq<LogRecord>, disk: Db, upTo: map<int, nat>, order: seq<int>, rid: Rid)
    requires EngineLog(db, log) && NotReused(log, rid) && PagesFit(db, db.Keys)
    requires DiskImage(db, log, disk, upTo) && OrderOf(order, Active(log).Keys)
    requires rid.page in db && rid.slot >= 0 && !SlotOf(db, rid).Marked?
    ensures var cur, us, r := RedoAll(disk, log), UndoList(log, order), Recovered(disk, log, order);
            && (r.Finished? <==> UndoRunSafe(cur, log, us))
            && (r.Finished? ==>
                  (Restored(db, log, r.db, rid) <==> !Spoiled(SlotOf(db, rid), cur, log, us, rid)))
  {
    hide Spoiled, Restored, Hist, UndoRun, UndoRunSafe, PagesFit;
    EngineIsLegal(db, log);
    RedoRepeatsHistory(db, log, disk, upTo);
    RedoneFits(db, log, RedoAll(disk, log));
    UndoRestoresCommitted(db, log, RedoAll(disk, log), order, rid);
    UndoRunExact(RedoAll(disk, log), log, UndoList(log, order));
  }

  /**
   Recovery leaves every page with the LSN of the last record done on it; if the machine fails again before
   anything new is logged, redo finds nothing to do.
   */
  lemma RecoveredPagesStamped(db: Db, log: seq<LogRecord>, disk: Db, upTo: map<int, nat>, order: seq<int>, page: int)
    requires EngineLog(db, log) && DiskImage(db, log, disk, upTo) && OrderOf(order, Active(log).Keys)
    requires page in db && Recovered(disk, log, order).Finished?
    ensures var now := Recovered(disk, log, order).db;
            page in now && now[page].lsn == Hist(db, log)[page].lsn && RedoAll(now, log)[page] == now[page]
  {
    hide Hist, UndoRun, UndoRunSafe, RedoAll, UndoAll, UndoList;
    EngineIsLegal(db, log);
    RedoRepeatsHistory(db, log, disk, upTo);
    UndoRunExact(RedoAll(disk, log), log, UndoList(log, order));
    RedoAfterUndo(db, log, RedoAll(disk, log), UndoList(log, order), page);
  }

  lemma EngineIsLegal(db: Db, log: seq<LogRecord>)
    requires EngineLog(db, log)
    ensures Legal(db, log)
  {
  }

  /** Recovery panics exactly where undo takes back an INSERT whose row is not there. */
  lemma RecoveryPanicsExact(db: Db, log: seq<LogRecord>, disk: Db, upTo: map<int, nat>, order: seq<int>)
    requires EngineLog(db, log) && DiskImage(db, log, disk, upTo)
    ensures Recovered(disk, log, order).Finished? <==> RowsFound(RedoAll(disk, log), log, UndoList(log, order))
  {
    hide Hist, UndoRun, UndoRunSafe, RowsFound, UndoList, RedoAll;
    EngineIsLegal(db, log);
    RedoRepeatsHistory(db, log, disk, upTo);
    OnlyInsertsPanic(db, log, RedoAll(disk, log), UndoList(log, order));
    UndoRunExact(RedoAll(disk, log), log, UndoList(log, order));
  }

  /** The rows losers wrote were not reused after an abort, and undone APPLYDELETEs put their rows back there. */
  ghost predicate RowsComeBack(cur: Db, log: seq<LogRecord>, us: seq<nat>)
    requires forall i | 0 <= i < |us| :: us[i] < |log|
  {
    forall i | 0 <= i < |us| && OnSlot(log[us[i]].body) ::
      NotReused(log, log[us[i]].body.rid) && AllLand(cur, log, us, log[us[i]].body.rid)
  }

  /** Then recovery gets through. */
  lemma RecoveryGetsThrough(db: Db, log: seq<LogRecord>, disk: Db, upTo: map<int, nat>, order: seq<int>)
    requires EngineLog(db, log) && PagesFit(db, db.Keys)
    requires DiskImage(db, log, disk, upTo) && OrderOf(order, Active(log).Keys)
    requires RowsComeBack(RedoAll(disk, log), log, UndoList(log, order))
    ensures Recovered(disk, log, order).Finished?
  {
    hide Hist, UndoRun, UndoRunSafe, PagesFit, NotReused, AllLand, UndoList, UndoOrder, RedoAll;
    EngineIsLegal(db, log);
    RedoRepeatsHistory(db, log, disk, upTo);
    var cur, us := RedoAll(disk, log), UndoList(log, order);
    RedoneFits(db, log, cur);
    UndoRunExact(cur, log, us);
    forall i | 0 <= i < |us| && OnSlot(log[us[i]].body) ensures UndoOrder(log, us, log[us[i]].body.rid) {
      UndoListCoversEngine(db, log, order, log[us[i]].body.rid);
    }
    UndoNeverPanics(db, log, cur, us);
  }

  // ---------- without any condition on room ----------

  /** From step `k` on only marks change the row; step `k` took back its insertion, or there is no step before. */
  lemma {:induction false} NothingDecides(init: Slot, cur: Db, log: seq<LogRecord>, us: seq<nat>, rid: Rid, k: nat)
    requires (forall i | 0 <= i < |us| :: us[i] < |log|) && k <= |us|
    requires k > 0 ==> OnRid(log[us[k - 1]].body, rid) && log[us[k - 1]].body.Insert?
    requires forall i | k <= i < |us| && OnRid(log[us[i]].body, rid) :: !log[us[i]].body.Update?
    requires forall i | 0 <= i < |us| && log[us[i]].body.ApplyDelete? :: log[us[i]].body.rid.page != rid.page
    ensures !Spoiled(init, cur, log, us, rid)
  {
    hide UndoAll;
    if k < |us| {
      NothingDecides(init, cur, log, us[..|us| - 1], rid, k);
    }
  }

  /** A loser deleted nothing for good on the page, and updated the row only if a loser had inserted it. */
  predicate RoomNotNeeded(log: seq<LogRecord>, rid: Rid) {
    forall i | i in LoserRecords(log) ::
      && (log[i].body.ApplyDelete? ==> log[i].body.rid.page != rid.page)
      && (OnRid(log[i].body, rid) && log[i].body.Update? ==>
            exists j | j in LoserRecords(log) && j < i :: OnRid(log[j].body, rid) && log[j].body.Insert?)
  }

  /** In an undo order every update of an inserted row is taken back before its insertion. */
  lemma InsertedLast(init: Slot, cur: Db, log: seq<LogRecord>, us: seq<nat>, rid: Rid)
    requires UndoOrder(log, us, rid)
    requires forall u | u in us && log[u].body.ApplyDelete? :: log[u].body.rid.page != rid.page
    requires forall u | u in us && OnRid(log[u].body, rid) && log[u].body.Update? ::
               exists j | j in us && j < u :: OnRid(log[j].body, rid) && log[j].body.Insert?
    ensures !Spoiled(init, cur, log, us, rid)
  {
    hide Spoiled;
    var k := |us|;
    while k > 0 && !(OnRid(log[us[k - 1]].body, rid) && log[us[k - 1]].body.Insert?)
      invariant 0 <= k <= |us|
      invariant forall i | k <= i < |us| && OnRid(log[us[i]].body, rid) :: !log[us[i]].body.Insert?
    {
      k := k - 1;
    }
    forall i | k <= i < |us| && OnRid(log[us[i]].body, rid) ensures !log[us[i]].body.Update? {
    }
    NothingDecides(init, cur, log, us, rid, k);
  }

  /** Then, if recovery gets through, the committed row is back without any condition on room. */
  lemma RestoredWithoutRoom(db: Db, log: seq<LogRecord>, disk: Db, upTo: map<int, nat>, order: seq<int>, rid: Rid)
    requires EngineLog(db, log) && NotReused(log, rid) && PagesFit(db, db.Keys)
    requires DiskImage(db, log, disk, upTo) && OrderOf(order, Active(log).Keys)
    requires rid.page in db && rid.slot >= 0 && !SlotOf(db, rid).Marked? && RoomNotNeeded(log, rid)
    ensures var r := Recovered(disk, log, order); r.Finished? ==> Restored(db, log, r.db, rid)
  {
    hide Spoiled, EngineLog, DiskImage, Restored, NotReused, UndoOrder, UndoList, LoserRecords, Recovered;
    RecoveryRestoresCommitted(db, log, disk, upTo, order, rid);
    UndoListCoversEngine(db, log, order, rid);
    var us := UndoList(log, order);
    assert forall u :: u in us <==> u in LoserRecords(log) by { assert forall u :: u in us <==> u in Elems(us); }
    InsertedLast(SlotOf(db, rid), RedoAll(disk, log), log, us, rid);
  }
}
