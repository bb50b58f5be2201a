/**
 Transactions running under the lock manager, the log and the buffer pool, one atomic step at a time: Begin,
 Commit and Abort of transaction_manager.go, the logged operations of table_page.go, log flushes, and page
 writes behind the log. Whatever is on disk after any run of these steps recovers.
 */
module Engines {
  import opened Collections
  import opened Slots
  import opened LogRecords
  import opened Recovery
  import opened CrashSafety
  import L = Locks

  /**
   Pages and log in memory, the pages on disk, how many records are on disk, the lock tables, and the last
   LSN of each transaction under way.
   */
  datatype Engine = Engine(
    db: Db, disk: Db, log: seq<LogRecord>, durable: nat, tables: L.Tables, live: map<int, int>, lastTxn: int)

  datatype Action =
    | BeginTxn
    | ReadLock(txn: int, rid: Rid)
    | Op(txn: int, body: Body)
    | AllocatePage(txn: int, prevPage: int)
    | CommitTxn(txn: int)
    | AbortTxn(txn: int)
    | FlushLog
    | WritePage(page: int)

  function Start(db: Db): Engine {
    Engine(db, db, [], 0, L.Tables(map[], map[], map[], map[]), map[], 0)
  }

  /** The record `AppendLogRecord` writes for a transaction, chained to its previous one. */
  function NextRecord(e: Engine, txn: int, body: Body): LogRecord {
    LogRecord(|e.log|, txn, if txn in e.live then e.live[txn] else -1, body)
  }

  function Append(e: Engine, txn: int, body: Body): Engine {
    var r := NextRecord(e, txn, body);
    e.(db := Perform(e.db, r), log := e.log + [r], live := e.live[txn := r.lsn])
  }

  /** The lock a write takes: an upgrade of a shared lock, or a new exclusive one. */
  function WriteLock(s: L.Tables, txn: int, rid: Rid): (bool, L.Tables) {
    if L.IsSharedLocked(s, txn, rid) then L.LockUpgrade(s, txn, rid)
    else if L.IsExclusiveLocked(s, txn, rid) then (true, s)
    else L.LockExclusive(s, txn, rid)
  }

  /** The last record of a transaction, and its locks released. */
  function Finish(e: Engine, txn: int, body: Body): Engine {
    var e' := Append(e, txn, body);
    e'.(tables := L.ReleaseLocks(e.tables, txn), live := e'.live - {txn})
  }

  /** No row the transaction has marked is marked still: it has applied or taken back its deletions. */
  predicate MarksSettled(e: Engine, txn: int) {
    forall i | 0 <= i < |e.log| && e.log[i].txn == txn && e.log[i].body.MarkDelete? ::
      !SlotOf(e.db, e.log[i].body.rid).Marked?
  }

  /**
   A step the engine takes. `Op` is one whose lock was granted and whose page operation succeeded; the
   deletions of a commit and the rollback of an abort are such steps too. A page is written only when the
   record it is stamped with is on disk. A new page gets its record only: the pages are formatted beforehand.
   */
  predicate Enabled(e: Engine, a: Action) {
    match a
    case BeginTxn => true
    case ReadLock(t, _) => t in e.live
    case Op(t, b) =>
      && t in e.live && OnSlot(b)
      && WriteLock(e.tables, t, b.rid).0
      && LegalOn(e.db, NextRecord(e, t, b))
    case AllocatePage(t, _) => t in e.live
    case CommitTxn(t) => t in e.live && MarksSettled(e, t)
    case AbortTxn(t) => t in e.live
    case FlushLog => true
    case WritePage(p) => p in e.db && e.db[p].lsn < e.durable
  }

  function Do(e: Engine, a: Action): Engine {
    match a
    case BeginTxn => Append(e.(lastTxn := e.lastTxn + 1), e.lastTxn + 1, Begin)
    case ReadLock(t, rid) => e.(tables := L.LockShared(e.tables, t, rid).1)
    case Op(t, b) => if OnSlot(b) then Append(e.(tables := WriteLock(e.tables, t, b.rid).1), t, b) else e
    case AllocatePage(t, p) => Append(e, t, NewPage(p))
    case CommitTxn(t) => Finish(e, t, Commit).(durable := |e.log| + 1)
    case AbortTxn(t) => Finish(e, t, Abort)
    case FlushLog => e.(durable := |e.log|)
    case WritePage(p) => if p in e.db then e.(disk := e.disk[p := e.db[p]]) else e
  }

  function Run(db: Db, actions: seq<Action>): Engine {
    if actions == [] then Start(db) else Do(Run(db, actions[..|actions| - 1]), actions[|actions| - 1])
  }

  predicate RunOk(db: Db, actions: seq<Action>) {
    actions == [] ||
    (var n := |actions| - 1; RunOk(db, actions[..n]) && Enabled(Run(db, actions[..n]), actions[n]))
  }

  /** The records that are on disk. */
  function DurableLog(e: Engine): seq<LogRecord> {
    if e.durable <= |e.log| then e.log[..e.durable] else e.log
  }

  /** Pages are well-formed, not stamped by an earlier log, and have no row marked for deletion. */
  predicate FreshPages(db: Db) {
    forall p | p in db ::
      db[p].lsn <= 0 && Fits(db[p].slots) && forall k | 0 <= k < |db[p].slots| :: !db[p].slots[k].Marked?
  }

  // ---------- the invariant ----------

  /** Log and page states. */
  ghost predicate LogInv(db: Db, cur: Db, log: seq<LogRecord>) {
    && EngineLog(db, log) && cur == Hist(db, log)
    && (forall p | p in cur :: cur[p].lsn < |log| || cur[p].lsn <= 0)
  }

  /** Transactions: ids are fresh, finished ones stay finished, chains are up to date. */
  ghost predicate TxnInv(e: Engine) {
    && (forall i | 0 <= i < |e.log| :: e.log[i].txn <= e.lastTxn)
    && (forall i | 0 <= i < |e.log| && (e.log[i].body.Commit? || e.log[i].body.Abort?) :: e.log[i].txn !in e.live)
    && (forall t | t in Active(e.log) :: t in e.live || Aborted(e.log, t))
    && (forall t | t in e.live :: t <= e.lastTxn && 0 <= e.live[t] == LastOf(e.log, t))
  }

  /** A live transaction write-locks every row it has written. */
  ghost predicate LockInv(e: Engine) {
    && L.WritersOk(e.tables, e.live.Keys)
    && (forall t | t > e.lastTxn :: L.ExclusiveSet(e.tables, t) == [])
    && (forall i | 0 <= i < |e.log| && OnSlot(e.log[i].body) && e.log[i].txn in e.live ::
          L.IsExclusiveLocked(e.tables, e.log[i].txn, e.log[i].body.rid))
  }

  /** The disk holds a page image behind the durable log, and every COMMIT record is durable. */
  ghost predicate DiskInv(db: Db, e: Engine) {
    && e.durable <= |e.log|
    && (exists upTo :: DiskImage(db, e.log[..e.durable], e.disk, upTo))
    && (forall i | 0 <= i < |e.log| && e.log[i].body.Commit? :: i < e.durable)
  }

  lemma {:induction false} LegalAppend(db: Db, log: seq<LogRecord>, r: LogRecord)
    requires Legal(db, log) && r.lsn == |log| && LegalOn(Hist(db, log), r)
    ensures Legal(db, log + [r]) && Hist(db, log + [r]) == Perform(Hist(db, log), r)
  {
    assert (log + [r])[..|log|] == log;
  }

  lemma LastOfAppend(log: seq<LogRecord>, r: LogRecord, t: int)
    ensures LastOf(log + [r], t) == if r.txn == t then |log| else LastOf(log, t)
    ensures Active(log + [r]) == if r.body.Commit? then Active(log) - {r.txn} else Active(log)[r.txn := r.lsn]
  {
    assert (log + [r])[..|log|] == log;
  }

  lemma ChainsAppend(log: seq<LogRecord>, r: LogRecord)
    requires WellChained(log) && r.lsn == |log| && r.prevLsn == LastOf(log, r.txn)
    ensures WellChained(log + [r])
  {
    hide LastOf;
    var l := log + [r];
    assert l[..|log|] == log;
    forall n | 0 <= n < |l| ensures l[n].lsn == n && l[n].prevLsn == LastOf(l[..n], l[n].txn) {
      if n < |log| {
        assert l[..n] == log[..n] && l[n] == log[n];
      }
    }
  }

  lemma HandOverAppend(log: seq<LogRecord>, r: LogRecord)
    requires HandOver(log)
    requires forall i, rid | 0 <= i < |log| && OnRid(log[i].body, rid) && OnRid(r.body, rid)
             && log[i].txn in Active(log) ::
               log[i].txn == r.txn || Aborted(log, log[i].txn)
    ensures HandOver(log + [r])
  {
    hide Active, Aborted;
    var l := log + [r];
    forall i, j, rid | 0 <= i < j < |l| && OnRid(l[i].body, rid) && OnRid(l[j].body, rid) && l[i].txn != l[j].txn
      ensures l[i].txn !in Active(l[..j]) || Aborted(l[..j], l[i].txn)
    {
      if j < |log| {
        assert l[..j] == log[..j];
      } else {
        assert l[..j] == log;
      }
    }
  }

  lemma SettledPrefix(log: seq<LogRecord>, n: nat)
    requires Settled(log) && n <= |log|
    ensures Settled(log[..n])
  {
    var l := log[..n];
    forall i, c | 0 <= i < c < n && l[i].body.MarkDelete? && l[c].body.Commit? && l[c].txn == l[i].txn
      ensures exists j | i < j < c :: l[j].txn == l[i].txn && OnRid(l[j].body, l[i].body.rid)
    {
      var j :| i < j < c && log[j].txn == log[i].txn && OnRid(log[j].body, log[i].body.rid);
      assert l[j] == log[j];
    }
  }

  lemma HandOverPrefix(log: seq<LogRecord>, n: nat)
    requires HandOver(log) && n <= |log|
    ensures HandOver(log[..n])
  {
    hide Active, Aborted;
    var l := log[..n];
    forall i, j, rid | 0 <= i < j < n && OnRid(l[i].body, rid) && OnRid(l[j].body, rid) && l[i].txn != l[j].txn
      ensures l[i].txn !in Active(l[..j]) || Aborted(l[..j], l[i].txn)
    {
      assert l[..j] == log[..j];
    }
  }

  /** What is durable is again a log of the engine. */
  lemma EngineLogPrefix(db: Db, log: seq<LogRecord>, n: nat)
    requires EngineLog(db, log) && n <= |log|
    ensures EngineLog(db, log[..n])
  {
    hide Active, Aborted, LastOf, Legal, HandOver, Settled;
    LegalPrefix(db, log, n);
    HandOverPrefix(log, n);
    SettledPrefix(log, n);
    forall k | 0 <= k < n ensures log[..n][..k] == log[..k] {
    }
  }

  lemma SettledAppend(log: seq<LogRecord>, r: LogRecord)
    requires Settled(log) && (r.body.Commit? ==> MarksCovered(log, r.txn))
    ensures Settled(log + [r])
  {
    var l := log + [r];
    forall i, c | 0 <= i < c < |l| && l[i].body.MarkDelete? && l[c].body.Commit? && l[c].txn == l[i].txn
      ensures exists j | i < j < c :: l[j].txn == l[i].txn && OnRid(l[j].body, l[i].body.rid)
    {
      if c == |log| {
        var j :| i < j < |log| && log[j].txn == r.txn && OnRid(log[j].body, log[i].body.rid);
        assert l[j] == log[j];
      } else {
        var j :| i < j < c && log[j].txn == log[i].txn && OnRid(log[j].body, log[i].body.rid);
        assert l[j] == log[j];
      }
    }
  }

  /** Every mark of the transaction is followed by another of its records on the row. */
  ghost predicate MarksCovered(log: seq<LogRecord>, txn: int) {
    forall i | 0 <= i < |log| && log[i].txn == txn && log[i].body.MarkDelete? ::
      exists j | i < j < |log| :: log[j].txn == txn && OnRid(log[j].body, log[i].body.rid)
  }

  /** Appending a record of a live transaction that owns the row it touches. */
  lemma AppendKeepsLog(db: Db, e: Engine, txn: int, body: Body)
    requires LogInv(db, e.db, e.log) && TxnInv(e)
    requires txn in e.live || (txn > e.lastTxn && !OnSlot(body))
    requires LegalOn(e.db, NextRecord(e, txn, body))
    requires OnSlot(body) ==>
               forall i | 0 <= i < |e.log| && OnRid(e.log[i].body, body.rid) && e.log[i].txn in e.live ::
                   e.log[i].txn == txn
    requires body.Commit? ==> MarksCovered(e.log, txn)
    ensures LogInv(db, Append(e, txn, body).db, e.log + [NextRecord(e, txn, body)])
  {
    hide LegalOn, LastOf, Active, Aborted, Legal, WellChained, HandOver, Hist, Settled, MarksCovered;
    var r := NextRecord(e, txn, body);
    LegalAppend(db, e.log, r);
    LastOfFacts(e.log, txn);
    ChainsAppend(e.log, r);
    HandOverAppend(e.log, r);
    SettledAppend(e.log, r);
  }

  /** A live transaction has no COMMIT or ABORT record, so nobody else writes where it has written. */
  lemma NobodyBehind(db: Db, e: Engine, i: nat, j: nat, rid: Rid)
    requires LogInv(db, e.db, e.log) && TxnInv(e) && i < j < |e.log| && e.log[i].txn in e.live
    requires OnRid(e.log[i].body, rid) && OnRid(e.log[j].body, rid)
    ensures e.log[j].txn == e.log[i].txn
  {
    hide Legal, LastOf, Active, Hist, Settled;
    var log, t := e.log[..j], e.log[i].txn;
    if e.log[j].txn != t {
      EngineLogPrefix(db, e.log, j);
      ActiveMeans(log, t);
      assert log[i].txn == t;
      LastOfTxn(log, t, i);
    }
  }

  lemma LastOfTxn(log: seq<LogRecord>, t: int, i: nat)
    requires i < |log| && log[i].txn == t
    ensures 0 <= LastOf(log, t) < |log| && log[LastOf(log, t)].txn == t
  {
  }

  lemma MarkMarks(d: Db, r: LogRecord)
    requires LegalOn(d, r) && r.body.MarkDelete?
    ensures Effect(r.body, SlotOf(d, r.body.rid)).Marked? && r.body.rid.page in d && r.body.rid.slot >= 0
  {
  }

  /** A row whose last record is a mark is marked. */
  lemma MarkedSince(db: Db, log: seq<LogRecord>, i: nat)
    requires Legal(db, log) && i < |log| && log[i].body.MarkDelete?
    requires forall j | i < j < |log| :: !OnRid(log[j].body, log[i].body.rid)
    ensures SlotOf(Hist(db, log), log[i].body.rid).Marked?
  {
    hide Legal, LegalOn, Hist, SlotOf, Effect;
    var rid := log[i].body.rid;
    LegalPrefix(db, log, i);
    MarkMarks(Hist(db, log[..i]), log[i]);
    HistSlot(db, log[..i], rid);
    HistSlot(db, log, rid);
    ReplayTail(SlotOf(db, rid), log, rid, {}, i + 1);
    assert log[..i + 1][..i] == log[..i];
  }

  /** A transaction that may commit has a record behind each of its marks. */
  lemma SettledIsCovered(db: Db, e: Engine, txn: int)
    requires LogInv(db, e.db, e.log) && TxnInv(e) && txn in e.live && MarksSettled(e, txn)
    ensures MarksCovered(e.log, txn)
  {
    hide LogInv, TxnInv, SlotOf;
    InvIsLegal(db, e);
    forall i | 0 <= i < |e.log| && e.log[i].txn == txn && e.log[i].body.MarkDelete?
      ensures exists j | i < j < |e.log| :: e.log[j].txn == txn && OnRid(e.log[j].body, e.log[i].body.rid)
    {
      if forall j | i < j < |e.log| :: !OnRid(e.log[j].body, e.log[i].body.rid) {
        MarkedSince(db, e.log, i);
        assert false;
      }
      var j :| i < j < |e.log| && OnRid(e.log[j].body, e.log[i].body.rid);
      NobodyBehind(db, e, i, j, e.log[i].body.rid);
    }
  }

  lemma InvIsLegal(db: Db, e: Engine)
    requires LogInv(db, e.db, e.log)
    ensures Legal(db, e.log) && e.db == Hist(db, e.log)
  {
  }

  lemma LastOfFacts(log: seq<LogRecord>, txn: int)
    ensures -1 <= LastOf(log, txn) < |log|
    ensures (forall i | 0 <= i < |log| :: log[i].txn != txn) ==> LastOf(log, txn) == -1
  {
  }

  lemma AbortedAppend(log: seq<LogRecord>, r: LogRecord, t: int)
    ensures Aborted(log, t) || (r.body.Abort? && r.txn == t) ==> Aborted(log + [r], t)
  {
    var l := log + [r];
    assert l[..|log|] == log && l[|log|] == r;
    if Aborted(log, t) {
      AbortedLater(l, |log|, t);
    }
  }

  lemma AppendKeepsTxns(e: Engine, txn: int, body: Body, last: int)
    requires TxnInv(e) && (txn in e.live || txn > e.lastTxn) && last >= e.lastTxn && last >= txn
    ensures var e' := Append(e, txn, body).(lastTxn := last);
            TxnInv(if body.Commit? || body.Abort? then e'.(live := e'.live - {txn}) else e')
  {
    hide LastOf, Active, Aborted, Perform;
    var r := NextRecord(e, txn, body);
    var e1 := Append(e, txn, body).(lastTxn := last);
    var e' := if body.Commit? || body.Abort? then e1.(live := e1.live - {txn}) else e1;
    assert e'.log == e.log + [r];
    forall t | t in Active(e'.log) ensures t in e'.live || Aborted(e'.log, t) {
      LastOfAppend(e.log, r, t);
      AbortedAppend(e.log, r, t);
    }
    forall t | t in e'.live ensures t <= last && 0 <= e'.live[t] == LastOf(e'.log, t) {
      LastOfAppend(e.log, r, t);
    }
  }

  lemma WriteLockOk(s: L.Tables, live: set<int>, txn: int, rid: Rid)
    requires L.WritersOk(s, live) && txn in live && WriteLock(s, txn, rid).0
    ensures L.WritersOk(WriteLock(s, txn, rid).1, live) && L.IsExclusiveLocked(WriteLock(s, txn, rid).1, txn, rid)
    ensures forall t, r | L.IsExclusiveLocked(s, t, r) :: L.IsExclusiveLocked(WriteLock(s, txn, rid).1, t, r)
    ensures forall t | t != txn :: L.ExclusiveSet(WriteLock(s, txn, rid).1, t) == L.ExclusiveSet(s, t)
  {
    hide NoDup, L.WritersOk, L.Without;
    L.WriterAdded(s, live, txn, rid);
  }

  lemma OnlyOneWriter(s: L.Tables, live: set<int>, t: int, u: int, rid: Rid)
    requires L.WritersOk(s, live) && t in live && u in live
    requires L.IsExclusiveLocked(s, t, rid) && L.IsExclusiveLocked(s, u, rid)
    ensures t == u
  {
  }

  lemma OpKeeps(db: Db, e: Engine, txn: int, body: Body)
    requires LogInv(db, e.db, e.log) && TxnInv(e) && LockInv(e) && Enabled(e, Op(txn, body))
    ensures var e' := Do(e, Op(txn, body)); LogInv(db, e'.db, e'.log) && TxnInv(e') && LockInv(e')
  {
    hide LogInv, LockInv, TxnInv, LegalOn, WriteLock, L.IsSharedLocked;
    OpKeepsLocks(e, txn, body);
    AppendKeepsLog(db, e, txn, body);
    var e1 := e.(tables := WriteLock(e.tables, txn, body.rid).1);
    TablesDoNotMatter(e, e1);
    AppendKeepsTxns(e1, txn, body, e.lastTxn);
  }

  lemma TablesDoNotMatter(e: Engine, e1: Engine)
    requires TxnInv(e) && e1 == e.(tables := e1.tables, durable := e1.durable, disk := e1.disk)
    ensures TxnInv(e1)
  {
  }

  lemma OpKeepsLocks(e: Engine, txn: int, body: Body)
    requires TxnInv(e) && LockInv(e) && Enabled(e, Op(txn, body))
    ensures LockInv(Do(e, Op(txn, body)))
    ensures forall i | 0 <= i < |e.log| && OnRid(e.log[i].body, body.rid) && e.log[i].txn in e.live ::
            e.log[i].txn == txn
  {
    hide L.WritersOk, LegalOn, L.IsSharedLocked, L.IsExclusiveLocked, WriteLock;
    WriteLockOk(e.tables, e.live.Keys, txn, body.rid);
    var s := WriteLock(e.tables, txn, body.rid).1;
    forall i | 0 <= i < |e.log| && OnRid(e.log[i].body, body.rid) && e.log[i].txn in e.live
        ensures e.log[i].txn == txn {
      OnlyOneWriter(s, e.live.Keys, e.log[i].txn, txn, body.rid);
    }
    assert e.live[txn := |e.log|].Keys == e.live.Keys;
  }

  lemma BeginKeeps(db: Db, e: Engine)
    requires LogInv(db, e.db, e.log) && TxnInv(e) && LockInv(e)
    ensures var e' := Do(e, BeginTxn); LogInv(db, e'.db, e'.log) && TxnInv(e') && LockInv(e')
  {
    hide LogInv, LockInv, TxnInv;
    var t := e.lastTxn + 1;
    AppendKeepsLog(db, e, t, Begin);
    AppendKeepsTxns(e, t, Begin, t);
    BeginKeepsLocks(e);
    FreshId(e);
  }

  lemma FreshId(e: Engine)
    requires TxnInv(e)
    ensures e.lastTxn + 1 !in e.live
  {
  }

  lemma BeginKeepsLocks(e: Engine)
    requires TxnInv(e) && LockInv(e)
    ensures LockInv(Do(e, BeginTxn))
  {
    hide L.WritersOk, L.IsExclusiveLocked;
    var t := e.lastTxn + 1;
    NewTxnLocks(e, t);
    var e' := Do(e, BeginTxn);
    assert e'.live.Keys == e.live.Keys + {t} && e'.tables == e.tables;
    forall i | 0 <= i < |e'.log| && OnSlot(e'.log[i].body) && e'.log[i].txn in e'.live
      ensures L.IsExclusiveLocked(e'.tables, e'.log[i].txn, e'.log[i].body.rid)
    {
      assert i < |e.log| && e'.log[i] == e.log[i];
    }
  }

  lemma NewTxnLocks(e: Engine, t: int)
    requires LockInv(e) && TxnInv(e) && t > e.lastTxn
    ensures L.WritersOk(e.tables, e.live.Keys + {t})
  {
  }

  lemma FinishKeeps(db: Db, e: Engine, txn: int, body: Body)
    requires LogInv(db, e.db, e.log) && TxnInv(e) && LockInv(e) && txn in e.live && (body.Commit? || body.Abort?)
    requires body.Commit? ==> MarksSettled(e, txn)
    ensures var e' := Finish(e, txn, body); LogInv(db, e'.db, e'.log) && TxnInv(e') && LockInv(e')
  {
    hide LogInv, LockInv, TxnInv, MarksCovered, MarksSettled;
    if body.Commit? {
      SettledIsCovered(db, e, txn);
    }
    AppendKeepsLog(db, e, txn, body);
    IdsSeen(e, txn);
    AppendKeepsTxns(e, txn, body, e.lastTxn);
    var e1 := Append(e, txn, body);
    TablesDoNotMatter(e1.(live := e1.live - {txn}), Finish(e, txn, body));
    FinishKeepsLocks(e, txn, body);
  }

  lemma IdsSeen(e: Engine, txn: int)
    requires TxnInv(e) && txn in e.live
    ensures txn <= e.lastTxn
  {
  }

  lemma FinishKeepsLocks(e: Engine, txn: int, body: Body)
    requires LockInv(e) && txn in e.live && !OnSlot(body)
    ensures LockInv(Finish(e, txn, body))
  {
    hide L.WritersOk, L.Unlock;
    L.ReleaseWriters(e.tables, e.live.Keys, txn);
    L.UnlockKeepsSets(e.tables, txn, L.ExclusiveSet(e.tables, txn) + L.SharedSet(e.tables, txn));
    var e' := Finish(e, txn, body);
    assert e'.live.Keys == e.live.Keys - {txn};
    SetsOnly(e.tables, e'.tables);
    forall i | 0 <= i < |e'.log| && OnSlot(e'.log[i].body) && e'.log[i].txn in e'.live
      ensures L.IsExclusiveLocked(e'.tables, e'.log[i].txn, e'.log[i].body.rid)
    {
      assert i < |e.log| && e'.log[i] == e.log[i];
    }
  }

  lemma SetsOnly(s: L.Tables, r: L.Tables)
    requires r.sharedSets == s.sharedSets && r.exclusiveSets == s.exclusiveSets
    ensures forall t :: L.SharedSet(r, t) == L.SharedSet(s, t) && L.ExclusiveSet(r, t) == L.ExclusiveSet(s, t)
    ensures forall t, rid :: L.IsExclusiveLocked(r, t, rid) <==> L.IsExclusiveLocked(s, t, rid)
  {
  }

  lemma SharedLeavesWriters(s: L.Tables, live: set<int>, txn: int, rid: Rid)
    requires L.WritersOk(s, live)
    ensures var s' := L.LockShared(s, txn, rid).1;
            L.WritersOk(s', live) && s'.exclusiveSets == s.exclusiveSets
  {
  }

  lemma ShareKeepsLocks(e: Engine, txn: int, rid: Rid)
    requires TxnInv(e) && LockInv(e) && txn in e.live
    ensures LockInv(Do(e, ReadLock(txn, rid)))
  {
    hide L.WritersOk, L.LockShared;
    SharedLeavesWriters(e.tables, e.live.Keys, txn, rid);
    var e' := Do(e, ReadLock(txn, rid));
    forall i | 0 <= i < |e.log| && OnSlot(e.log[i].body) && e.log[i].txn in e.live
      ensures L.IsExclusiveLocked(e'.tables, e.log[i].txn, e.log[i].body.rid)
    {
      assert L.IsExclusiveLocked(e.tables, e.log[i].txn, e.log[i].body.rid);
    }
    forall t | t > e.lastTxn ensures L.ExclusiveSet(e'.tables, t) == [] {
      assert L.ExclusiveSet(e.tables, t) == [];
    }
  }

  lemma AllocateKeeps(db: Db, e: Engine, txn: int, prevPage: int)
    requires LogInv(db, e.db, e.log) && TxnInv(e) && LockInv(e) && txn in e.live
    ensures var e' := Append(e, txn, NewPage(prevPage)); LogInv(db, e'.db, e'.log) && TxnInv(e') && LockInv(e')
  {
    hide LogInv, LockInv, TxnInv;
    AppendKeepsLog(db, e, txn, NewPage(prevPage));
    IdsSeen(e, txn);
    AppendKeepsTxns(e, txn, NewPage(prevPage), e.lastTxn);
    AllocateKeepsLocks(e, txn, prevPage);
  }

  lemma AllocateKeepsLocks(e: Engine, txn: int, prevPage: int)
    requires LockInv(e) && txn in e.live
    ensures LockInv(Append(e, txn, NewPage(prevPage)))
  {
    hide L.WritersOk, L.IsExclusiveLocked;
    var e' := Append(e, txn, NewPage(prevPage));
    assert e'.live.Keys == e.live.Keys;
    forall i | 0 <= i < |e'.log| && OnSlot(e'.log[i].body) && e'.log[i].txn in e'.live
      ensures L.IsExclusiveLocked(e'.tables, e'.log[i].txn, e'.log[i].body.rid)
    {
      assert i < |e.log| && e'.log[i] == e.log[i];
    }
  }

  lemma DiskDoesNotMatter(e: Engine, e1: Engine)
    requires TxnInv(e) && LockInv(e) && e1 == e.(durable := e1.durable, disk := e1.disk)
    ensures TxnInv(e1) && LockInv(e1)
  {
  }

  // ---------- what is on disk ----------

  /** With more of the log on disk the pages are still an image behind it. */
  lemma MoreDurable(db: Db, log: seq<LogRecord>, disk: Db, n: nat, m: nat)
    requires n <= m <= |log| && exists upTo :: DiskImage(db, log[..n], disk, upTo)
    ensures exists upTo :: DiskImage(db, log[..m], disk, upTo)
  {
    hide Hist;
    var upTo :| DiskImage(db, log[..n], disk, upTo);
    forall p | p in db ensures log[..n][..upTo[p]] == log[..m][..upTo[p]] {
    }
    assert DiskImage(db, log[..m], disk, upTo);
  }

  lemma AppendKeepsDisk(db: Db, e: Engine, txn: int, body: Body, durable: nat)
    requires DiskInv(db, e) && e.durable <= durable <= |e.log| + 1 && (body.Commit? ==> durable == |e.log| + 1)
    ensures DiskInv(db, Append(e, txn, body).(durable := durable))
  {
    hide DiskImage;
    var e' := Append(e, txn, body);
    assert e'.log[..e.durable] == e.log[..e.durable];
    MoreDurable(db, e'.log, e.disk, e.durable, durable);
  }

  /** A page whose stamp is on disk has no record behind the durable log. */
  lemma WriteKeepsDisk(db: Db, e: Engine, page: int)
    requires DiskInv(db, e) && LogInv(db, e.db, e.log) && page in e.db && e.db[page].lsn < e.durable
    ensures DiskInv(db, e.(disk := e.disk[page := e.db[page]]))
  {
    hide EngineLog, Hist, Legal;
    var log := e.log[..e.durable];
    var upTo :| DiskImage(db, log, e.disk, upTo);
    assert e.log[..|e.log|] == e.log;
    EngineIsLegal(db, e.log);
    LsnGrows(db, e.log, e.durable, |e.log|, page);
    assert log[..e.durable] == log;
    assert DiskImage(db, log, e.disk[page := e.db[page]], upTo[page := e.durable]);
  }

  lemma StepKeepsDisk(db: Db, e: Engine, a: Action)
    requires LogInv(db, e.db, e.log) && DiskInv(db, e) && Enabled(e, a)
    ensures DiskInv(db, Do(e, a))
  {
    hide LogInv, DiskInv, LegalOn, L.LockShared, L.ReleaseLocks, WriteLock, L.IsSharedLocked;
    DiskRange(db, e);
    match a
    case BeginTxn =>
      AppendKeepsDisk(db, e, e.lastTxn + 1, Begin, e.durable);
      SameDisk(db, Append(e, e.lastTxn + 1, Begin), Do(e, a));
    case ReadLock(t, rid) => SameDisk(db, e, Do(e, a));
    case Op(t, b) => AppendKeepsDisk(db, e, t, b, e.durable); SameDisk(db, Append(e, t, b), Do(e, a));
    case AllocatePage(t, p) => AppendKeepsDisk(db, e, t, NewPage(p), e.durable);
        SameDisk(db, Append(e, t, NewPage(p)), Do(e, a));
    case CommitTxn(t) =>
      AppendKeepsDisk(db, e, t, Commit, |e.log| + 1);
      SameDisk(db, Append(e, t, Commit).(durable := |e.log| + 1), Do(e, a));
    case AbortTxn(t) => AppendKeepsDisk(db, e, t, Abort, e.durable); SameDisk(db, Append(e, t, Abort), Do(e, a));
    case FlushLog => FlushKeepsDisk(db, e);
    case WritePage(p) => WriteKeepsDisk(db, e, p);
  }

  lemma DiskRange(db: Db, e: Engine)
    requires DiskInv(db, e)
    ensures e.durable <= |e.log|
  {
  }

  lemma SameDisk(db: Db, e: Engine, e1: Engine)
    requires DiskInv(db, e) && e1.log == e.log && e1.disk == e.disk && e1.durable == e.durable
    ensures DiskInv(db, e1)
  {
  }

  lemma FlushKeepsDisk(db: Db, e: Engine)
    requires DiskInv(db, e)
    ensures DiskInv(db, e.(durable := |e.log|))
  {
    hide DiskImage;
    MoreDurable(db, e.log, e.disk, e.durable, |e.log|);
  }

  // ---------- runs ----------

  lemma StartKeeps(db: Db)
    requires FreshPages(db)
    ensures LogInv(db, db, []) && TxnInv(Start(db)) && LockInv(Start(db)) && DiskInv(db, Start(db))
  {
    StartLocks(db);
    StartDisk(db);
  }

  lemma StartLocks(db: Db)
    ensures LockInv(Start(db))
  {
    assert NoDup<Rid>([]);
  }

  lemma StartDisk(db: Db)
    ensures DiskInv(db, Start(db))
  {
    var none := map p | p in db :: 0;
    assert Start(db).log[..0] == [];
    assert DiskImage(db, [], db, none);
  }

  /** Every run writes an engine log, and leaves on disk a page image behind the durable part of that log. */
  lemma {:induction false} RunKeeps(db: Db, actions: seq<Action>)
    requires FreshPages(db) && RunOk(db, actions)
    ensures var e := Run(db, actions); LogInv(db, e.db, e.log) && TxnInv(e) && LockInv(e) && DiskInv(db, e)
  {
    hide LogInv, TxnInv, LockInv, DiskInv, FreshPages;
    if actions == [] {
      StartKeeps(db);
    } else {
      var n := |actions| - 1;
      RunKeeps(db, actions[..n]);
      var e := Run(db, actions[..n]);
      StepKeepsDisk(db, e, actions[n]);
      match actions[n]
      case BeginTxn => BeginKeeps(db, e);
      case ReadLock(t, rid) => ShareKeepsLocks(e, t, rid); TablesDoNotMatter(e, Do(e, actions[n]));
      case Op(t, b) => OpKeeps(db, e, t, b);
      case AllocatePage(t, p) => AllocateKeeps(db, e, t, p);
      case CommitTxn(t) => FinishKeeps(db, e, t, Commit); DiskDoesNotMatter(Finish(e, t, Commit), Do(e, actions[n]));
      case AbortTxn(t) => FinishKeeps(db, e, t, Abort);
      case FlushLog => DiskDoesNotMatter(e, Do(e, actions[n]));
      case WritePage(p) => DiskDoesNotMatter(e, Do(e, actions[n]));
    }
  }

  lemma StepGrows(e: Engine, a: Action)
    ensures e.log <= Do(e, a).log
  {
    hide L.LockShared, L.ReleaseLocks, WriteLock;
  }

  /** The log only grows. */
  lemma {:induction false} LogGrows(db: Db, actions: seq<Action>, k: nat)
    requires k <= |actions| && RunOk(db, actions)
    ensures RunOk(db, actions[..k]) && Run(db, actions[..k]).log <= Run(db, actions).log
  {
    hide Do, Enabled;
    if k < |actions| {
      var n := |actions| - 1;
      LogGrows(db, actions[..n], k);
      assert actions[..n][..k] == actions[..k];
      StepGrows(Run(db, actions[..n]), actions[n]);
    } else {
      assert actions[..k] == actions;
    }
  }

  lemma CommittedInLog(db: Db, e: Engine, i: nat)
    requires LogInv(db, e.db, e.log) && DiskInv(db, e) && i < |e.log| && e.log[i].body.Commit?
    ensures i < e.durable <= |e.log| && e.log[i].txn !in Active(DurableLog(e))
    ensures forall j | 0 <= j < |e.log| && e.log[j].txn == e.log[i].txn :: j < e.durable
  {
    hide DiskImage, Legal, HandOver, Active, LastOf;
    var log, t := DurableLog(e), e.log[i].txn;
    assert log[i] == e.log[i];
    ActiveMeans(log, t);
    LastOfIs(log, i, t);
  }

  lemma LastOfIs(log: seq<LogRecord>, n: nat, t: int)
    requires n < |log| && log[n].txn == t && forall j | n < j < |log| :: log[j].txn != t
    ensures LastOf(log, t) == n
  {
  }

  lemma CommitLogged(db: Db, actions: seq<Action>, k: nat)
    requires RunOk(db, actions) && k < |actions| && actions[k].CommitTxn?
    ensures var i := |Run(db, actions[..k]).log|;
            && i < |Run(db, actions).log|
            && Run(db, actions).log[i].txn == actions[k].txn && Run(db, actions).log[i].body.Commit?
  {
    hide Do, Enabled;
    LogGrows(db, actions, k + 1);
    assert actions[..k + 1][..k] == actions[..k];
    CommitAppends(Run(db, actions[..k]), actions[k].txn);
  }

  lemma CommitAppends(e: Engine, t: int)
    ensures Do(e, CommitTxn(t)).log == e.log + [NextRecord(e, t, Commit)]
  {
    hide L.ReleaseLocks;
  }

  /** Once `Commit` has returned, all records of the transaction are on disk and it is not a loser. */
  lemma CommittedIsDurable(db: Db, actions: seq<Action>, k: nat)
    requires FreshPages(db) && RunOk(db, actions) && k < |actions| && actions[k].CommitTxn?
    ensures var e, t := Run(db, actions), actions[k].txn;
            && (exists i | 0 <= i < |DurableLog(e)| :: e.log[i].txn == t && e.log[i].body.Commit?)
            && (forall j | 0 <= j < |e.log| && e.log[j].txn == t :: j < |DurableLog(e)|)
            && t !in Active(DurableLog(e))
  {
    hide LogInv, DiskInv, LockInv, TxnInv, Run, RunOk, Active;
    CommitLogged(db, actions, k);
    RunKeeps(db, actions);
    var i := |Run(db, actions[..k]).log|;
    CommittedInLog(db, Run(db, actions), i);
  }

  lemma FreshRow(db: Db, rid: Rid)
    requires FreshPages(db)
    ensures !SlotOf(db, rid).Marked? && PagesFit(db, db.Keys)
  {
  }

  /**
   Whatever the engine did and whenever it crashed: recovery of what is then on disk gets through exactly when no
   assertion of an undo step fails; and then every RID not reused after an abort has the committed row, if and
   only if no undo step goes wrong there.
   */
  lemma EveryCrashRecovers(db: Db, actions: seq<Action>, order: seq<int>, rid: Rid)
    requires FreshPages(db) && RunOk(db, actions) && rid.page in db && rid.slot >= 0
    requires var log := DurableLog(Run(db, actions));
             OrderOf(order, Active(log).Keys) && NotReused(log, rid)
    ensures var disk, log := Run(db, actions).disk, DurableLog(Run(db, actions));
            var cur, us, r := RedoAll(disk, log), UndoList(log, order), Recovered(disk, log, order);
            && (r.Finished? <==> UndoRunSafe(cur, log, us))
            && (r.Finished? ==>
                  (Restored(db, log, r.db, rid) <==> !Spoiled(SlotOf(db, rid), cur, log, us, rid)))
  {
    hide Restored, Spoiled, Recovered, UndoRunSafe, Do, Enabled, EngineLog, DiskImage, FreshPages, PagesFit, SlotOf;
    RunKeeps(db, actions);
    FreshRow(db, rid);
    var e := Run(db, actions);
    var log := DurableLog(e);
    EngineLogPrefix(db, e.log, e.durable);
    var upTo :| DiskImage(db, log, e.disk, upTo);
    RecoveryRestoresCommitted(db, log, e.disk, upTo, order, rid);
  }
}
