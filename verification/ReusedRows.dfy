/**
 Rows that other transactions wrote after one that aborted. An ABORT record does not take its transaction out of
 `active_txn`, so undo takes back the aborted transaction's records too, in an order that may be wrong for the row.
 */
module ReusedRows {
  import opened Bytes
  import opened Collections
  import opened Slots
  import opened LogRecords
  import opened Recovery
  import opened CrashSafety

  // ---------- the last undo step at a row ----------

  /** Step `k` is the last one of the undo run that concerns the row: nothing later is on it or lands in it. */
  ghost predicate LastAt(cur: Db, log: seq<LogRecord>, us: seq<nat>, rid: Rid, k: nat) {
    && k < |us| && (forall i | 0 <= i < |us| :: us[i] < |log|) && OnRid(log[us[k]].body, rid)
    && (forall i | k < i < |us| :: !OnRid(log[us[i]].body, rid) && !Lands(UndoAll(cur, log, us[..i]), log[us[i]], rid))
  }

  lemma LastAtPrefix(cur: Db, log: seq<LogRecord>, us: seq<nat>, rid: Rid, k: nat)
    requires LastAt(cur, log, us, rid, k) && k < |us| - 1
    ensures LastAt(cur, log, us[..|us| - 1], rid, k)
    ensures var n := |us| - 1; !OnRid(log[us[n]].body, rid) && !Lands(UndoAll(cur, log, us[..n]), log[us[n]], rid)
  {
    hide Lands, UndoAll;
    forall i | 0 <= i < |us| - 1 ensures us[..|us| - 1][..i] == us[..i] {
    }
  }

  lemma LastAtRange(cur: Db, log: seq<LogRecord>, us: seq<nat>, rid: Rid, k: nat)
    requires LastAt(cur, log, us, rid, k)
    ensures k < |us| && (forall i | 0 <= i < |us| :: us[i] < |log|) && us[..|us|] == us
  {
  }

  /** Later steps leave the row as that step left it, in whatever order the records are undone. */
  lemma {:induction false} LaterStepsKeep(db: Db, log: seq<LogRecord>, cur: Db, us: seq<nat>, rid: Rid, k: nat)
    requires Legal(db, log) && db.Keys <= cur.Keys && rid.slot >= 0 && LastAt(cur, log, us, rid, k)
    ensures SlotOf(UndoAll(cur, log, us), rid) == SlotOf(UndoOne(UndoAll(cur, log, us[..k]), log[us[k]]), rid)
  {
    hide Legal, LegalOn, Lands, UndoOne, Hist, SlotOf, RoomAt, UndoRow, LastAt;
    LastAtRange(cur, log, us, rid, k);
    var n := |us| - 1;
    if k < n {
      LastAtPrefix(cur, log, us, rid, k);
      LaterStepsKeep(db, log, cur, us[..n], rid, k);
      assert us[..n][..k] == us[..k];
      LegalPrefix(db, log, us[n]);
      LegalRid(Hist(db, log[..us[n]]), log[us[n]]);
      if OnSlot(log[us[n]].body) {
        UndoSlot(UndoAll(cur, log, us[..n]), log[us[n]], rid);
      } else {
        UndoNothing(UndoAll(cur, log, us[..n]), log[us[n]]);
      }
    } else {
      assert us[..n] == us[..k];
    }
  }

  /** Where that step takes back an INSERT or an UPDATE, the row ends up as its before-image, if the step can. */
  lemma LastStepRow(db: Db, log: seq<LogRecord>, cur: Db, us: seq<nat>, rid: Rid, k: nat)
    requires Legal(db, log) && db.Keys <= cur.Keys && rid.page in db && rid.slot >= 0 && LastAt(cur, log, us, rid, k)
    requires log[us[k]].body.Insert? || log[us[k]].body.Update?
    ensures var r, now := log[us[k]], UndoAll(cur, log, us[..k]);
            SlotOf(UndoAll(cur, log, us), rid)
            == (if r.body.Insert? then Empty
                else if SlotOf(now, rid).Live? && RoomAt(now, r) then Live(r.body.oldTuple)
                else SlotOf(now, rid))
  {
    hide Legal, Lands, RoomAt, UndoOne, SlotOf, LastAt;
    LastAtRange(cur, log, us, rid, k);
    LastAtIsOn(cur, log, us, rid, k);
    LaterStepsKeep(db, log, cur, us, rid, k);
    UndoSlot(UndoAll(cur, log, us[..k]), log[us[k]], rid);
    OnlyDeletesLand(UndoAll(cur, log, us[..k]), log[us[k]], rid);
  }

  lemma LastAtIsOn(cur: Db, log: seq<LogRecord>, us: seq<nat>, rid: Rid, k: nat)
    requires LastAt(cur, log, us, rid, k)
    ensures OnRid(log[us[k]].body, rid)
  {
  }

  /** That step takes back the oldest record its transaction has on the row. */
  lemma OldestUndoneLast(log: seq<LogRecord>, order: seq<int>, cur: Db, rid: Rid, k: nat)
    requires WellChained(log) && (forall i, j | 0 <= i < j < |order| :: order[i] != order[j])
    requires LastAt(cur, log, UndoList(log, order), rid, k)
    ensures var u := UndoList(log, order)[k];
            log[u].txn in order && forall n | 0 <= n < |log| && OnRid(log[n].body, rid) && log[n].txn == log[u].txn ::
                u <= n
  {
    hide Lands, UndoAll, UndoList, WellChained;
    UndoListExact(log, order);
    var us := UndoList(log, order);
    forall n | 0 <= n < |log| && OnRid(log[n].body, rid) && log[n].txn == log[us[k]].txn ensures us[k] <= n {
      var i :| 0 <= i < |us| && us[i] == n;
    }
  }

  lemma HandedOver(db: Db, log: seq<LogRecord>, u: nat, w: nat, rid: Rid)
    requires EngineLog(db, log) && u < w < |log| && OnRid(log[u].body, rid) && OnRid(log[w].body, rid)
    requires log[u].txn in Active(log) && log[w].txn !in Active(log)
    ensures Aborted(log, log[u].txn)
  {
    if log[u].txn !in Active(log[..w]) {
      InactiveStays(log, u, w);
      assert false;
    }
    AbortedLater(log, w, log[u].txn);
  }

  // ---------- it takes back an INSERT or an UPDATE ----------

  /** The undo of the record can change the row back: always for an INSERT; an UPDATE needs a live row and room. */
  predicate Taken(now: Db, r: LogRecord) {
    r.body.Insert? || (r.body.Update? && SlotOf(now, r.body.rid).Live? && RoomAt(now, r))
  }

  lemma BeforeImage(d: Db, r: LogRecord)
    requires LegalOn(d, r)
    ensures r.body.Insert? ==> SlotOf(d, r.body.rid) == Empty
    ensures r.body.Update? ==> SlotOf(d, r.body.rid) == Live(r.body.oldTuple)
  {
  }

  /**
   For every engine log, loser order and RID, reused or not: where the last step of undo at the row takes back an
   INSERT or UPDATE, that is the oldest record its transaction has on the row, and recovery leaves the row as it
   was just before that record, or untouched if the step cannot change it. That alone decides whether the committed
   row is restored.
   */
  lemma LastStepDecides(
    db: Db, log: seq<LogRecord>, disk: Db, upTo: map<int, nat>, order: seq<int>, rid: Rid, k: nat)
    requires EngineLog(db, log) && DiskImage(db, log, disk, upTo) && OrderOf(order, Active(log).Keys)
    requires rid.page in db && rid.slot >= 0
    requires LastAt(RedoAll(disk, log), log, UndoList(log, order), rid, k)
    requires var b := log[UndoList(log, order)[k]].body; b.Insert? || b.Update?
    ensures var us, after := UndoList(log, order), Recovered(disk, log, order);
            var u, now := us[k], UndoAll(RedoAll(disk, log), log, us[..k]);
            && (forall n | 0 <= n < |log| && OnRid(log[n].body, rid) && log[n].txn == log[u].txn :: u <= n)
            && log[u].txn in Active(log)
            && (after.Finished? ==>
                  SlotOf(after.db, rid)
                  == if Taken(now, log[u]) then SlotOf(Hist(db, log[..u]), rid) else SlotOf(now, rid))
  {
    hide Legal, HandOver, Settled, WellChained, RoomAt, Replay, Hist, Active, LastAt, SlotOf, EndsFinal, UndoList,
         UndoAll, RedoAll, UndoRun, UndoRunSafe;
    var us, cur := UndoList(log, order), RedoAll(disk, log);
    LastAtRange(cur, log, us, rid, k);
    RedoRepeatsHistory(db, log, disk, upTo);
    UndoRunExact(cur, log, us);
    OldestUndoneLast(log, order, cur, rid, k);
    LastAtIsOn(cur, log, us, rid, k);
    LastStepRow(db, log, cur, us, rid, k);
    LegalPrefix(db, log, us[k]);
    BeforeImage(Hist(db, log[..us[k]]), log[us[k]]);
  }

  /** The record fixes the row, whatever it was. */
  predicate Decides(b: Body) {
    b.Insert? || b.Update? || b.ApplyDelete?
  }

  /** The row such a record leaves. */
  function Left(b: Body): Slot
    requires Decides(b)
  {
    match b
    case Insert(_, t) => Live(t)
    case Update(_, _, t) => Live(t)
    case ApplyDelete(_, _) => Empty
  }

  /** Record `w` is the last one of a committed transaction on the row, and fixes it; -1 if there is none. */
  ghost predicate LastCommitted(log: seq<LogRecord>, rid: Rid, w: int) {
    && -1 <= w < |log|
    && (w >= 0 ==> OnRid(log[w].body, rid) && Decides(log[w].body) && log[w].txn !in Active(log))
    && (forall i | w < i < |log| && OnRid(log[i].body, rid) :: log[i].txn in Active(log))
  }

  lemma CommittedIs(db: Db, log: seq<LogRecord>, rid: Rid, w: int)
    requires LastCommitted(log, rid, w)
    ensures Replay(SlotOf(db, rid), log, rid, LoserRecords(log)) == if w == -1 then SlotOf(db, rid)
            else Left(log[w].body)
  {
    hide Active, Replay;
    LastWriteWins(SlotOf(db, rid), log, rid, LoserRecords(log), w);
  }

  /**
   The step takes back a record older than the last committed write: then its transaction had aborted, and the
   committed row survives only if recovery leaves the very same row by chance.
   */
  lemma AbortedImageWins(
    db: Db, log: seq<LogRecord>, disk: Db, upTo: map<int, nat>, order: seq<int>, rid: Rid, k: nat, w: int)
    requires EngineLog(db, log) && DiskImage(db, log, disk, upTo) && OrderOf(order, Active(log).Keys)
    requires rid.page in db && rid.slot >= 0
    requires LastAt(RedoAll(disk, log), log, UndoList(log, order), rid, k)
    requires var b := log[UndoList(log, order)[k]].body; b.Insert? || b.Update?
    requires LastCommitted(log, rid, w) && UndoList(log, order)[k] < w
    ensures var us, after := UndoList(log, order), Recovered(disk, log, order);
            var u, now := us[k], UndoAll(RedoAll(disk, log), log, us[..k]);
            && Aborted(log, log[u].txn)
            && (after.Finished? ==>
                  (Restored(db, log, after.db, rid)
                   <==> Left(log[w].body)
                        == if Taken(now, log[u]) then SlotOf(Hist(db, log[..u]), rid) else SlotOf(now, rid)))
  {
    hide EngineLog, DiskImage, RoomAt, Replay, Hist, Active, LastAt, SlotOf, UndoList, UndoAll, RedoAll, Recovered,
         Taken;
    LastAtRange(RedoAll(disk, log), log, UndoList(log, order), rid, k);
    LastAtIsOn(RedoAll(disk, log), log, UndoList(log, order), rid, k);
    LastStepDecides(db, log, disk, upTo, order, rid, k);
    CommittedIs(db, log, rid, w);
    HandedOver(db, log, UndoList(log, order)[k], w, rid);
  }

  /** With nothing on the row in between, a record found the row the last committed write had left. */
  lemma FoundCommitted(db: Db, log: seq<LogRecord>, rid: Rid, w: int, u: nat)
    requires Legal(db, log) && rid.page in db && rid.slot >= 0 && LastCommitted(log, rid, w) && w < u < |log|
    requires forall i | w < i < u :: !OnRid(log[i].body, rid)
    ensures SlotOf(Hist(db, log[..u]), rid) == Replay(SlotOf(db, rid), log, rid, LoserRecords(log))
  {
    hide Legal, Hist, SlotOf, Active, LoserRecords;
    var init := SlotOf(db, rid);
    LegalPrefix(db, log, u);
    HistSlot(db, log[..u], rid);
    LastWriteWins(init, log[..u], rid, {}, w);
    CommittedIs(db, log, rid, w);
  }

  /**
   The step takes back a record newer than the last committed write, with nothing on the row in between: then the
   committed row is restored if and only if the step can change the row back.
   */
  lemma CommittedImageBack(
    db: Db, log: seq<LogRecord>, disk: Db, upTo: map<int, nat>, order: seq<int>, rid: Rid, k: nat, w: int)
    requires EngineLog(db, log) && DiskImage(db, log, disk, upTo) && OrderOf(order, Active(log).Keys)
    requires PagesFit(db, db.Keys) && rid.page in db && rid.slot >= 0
    requires LastAt(RedoAll(disk, log), log, UndoList(log, order), rid, k)
    requires var b := log[UndoList(log, order)[k]].body; b.Insert? || b.Update?
    requires LastCommitted(log, rid, w) && w < UndoList(log, order)[k]
    requires forall i | w < i < UndoList(log, order)[k] :: !OnRid(log[i].body, rid)
    ensures var us, after := UndoList(log, order), Recovered(disk, log, order);
            var u, now := us[k], UndoAll(RedoAll(disk, log), log, us[..k]);
            && Replay(SlotOf(db, rid), log, rid, LoserRecords(log)) == SlotOf(Hist(db, log[..u]), rid)
            && (after.Finished? ==> (Restored(db, log, after.db, rid) <==> Taken(now, log[u])))
  {
    hide HandOver, Settled, WellChained, EndsFinal, RoomAt, Replay, Hist, Active, LastAt, LastCommitted, SlotOf,
         UndoList,
         UndoAll, RedoAll, Recovered, Taken, PagesFit, Legal;
    var us, cur := UndoList(log, order), RedoAll(disk, log);
    LastAtRange(cur, log, us, rid, k);
    LastAtIsOn(cur, log, us, rid, k);
    LastStepDecides(db, log, disk, upTo, order, rid, k);
    FoundCommitted(db, log, rid, w, us[k]);
    LegalPrefix(db, log, us[k]);
    BeforeImage(Hist(db, log[..us[k]]), log[us[k]]);
    RedoRepeatsHistory(db, log, disk, upTo);
    RedoneFits(db, log, cur);
    UndoAllFits(db, log, cur, us[..k]);
    NotTakenDiffers(UndoAll(cur, log, us[..k]), log[us[k]], db.Keys);
  }

  /** A step that cannot change the row leaves another one than the before-image. */
  lemma NotTakenDiffers(now: Db, r: LogRecord, pages: set<int>)
    requires (r.body.Insert? || r.body.Update?) && r.body.rid.page in now && r.body.rid.page in pages
    requires r.body.rid.slot >= 0 && PagesFit(now, pages)
    ensures !Taken(now, r) ==> r.body.Update? && SlotOf(now, r.body.rid) != Live(r.body.oldTuple)
  {
    hide PagesFit, RoomAt;
    if r.body.Update? {
      NoRoomShorter(now, r, pages);
    }
  }

  // ---------- losers that only marked the row ----------

  /** The same bytes or none, marked or not. */
  predicate SameRow(s: Slot, t: Slot) {
    if s.Empty? then t.Empty? else !t.Empty? && s.bytes == t.bytes
  }

  predicate OnlyMarks(b: Body) {
    b.MarkDelete? || b.RollbackDelete?
  }

  /** Losers did no more to the row than mark and unmark it, and unmarked nothing they had not marked. */
  ghost predicate MarksOnly(log: seq<LogRecord>, rid: Rid) {
    forall i | i in LoserRecords(log) && OnRid(log[i].body, rid) ::
      && OnlyMarks(log[i].body)
      && (log[i].body.RollbackDelete? ==> exists j | 0 <= j < i :: log[j].txn == log[i].txn && OnRid(log[j].body, rid))
  }

  lemma {:induction false} MarksSkipped(init: Slot, log: seq<LogRecord>, rid: Rid, skip: set<nat>)
    requires forall i | 0 <= i < |log| && i in skip && OnRid(log[i].body, rid) :: OnlyMarks(log[i].body)
    ensures SameRow(Replay(init, log, rid, skip), Replay(init, log, rid, {}))
  {
    if log != [] {
      MarksSkipped(init, log[..|log| - 1], rid, skip);
    }
  }

  /** No row of another RID is put into the slot on the way. */
  ghost predicate NoneLands(cur: Db, log: seq<LogRecord>, us: seq<nat>, rid: Rid)
    requires forall i | 0 <= i < |us| :: us[i] < |log|
  {
    forall i | 0 <= i < |us| :: !Lands(UndoAll(cur, log, us[..i]), log[us[i]], rid)
  }

  lemma {:induction false} MarksUndone(db: Db, log: seq<LogRecord>, cur: Db, us: seq<nat>, rid: Rid)
    requires Legal(db, log) && db.Keys <= cur.Keys && rid.slot >= 0
    requires (forall i | 0 <= i < |us| :: us[i] < |log|) && NoneLands(cur, log, us, rid)
    requires forall i | 0 <= i < |us| && OnRid(log[us[i]].body, rid) :: OnlyMarks(log[us[i]].body)
    ensures SameRow(SlotOf(UndoAll(cur, log, us), rid), SlotOf(cur, rid))
  {
    hide Legal, LegalOn, Lands, RoomAt, UndoOne, Hist, SlotOf;
    if us != [] {
      var n := |us| - 1;
      forall i | 0 <= i < n ensures us[..n][..i] == us[..i] {
      }
      assert us[..n] == us[..|us| - 1];
      MarksUndone(db, log, cur, us[..n], rid);
      LegalPrefix(db, log, us[n]);
      LegalRid(Hist(db, log[..us[n]]), log[us[n]]);
      var now := UndoAll(cur, log, us[..n]);
      if OnSlot(log[us[n]].body) {
        UndoSlot(now, log[us[n]], rid);
      } else {
        UndoNothing(now, log[us[n]]);
      }
    }
  }

  /** Where nothing undone is on the row, it stays as redo left it. */
  lemma {:induction false} NoneUndone(db: Db, log: seq<LogRecord>, cur: Db, us: seq<nat>, rid: Rid)
    requires Legal(db, log) && db.Keys <= cur.Keys && rid.slot >= 0
    requires (forall i | 0 <= i < |us| :: us[i] < |log|) && NoneLands(cur, log, us, rid)
    requires forall i | 0 <= i < |us| :: !OnRid(log[us[i]].body, rid)
    ensures SlotOf(UndoAll(cur, log, us), rid) == SlotOf(cur, rid)
  {
    hide Legal, LegalOn, Lands, RoomAt, UndoOne, Hist, SlotOf;
    if us != [] {
      var n := |us| - 1;
      forall i | 0 <= i < n ensures us[..n][..i] == us[..i] {
      }
      NoneUndone(db, log, cur, us[..n], rid);
      LegalPrefix(db, log, us[n]);
      LegalRid(Hist(db, log[..us[n]]), log[us[n]]);
      if OnSlot(log[us[n]].body) {
        UndoSlot(UndoAll(cur, log, us[..n]), log[us[n]], rid);
      } else {
        UndoNothing(UndoAll(cur, log, us[..n]), log[us[n]]);
      }
    }
  }

  /** The last step at the row, if there is one. */
  lemma LastStep(cur: Db, log: seq<LogRecord>, us: seq<nat>, rid: Rid) returns (k: int)
    requires (forall i | 0 <= i < |us| :: us[i] < |log|) && NoneLands(cur, log, us, rid)
    ensures k == -1 ==> forall i | 0 <= i < |us| :: !OnRid(log[us[i]].body, rid)
    ensures k != -1 ==> k >= 0 && LastAt(cur, log, us, rid, k)
  {
    hide Lands, UndoAll;
    k := |us| - 1;
    while k >= 0 && !OnRid(log[us[k]].body, rid)
      invariant -1 <= k < |us| && forall i | k < i < |us| :: !OnRid(log[us[i]].body, rid)
    {
      k := k - 1;
    }
  }

  /** If that step takes back a mark, the row ends up unmarked. */
  lemma UnmarkedLast(db: Db, log: seq<LogRecord>, cur: Db, us: seq<nat>, rid: Rid, k: nat)
    requires Legal(db, log) && db.Keys <= cur.Keys && rid.page in db && rid.slot >= 0
    requires LastAt(cur, log, us, rid, k) && log[us[k]].body.MarkDelete?
    ensures !SlotOf(UndoAll(cur, log, us), rid).Marked?
  {
    hide Legal, Lands, RoomAt, UndoOne, SlotOf, LastAt;
    LastAtRange(cur, log, us, rid, k);
    LastAtIsOn(cur, log, us, rid, k);
    LaterStepsKeep(db, log, cur, us, rid, k);
    UndoSlot(UndoAll(cur, log, us[..k]), log[us[k]], rid);
    OnlyDeletesLand(UndoAll(cur, log, us[..k]), log[us[k]], rid);
  }

  /** The last step at a row that losers only marked takes back a mark. */
  lemma MarkUndoneLast(log: seq<LogRecord>, order: seq<int>, cur: Db, rid: Rid, k: nat)
    requires WellChained(log) && OrderOf(order, Active(log).Keys) && MarksOnly(log, rid)
    requires LastAt(cur, log, UndoList(log, order), rid, k)
    ensures log[UndoList(log, order)[k]].body.MarkDelete?
  {
    hide Active, UndoList, WellChained, LastAt;
    var us := UndoList(log, order);
    LastAtRange(cur, log, us, rid, k);
    LastAtIsOn(cur, log, us, rid, k);
    OldestUndoneLast(log, order, cur, rid, k);
    assert us[k] in LoserRecords(log);
  }

  /**
   Reused or not, a row that losers only marked and unmarked has its committed value after recovery, in whatever
   order they are undone, unless a row of another RID is put into its slot.
   */
  lemma MarkedRowsRestored(db: Db, log: seq<LogRecord>, disk: Db, upTo: map<int, nat>, order: seq<int>, rid: Rid)
    requires EngineLog(db, log) && DiskImage(db, log, disk, upTo) && OrderOf(order, Active(log).Keys)
    requires rid.page in db && rid.slot >= 0 && !SlotOf(db, rid).Marked?
    requires MarksOnly(log, rid) && NoneLands(RedoAll(disk, log), log, UndoList(log, order), rid)
    ensures var after := Recovered(disk, log, order); after.Finished? ==> Restored(db, log, after.db, rid)
  {
    hide Legal, HandOver, Settled, WellChained, EndsFinal, Hist, Active, LastAt, NoneLands, SlotOf, UndoList, UndoAll,
         RedoAll, UndoRun, UndoRunSafe, Replay, SameRow;
    var us, cur, init := UndoList(log, order), RedoAll(disk, log), SlotOf(db, rid);
    UndoRunExact(cur, log, us);
    RedoRepeatsHistory(db, log, disk, upTo);
    HistSlot(db, log, rid);
    SameSlots(Hist(db, log), cur, rid);
    UndoListCovers(log, order);
    CommittedNotMarked(db, log, rid);
    MarksSkipped(init, log, rid, LoserRecords(log));
    assert forall i | 0 <= i < |us| :: us[i] in Elems(us);
    MarksUndone(db, log, cur, us, rid);
    var k := LastStep(cur, log, us, rid);
    if k == -1 {
      NoneUndone(db, log, cur, us, rid);
      assert forall i | 0 <= i < |log| && i in LoserRecords(log) :: i in us;
      ReplayAgrees(init, log, rid, LoserRecords(log), {});
    } else {
      MarkUndoneLast(log, order, cur, rid, k);
      UnmarkedLast(db, log, cur, us, rid, k);
      RowsMatch(SlotOf(UndoAll(cur, log, us), rid), SlotOf(cur, rid), Replay(init, log, rid, LoserRecords(log)));
    }
  }

  lemma RowsMatch(s: Slot, t: Slot, u: Slot)
    requires SameRow(s, t) && SameRow(u, t) && !s.Marked? && !u.Marked?
    ensures s == u
  {
  }

  lemma SameSlots(a: Db, b: Db, rid: Rid)
    requires rid.page in a && rid.page in b && a[rid.page].slots == b[rid.page].slots
    ensures SlotOf(a, rid) == SlotOf(b, rid)
  {
  }
}
