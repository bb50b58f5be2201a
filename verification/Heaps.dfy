/** A table heap as a chain of slotted pages: what storage/access/table_heap.go does to its rows. */
module Heaps {
  import opened Bytes
  import opened Slots
  import opened LogRecords
  import opened Recovery

  /** Pages by id, the chain of one table, and the next page id the disk manager will hand out. */
  datatype Heap = Heap(pages: Db, chain: seq<int>, next: int)

  function Row(h: Heap, rid: Rid): Slot {
    SlotOf(h.pages, rid)
  }

  predicate OnHeap(h: Heap, rid: Rid) {
    rid.page in h.pages && rid.slot >= 0
  }

  predicate HeapOk(h: Heap) {
    && h.chain != []
    && (forall i | 0 <= i < |h.chain| :: h.chain[i] in h.pages)
    && (forall i, j | 0 <= i < j < |h.chain| :: h.chain[i] != h.chain[j])
    && (forall p | p in h.pages :: 0 <= p < h.next && Fits(h.pages[p].slots))
  }

  function SetSlots(h: Heap, page: int, d: seq<Slot>): Heap
    requires page in h.pages
  {
    h.(pages := h.pages[page := h.pages[page].(slots := d)])
  }

  lemma SetSlotsOk(h: Heap, page: int, d: seq<Slot>)
    requires HeapOk(h) && page in h.pages && Fits(d)
    ensures HeapOk(SetSlots(h, page, d))
  {
    hide Fits;
  }

  /** Only slot `k` of the page differs. */
  lemma SetSlotsRow(h: Heap, rid: Rid, d: seq<Slot>, other: Rid)
    requires OnHeap(h, rid) && other != rid
    requires forall i: nat | i != rid.slot :: At(d, i) == At(h.pages[rid.page].slots, i)
    ensures Row(SetSlots(h, rid.page, d), other) == Row(h, other)
  {
    hide At;
  }

  // ---------- insertion ----------

  /** The first page of the chain that takes the tuple; the chain's length if none does. */
  function FirstFit(pages: Db, chain: seq<int>, t: seq<byte>): (i: nat)
    requires forall i | 0 <= i < |chain| :: chain[i] in pages
    ensures i <= |chain|
    ensures i < |chain| ==> Slots.Insert(pages[chain[i]].slots, t).0.Inserted?
    ensures forall j | 0 <= j < i :: !Slots.Insert(pages[chain[j]].slots, t).0.Inserted?
  {
    if chain == [] then 0
    else if Slots.Insert(pages[chain[0]].slots, t).0.Inserted? then 0
    else
      var i := FirstFit(pages, chain[1..], t);
      assert forall j | 0 < j < 1 + i :: chain[j] == chain[1..][j - 1];
      1 + i
  }

  function HeapInsert(h: Heap, t: seq<byte>): (Heap, Rid)
    requires HeapOk(h)
  {
    var i := FirstFit(h.pages, h.chain, t);
    if i < |h.chain| then
      var p := h.chain[i];
      (SetSlots(h, p, Slots.Insert(h.pages[p].slots, t).1), Rid(p, FirstFree(h.pages[p].slots)))
    else
      (Heap(h.pages[h.next := PageState([Live(t)], 0)], h.chain + [h.next], h.next + 1), Rid(h.next, 0))
  }

  lemma FirstFitIs(pages: Db, chain: seq<int>, t: seq<byte>, i: nat)
    requires (forall j | 0 <= j < |chain| :: chain[j] in pages) && i <= |chain|
    requires i < |chain| ==> Slots.Insert(pages[chain[i]].slots, t).0.Inserted?
    requires forall j | 0 <= j < i :: !Slots.Insert(pages[chain[j]].slots, t).0.Inserted?
    ensures FirstFit(pages, chain, t) == i
  {
  }

  /** A new page takes exactly the tuples of 1 to 4064 bytes, and no page takes a longer one. */
  lemma FreshPageTakes(t: seq<byte>)
    ensures Slots.Insert([], t).0.Inserted? <==> 1 <= |t| <= 4064
  {
    var none: seq<Slot> := [];
    assert Lens(none) == [];
  }

  lemma TooLongForAnyPage(d: seq<Slot>, t: seq<byte>)
    requires |t| > 4064
    ensures Slots.Insert(d, t).0 == NotEnoughSpace
  {
  }

  /** Insertion adds exactly one row, at a RID that held none, and leaves the heap well-formed. */
  lemma InsertAddsOneRow(h: Heap, t: seq<byte>, rid: Rid)
    requires HeapOk(h) && 1 <= |t| <= 4064
    ensures var (h', new_) := HeapInsert(h, t);
            && HeapOk(h') && h.chain <= h'.chain && h.pages.Keys <= h'.pages.Keys && h.next <= h'.next
            && OnHeap(h', new_) && Row(h, new_) == Empty && Row(h', new_) == Live(t)
            && (rid != new_ ==> Row(h', rid) == Row(h, rid))
  {
    hide Slots.Insert, Fits;
    var i := FirstFit(h.pages, h.chain, t);
    if i < |h.chain| {
      InsertInPage(h, i, t, rid);
    } else {
      InsertInNewPage(h, t, rid);
    }
  }

  lemma InsertInPage(h: Heap, i: nat, t: seq<byte>, rid: Rid)
    requires HeapOk(h) && 1 <= |t| && i < |h.chain| && Slots.Insert(h.pages[h.chain[i]].slots, t).0.Inserted?
    ensures var p := h.chain[i];
            var new_ := Rid(p, FirstFree(h.pages[p].slots));
            var h' := SetSlots(h, p, Slots.Insert(h.pages[p].slots, t).1);
            HeapOk(h') && OnHeap(h', new_) && Row(h, new_) == Empty && Row(h', new_) == Live(t)
                && (rid != new_ ==> Row(h', rid) == Row(h, rid))
  {
    hide Fits;
    var p := h.chain[i];
    var d := h.pages[p].slots;
    PageFits(h, p);
    OperationsFit(d, 0, t);
    SetSlotsOk(h, p, Slots.Insert(d, t).1);
    if rid != Rid(p, FirstFree(d)) {
      SetSlotsRow(h, Rid(p, FirstFree(d)), Slots.Insert(d, t).1, rid);
    }
  }

  lemma PageFits(h: Heap, p: int)
    requires HeapOk(h) && p in h.pages
    ensures Fits(h.pages[p].slots)
  {
  }

  lemma InsertInNewPage(h: Heap, t: seq<byte>, rid: Rid)
    requires HeapOk(h) && 1 <= |t| <= 4064
    ensures var h' := Heap(h.pages[h.next := PageState([Live(t)], 0)], h.chain + [h.next], h.next + 1);
            && HeapOk(h') && Row(h, Rid(h.next, 0)) == Empty && Row(h', Rid(h.next, 0)) == Live(t)
            && (rid != Rid(h.next, 0) ==> Row(h', rid) == Row(h, rid))
  {
    hide Fits;
    NewPageFits(t);
    var first := h.chain[0];
    assert first in h.pages && 0 <= first < h.next;
    var h' := Heap(h.pages[h.next := PageState([Live(t)], 0)], h.chain + [h.next], h.next + 1);
    assert h.next !in h.pages;
    forall p | p in h'.pages ensures 0 <= p < h'.next && Fits(h'.pages[p].slots) {
      assert p != h.next ==> p in h.pages && h'.pages[p] == h.pages[p];
    }
  }

  lemma NewPageFits(t: seq<byte>)
    requires 1 <= |t| <= 4064
    ensures Fits([Live(t)])
  {
    FreshPageTakes(t);
    var none: seq<Slot> := [];
    assert Lens(none) == [] && Fits(none);
    PutFits(none, 0, Live(t));
    assert Put(none, 0, Live(t)) == [Live(t)];
  }

  /** The tuple goes to the first page of the chain it fits on, in its lowest free slot; else to a new last page. */
  lemma InsertTakesFirstFit(h: Heap, t: seq<byte>, i: nat)
    requires HeapOk(h) && 1 <= |t| <= 4064 && i <= |h.chain|
    requires forall j | 0 <= j < i :: !Fits(h.pages[h.chain[j]].slots + [Live(t)])
    requires i < |h.chain| ==> Fits(h.pages[h.chain[i]].slots + [Live(t)])
    ensures var (h', new_) := HeapInsert(h, t);
            && (i == |h.chain| ==> h'.chain == h.chain + [h.next] && h'.next == h.next + 1 && new_ == Rid(h.next, 0))
            && (i < |h.chain| ==>
                  && h'.chain == h.chain && h'.next == h.next && h'.pages.Keys == h.pages.Keys
                  && new_.page == h.chain[i] && forall k: nat | k < new_.slot :: Row(h, Rid(h.chain[i], k)) != Empty)
  {
    hide Fits, Slots.Insert;
    forall j | 0 <= j < |h.chain| && j <= i
      ensures Slots.Insert(h.pages[h.chain[j]].slots, t).0.Inserted? <==> j == i
    {
      PageFits(h, h.chain[j]);
      TakesExactly(h.pages[h.chain[j]].slots, t);
    }
    FirstFitIs(h.pages, h.chain, t, i);
  }

  lemma TakesExactly(d: seq<Slot>, t: seq<byte>)
    requires Fits(d) && t != []
    ensures Slots.Insert(d, t).0.Inserted? <==> Fits(d + [Live(t)])
  {
    RefusalsExact(d, 0, t);
  }

  // ---------- the other row operations ----------

  function HeapMark(h: Heap, rid: Rid): (r: (bool, Heap))
    requires OnHeap(h, rid)
    ensures HeapOk(h) ==> HeapOk(r.1)
  {
    assert HeapOk(h) ==> Fits(Slots.MarkDelete(h.pages[rid.page].slots, rid.slot).1) by {
      if HeapOk(h) {
        OperationsFit(h.pages[rid.page].slots, rid.slot, []);
      }
    }
    var (ok, d) := Slots.MarkDelete(h.pages[rid.page].slots, rid.slot);
    (ok, SetSlots(h, rid.page, d))
  }

  function HeapApply(h: Heap, rid: Rid): Heap
    requires OnHeap(h, rid)
  {
    var d := h.pages[rid.page].slots;
    SetSlots(h, rid.page, if rid.slot < |d| then Slots.ApplyDelete(d, rid.slot) else d)
  }

  function HeapRollback(h: Heap, rid: Rid): Heap
    requires OnHeap(h, rid)
  {
    var d := h.pages[rid.page].slots;
    SetSlots(h, rid.page, if rid.slot < |d| then Slots.RollbackDelete(d, rid.slot) else d)
  }

  function PageUpdate(h: Heap, rid: Rid, t: seq<byte>): (UpdateResult, seq<Slot>)
    requires OnHeap(h, rid)
  {
    Slots.Update(h.pages[rid.page].slots, rid.slot, t)
  }

  /** `TableHeap.UpdateTuple`: in place, or deleted here and inserted elsewhere when the page is full. */
  function HeapUpdate(h: Heap, rid: Rid, t: seq<byte>): Heap
    requires HeapOk(h) && OnHeap(h, rid)
  {
    var (r, d) := PageUpdate(h, rid, t);
    if r == NoRoom then
      HeapInsert(HeapMark(h, rid).1, t).0
    else SetSlots(h, rid.page, d)
  }

  lemma RowOpsOk(h: Heap, rid: Rid, t: seq<byte>)
    requires HeapOk(h) && OnHeap(h, rid) && t != []
    ensures HeapOk(HeapMark(h, rid).1) && HeapOk(HeapApply(h, rid)) && HeapOk(HeapRollback(h, rid))
    ensures PageUpdate(h, rid, t).0 != NoRoom ==> HeapOk(HeapUpdate(h, rid, t))
  {
    hide HeapOk, Fits;
    var d := h.pages[rid.page].slots;
    PageFits(h, rid.page);
    OperationsFit(d, rid.slot, t);
    SetSlotsOk(h, rid.page, d);
    SetSlotsOk(h, rid.page, Slots.MarkDelete(d, rid.slot).1);
    SetSlotsOk(h, rid.page, Slots.Update(d, rid.slot, t).1);
    if rid.slot < |d| {
      SetSlotsOk(h, rid.page, Slots.ApplyDelete(d, rid.slot));
      SetSlotsOk(h, rid.page, Slots.RollbackDelete(d, rid.slot));
    }
  }

  lemma RowOpsLocal(h: Heap, rid: Rid, t: seq<byte>, other: Rid)
    requires HeapOk(h) && OnHeap(h, rid) && other != rid
    ensures Row(HeapMark(h, rid).1, other) == Row(h, other)
    ensures Row(HeapApply(h, rid), other) == Row(h, other)
    ensures Row(HeapRollback(h, rid), other) == Row(h, other)
    ensures PageUpdate(h, rid, t).0 != NoRoom ==> Row(HeapUpdate(h, rid, t), other) == Row(h, other)
  {
    hide HeapOk, Row, SetSlots;
    var d := h.pages[rid.page].slots;
    SetSlotsRow(h, rid, d, other);
    SetSlotsRow(h, rid, Slots.MarkDelete(d, rid.slot).1, other);
    SetSlotsRow(h, rid, Slots.Update(d, rid.slot, t).1, other);
    if rid.slot < |d| {
      SetSlotsRow(h, rid, Slots.ApplyDelete(d, rid.slot), other);
      SetSlotsRow(h, rid, Slots.RollbackDelete(d, rid.slot), other);
    }
  }

  /** What the operations do to the row itself. */
  lemma RowOpsHere(h: Heap, rid: Rid, t: seq<byte>)
    requires HeapOk(h) && OnHeap(h, rid)
    ensures Row(HeapMark(h, rid).1, rid) == if Row(h, rid).Live? then Marked(Row(h, rid).bytes) else Row(h, rid)
    ensures HeapMark(h, rid).0 <==> Row(h, rid).Live?
    ensures Row(HeapApply(h, rid), rid) == Empty
    ensures Row(HeapRollback(h, rid), rid) == if Row(h, rid).Marked? then Live(Row(h, rid).bytes) else Row(h, rid)
    ensures PageUpdate(h, rid, t).0 != NoRoom
            ==> Row(HeapUpdate(h, rid, t), rid) == if Row(h, rid).Live? then Live(t) else Row(h, rid)
    ensures PageUpdate(h, rid, t).0 == Refused <==> !Row(h, rid).Live?
  {
    hide HeapOk;
  }

  // ---------- write sets and rollback ----------

  datatype WType = INSERT | DELETE | UPDATE

  /** An entry of a transaction's write set; the old row is kept for updates only. */
  datatype WriteRecord = WriteRecord(rid: Rid, wtype: WType, tuple: seq<byte>)

  /** What `Abort` does for one entry. */
  function UndoWrite(h: Heap, w: WriteRecord): Heap
    requires HeapOk(h) && OnHeap(h, w.rid)
  {
    match w.wtype
    case DELETE => HeapRollback(h, w.rid)
    case INSERT => HeapApply(h, w.rid)
    case UPDATE => HeapUpdate(h, w.rid, w.tuple)
  }

  predicate WritesOk(h: Heap, ws: seq<WriteRecord>) {
    HeapOk(h) && forall i | 0 <= i < |ws| ::
         OnHeap(h, ws[i].rid) && (ws[i].wtype.UPDATE? ==> 1 <= |ws[i].tuple| <= 4064)
  }

  lemma MarkSamePages(h: Heap, rid: Rid)
    requires OnHeap(h, rid)
    ensures HeapMark(h, rid).1.pages.Keys == h.pages.Keys
  {
  }

  lemma UndoWriteOk(h: Heap, w: WriteRecord)
    requires HeapOk(h) && OnHeap(h, w.rid) && (w.wtype.UPDATE? ==> 1 <= |w.tuple| <= 4064)
    ensures HeapOk(UndoWrite(h, w)) && h.pages.Keys <= UndoWrite(h, w).pages.Keys
  {
    hide HeapOk, HeapMark, HeapInsert, PageUpdate, Row, Slots.ApplyDelete, Slots.RollbackDelete;
    if w.wtype.UPDATE? {
      RowOpsOk(h, w.rid, w.tuple);
      MarkSamePages(h, w.rid);
      if PageUpdate(h, w.rid, w.tuple).0 == NoRoom {
        InsertAddsOneRow(HeapMark(h, w.rid).1, w.tuple, w.rid);
      }
    } else {
      RowOpsOk(h, w.rid, [0]);
    }
  }

  /** `Abort`'s loop over the write set, newest entry first. */
  function AbortAll(h: Heap, ws: seq<WriteRecord>): Heap
    requires WritesOk(h, ws)
    decreases |ws|
  {
    if ws == [] then h
    else
      var n := |ws| - 1;
      UndoWriteOk(h, ws[n]);
      AbortAll(UndoWrite(h, ws[n]), ws[..n])
  }

  /** No update is undone on a page without room for the old row. */
  predicate RoomToAbort(h: Heap, ws: seq<WriteRecord>)
    requires WritesOk(h, ws)
    decreases |ws|
  {
    ws == [] ||
    (var n := |ws| - 1;
     var w := ws[n];
     UndoWriteOk(h, w);
     (w.wtype.UPDATE? ==> PageUpdate(h, w.rid, w.tuple).0 != NoRoom) && RoomToAbort(UndoWrite(h, w), ws[..n]))
  }

  /** The row of a write's RID just before and just after it. */
  datatype Touch = Touch(before: Slot, after: Slot)

  /** What an entry of the write set says about its row; an UPDATE entry may stand for a moved row. */
  predicate TouchOk(w: WriteRecord, t: Touch) {
    match w.wtype
    case INSERT => t.before == Empty && t.after.Live?
    case DELETE => t.before.Live? && t.after == Marked(t.before.bytes)
    case UPDATE => (t.before == Live(w.tuple) && t.after.Live?) || (t.before == t.after == Marked(w.tuple))
  }

  /** The row of `rid` after the writes, `init` if none touched it. */
  function Latest(ws: seq<WriteRecord>, ts: seq<Touch>, rid: Rid, init: Slot): Slot
    requires |ts| == |ws|
  {
    if ws == [] then init
    else if ws[|ws| - 1].rid == rid then ts[|ws| - 1].after
    else Latest(ws[..|ws| - 1], ts[..|ws| - 1], rid, init)
  }

  /** The row of `rid` before the first write to it, `init` if there is none. */
  function Earliest(ws: seq<WriteRecord>, ts: seq<Touch>, rid: Rid, init: Slot): Slot
    requires |ts| == |ws|
  {
    if ws == [] then init
    else if ws[|ws| - 1].rid == rid then Earliest(ws[..|ws| - 1], ts[..|ws| - 1], rid, ts[|ws| - 1].before)
    else Earliest(ws[..|ws| - 1], ts[..|ws| - 1], rid, init)
  }

  /** The touches of one transaction: each finds the row as its last own write left it. */
  predicate History(ws: seq<WriteRecord>, ts: seq<Touch>) {
    && |ts| == |ws|
    && (forall i | 0 <= i < |ws| :: TouchOk(ws[i], ts[i]))
    && (forall i | 0 <= i < |ws| :: ts[i].before == Latest(ws[..i], ts[..i], ws[i].rid, ts[i].before))
  }

  /** Nobody else has changed the rows since: they are as the transaction's last writes left them. */
  ghost predicate Untouched(h: Heap, ws: seq<WriteRecord>, ts: seq<Touch>)
    requires |ts| == |ws|
  {
    forall rid: Rid :: Row(h, rid) == Latest(ws, ts, rid, Row(h, rid))
  }

  lemma HistoryPrefix(ws: seq<WriteRecord>, ts: seq<Touch>)
    requires History(ws, ts) && ws != []
    ensures History(ws[..|ws| - 1], ts[..|ws| - 1])
  {
    var n := |ws| - 1;
    forall i | 0 <= i < n ensures ts[i].before == Latest(ws[..n][..i], ts[..n][..i], ws[i].rid, ts[i].before) {
      assert ws[..n][..i] == ws[..i] && ts[..n][..i] == ts[..i];
    }
  }

  /** The undo of one entry, on the row as the entry left it. */
  lemma UndoWriteRow(h: Heap, w: WriteRecord, t: Touch, rid: Rid)
    requires HeapOk(h) && OnHeap(h, w.rid) && TouchOk(w, t) && Row(h, w.rid) == t.after
    requires w.wtype.UPDATE? ==> PageUpdate(h, w.rid, w.tuple).0 != NoRoom
    ensures Row(UndoWrite(h, w), rid) == if rid == w.rid then t.before else Row(h, rid)
  {
    hide HeapOk, Row, HeapMark, HeapApply, HeapRollback, HeapUpdate, PageUpdate;
    RowOpsHere(h, w.rid, w.tuple);
    if rid != w.rid {
      RowOpsLocal(h, w.rid, w.tuple, rid);
    }
  }

  /** One step back: with room, the newest write's row is as before it and no other row changes. */
  lemma UndoOneWrite(h: Heap, ws: seq<WriteRecord>, ts: seq<Touch>, rid: Rid)
    requires WritesOk(h, ws) && History(ws, ts) && Untouched(h, ws, ts) && ws != []
    requires var w := ws[|ws| - 1]; w.wtype.UPDATE? ==> PageUpdate(h, w.rid, w.tuple).0 != NoRoom
    ensures var n := |ws| - 1;
            var h1 := UndoWrite(h, ws[n]);
            && WritesOk(h1, ws[..n])
            && Row(h1, rid) == (if rid == ws[n].rid then ts[n].before else Row(h, rid))
            && Row(h1, rid) == Latest(ws[..n], ts[..n], rid, Row(h1, rid))
            && Earliest(ws, ts, rid, Row(h, rid)) == Earliest(ws[..n], ts[..n], rid, Row(h1, rid))
  {
    hide HeapOk, Row, UndoWrite, TouchOk, PageUpdate;
    var n := |ws| - 1;
    UndoWriteOk(h, ws[n]);
    assert Row(h, ws[n].rid) == Latest(ws, ts, ws[n].rid, Row(h, ws[n].rid));
    assert Row(h, rid) == Latest(ws, ts, rid, Row(h, rid));
    UndoWriteRow(h, ws[n], ts[n], rid);
  }

  /** With room for every undone update, each touched row is as the transaction found it; no other changes. */
  lemma {:induction false} AbortRestores(h: Heap, ws: seq<WriteRecord>, ts: seq<Touch>, rid: Rid)
    requires WritesOk(h, ws) && History(ws, ts) && Untouched(h, ws, ts) && RoomToAbort(h, ws)
    ensures Row(AbortAll(h, ws), rid) == Earliest(ws, ts, rid, Row(h, rid))
    decreases |ws|
  {
    if ws != [] {
      var n := |ws| - 1;
      var h1 := UndoWrite(h, ws[n]);
      HistoryPrefix(ws, ts);
      forall r: Rid ensures Row(h1, r) == Latest(ws[..n], ts[..n], r, Row(h1, r)) {
        UndoOneWrite(h, ws, ts, r);
      }
      UndoOneWrite(h, ws, ts, rid);
      AbortRestores(h1, ws[..n], ts[..n], rid);
    }
  }

  lemma UndoKeepsRow(h: Heap, w: WriteRecord, rid: Rid)
    requires HeapOk(h) && OnHeap(h, w.rid) && (w.wtype.UPDATE? ==> 1 <= |w.tuple| <= 4064)
    requires Row(h, rid) != Empty && rid != w.rid
    ensures Row(UndoWrite(h, w), rid) == Row(h, rid)
  {
    hide HeapOk, Row, HeapMark, HeapApply, HeapRollback, HeapInsert, PageUpdate;
    RowOpsLocal(h, w.rid, w.tuple, rid);
    if w.wtype.UPDATE? && PageUpdate(h, w.rid, w.tuple).0 == NoRoom {
      InsertAddsOneRow(HeapMark(h, w.rid).1, w.tuple, rid);
    }
  }

  /** A row no write touched and that is there stays, whatever else rollback does. */
  lemma {:induction false} AbortKeepsRow(h: Heap, ws: seq<WriteRecord>, rid: Rid)
    requires WritesOk(h, ws) && Row(h, rid) != Empty && forall i | 0 <= i < |ws| :: ws[i].rid != rid
    ensures Row(AbortAll(h, ws), rid) == Row(h, rid)
    decreases |ws|
  {
    if ws != [] {
      var n := |ws| - 1;
      var w := ws[n];
      UndoWriteOk(h, w);
      UndoKeepsRow(h, w, rid);
      AbortKeepsRow(UndoWrite(h, w), ws[..n], rid);
    }
  }

  lemma {:induction false} LatestNotEmpty(ws: seq<WriteRecord>, ts: seq<Touch>, rid: Rid, i: nat)
    requires |ts| == |ws| && (forall j | 0 <= j < |ws| :: TouchOk(ws[j], ts[j])) && i < |ws| && ws[i].rid == rid
    ensures Latest(ws, ts, rid, Empty) != Empty
    ensures forall init :: Latest(ws, ts, rid, init) == Latest(ws, ts, rid, Empty)
  {
    var n := |ws| - 1;
    if ws[n].rid != rid {
      LatestNotEmpty(ws[..n], ts[..n], rid, i);
    }
  }

  lemma {:induction false} EarliestUntouched(ws: seq<WriteRecord>, ts: seq<Touch>, rid: Rid, init: Slot)
    requires |ts| == |ws| && forall j | 0 <= j < |ws| :: ws[j].rid != rid
    ensures Earliest(ws, ts, rid, init) == init
  {
    if ws != [] {
      EarliestUntouched(ws[..|ws| - 1], ts[..|ws| - 1], rid, init);
    }
  }

  /** An undo without room leaves a copy of the old row where there was none before. */
  lemma MovedUndoLeavesCopy(h: Heap, ws: seq<WriteRecord>, ts: seq<Touch>) returns (copy: Rid)
    requires WritesOk(h, ws) && History(ws, ts) && Untouched(h, ws, ts) && ws != []
    requires var w := ws[|ws| - 1]; w.wtype.UPDATE? && PageUpdate(h, w.rid, w.tuple).0 == NoRoom
    ensures Row(AbortAll(h, ws), copy) != Earliest(ws, ts, copy, Row(h, copy))
  {
    hide HeapOk, Row, HeapMark, HeapInsert, PageUpdate, TouchOk;
    var n := |ws| - 1;
    var w := ws[n];
    copy := MoveCopies(h, w);
    UndoWriteOk(h, w);
    forall j | 0 <= j < |ws| ensures ws[j].rid != copy {
      assert Row(h, copy) == Latest(ws, ts, copy, Row(h, copy));
      if ws[j].rid == copy {
        LatestNotEmpty(ws, ts, copy, j);
        assert false;
      }
    }
    EarliestUntouched(ws, ts, copy, Empty);
    AbortKeepsRow(UndoWrite(h, w), ws[..n], copy);
  }

  lemma MoveCopies(h: Heap, w: WriteRecord) returns (copy: Rid)
    requires HeapOk(h) && OnHeap(h, w.rid) && w.wtype.UPDATE? && 1 <= |w.tuple| <= 4064
    requires PageUpdate(h, w.rid, w.tuple).0 == NoRoom
    ensures Row(h, copy) == Empty && Row(UndoWrite(h, w), copy) == Live(w.tuple)
  {
    hide HeapOk, Row, HeapMark, HeapInsert, PageUpdate;
    var marked := HeapMark(h, w.rid).1;
    copy := HeapInsert(marked, w.tuple).1;
    InsertAddsOneRow(marked, w.tuple, copy);
    RowOpsHere(h, w.rid, w.tuple);
    if copy != w.rid {
      RowOpsLocal(h, w.rid, w.tuple, copy);
    }
  }

  lemma {:induction false} AbortFails(h: Heap, ws: seq<WriteRecord>, ts: seq<Touch>) returns (rid: Rid)
    requires WritesOk(h, ws) && History(ws, ts) && Untouched(h, ws, ts) && !RoomToAbort(h, ws)
    ensures Row(AbortAll(h, ws), rid) != Earliest(ws, ts, rid, Row(h, rid))
    decreases |ws|
  {
    var n := |ws| - 1;
    var w := ws[n];
    if w.wtype.UPDATE? && PageUpdate(h, w.rid, w.tuple).0 == NoRoom {
      rid := MovedUndoLeavesCopy(h, ws, ts);
    } else {
      var h1 := UndoWrite(h, w);
      HistoryPrefix(ws, ts);
      forall r: Rid ensures Row(h1, r) == Latest(ws[..n], ts[..n], r, Row(h1, r)) {
        UndoOneWrite(h, ws, ts, r);
      }
      UndoOneWrite(h, ws, ts, Rid(0, 0));
      rid := AbortFails(h1, ws[..n], ts[..n]);
      UndoOneWrite(h, ws, ts, rid);
    }
  }

  /** Rollback is an exact inverse if and only if every undone update finds room on its page. */
  lemma AbortExact(h: Heap, ws: seq<WriteRecord>, ts: seq<Touch>)
    requires WritesOk(h, ws) && History(ws, ts) && Untouched(h, ws, ts)
    ensures RoomToAbort(h, ws) <==> forall rid: Rid :: Row(AbortAll(h, ws), rid) == Earliest(ws, ts, rid, Row(h, rid))
  {
    if RoomToAbort(h, ws) {
      forall rid: Rid ensures Row(AbortAll(h, ws), rid) == Earliest(ws, ts, rid, Row(h, rid)) {
        AbortRestores(h, ws, ts, rid);
      }
    } else {
      var rid := AbortFails(h, ws, ts);
    }
  }

  // ---------- a transaction at work ----------

  /** The heap, the transaction's write set, and (for the proof) what each entry did to its row. */
  datatype Work = Work(heap: Heap, writes: seq<WriteRecord>, touches: seq<Touch>)

  predicate WorkOk(w: Work) {
    HeapOk(w.heap)
  }

  function Note(w: Work, h: Heap, rid: Rid, wtype: WType, old_: seq<byte>, after: Slot): Work {
    Work(h, w.writes + [WriteRecord(rid, wtype, old_)], w.touches + [Touch(Row(w.heap, rid), after)])
  }

  /** `TableHeap.InsertTuple`. */
  function DoInsert(w: Work, t: seq<byte>): Work
    requires WorkOk(w)
  {
    var (h, rid) := HeapInsert(w.heap, t);
    Note(w, h, rid, INSERT, [], Live(t))
  }

  /** `TableHeap.MarkDelete`. */
  function DoDelete(w: Work, rid: Rid): Work
    requires WorkOk(w) && OnHeap(w.heap, rid)
  {
    var (ok, h) := HeapMark(w.heap, rid);
    if ok then Note(w, h, rid, DELETE, [], Row(h, rid)) else w
  }

  /** `TableHeap.UpdateTuple`: a row that does not fit any more leaves a DELETE, an INSERT and an UPDATE entry. */
  function DoUpdate(w: Work, rid: Rid, t: seq<byte>): Work
    requires WorkOk(w) && OnHeap(w.heap, rid)
  {
    var (r, d) := PageUpdate(w.heap, rid, t);
    match r
    case Refused => w
    case Updated => Note(w, SetSlots(w.heap, rid.page, d), rid, UPDATE, Row(w.heap, rid).bytes, Live(t))
    case NoRoom =>
      var old_ := Row(w.heap, rid).bytes;
      var w1 := DoDelete(w, rid);
      var w2 := DoInsert(w1, t);
      Note(w2, w2.heap, rid, UPDATE, old_, Row(w2.heap, rid))
  }

  /** The entries of a move: the old place deleted, the new one inserted. */
  function MoveWrites(h: Heap, rid: Rid, t: seq<byte>): seq<WriteRecord>
    requires HeapOk(h) && OnHeap(h, rid)
  {
    [WriteRecord(rid, DELETE, []), WriteRecord(HeapInsert(HeapMark(h, rid).1, t).1, INSERT, [])]
  }

  /** The entries an update appends to the write set. */
  function UpdateWrites(h: Heap, rid: Rid, t: seq<byte>): seq<WriteRecord>
    requires HeapOk(h) && OnHeap(h, rid)
  {
    match PageUpdate(h, rid, t).0
    case Refused => []
    case Updated => [WriteRecord(rid, UPDATE, Row(h, rid).bytes)]
    case NoRoom => MoveWrites(h, rid, t) + [WriteRecord(rid, UPDATE, Row(h, rid).bytes)]
  }

  lemma DoUpdateIs(w: Work, rid: Rid, t: seq<byte>)
    requires WorkOk(w) && OnHeap(w.heap, rid)
    ensures DoUpdate(w, rid, t).heap == if PageUpdate(w.heap, rid, t).0 == Refused then w.heap
            else HeapUpdate(w.heap, rid, t)
    ensures DoUpdate(w, rid, t).writes == w.writes + UpdateWrites(w.heap, rid, t)
  {
    hide HeapOk, HeapInsert;
    RowOpsHere(w.heap, rid, t);
  }

  /** The row has left `rid`, marked as deleted there, for the one place `to`, which was empty. */
  ghost predicate Moved(h: Heap, h': Heap, rid: Rid, t: seq<byte>, to: Rid) {
    && Row(h, rid).Live? && Row(h', rid) == Marked(Row(h, rid).bytes)
    && to != rid && Row(h, to) == Empty && Row(h', to) == Live(t)
    && forall r: Rid | r != rid && r != to :: Row(h', r) == Row(h, r)
  }

  /** What an update does to the rows and to the write set: nothing, a change in place, or a move. */
  ghost predicate UpdateOutcome(h: Heap, h': Heap, ws: seq<WriteRecord>, rid: Rid, t: seq<byte>)
    requires OnHeap(h, rid)
  {
    if !Row(h, rid).Live? then ws == [] && forall r: Rid :: Row(h', r) == Row(h, r)
    else if Fits(h.pages[rid.page].slots[rid.slot := Live(t)]) then
      && ws == [WriteRecord(rid, UPDATE, Row(h, rid).bytes)] && Row(h', rid) == Live(t)
      && forall r: Rid | r != rid :: Row(h', r) == Row(h, r)
    else
      && |ws| == 3 && Moved(h, h', rid, t, ws[1].rid)
      && ws == [WriteRecord(rid, DELETE, []), WriteRecord(ws[1].rid, INSERT, []),
                WriteRecord(rid, UPDATE, Row(h, rid).bytes)]
  }

  /**
   An update of a live row changes it in place if the page has room, and otherwise moves it to exactly one new
   place; the write set names every row that changed, and no other row did.
   */
  lemma UpdateExact(h: Heap, rid: Rid, t: seq<byte>)
    requires HeapOk(h) && OnHeap(h, rid) && 1 <= |t| <= 4064
    ensures HeapOk(HeapUpdate(h, rid, t))
    ensures UpdateOutcome(h, HeapUpdate(h, rid, t), UpdateWrites(h, rid, t), rid, t)
  {
    hide HeapOk, Row, HeapMark, HeapInsert, PageUpdate, Fits;
    RowOpsHere(h, rid, t);
    RowOpsOk(h, rid, t);
    RoomExact(h, rid, t);
    var h' := HeapUpdate(h, rid, t);
    if PageUpdate(h, rid, t).0 == NoRoom {
      MovedOnce(h, rid, t);
    } else {
      forall r: Rid | r != rid ensures Row(h', r) == Row(h, r) {
        RowOpsLocal(h, rid, t, r);
      }
    }
  }

  lemma RoomExact(h: Heap, rid: Rid, t: seq<byte>)
    requires HeapOk(h) && OnHeap(h, rid) && t != []
    ensures PageUpdate(h, rid, t).0 == NoRoom
            <==> Row(h, rid).Live? && !Fits(h.pages[rid.page].slots[rid.slot := Live(t)])
    ensures Row(h, rid).Live? ==> rid.slot < |h.pages[rid.page].slots|
  {
    hide Fits, Slots.Update;
    PageFits(h, rid.page);
    RefusalsExact(h.pages[rid.page].slots, rid.slot, t);
  }

  lemma MovedOnce(h: Heap, rid: Rid, t: seq<byte>)
    requires HeapOk(h) && OnHeap(h, rid) && 1 <= |t| <= 4064 && PageUpdate(h, rid, t).0 == NoRoom
    ensures var (h', to) := HeapInsert(HeapMark(h, rid).1, t); HeapOk(h') && Moved(h, h', rid, t, to)
  {
    hide HeapOk, Row, HeapMark, HeapInsert, PageUpdate, Fits;
    RowOpsHere(h, rid, t);
    RoomExact(h, rid, t);
    var marked := HeapMark(h, rid).1;
    var (h', to) := HeapInsert(marked, t);
    InsertAddsOneRow(marked, t, rid);
    assert to != rid;
    forall r: Rid | r != rid && r != to ensures Row(h', r) == Row(h, r) {
      RowOpsLocal(h, rid, t, r);
      InsertAddsOneRow(marked, t, r);
    }
    RowOpsLocal(h, rid, t, to);
  }

  datatype Step =
    | Inserting(tuple: seq<byte>)
    | Updating(rid: Rid, tuple: seq<byte>)
    | Deleting(rid: Rid)
    | Others(heap: Heap)

  /** Others may do anything except change the rows the transaction has written, which it has locked. */
  predicate StepOk(w: Work, s: Step) {
    match s
    case Inserting(t) => 1 <= |t| <= 4064
    case Updating(rid, t) => OnHeap(w.heap, rid) && 1 <= |t| <= 4064
    case Deleting(rid) => OnHeap(w.heap, rid)
    case Others(h) =>
      && HeapOk(h) && w.heap.pages.Keys <= h.pages.Keys
      && forall i | 0 <= i < |w.writes| :: Row(h, w.writes[i].rid) == Row(w.heap, w.writes[i].rid)
  }

  function DoStep(w: Work, s: Step): Work
    requires WorkOk(w) && StepOk(w, s)
  {
    match s
    case Inserting(t) => DoInsert(w, t)
    case Updating(rid, t) => DoUpdate(w, rid, t)
    case Deleting(rid) => DoDelete(w, rid)
    case Others(h) => w.(heap := h)
  }

  /** What every state of a transaction's run satisfies. */
  ghost predicate WorkInv(w: Work) {
    && WritesOk(w.heap, w.writes) && History(w.writes, w.touches) && Untouched(w.heap, w.writes, w.touches)
  }

  lemma NoteHistory(w: Work, h: Heap, rid: Rid, wtype: WType, old_: seq<byte>, after: Slot)
    requires History(w.writes, w.touches) && Untouched(w.heap, w.writes, w.touches)
    requires TouchOk(WriteRecord(rid, wtype, old_), Touch(Row(w.heap, rid), after))
    ensures var w' := Note(w, h, rid, wtype, old_, after); History(w'.writes, w'.touches)
  {
    hide TouchOk, Row, Latest;
    var w' := Note(w, h, rid, wtype, old_, after);
    var n := |w.writes|;
    forall i | 0 <= i <= n ensures w'.touches[i].before
        == Latest(w'.writes[..i], w'.touches[..i], w'.writes[i].rid, w'.touches[i].before) {
      assert w'.writes[..i] == w.writes[..i] && w'.touches[..i] == w.touches[..i];
      if i == n {
        assert w.writes[..n] == w.writes && w.touches[..n] == w.touches;
      }
    }
  }

  /** A new entry about row `rid`, changed from what it was to `after`, with nothing else changed. */
  lemma NoteKeeps(w: Work, h: Heap, rid: Rid, wtype: WType, old_: seq<byte>, after: Slot)
    requires WorkInv(w) && HeapOk(h) && w.heap.pages.Keys <= h.pages.Keys && OnHeap(h, rid)
    requires Row(h, rid) == after && forall r: Rid | r != rid :: Row(h, r) == Row(w.heap, r)
    requires wtype == UPDATE ==> 1 <= |old_| <= 4064
    requires TouchOk(WriteRecord(rid, wtype, old_), Touch(Row(w.heap, rid), after))
    ensures WorkInv(Note(w, h, rid, wtype, old_, after))
  {
    hide HeapOk, TouchOk, History, Row;
    var w' := Note(w, h, rid, wtype, old_, after);
    var n := |w.writes|;
    NoteHistory(w, h, rid, wtype, old_, after);
    assert w'.writes[..n] == w.writes && w'.touches[..n] == w.touches && |w.touches| == n by { SameLength(w); }
    forall r: Rid ensures Row(h, r) == Latest(w'.writes, w'.touches, r, Row(h, r)) {
      assert Row(w.heap, r) == Latest(w.writes, w.touches, r, Row(w.heap, r));
    }
  }

  lemma SameLength(w: Work)
    requires History(w.writes, w.touches)
    ensures |w.touches| == |w.writes|
  {
  }

  lemma InsertKeeps(w: Work, t: seq<byte>)
    requires WorkInv(w) && 1 <= |t| <= 4064
    ensures WorkInv(DoInsert(w, t))
    ensures forall r: Rid | Row(w.heap, r) != Empty :: Row(DoInsert(w, t).heap, r) == Row(w.heap, r)
    ensures w.heap.pages.Keys <= DoInsert(w, t).heap.pages.Keys
  {
    hide History, Untouched, HeapInsert;
    var (h, rid) := HeapInsert(w.heap, t);
    InsertAddsOneRow(w.heap, t, rid);
    forall r: Rid | r != rid ensures Row(h, r) == Row(w.heap, r) {
      InsertAddsOneRow(w.heap, t, r);
    }
    NoteKeeps(w, h, rid, INSERT, [], Live(t));
  }

  lemma DeleteKeeps(w: Work, rid: Rid)
    requires WorkInv(w) && OnHeap(w.heap, rid)
    ensures WorkInv(DoDelete(w, rid))
    ensures DoDelete(w, rid).heap.pages.Keys == w.heap.pages.Keys
    ensures Row(w.heap, rid).Live? ==> Row(DoDelete(w, rid).heap, rid) == Marked(Row(w.heap, rid).bytes)
  {
    hide History, Untouched;
    var (ok, h) := HeapMark(w.heap, rid);
    if ok {
      forall r: Rid | r != rid ensures Row(h, r) == Row(w.heap, r) {
        RowOpsLocal(w.heap, rid, [0], r);
      }
      NoteKeeps(w, h, rid, DELETE, [], Row(h, rid));
    }
  }

  lemma UpdateKeeps(w: Work, rid: Rid, t: seq<byte>)
    requires WorkInv(w) && OnHeap(w.heap, rid) && 1 <= |t| <= 4064
    ensures WorkInv(DoUpdate(w, rid, t))
  {
    hide History, Untouched, HeapInsert;
    var (r, d) := PageUpdate(w.heap, rid, t);
    if r != Refused {
      var old_ := Row(w.heap, rid).bytes;
      RowsAreShort(w.heap.pages[rid.page].slots, rid.slot);
      if r == Updated {
        var h := SetSlots(w.heap, rid.page, d);
        forall q: Rid | q != rid ensures Row(h, q) == Row(w.heap, q) {
          RowOpsLocal(w.heap, rid, t, q);
        }
        RowOpsOk(w.heap, rid, t);
        NoteKeeps(w, h, rid, UPDATE, old_, Live(t));
      } else {
        DeleteKeeps(w, rid);
        var w1 := DoDelete(w, rid);
        InsertKeeps(w1, t);
        var w2 := DoInsert(w1, t);
        assert Row(w2.heap, rid) == Marked(old_);
        NoteKeeps(w2, w2.heap, rid, UPDATE, old_, Marked(old_));
      }
    }
  }

  lemma {:induction false} LatestCongruence(ws: seq<WriteRecord>, ts: seq<Touch>, rid: Rid, a: Slot, b: Slot, i: nat)
    requires |ts| == |ws| && i < |ws| && ws[i].rid == rid
    ensures Latest(ws, ts, rid, a) == Latest(ws, ts, rid, b)
  {
    if ws[|ws| - 1].rid != rid {
      LatestCongruence(ws[..|ws| - 1], ts[..|ws| - 1], rid, a, b, i);
    }
  }

  lemma {:induction false} LatestUntouched(ws: seq<WriteRecord>, ts: seq<Touch>, rid: Rid, a: Slot)
    requires |ts| == |ws| && forall i | 0 <= i < |ws| :: ws[i].rid != rid
    ensures Latest(ws, ts, rid, a) == a
  {
    if ws != [] {
      LatestUntouched(ws[..|ws| - 1], ts[..|ws| - 1], rid, a);
    }
  }

  lemma OthersKeep(w: Work, h: Heap)
    requires WorkInv(w) && StepOk(w, Others(h))
    ensures WorkInv(w.(heap := h))
  {
    hide HeapOk;
    forall r: Rid ensures Row(h, r) == Latest(w.writes, w.touches, r, Row(h, r)) {
      assert Row(w.heap, r) == Latest(w.writes, w.touches, r, Row(w.heap, r));
      if i :| 0 <= i < |w.writes| && w.writes[i].rid == r {
        LatestCongruence(w.writes, w.touches, r, Row(w.heap, r), Row(h, r), i);
      } else {
        LatestUntouched(w.writes, w.touches, r, Row(h, r));
      }
    }
  }

  /** The run's states: `steps` taken one after the other from a transaction that has written nothing. */
  ghost predicate Reaches(start: Heap, steps: seq<Step>, w: Work)
    decreases |steps|
  {
    if steps == [] then HeapOk(start) && w == Work(start, [], [])
    else exists v: Work ::
         Reaches(start, steps[..|steps| - 1], v) && WorkOk(v) && StepOk(v, steps[|steps| - 1])
         && w == DoStep(v, steps[|steps| - 1])
  }

  lemma {:induction false} RunKeepsWork(start: Heap, steps: seq<Step>, w: Work)
    requires Reaches(start, steps, w)
    ensures WorkInv(w)
    decreases |steps|
  {
    if steps == [] {
    } else {
      var n := |steps| - 1;
      var v: Work :| Reaches(start, steps[..n], v) && WorkOk(v) && StepOk(v, steps[n]) && w == DoStep(v, steps[n]);
      RunKeepsWork(start, steps[..n], v);
      match steps[n]
      case Inserting(t) => InsertKeeps(v, t);
      case Updating(rid, t) => UpdateKeeps(v, rid, t);
      case Deleting(rid) => DeleteKeeps(v, rid);
      case Others(h) => OthersKeep(v, h);
    }
  }

  /**
   After any run of a transaction's inserts, updates in place or with a move, and deletes, with others
   at work on other rows in between, rollback puts back every row the transaction touched and leaves the
   rest alone, if and only if each update it takes back finds room.
   */
  lemma AbortIsInverse(start: Heap, steps: seq<Step>, w: Work)
    requires Reaches(start, steps, w)
    ensures WorkInv(w)
    ensures RoomToAbort(w.heap, w.writes) <==>
            forall rid: Rid :: Row(AbortAll(w.heap, w.writes), rid)
                == Earliest(w.writes, w.touches, rid, Row(w.heap, rid))
  {
    RunKeepsWork(start, steps, w);
    AbortExact(w.heap, w.writes, w.touches);
  }

  /** What rollback should put back at `rid`: the row before the transaction first wrote it, or as it is. */
  function Base(w: Work, rid: Rid): Slot
    requires |w.touches| == |w.writes|
  {
    Earliest(w.writes, w.touches, rid, Row(w.heap, rid))
  }

  lemma NoteBase(w: Work, h: Heap, rid: Rid, wtype: WType, old_: seq<byte>, after: Slot, r: Rid)
    requires |w.touches| == |w.writes| && (r != rid ==> Row(h, r) == Row(w.heap, r))
    ensures Base(Note(w, h, rid, wtype, old_, after), r) == Base(w, r)
  {
    hide Row;
    var w' := Note(w, h, rid, wtype, old_, after);
    var n := |w.writes|;
    assert w'.writes[..n] == w.writes && w'.touches[..n] == w.touches;
  }

  lemma InsertBase(w: Work, t: seq<byte>, r: Rid)
    requires WorkInv(w) && 1 <= |t| <= 4064
    ensures Base(DoInsert(w, t), r) == Base(w, r)
  {
    hide History, Untouched, HeapInsert, Row, Earliest;
    SameLength(w);
    var (h, rid) := HeapInsert(w.heap, t);
    InsertAddsOneRow(w.heap, t, r);
    NoteBase(w, h, rid, INSERT, [], Live(t), r);
  }

  lemma DeleteBase(w: Work, rid: Rid, r: Rid)
    requires WorkInv(w) && OnHeap(w.heap, rid)
    ensures Base(DoDelete(w, rid), r) == Base(w, r)
  {
    hide History, Untouched, HeapMark, Row, Earliest;
    SameLength(w);
    var (ok, h) := HeapMark(w.heap, rid);
    if ok {
      if r != rid {
        RowOpsLocal(w.heap, rid, [0], r);
      }
      NoteBase(w, h, rid, DELETE, [], Row(h, rid), r);
    }
  }

  lemma UpdateBase(w: Work, rid: Rid, t: seq<byte>, r: Rid)
    requires WorkInv(w) && OnHeap(w.heap, rid) && 1 <= |t| <= 4064
    ensures Base(DoUpdate(w, rid, t), r) == Base(w, r)
  {
    hide History, Untouched, HeapInsert, HeapMark, PageUpdate, Row, Earliest, DoInsert, DoDelete;
    SameLength(w);
    UpdateKeeps(w, rid, t);
    RowOpsHere(w.heap, rid, t);
    var (res, d) := PageUpdate(w.heap, rid, t);
    if res == Updated {
      if r != rid {
        RowOpsLocal(w.heap, rid, t, r);
      }
      NoteBase(w, SetSlots(w.heap, rid.page, d), rid, UPDATE, Row(w.heap, rid).bytes, Live(t), r);
    } else if res == NoRoom {
      DeleteKeeps(w, rid);
      DeleteBase(w, rid, r);
      var w1 := DoDelete(w, rid);
      InsertKeeps(w1, t);
      InsertBase(w1, t, r);
      var w2 := DoInsert(w1, t);
      SameLength(w2);
      NoteBase(w2, w2.heap, rid, UPDATE, Row(w.heap, rid).bytes, Row(w2.heap, rid), r);
    }
  }

  lemma {:induction false} EarliestCongruence(ws: seq<WriteRecord>, ts: seq<Touch>, rid: Rid, a: Slot, b: Slot, i: nat)
    requires |ts| == |ws| && i < |ws| && ws[i].rid == rid
    ensures Earliest(ws, ts, rid, a) == Earliest(ws, ts, rid, b)
  {
    if ws[|ws| - 1].rid != rid {
      EarliestCongruence(ws[..|ws| - 1], ts[..|ws| - 1], rid, a, b, i);
    }
  }

  /**
   The transaction's own steps do not change what rollback should put back; others change it exactly where
   they change the row.
   */
  lemma StepKeepsBase(w: Work, s: Step, r: Rid)
    requires WorkInv(w) && StepOk(w, s)
    ensures WorkInv(DoStep(w, s))
    ensures Base(DoStep(w, s), r)
            == if s.Others? && Row(s.heap, r) != Row(w.heap, r) then Row(s.heap, r) else Base(w, r)
  {
    hide History, Untouched, Row, Earliest, DoInsert, DoUpdate, DoDelete, HeapOk;
    SameLength(w);
    match s
    case Inserting(t) => InsertKeeps(w, t); InsertBase(w, t, r);
    case Updating(rid, t) => UpdateKeeps(w, rid, t); UpdateBase(w, rid, t, r);
    case Deleting(rid) => DeleteKeeps(w, rid); DeleteBase(w, rid, r);
    case Others(h) =>
      OthersKeep(w, h);
      if i :| 0 <= i < |w.writes| && w.writes[i].rid == r {
        EarliestCongruence(w.writes, w.touches, r, Row(w.heap, r), Row(h, r), i);
      } else {
        EarliestUntouched(w.writes, w.touches, r, Row(w.heap, r));
        EarliestUntouched(w.writes, w.touches, r, Row(h, r));
      }
  }

  /** Nobody else at work. */
  predicate Alone(steps: seq<Step>) {
    forall i | 0 <= i < |steps| :: !steps[i].Others?
  }

  lemma {:induction false} BaseIsStart(start: Heap, steps: seq<Step>, w: Work, r: Rid)
    requires Reaches(start, steps, w) && Alone(steps)
    ensures |w.touches| == |w.writes| && Base(w, r) == Row(start, r)
    decreases |steps|
  {
    hide Row, DoStep, WorkInv;
    if steps == [] {
    } else {
      var n := |steps| - 1;
      var v: Work :| Reaches(start, steps[..n], v) && WorkOk(v) && StepOk(v, steps[n]) && w == DoStep(v, steps[n]);
      BaseIsStart(start, steps[..n], v, r);
      RunKeepsWork(start, steps[..n], v);
      StepKeepsBase(v, steps[n], r);
      LengthOf(w);
    }
  }

  lemma LengthOf(w: Work)
    requires WorkInv(w)
    ensures |w.touches| == |w.writes|
  {
  }

  /** After a run of a transaction alone, a row that differs from the start is in the write set. */
  lemma ChangedRowsNoted(start: Heap, steps: seq<Step>, w: Work, r: Rid)
    requires Reaches(start, steps, w) && Alone(steps) && Row(w.heap, r) != Row(start, r)
    ensures exists i :: 0 <= i < |w.writes| && w.writes[i].rid == r
  {
    hide Row;
    BaseIsStart(start, steps, w, r);
    if forall i | 0 <= i < |w.writes| :: w.writes[i].rid != r {
      EarliestUntouched(w.writes, w.touches, r, Row(w.heap, r));
    }
  }

  /** A transaction alone: rollback brings back the heap it began with if and only if every undone update has room. */
  lemma AbortRestoresStart(start: Heap, steps: seq<Step>, w: Work)
    requires Reaches(start, steps, w) && Alone(steps)
    ensures WorkInv(w)
    ensures RoomToAbort(w.heap, w.writes) <==> forall r: Rid :: Row(AbortAll(w.heap, w.writes), r) == Row(start, r)
  {
    hide Row, WorkInv, RoomToAbort, AbortAll;
    AbortIsInverse(start, steps, w);
    InvWrites(w);
    forall r: Rid ensures Earliest(w.writes, w.touches, r, Row(w.heap, r)) == Row(start, r) {
      BaseIsStart(start, steps, w, r);
    }
  }

  lemma InvWrites(w: Work)
    requires WorkInv(w)
    ensures WritesOk(w.heap, w.writes) && |w.touches| == |w.writes|
  {
  }

  // ---------- a run that cannot be rolled back ----------

  /** A table of one page. */
  function OneTable(d: seq<Slot>): Heap {
    Heap(map[0 := PageState(d, 0)], [0], 1)
  }

  function CrowdingSteps(b: seq<byte>, c: seq<byte>): seq<Step> {
    [Updating(Rid(0, 0), b), Others(OneTable([Live(b), Live(c)]))]
  }

  lemma CrowdedPages(a: seq<byte>, b: seq<byte>, c: seq<byte>)
    requires Crowded(a, b, c)
    ensures HeapOk(OneTable([Live(a)])) && HeapOk(OneTable([Live(b)])) && HeapOk(OneTable([Live(b), Live(c)]))
    ensures Slots.Update([Live(a)], 0, b) == (Updated, [Live(b)])
    ensures Slots.Update([Live(b), Live(c)], 0, a).0 == NoRoom
  {
    UsedOne(Live(a));
    UsedOne(Live(b));
    UsedTwo(Live(b), Live(c));
    assert [Live(a)][0 := Live(b)] == [Live(b)];
  }

  lemma OneStep(start: Heap, steps: seq<Step>, v: Work, s: Step)
    requires Reaches(start, steps, v) && WorkOk(v) && StepOk(v, s)
    ensures Reaches(start, steps + [s], DoStep(v, s))
  {
    assert (steps + [s])[..|steps|] == steps;
  }

  lemma CrowdedRun(a: seq<byte>, b: seq<byte>, c: seq<byte>) returns (w: Work)
    requires Crowded(a, b, c)
    ensures Reaches(OneTable([Live(a)]), CrowdingSteps(b, c), w)
    ensures w.heap == OneTable([Live(b), Live(c)]) && w.writes == [WriteRecord(Rid(0, 0), UPDATE, a)]
  {
    hide HeapOk, Slots.Update;
    CrowdedPages(a, b, c);
    var start, steps := OneTable([Live(a)]), CrowdingSteps(b, c);
    var w0 := Work(start, [], []);
    OneStep(start, [], w0, steps[0]);
    w := DoStep(w0, steps[0]);
    assert w.heap == OneTable([Live(b)]);
    OneStep(start, [] + [steps[0]], w, steps[1]);
    assert [] + [steps[0]] + [steps[1]] == steps;
    w := DoStep(w, steps[1]);
  }

  /** Rollback leaves the short row behind, marked, where the old row was. */
  lemma ShrunkRowLost(a: seq<byte>, b: seq<byte>, c: seq<byte>) returns (w: Work)
    requires Crowded(a, b, c)
    ensures Reaches(OneTable([Live(a)]), CrowdingSteps(b, c), w) && WorkInv(w)
    ensures !RoomToAbort(w.heap, w.writes)
    ensures Earliest(w.writes, w.touches, Rid(0, 0), Row(w.heap, Rid(0, 0))) == Live(a)
    ensures Row(AbortAll(w.heap, w.writes), Rid(0, 0)) == Marked(b)
  {
    hide HeapOk, HeapInsert, Slots.Update, Reaches;
    CrowdedPages(a, b, c);
    w := CrowdedRun(a, b, c);
    RunKeepsWork(OneTable([Live(a)]), CrowdingSteps(b, c), w);
    var marked := HeapMark(w.heap, Rid(0, 0)).1;
    RowOpsHere(w.heap, Rid(0, 0), a);
    InsertAddsOneRow(marked, a, Rid(0, 0));
    assert w.writes[..0] == [];
  }
}
