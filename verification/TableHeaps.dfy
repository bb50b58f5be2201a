/** The table heap object over its pages: storage/access/table_heap.go. */
module TableHeaps {
  import opened Bytes
  import opened Collections
  import S = Slots
  import opened LogRecords
  import opened Recovery
  import opened TablePages
  import opened PageStores
  import opened Heaps
  import opened LockManagers
  import L = Locks
  import opened Scans

  /** A store's pages follow one another along the chain. */
  ghost predicate Linked(chain: seq<int>, links: map<int, int>) {
    && (forall i | 0 <= i < |chain| :: chain[i] in links)
    && (forall i | 0 <= i < |chain| :: links[chain[i]] == if i + 1 < |chain| then chain[i + 1] else -1)
  }

  /** A new last page: the old last page points to it. */
  lemma LinkedExtend(chain: seq<int>, links: map<int, int>, q: int)
    requires Linked(chain, links) && chain != [] && q !in links
    requires forall i, j | 0 <= i < j < |chain| :: chain[i] != chain[j]
    ensures Linked(chain + [q], links[q := -1][chain[|chain| - 1] := q])
  {
  }

  lemma MoveWritesAre(h: Heap, rid: Rid, t: seq<byte>, ws: seq<WriteRecord>)
    requires HeapOk(h) && OnHeap(h, rid)
    ensures ws + [WriteRecord(rid, DELETE, [])] + [WriteRecord(HeapInsert(HeapMark(h, rid).1, t).1, INSERT, [])]
         == ws + MoveWrites(h, rid, t)
  {
    hide HeapOk, HeapInsert;
  }

  /** The new RID of a row that an update moves, which its INSERT entry names. */
  function MovedTo(h: Heap, rid: Rid, t: seq<byte>): Option<Rid>
    requires HeapOk(h) && OnHeap(h, rid)
  {
    var ws := UpdateWrites(h, rid, t);
    if |ws| == 3 then Some(ws[1].rid) else None
  }

  lemma MovedToIs(h: Heap, rid: Rid, t: seq<byte>)
    requires HeapOk(h) && OnHeap(h, rid)
    ensures MovedTo(h, rid, t)
         == if PageUpdate(h, rid, t).0 == S.NoRoom then Some(HeapInsert(HeapMark(h, rid).1, t).1) else None
  {
    hide HeapOk, HeapInsert;
    RowOpsHere(h, rid, t);
  }

  /** The entries an update notes: a transaction that is being aborted gets no UPDATE entry. */
  function NotedWrites(h: Heap, rid: Rid, t: seq<byte>, aborted: bool): seq<WriteRecord>
    requires HeapOk(h) && OnHeap(h, rid)
  {
    var ws := UpdateWrites(h, rid, t);
    if aborted && |ws| > 0 then ws[..|ws| - 1] else ws
  }

  lemma NotedWritesAre(h: Heap, rid: Rid, t: seq<byte>, aborted: bool, ws: seq<WriteRecord>)
    requires HeapOk(h) && OnHeap(h, rid)
    ensures var r := PageUpdate(h, rid, t).0;
            var moved := if r == S.NoRoom then MoveWrites(h, rid, t) else [];
            && (r == S.Refused || aborted ==> ws + NotedWrites(h, rid, t, aborted) == ws + moved)
            && (r != S.Refused && !aborted ==>
                  Row(h, rid).Live?
                  && ws + NotedWrites(h, rid, t, aborted) == ws + moved + [WriteRecord(rid, UPDATE, Row(h, rid).bytes)])
  {
    hide HeapOk, HeapInsert;
    RowOpsHere(h, rid, t);
  }

  class TableHeap {
    const store: PageStore
    const firstPageId: int

    /** The heap when its pages are those of `chain`. */
    ghost function View(chain: seq<int>): Heap
      requires store.Valid()
      reads store, store.Arrays()
    {
      Heap(store.View(), chain, store.nextPageId)
    }

    ghost predicate Valid(chain: seq<int>)
      reads store, store.Arrays()
    {
      store.Valid() && HeapOk(View(chain)) && chain[0] == firstPageId && Linked(chain, store.Links())
    }

    /** `InitTableHeap`. */
    constructor (store: PageStore, firstPageId: int)
      ensures this.store == store && this.firstPageId == firstPageId
    {
      this.store, this.firstPageId := store, firstPageId;
    }

    /** Reading the pages, or writing elsewhere, changes nothing. */
    twostate lemma NoneChanged(chain: seq<int>)
      requires old(Valid(chain)) && unchanged(store) && forall q | q in store.pages :: unchanged(store.pages[q].data)
      ensures Valid(chain) && View(chain) == old(View(chain)) && store.Links() == old(store.Links())
    {
      hide PageStore.Valid, PageStore.View, PageStore.Links;
      store.NoneChanged();
    }

    /** One page's try at an insertion. */
    method TryInsert(p: int, t: seq<byte>, ghost chain: seq<int>) returns (r: S.InsertResult)
      requires Valid(chain) && p in store.pages && |t| < U31
      modifies store.pages[p].data
      ensures Valid(chain) && store.nextPageId == old(store.nextPageId) && store.Arrays() == old(store.Arrays())
      ensures r == S.Insert(old(View(chain).pages[p].slots), t).0
      ensures View(chain) == if r.Inserted? then SetSlots(old(View(chain)), p,
              S.Insert(old(View(chain).pages[p].slots), t).1) else old(View(chain))
    {
      hide Dec32, PageOk, SlotsOf, HeapOk, S.Insert, Linked;
      InsertRefused(View(chain).pages[p].slots, t);
      TriedOk(View(chain), p, t);
      SameAgain(store.View(), p);
      LinkAgain(store.Links(), p);
      r := store.pages[p].InsertTuple(t);
      store.OneChanged(p);
    }

    /** A new page behind the last one. */
    method Extend(p: int, ghost chain: seq<int>) returns (q: int)
      requires Valid(chain) && p == chain[|chain| - 1] && store.nextPageId < U31 - 1
      modifies store, store.Arrays()
      ensures q == old(store.nextPageId) && fresh(store.Arrays() - old(store.Arrays()))
      ensures Valid(chain + [q]) && View(chain + [q]) == Extended(old(View(chain)))
    {
      hide Dec32, PageOk, SlotsOf, S.Fits, Linked, HeapOk, PageStore.Valid, PageStore.View, PageStore.Links;
      PagesOfChain(View(chain));
      LinkedExtend(chain, store.Links(), store.nextPageId);
      ExtendedOk(View(chain));
      q := store.AppendPage(p);
    }

    /**
     `InsertTuple`: along the chain to the first page with room, or to a new page at its end. The loop
     ends only because a new page has room for the tuple.
     */
    method InsertTuple(t: seq<byte>, txn: Transaction, ghost chain: seq<int>) returns (rid: Rid, ghost chain': seq<int>)
      requires Valid(chain) && 1 <= |t| <= 4064 && store.nextPageId < U31 - 1
      modifies store, store.Arrays(), txn`writeSet
      ensures Valid(chain') && fresh(store.Arrays() - old(store.Arrays()))
      ensures (View(chain'), rid) == HeapInsert(old(View(chain)), t)
      ensures txn.writeSet == old(txn.writeSet) + [WriteRecord(rid, INSERT, [])]
    {
      hide Dec32, PageOk, SlotsOf, HeapOk, S.Insert, Linked, HeapInsert, PageStore.Valid, PageStore.View,
           PageStore.Links;
      rid, chain' := Place(t, chain);
      txn.writeSet := txn.writeSet + [WriteRecord(rid, INSERT, [])];
    }

    /** The search of `InsertTuple` for a page. */
    method Place(t: seq<byte>, ghost chain: seq<int>) returns (rid: Rid, ghost chain': seq<int>)
      requires Valid(chain) && 1 <= |t| <= 4064 && store.nextPageId < U31 - 1
      modifies store, store.Arrays()
      ensures Valid(chain') && fresh(store.Arrays() - old(store.Arrays()))
      ensures (View(chain'), rid) == HeapInsert(old(View(chain)), t)
    {
      hide Dec32, PageOk, SlotsOf, HeapOk, S.Insert, Linked, HeapInsert, Searching, BehindPage, PageStore.Valid,
           PageStore.View, PageStore.Links;
      ghost var h := View(chain);
      chain' := chain;
      var p := firstPageId;
      ghost var i := 0;
      SearchStarts(h, t);
      var found, slot := SearchPage(p, t, h, chain', i);
      while !found
        invariant Valid(chain') && fresh(store.Arrays() - old(store.Arrays()))
        invariant i < |chain'| && p == chain'[i]
        invariant !found ==>
                    View(chain') == h && i < |h.chain| && Searching(h, t, BehindPage(h, i), i + 1)
                    && store.nextPageId < U31 - 1
        invariant found ==> (View(chain'), Rid(p, slot)) == HeapInsert(h, t)
        decreases !found, |h.chain| - i
      {
        p, chain' := Advance(p, chain', i);
        assert fresh(store.Arrays() - old(store.Arrays()));
        i := i + 1;
        found, slot := SearchPage(p, t, h, chain', i);
      }
      rid := Rid(p, slot);
    }

    /** The try at page `i` of the search: it ends the insertion or leaves everything as it was. */
    method SearchPage(p: int, t: seq<byte>, ghost h: Heap, ghost chain: seq<int>, ghost i: nat)
        returns (found: bool, slot: nat)
      requires Valid(chain) && i < |chain| && p == chain[i] && 1 <= |t| <= 4064
      requires HeapOk(h) && Searching(h, t, View(chain), i)
      modifies store.Arrays()
      ensures Valid(chain) && store.nextPageId == old(store.nextPageId) && store.Arrays() == old(store.Arrays())
      ensures found ==> (View(chain), Rid(p, slot)) == HeapInsert(h, t)
      ensures !found ==> View(chain) == h && i < |h.chain| && Searching(h, t, BehindPage(h, i), i + 1)
    {
      hide Dec32, PageOk, SlotsOf, HeapOk, S.Insert, Linked, HeapInsert, Searching, BehindPage, PageStore.Valid,
           PageStore.View, PageStore.Links;
      SearchStep(h, t, View(chain), i);
      var r := TryInsert(p, t, chain);
      found := r.Inserted?;
      slot := if found then r.slot else 0;
    }

    /** To the next page, which is made when there is none. */
    method Advance(p: int, ghost chain: seq<int>, ghost i: nat) returns (q: int, ghost chain': seq<int>)
      requires Valid(chain) && i < |chain| && p == chain[i] && (store.nextPageId < U31 - 1 || i + 1 < |chain|)
      modifies store, store.Arrays()
      ensures Valid(chain') && fresh(store.Arrays() - old(store.Arrays()))
      ensures i + 1 < |chain'| && q == chain'[i + 1]
      ensures View(chain') == BehindPage(old(View(chain)), i)
    {
      hide Dec32, PageOk, SlotsOf, HeapOk, Linked, Extended, PageStore.Valid, PageStore.View, PageStore.Links;
      PagesOfChain(View(chain));
      NextLink(chain, store.Links(), i);
      q := store.NextOf(p);
      chain' := chain;
      if q == -1 {
        q := Extend(p, chain);
        chain' := chain + [q];
      }
    }

    /** `MarkDelete`. */
    method MarkDelete(rid: Rid, txn: Transaction, ghost chain: seq<int>) returns (marked: bool)
      requires Valid(chain) && OnHeap(View(chain), rid)
      modifies store.Arrays(), txn`writeSet
      ensures Valid(chain) && store.Arrays() == old(store.Arrays()) && store.nextPageId == old(store.nextPageId)
      ensures (marked, View(chain)) == HeapMark(old(View(chain)), rid)
      ensures txn.writeSet == old(txn.writeSet) + if marked then [WriteRecord(rid, DELETE, [])] else []
    {
      hide Dec32, PageOk, SlotsOf, HeapOk, Linked, HeapMark, PageStore.Valid, PageStore.View, PageStore.Links;
      marked := MarkRow(rid, chain);
      if marked {
        txn.writeSet := txn.writeSet + [WriteRecord(rid, DELETE, [])];
      }
    }

    method MarkRow(rid: Rid, ghost chain: seq<int>) returns (marked: bool)
      requires Valid(chain) && OnHeap(View(chain), rid)
      modifies store.Arrays()
      ensures Valid(chain) && store.Arrays() == old(store.Arrays()) && store.nextPageId == old(store.nextPageId)
      ensures (marked, View(chain)) == HeapMark(old(View(chain)), rid)
    {
      hide Dec32, PageOk, SlotsOf, HeapOk, Linked, S.MarkDelete;
      RowOpsOk(View(chain), rid, [0]);
      LinkAgain(store.Links(), rid.page);
      marked := store.pages[rid.page].MarkDelete(rid.slot);
      store.OneChanged(rid.page);
    }

    /** `RollbackDelete`; Go panics on a slot past the directory. */
    method RollbackDelete(rid: Rid, ghost chain: seq<int>)
      requires Valid(chain) && OnHeap(View(chain), rid) && rid.slot < |View(chain).pages[rid.page].slots|
      modifies store.Arrays()
      ensures Valid(chain) && store.Arrays() == old(store.Arrays()) && store.nextPageId == old(store.nextPageId)
      ensures View(chain) == HeapRollback(old(View(chain)), rid)
    {
      hide Dec32, PageOk, SlotsOf, HeapOk, Linked, S.RollbackDelete;
      LinkAgain(store.Links(), rid.page);
      RowOpsOk(View(chain), rid, [0]);
      store.pages[rid.page].RollbackDelete(rid.slot);
      store.OneChanged(rid.page);
    }

    /** `ApplyDelete`; Go panics on an empty slot. */
    method ApplyDelete(rid: Rid, ghost chain: seq<int>)
      requires Valid(chain) && OnHeap(View(chain), rid) && Row(View(chain), rid) != S.Empty
      modifies store.Arrays()
      ensures Valid(chain) && store.Arrays() == old(store.Arrays()) && store.nextPageId == old(store.nextPageId)
      ensures View(chain) == HeapApply(old(View(chain)), rid)
    {
      hide Dec32, PageOk, SlotsOf, HeapOk, Linked, S.ApplyDelete;
      LinkAgain(store.Links(), rid.page);
      RowOpsOk(View(chain), rid, [0]);
      var _ := store.pages[rid.page].ApplyDelete(rid.slot);
      store.OneChanged(rid.page);
    }

    /** The page part of `UpdateTuple`. */
    method UpdateRow(rid: Rid, t: seq<byte>, ghost chain: seq<int>) returns (r: S.UpdateResult, oldTuple: seq<byte>)
      requires Valid(chain) && OnHeap(View(chain), rid) && 1 <= |t| <= 4064
      modifies store.Arrays()
      ensures Valid(chain) && store.Arrays() == old(store.Arrays()) && store.nextPageId == old(store.nextPageId)
      ensures r == PageUpdate(old(View(chain)), rid, t).0
      ensures View(chain) == SetSlots(old(View(chain)), rid.page, PageUpdate(old(View(chain)), rid, t).1)
      ensures r != S.Refused ==> old(Row(View(chain), rid)) == S.Live(oldTuple)
    {
      hide Dec32, PageOk, SlotsOf, HeapOk, Linked, S.Update;
      LinkAgain(store.Links(), rid.page);
      UpdatedOk(View(chain), rid, t);
      UpdateNeedsRow(View(chain), rid, t);
      r, oldTuple := store.pages[rid.page].UpdateTuple(rid.slot, t);
      store.OneChanged(rid.page);
    }

    /** The move of `UpdateTuple`: delete here, insert wherever there is room. */
    method MoveRow(t: seq<byte>, rid: Rid, txn: Transaction, ghost chain: seq<int>)
        returns (newRid: Rid, ghost chain': seq<int>)
      requires Valid(chain) && OnHeap(View(chain), rid) && 1 <= |t| <= 4064 && store.nextPageId < U31 - 1
      requires HeapMark(View(chain), rid).0
      modifies store, store.Arrays(), txn`writeSet
      ensures Valid(chain') && fresh(store.Arrays() - old(store.Arrays()))
      ensures (View(chain'), newRid) == HeapInsert(HeapMark(old(View(chain)), rid).1, t)
      ensures txn.writeSet == old(txn.writeSet) + MoveWrites(old(View(chain)), rid, t)
    {
      hide Dec32, PageOk, SlotsOf, HeapOk, Linked, HeapMark, HeapInsert, Row, SetSlots, MoveWrites, TableHeap.Valid,
           PageStore.Valid, PageStore.View, PageStore.Links;
      ValidStore(chain);
      MoveWritesAre(View(chain), rid, t, txn.writeSet);
      var marked := MarkDelete(rid, txn, chain);
      var new_, c := InsertTuple(t, txn, chain);
      assert fresh(store.Arrays() - old(store.Arrays()));
      newRid, chain' := new_, c;
      ValidStore(chain');
    }

    lemma ValidStore(chain: seq<int>)
      requires Valid(chain)
      ensures store.Valid() && HeapOk(View(chain))
    {
    }

    /** `UpdateTuple` up to its last step. */
    method UpdateOrMove(t: seq<byte>, rid: Rid, txn: Transaction, ghost chain: seq<int>)
      returns (r: S.UpdateResult, oldTuple: seq<byte>, newRid: Option<Rid>, ghost chain': seq<int>)
      requires Valid(chain) && OnHeap(View(chain), rid) && 1 <= |t| <= 4064 && store.nextPageId < U31 - 1
      modifies store, store.Arrays(), txn`writeSet
      ensures Valid(chain') && fresh(store.Arrays() - old(store.Arrays()))
      ensures r == PageUpdate(old(View(chain)), rid, t).0
      ensures r != S.Refused ==> old(Row(View(chain), rid)) == S.Live(oldTuple)
      ensures View(chain') == HeapUpdate(old(View(chain)), rid, t)
      ensures txn.writeSet == old(txn.writeSet) + if r == S.NoRoom then MoveWrites(old(View(chain)), rid, t) else []
      ensures newRid == MovedTo(old(View(chain)), rid, t)
    {
      hide Dec32, PageOk, SlotsOf, HeapOk, Linked, HeapMark, HeapInsert, PageUpdate, SetSlots, Row, MovedTo,
           PageStore.Valid, PageStore.View, PageStore.Links;
      MovedToIs(View(chain), rid, t);
      r, oldTuple := UpdateRow(rid, t, chain);
      chain', newRid := chain, None;
      if r == S.NoRoom {
        NoRoomSame(old(View(chain)), rid, t);
        var to, c := MoveRow(t, rid, txn, chain);
        newRid, chain' := Some(to), c;
      }
    }

    /**
     `UpdateTuple`: in place, or as a delete here and an insert elsewhere when the page has no room. A moved row's
     new RID is returned. A transaction that is being aborted gets no UPDATE entry.
     */
    method UpdateTuple(t: seq<byte>, rid: Rid, txn: Transaction, ghost chain: seq<int>)
        returns (updated: bool, newRid: Option<Rid>, ghost chain': seq<int>)
      requires Valid(chain) && OnHeap(View(chain), rid) && 1 <= |t| <= 4064 && store.nextPageId < U31 - 1
      modifies store, store.Arrays(), txn`writeSet
      ensures Valid(chain') && fresh(store.Arrays() - old(store.Arrays()))
      ensures View(chain') == HeapUpdate(old(View(chain)), rid, t)
      ensures updated <==> old(Row(View(chain), rid)).Live?
      ensures UpdateOutcome(old(View(chain)), View(chain'), UpdateWrites(old(View(chain)), rid, t), rid, t)
      ensures newRid == MovedTo(old(View(chain)), rid, t)
      ensures txn.writeSet == old(txn.writeSet) + NotedWrites(old(View(chain)), rid, t, txn.state == ABORTED)
    {
      hide Dec32, PageOk, SlotsOf, HeapOk, Linked, HeapMark, HeapInsert, HeapUpdate, MoveWrites, PageUpdate, Row,
           UpdateWrites, UpdateOutcome, MovedTo, NotedWrites, PageStore.Valid, PageStore.View, PageStore.Links;
      UpdateExact(View(chain), rid, t);
      RowOpsHere(View(chain), rid, t);
      NotedWritesAre(View(chain), rid, t, txn.state == ABORTED, txn.writeSet);
      var r, oldTuple, to, c := UpdateOrMove(t, rid, txn, chain);
      newRid, chain' := to, c;
      updated := r != S.Refused;
      if updated && txn.state != ABORTED {
        txn.writeSet := txn.writeSet + [WriteRecord(rid, UPDATE, oldTuple)];
      }
    }

    /** The lock request at the head of `GetTuple`. */
    method AskForLock(rid: Rid, txn: Transaction, lockManager: LockManager) returns (granted: bool)
      modifies lockManager, txn`sharedLockSet
      ensures (granted, lockManager.View(txn)) == Requested(old(lockManager.View(txn)), txn.txnId, rid)
    {
      var shared := txn.IsSharedLocked(rid);
      var exclusive := txn.IsExclusiveLocked(rid);
      granted := true;
      if !shared && !exclusive {
        granted := lockManager.LockShared(txn, rid);
      }
    }

    /** The page part of `GetTuple`. */
    method ReadRow(rid: Rid, ghost chain: seq<int>) returns (found: bool, tuple: seq<byte>)
      requires Valid(chain) && OnHeap(View(chain), rid)
      ensures Valid(chain) && View(chain) == old(View(chain))
      ensures found <==> Row(View(chain), rid).Live?
      ensures found ==> Row(View(chain), rid) == S.Live(tuple)
    {
      hide Dec32, PageOk, SlotsOf, HeapOk, Linked, PageStore.Links;
      found, tuple := store.pages[rid.page].GetTuple(rid.slot);
      NoneChanged(chain);
    }

    /**
     `GetTuple`: nothing when the row is locked by another transaction, marked or gone. The page repeats
     the lock request when logging is on; by then it changes nothing.
     */
    method GetTuple(rid: Rid, txn: Transaction, lockManager: LockManager, logging: bool, ghost chain: seq<int>)
        returns (found: bool, tuple: seq<byte>)
      requires Valid(chain) && OnHeap(View(chain), rid)
      modifies lockManager, txn`sharedLockSet, txn`state
      ensures Valid(chain) && View(chain) == old(View(chain))
      ensures lockManager.View(txn) == Requested(old(lockManager.View(txn)), txn.txnId, rid).1
      ensures found <==> Returned(View(chain), old(lockManager.View(txn)), txn.txnId, rid)
      ensures found ==> Row(View(chain), rid) == S.Live(tuple)
      ensures txn.state == if !CanRead(old(lockManager.View(txn)), txn.txnId, rid) || (logging && !found) then ABORTED
              else old(txn.state)
    {
      hide Dec32, PageOk, SlotsOf, HeapOk, Linked, CanRead, Requested, PageStore.Valid, PageStore.View, PageStore.Links;
      var granted := AskForLock(rid, txn, lockManager);
      NoneChanged(chain);
      if !granted {
        txn.state := ABORTED;
        found, tuple := false, [];
      } else {
        found, tuple := ReadRow(rid, chain);
        if logging && !found {
          txn.state := ABORTED;
        }
      }
      NoneChanged(chain);
    }

    /** The first occupied slot of page `p` from slot `start` on. */
    method NextOccupied(p: int, start: nat, ghost chain: seq<int>) returns (slot: int)
      requires Valid(chain) && p in store.pages
      ensures Valid(chain) && View(chain) == old(View(chain)) && store.Links() == old(store.Links())
      ensures var d := View(chain).pages[p].slots;
              && slot >= -1
              && (slot == -1 ==> forall j | start <= j < |d| :: d[j] == S.Empty)
              && (slot != -1 ==> start <= slot < |d| && d[slot] != S.Empty && forall j | start <= j < slot ::
                 d[j] == S.Empty)
    {
      hide Dec32, PageOk, SlotsOf, HeapOk, Linked;
      slot := store.pages[p].NextTupleSlot(start);
      store.NoneChanged();
    }

    /** One page of a scan. */
    method FindOnPage(p: int, start: nat, ghost chain: seq<int>, ghost i: nat) returns (slot: int)
      requires Valid(chain) && i < |chain| && p == chain[i]
      ensures Valid(chain) && View(chain) == old(View(chain)) && store.Links() == old(store.Links())
      ensures slot >= -1 && RidsBehind(View(chain), i, start) ==
              if slot == -1 then RidsFrom(View(chain), i + 1) else [Rid(p, slot)] + RidsBehind(View(chain), i, slot + 1)
    {
      hide Dec32, PageOk, SlotsOf, HeapOk, Linked, PageRids, RidsFrom, PageStore.Valid, PageStore.View, PageStore.Links;
      PagesOfChain(View(chain));
      slot := NextOccupied(p, start, chain);
      NextOnPage(p, View(chain).pages[p].slots, start, slot);
    }

    /** The search of `GetFirstTuple`. */
    method FirstRid(ghost chain: seq<int>) returns (p: int, slot: int, ghost i: nat)
      requires Valid(chain)
      ensures Valid(chain) && View(chain) == old(View(chain))
      ensures slot == -1 ==> |RidsFrom(View(chain), 0)| == 0
      ensures slot != -1 ==> slot >= 0 && i < |chain| && p == chain[i] &&
                             RidsFrom(View(chain), 0) == [Rid(p, slot)] + RidsBehind(View(chain), i, slot + 1)
    {
      hide Dec32, PageOk, SlotsOf, HeapOk, Linked, PageRids, PageStore.Valid, PageStore.View, PageStore.Links;
      PagesOfChain(View(chain));
      p, i := firstPageId, 0;
      slot := -1;
      while p != -1
        invariant Valid(chain) && View(chain) == old(View(chain)) && store.Links() == old(store.Links())
        invariant p != -1 ==> i < |chain| && p == chain[i] && RidsFrom(View(chain), 0) == RidsFrom(View(chain), i)
        invariant p == -1 ==> |RidsFrom(View(chain), 0)| == 0
        invariant slot == -1
        decreases if p == -1 then 0 else |chain| - i
      {
        slot := FindOnPage(p, 0, chain, i);
        if slot != -1 {
          return;
        }
        NextLink(chain, store.Links(), i);
        p := store.NextOf(p);
        i := i + 1;
      }
    }
  }

  lemma UpdatedOk(h: Heap, rid: Rid, t: seq<byte>)
    requires HeapOk(h) && OnHeap(h, rid) && t != []
    ensures HeapOk(SetSlots(h, rid.page, PageUpdate(h, rid, t).1))
  {
    S.OperationsFit(h.pages[rid.page].slots, rid.slot, t);
    SetSlotsOk(h, rid.page, PageUpdate(h, rid, t).1);
  }

  lemma UpdateNeedsRow(h: Heap, rid: Rid, t: seq<byte>)
    requires OnHeap(h, rid)
    ensures PageUpdate(h, rid, t).0 != S.Refused ==> rid.slot < |h.pages[rid.page].slots|
  {
  }

  lemma NoRoomSame(h: Heap, rid: Rid, t: seq<byte>)
    requires HeapOk(h) && OnHeap(h, rid) && PageUpdate(h, rid, t).0 == S.NoRoom
    ensures SetSlots(h, rid.page, PageUpdate(h, rid, t).1) == h && HeapMark(h, rid).0
  {
    SameAgain(h.pages, rid.page);
  }

  function Extended(h: Heap): Heap {
    Heap(h.pages[h.next := PageState([], 0)], h.chain + [h.next], h.next + 1)
  }

  /** The heap the search sees once page `i` has refused. */
  function BehindPage(h: Heap, i: nat): Heap {
    if i + 1 < |h.chain| then h else Extended(h)
  }

  lemma PagesOfChain(h: Heap)
    requires HeapOk(h)
    ensures h.chain != [] && (forall i | 0 <= i < |h.chain| :: h.chain[i] in h.pages)
    ensures (forall i, j | 0 <= i < j < |h.chain| :: h.chain[i] != h.chain[j]) && h.next !in h.pages
    ensures forall i | 0 <= i < |h.chain| :: h.chain[i] != -1
  {
  }

  lemma ExtendedOk(h: Heap)
    requires HeapOk(h)
    ensures HeapOk(Extended(h))
  {
    hide S.Fits;
    EmptyFits();
    var first := h.chain[0];
    assert first in h.pages && 0 <= first < h.next;
    var h' := Extended(h);
    forall p | p in h'.pages ensures 0 <= p < h'.next && S.Fits(h'.pages[p].slots) {
      assert p != h.next ==> p in h.pages && h'.pages[p] == h.pages[p];
    }
  }

  /** Pages before position `i` have refused the tuple; past the end of the chain there is one new page. */
  ghost predicate Searching(h: Heap, t: seq<byte>, cur: Heap, i: nat)
    requires HeapOk(h)
  {
    && (forall j | 0 <= j < i && j < |h.chain| :: !S.Insert(h.pages[h.chain[j]].slots, t).0.Inserted?)
    && if i < |h.chain| then cur == h else i == |h.chain| && cur == Extended(h)
  }

  lemma SearchStarts(h: Heap, t: seq<byte>)
    requires HeapOk(h)
    ensures Searching(h, t, h, 0) && |h.chain| > 0
  {
  }

  /** One look at a page: the insertion succeeds and is `HeapInsert`, or the search goes on behind it. */
  lemma SearchStep(h: Heap, t: seq<byte>, cur: Heap, i: nat)
    requires HeapOk(h) && HeapOk(cur) && Searching(h, t, cur, i) && 1 <= |t| <= 4064 && i < |cur.chain|
    ensures cur.chain[i] in cur.pages
    ensures var p := cur.chain[i];
            var (r, d) := S.Insert(cur.pages[p].slots, t);
            && (r.Inserted? ==>
                 (SetSlots(cur, p, d), Rid(p, r.slot)) == HeapInsert(h, t) && HeapOk(SetSlots(cur, p, d)))
            && (!r.Inserted? ==> i < |h.chain| && cur == h && Searching(h, t, BehindPage(h, i), i + 1))
  {
    hide S.Fits, S.Insert;
    var p := cur.chain[i];
    NoneInserted(t);
    S.OperationsFit(cur.pages[p].slots, 0, t);
    if S.Insert(cur.pages[p].slots, t).0.Inserted? {
      SetSlotsOk(cur, p, S.Insert(cur.pages[p].slots, t).1);
      FirstFitIs(h.pages, h.chain, t, i);
      InsertedWhere(cur.pages[p].slots, t);
      if i == |h.chain| {
        assert p == h.next;
        assert SetSlots(cur, p, [S.Live(t)]).pages == h.pages[h.next := PageState([S.Live(t)], 0)];
      }
    }
  }

  lemma TriedOk(h: Heap, p: int, t: seq<byte>)
    requires HeapOk(h) && p in h.pages
    ensures HeapOk(SetSlots(h, p, S.Insert(h.pages[p].slots, t).1))
  {
    S.OperationsFit(h.pages[p].slots, 0, t);
    SetSlotsOk(h, p, S.Insert(h.pages[p].slots, t).1);
  }

  lemma NoneInserted(t: seq<byte>)
    requires 1 <= |t| <= 4064
    ensures S.Insert([], t) == (S.Inserted(0), [S.Live(t)])
  {
    var none: seq<S.Slot> := [];
    assert S.Lens(none) == [];
    S.FirstFreeIs(none, 0);
    assert S.Put(none, 0, S.Live(t)) == [S.Live(t)];
  }

  lemma InsertedWhere(d: seq<S.Slot>, t: seq<byte>)
    ensures var r := S.Insert(d, t).0; r.Inserted? ==> r.slot == S.FirstFree(d)
  {
  }

  lemma NextLink(chain: seq<int>, links: map<int, int>, i: nat)
    requires Linked(chain, links) && i < |chain| && forall k | 0 <= k < |chain| :: chain[k] != -1
    ensures chain[i] in links && links[chain[i]] == if i + 1 < |chain| then chain[i + 1] else -1
    ensures links[chain[i]] == -1 <==> i + 1 == |chain|
  {
  }

  /** The first page of `NewTableHeap`. */
  method NewFirstPage(store: PageStore) returns (p: int)
    requires store.Valid() && store.nextPageId < U31 - 1 && forall p | p in store.pages :: S.Fits(store.View()[p].slots)
    modifies store
    ensures store.Valid() && p == old(store.nextPageId)
    ensures HeapOk(Heap(store.View(), [p], store.nextPageId)) && Linked([p], store.Links())
    ensures store.View() == old(store.View())[p := PageState([], 0)]
    ensures p in store.pages && store.pages[p].PrevPageId() == -1
  {
    hide Dec32, PageOk, SlotsOf, S.Fits, HeapOk, Linked;
    NewHeapOk(store.View(), store.nextPageId, store.Links());
    p := store.NewTablePage(-1);
  }

  lemma NewHeapOk(db: Db, p: int, links: map<int, int>)
    requires forall q | q in db :: 0 <= q < p && S.Fits(db[q].slots)
    requires p >= 0
    ensures HeapOk(Heap(db[p := PageState([], 0)], [p], p + 1)) && Linked([p], links[p := -1])
  {
    hide S.Fits;
    EmptyFits();
  }

  lemma SameAgain(db: Db, p: int)
    requires p in db
    ensures db[p := db[p]] == db
  {
  }

  lemma LinkAgain(links: map<int, int>, p: int)
    requires p in links
    ensures links[p := links[p]] == links
  {
  }

  lemma EmptyFits()
    ensures S.Fits([])
  {
    var none: seq<S.Slot> := [];
    assert S.Lens(none) == [];
  }

  lemma InsertRefused(d: seq<S.Slot>, t: seq<byte>)
    ensures !S.Insert(d, t).0.Inserted? ==> S.Insert(d, t).1 == d
  {
  }
}
