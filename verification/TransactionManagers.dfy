/** Commit and rollback over a table heap: storage/access/transaction_manager.go. */
module TransactionManagers {
  import opened Bytes
  import S = Slots
  import opened LogRecords
  import opened Recovery
  import opened TablePages
  import opened PageStores
  import opened Heaps
  import opened LockManagers
  import L = Locks
  import opened TableHeaps

  // ---------- commit, on values ----------

  /** What `Commit` does for one entry: deletions are applied, the rest stands. */
  function SettleWrite(h: Heap, w: WriteRecord): Heap
    requires OnHeap(h, w.rid)
  {
    if w.wtype == DELETE then HeapApply(h, w.rid) else h
  }

  lemma SettleWriteOk(h: Heap, w: WriteRecord)
    requires HeapOk(h) && OnHeap(h, w.rid)
    ensures HeapOk(SettleWrite(h, w)) && SettleWrite(h, w).pages.Keys == h.pages.Keys
    ensures SettleWrite(h, w).chain == h.chain && SettleWrite(h, w).next == h.next
  {
    RowOpsOk(h, w.rid, [0]);
  }

  /** `Commit`'s loop over the write set, newest entry first. */
  function CommitAll(h: Heap, ws: seq<WriteRecord>): Heap
    requires WritesOk(h, ws)
    decreases |ws|
  {
    if ws == [] then h
    else
      var n := |ws| - 1;
      SettleWriteOk(h, ws[n]);
      CommitAll(SettleWrite(h, ws[n]), ws[..n])
  }

  /** No deletion is applied to an empty slot, where the page would panic. */
  predicate Committable(h: Heap, ws: seq<WriteRecord>)
    requires WritesOk(h, ws)
    decreases |ws|
  {
    ws == [] ||
    (var n := |ws| - 1;
     SettleWriteOk(h, ws[n]);
     (ws[n].wtype == DELETE ==> Row(h, ws[n].rid) != S.Empty) && Committable(SettleWrite(h, ws[n]), ws[..n]))
  }

  predicate Deletes(ws: seq<WriteRecord>, rid: Rid) {
    exists i | 0 <= i < |ws| :: ws[i] == WriteRecord(rid, DELETE, ws[i].tuple)
  }

  lemma DeletesLast(ws: seq<WriteRecord>, rid: Rid)
    requires ws != []
    ensures Deletes(ws, rid) <==>
              (ws[|ws| - 1].wtype == DELETE && ws[|ws| - 1].rid == rid) || Deletes(ws[..|ws| - 1], rid)
  {
    var n := |ws| - 1;
    if i :| 0 <= i < n && ws[..n][i] == WriteRecord(rid, DELETE, ws[..n][i].tuple) {
      assert ws[i] == WriteRecord(rid, DELETE, ws[i].tuple);
    }
    if i :| 0 <= i < |ws| && ws[i] == WriteRecord(rid, DELETE, ws[i].tuple) {
      assert i < n ==> ws[..n][i] == ws[i];
    }
  }

  /** Commit empties the rows the transaction deleted and leaves every other row alone. */
  lemma {:induction false} CommitSettles(h: Heap, ws: seq<WriteRecord>, rid: Rid)
    requires WritesOk(h, ws)
    ensures Row(CommitAll(h, ws), rid) == if Deletes(ws, rid) then S.Empty else Row(h, rid)
    decreases |ws|
  {
    hide HeapOk, Row, HeapApply, Deletes;
    if ws == [] {
      NothingDeleted(rid);
    } else {
      var n := |ws| - 1;
      var w := ws[n];
      SettleWriteOk(h, w);
      RowOpsHere(h, w.rid, [0]);
      if rid != w.rid {
        RowOpsLocal(h, w.rid, [0], rid);
      }
      DeletesLast(ws, rid);
      CommitSettles(SettleWrite(h, w), ws[..n], rid);
    }
  }

  lemma NothingDeleted(rid: Rid)
    ensures !Deletes([], rid)
  {
  }

  lemma LastTouch(ws: seq<WriteRecord>, ts: seq<Touch>)
    requires History(ws, ts) && ws != []
    ensures var n := |ws| - 1;
            && |ts| == |ws| && History(ws[..n], ts[..n])
               && ts[n].before == Latest(ws[..n], ts[..n], ws[n].rid, ts[n].before)
            && (ws[n].wtype == DELETE ==> ts[n].before.Live? && ts[n].after.Marked?)
            && (ts[n].before.Marked? ==> ts[n].after.Marked?)
  {
    HistoryPrefix(ws, ts);
    assert TouchOk(ws[|ws| - 1], ts[|ws| - 1]);
  }

  /** A transaction's deletion of a row is its last change of it: afterwards the row stays marked. */
  lemma {:induction false} DeletedStaysMarked(ws: seq<WriteRecord>, ts: seq<Touch>, i: nat, init: S.Slot)
    requires History(ws, ts) && i < |ws| && ws[i].wtype == DELETE
    ensures |ts| == |ws| && Latest(ws, ts, ws[i].rid, init).Marked?
    decreases |ws|
  {
    hide History, TouchOk;
    var n := |ws| - 1;
    LastTouch(ws, ts);
    if i < n {
      DeletedStaysMarked(ws[..n], ts[..n], i, if ws[n].rid == ws[i].rid then ts[n].before else init);
    }
  }

  lemma {:induction false} DeletedOnce(ws: seq<WriteRecord>, ts: seq<Touch>, i: nat, j: nat)
    requires History(ws, ts) && i < j < |ws| && ws[i].wtype == DELETE && ws[j].wtype == DELETE
    ensures ws[i].rid != ws[j].rid
    decreases |ws|
  {
    hide History, TouchOk;
    var n := |ws| - 1;
    LastTouch(ws, ts);
    if j < n {
      DeletedOnce(ws[..n], ts[..n], i, j);
    } else {
      DeletedStaysMarked(ws[..n], ts[..n], i, ts[n].before);
    }
  }

  lemma {:induction false} CommittableWhen(h: Heap, ws: seq<WriteRecord>)
    requires WritesOk(h, ws)
    requires forall i | 0 <= i < |ws| && ws[i].wtype == DELETE :: Row(h, ws[i].rid) != S.Empty
    requires forall i, j | 0 <= i < j < |ws| && ws[i].wtype == DELETE && ws[j].wtype == DELETE :: ws[i].rid != ws[j].rid
    ensures Committable(h, ws)
    decreases |ws|
  {
    hide HeapOk, Row, HeapApply;
    if ws != [] {
      var n := |ws| - 1;
      SettleWriteOk(h, ws[n]);
      var h1 := SettleWrite(h, ws[n]);
      forall i | 0 <= i < n && ws[..n][i].wtype == DELETE ensures Row(h1, ws[i].rid) != S.Empty {
        if ws[n].wtype == DELETE {
          RowOpsLocal(h, ws[n].rid, [0], ws[i].rid);
        }
      }
      CommittableWhen(h1, ws[..n]);
    }
  }

  /**
   After any run of a transaction with others at work on other rows, commit meets no empty slot, empties
   exactly the rows the transaction marked deleted, and leaves every other row as it is.
   */
  lemma CommitOutcome(start: Heap, steps: seq<Step>, w: Work, rid: Rid)
    requires Reaches(start, steps, w)
    ensures WritesOk(w.heap, w.writes) && Committable(w.heap, w.writes)
    ensures Deletes(w.writes, rid) ==> Row(w.heap, rid).Marked? && Row(CommitAll(w.heap, w.writes), rid) == S.Empty
    ensures !Deletes(w.writes, rid) ==> Row(CommitAll(w.heap, w.writes), rid) == Row(w.heap, rid)
  {
    hide HeapOk, Row;
    RunKeepsWork(start, steps, w);
    forall i | 0 <= i < |w.writes| && w.writes[i].wtype == DELETE ensures Row(w.heap, w.writes[i].rid).Marked? {
      DeletedStaysMarked(w.writes, w.touches, i, Row(w.heap, w.writes[i].rid));
    }
    forall i, j | 0 <= i < j < |w.writes| && w.writes[i].wtype == DELETE && w.writes[j].wtype == DELETE
      ensures w.writes[i].rid != w.writes[j].rid
    {
      DeletedOnce(w.writes, w.touches, i, j);
    }
    CommittableWhen(w.heap, w.writes);
    CommitSettles(w.heap, w.writes, rid);
  }

  // ---------- rollback, on values ----------

  /** The page calls of one undo do not panic, and there is a page id left for a moved row. */
  predicate UndoStepOk(h: Heap, w: WriteRecord)
    requires OnHeap(h, w.rid)
  {
    match w.wtype
    case DELETE => w.rid.slot < |h.pages[w.rid.page].slots|
    case INSERT => Row(h, w.rid) != S.Empty
    case UPDATE => h.next < U31 - 1
  }

  predicate Undoable(h: Heap, ws: seq<WriteRecord>)
    requires WritesOk(h, ws)
    decreases |ws|
  {
    ws == [] ||
    (var n := |ws| - 1;
     UndoWriteOk(h, ws[n]);
     UndoStepOk(h, ws[n]) && Undoable(UndoWrite(h, ws[n]), ws[..n]))
  }

  lemma UndoStepPossible(h: Heap, w: WriteRecord, t: Touch)
    requires OnHeap(h, w.rid) && TouchOk(w, t) && Row(h, w.rid) == t.after && h.next < U31 - 1
    ensures UndoStepOk(h, w)
  {
  }

  lemma UndoKeepsNext(h: Heap, w: WriteRecord)
    requires HeapOk(h) && OnHeap(h, w.rid) && (w.wtype.UPDATE? ==> PageUpdate(h, w.rid, w.tuple).0 != S.NoRoom)
    ensures UndoWrite(h, w).next == h.next
  {
  }

  /** Whatever a transaction has written, rollback with room meets no page that panics. */
  lemma {:induction false} RollbackNeverPanics(h: Heap, ws: seq<WriteRecord>, ts: seq<Touch>)
    requires WritesOk(h, ws) && History(ws, ts) && Untouched(h, ws, ts) && RoomToAbort(h, ws) && h.next < U31 - 1
    ensures Undoable(h, ws)
    decreases |ws|
  {
    hide HeapOk, Row, TouchOk, UndoWrite, UndoStepOk, PageUpdate;
    if ws != [] {
      var n := |ws| - 1;
      var h1 := UndoWrite(h, ws[n]);
      assert Row(h, ws[n].rid) == Latest(ws, ts, ws[n].rid, Row(h, ws[n].rid));
      UndoStepPossible(h, ws[n], ts[n]);
      HistoryPrefix(ws, ts);
      forall r: Rid ensures Row(h1, r) == Latest(ws[..n], ts[..n], r, Row(h1, r)) {
        UndoOneWrite(h, ws, ts, r);
      }
      UndoOneWrite(h, ws, ts, Rid(0, 0));
      UndoKeepsNext(h, ws[n]);
      RollbackNeverPanics(h1, ws[..n], ts[..n]);
    }
  }

  lemma LastUndo(h: Heap, ws: seq<WriteRecord>)
    requires WritesOk(h, ws) && Undoable(h, ws) && ws != []
    ensures var w := ws[|ws| - 1];
            && HeapOk(h) && OnHeap(h, w.rid) && UndoStepOk(h, w) && (w.wtype == UPDATE ==> 1 <= |w.tuple| <= 4064)
            && var h1 := UndoWrite(h, w);
            WritesOk(h1, ws[..|ws| - 1]) && Undoable(h1, ws[..|ws| - 1])
                && AbortAll(h1, ws[..|ws| - 1]) == AbortAll(h, ws)
  {
    hide HeapOk, Row, UndoWrite, UndoStepOk;
    UndoneOk(h, ws);
  }

  lemma UndoneOk(h: Heap, ws: seq<WriteRecord>)
    requires WritesOk(h, ws) && ws != []
    ensures var w := ws[|ws| - 1];
            HeapOk(h) && OnHeap(h, w.rid) && (w.wtype == UPDATE ==> 1 <= |w.tuple| <= 4064)
                && WritesOk(UndoWrite(h, w), ws[..|ws| - 1])
  {
    hide UndoWrite;
    UndoWriteOk(h, ws[|ws| - 1]);
  }

  lemma LastSettle(h: Heap, ws: seq<WriteRecord>)
    requires WritesOk(h, ws) && Committable(h, ws) && ws != []
    ensures var w := ws[|ws| - 1];
            && HeapOk(h) && OnHeap(h, w.rid) && (w.wtype == DELETE ==> Row(h, w.rid) != S.Empty)
            && var h1 := SettleWrite(h, w);
            WritesOk(h1, ws[..|ws| - 1]) && Committable(h1, ws[..|ws| - 1])
                && CommitAll(h1, ws[..|ws| - 1]) == CommitAll(h, ws)
  {
    SettleWriteOk(h, ws[|ws| - 1]);
  }

  class TransactionManager {
    const lockManager: LockManager
    var nextTxnId: int
    var txnMap: map<int, Transaction>

    constructor (lockManager: LockManager)
      ensures this.lockManager == lockManager && nextTxnId == 0 && txnMap == map[]
    {
      this.lockManager, nextTxnId, txnMap := lockManager, 0, map[];
    }

    /** `Begin` without a transaction: ids are never handed out twice. */
    method Begin() returns (txn: Transaction)
      requires forall id | id in txnMap :: id <= nextTxnId && txnMap[id].txnId == id
      modifies this
      ensures fresh(txn) && txn.txnId == nextTxnId == old(nextTxnId) + 1 && txn.txnId !in old(txnMap)
      ensures txn.state == GROWING && txn.prevLsn == -1 && |txn.writeSet| == 0
      ensures txnMap == old(txnMap)[txn.txnId := txn]
      ensures forall id | id in txnMap :: id <= nextTxnId && txnMap[id].txnId == id
    {
      nextTxnId := nextTxnId + 1;
      txn := new Transaction(nextTxnId);
      txnMap := txnMap[txn.txnId := txn];
    }

    /** One entry taken back. The entries a moved row appends are dropped again by the caller. */
    method UndoEntry(w: WriteRecord, txn: Transaction, table: TableHeap, ghost chain: seq<int>)
        returns (ghost chain': seq<int>)
      requires table.Valid(chain) && OnHeap(table.View(chain), w.rid) && UndoStepOk(table.View(chain), w)
      requires w.wtype == UPDATE ==> 1 <= |w.tuple| <= 4064
      modifies table.store, table.store.Arrays(), txn`writeSet
      ensures table.Valid(chain') && fresh(table.store.Arrays() - old(table.store.Arrays()))
      ensures table.View(chain') == UndoWrite(old(table.View(chain)), w)
    {
      hide Dec32, PageOk, SlotsOf, HeapOk, Linked, HeapRollback, HeapApply, HeapUpdate, PageStore.Valid,
           PageStore.View, PageStore.Links;
      chain' := chain;
      if w.wtype == DELETE {
        table.RollbackDelete(w.rid, chain);
      } else if w.wtype == INSERT {
        table.ApplyDelete(w.rid, chain);
      } else {
        var _, _, c := table.UpdateTuple(w.tuple, w.rid, txn, chain);
        chain' := c;
      }
    }

    method UndoAllWrites(txn: Transaction, table: TableHeap, ghost chain: seq<int>) returns (ghost chain': seq<int>)
      requires table.Valid(chain) && WritesOk(table.View(chain), txn.writeSet)
               && Undoable(table.View(chain), txn.writeSet)
      modifies table.store, table.store.Arrays(), txn`writeSet
      ensures table.Valid(chain') && fresh(table.store.Arrays() - old(table.store.Arrays()))
      ensures table.View(chain') == AbortAll(old(table.View(chain)), old(txn.writeSet))
      ensures |txn.writeSet| == 0
    {
      hide Dec32, PageOk, SlotsOf, HeapOk, Linked, WritesOk, Undoable, UndoWrite, UndoStepOk, AbortAll,
           PageStore.Valid, PageStore.View, PageStore.Links;
      chain' := chain;
      var writeSet := txn.writeSet;
      while |writeSet| != 0
        invariant table.Valid(chain') && fresh(table.store.Arrays() - old(table.store.Arrays()))
        invariant WritesOk(table.View(chain'), writeSet) && Undoable(table.View(chain'), writeSet)
        invariant AbortAll(table.View(chain'), writeSet) == AbortAll(old(table.View(chain)), old(txn.writeSet))
        decreases |writeSet|
      {
        LastUndo(table.View(chain'), writeSet);
        var item := writeSet[|writeSet| - 1];
        chain' := UndoEntry(item, txn, table, chain');
        assert fresh(table.store.Arrays() - old(table.store.Arrays()));
        writeSet := writeSet[..|writeSet| - 1];
      }
      NothingLeft(table.View(chain'), writeSet);
      txn.writeSet := writeSet;
    }

    method SettleEntry(w: WriteRecord, table: TableHeap, ghost chain: seq<int>)
      requires table.Valid(chain) && OnHeap(table.View(chain), w.rid)
               && (w.wtype == DELETE ==> Row(table.View(chain), w.rid) != S.Empty)
      modifies table.store.Arrays()
      ensures table.Valid(chain) && table.store.Arrays() == old(table.store.Arrays())
      ensures table.View(chain) == SettleWrite(old(table.View(chain)), w)
    {
      hide Dec32, PageOk, SlotsOf, HeapOk, Linked, HeapApply, PageStore.Valid, PageStore.View, PageStore.Links;
      if w.wtype == DELETE {
        table.ApplyDelete(w.rid, chain);
      }
    }

    method SettleAllWrites(txn: Transaction, table: TableHeap, ghost chain: seq<int>)
      requires table.Valid(chain) && WritesOk(table.View(chain), txn.writeSet)
               && Committable(table.View(chain), txn.writeSet)
      modifies table.store.Arrays(), txn`writeSet
      ensures table.Valid(chain) && table.store.Arrays() == old(table.store.Arrays())
      ensures table.View(chain) == CommitAll(old(table.View(chain)), old(txn.writeSet))
      ensures |txn.writeSet| == 0
    {
      hide Dec32, PageOk, SlotsOf, HeapOk, Linked, WritesOk, Committable, SettleWrite, CommitAll, PageStore.Valid,
           PageStore.View, PageStore.Links;
      var writeSet := txn.writeSet;
      while |writeSet| != 0
        invariant table.Valid(chain) && table.store.Arrays() == old(table.store.Arrays())
        invariant WritesOk(table.View(chain), writeSet) && Committable(table.View(chain), writeSet)
        invariant CommitAll(table.View(chain), writeSet) == CommitAll(old(table.View(chain)), old(txn.writeSet))
        decreases |writeSet|
      {
        LastSettle(table.View(chain), writeSet);
        SettleEntry(writeSet[|writeSet| - 1], table, chain);
        writeSet := writeSet[..|writeSet| - 1];
      }
      NothingLeft(table.View(chain), writeSet);
      txn.writeSet := writeSet;
    }

    /** `Abort`: every write taken back, newest first, and then every lock released. */
    method Abort(txn: Transaction, table: TableHeap, ghost chain: seq<int>) returns (ghost chain': seq<int>)
      requires table.Valid(chain) && WritesOk(table.View(chain), txn.writeSet)
               && Undoable(table.View(chain), txn.writeSet)
      modifies table.store, table.store.Arrays(), txn`writeSet, txn`state, lockManager
      ensures table.Valid(chain')
      ensures table.View(chain') == AbortAll(old(table.View(chain)), old(txn.writeSet))
      ensures txn.state == ABORTED && |txn.writeSet| == 0
      ensures lockManager.View(txn) == L.ReleaseLocks(old(lockManager.View(txn)), txn.txnId)
    {
      hide Dec32, PageOk, SlotsOf, HeapOk, Linked, WritesOk, Undoable, AbortAll, PageStore.Valid, PageStore.View,
           PageStore.Links, L.ReleaseLocks;
      txn.state := ABORTED;
      chain' := UndoAllWrites(txn, table, chain);
      lockManager.ReleaseLocks(txn);
    }

    /** `Commit`: every deletion applied, and then every lock released. */
    method Commit(txn: Transaction, table: TableHeap, ghost chain: seq<int>)
      requires table.Valid(chain) && WritesOk(table.View(chain), txn.writeSet)
               && Committable(table.View(chain), txn.writeSet)
      modifies table.store.Arrays(), txn`writeSet, txn`state, lockManager
      ensures table.Valid(chain)
      ensures table.View(chain) == CommitAll(old(table.View(chain)), old(txn.writeSet))
      ensures txn.state == COMMITTED && |txn.writeSet| == 0
      ensures lockManager.View(txn) == L.ReleaseLocks(old(lockManager.View(txn)), txn.txnId)
    {
      hide Dec32, PageOk, SlotsOf, HeapOk, Linked, WritesOk, Committable, CommitAll, PageStore.Valid, PageStore.View,
           PageStore.Links, L.ReleaseLocks;
      txn.state := COMMITTED;
      SettleAllWrites(txn, table, chain);
      lockManager.ReleaseLocks(txn);
    }
  }

  lemma NothingLeft(h: Heap, ws: seq<WriteRecord>)
    requires |ws| == 0 && WritesOk(h, ws)
    ensures AbortAll(h, ws) == h && CommitAll(h, ws) == h
  {
  }
}
