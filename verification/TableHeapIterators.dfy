/** The scan of a table heap: storage/access/table_heap_iterator.go and `GetFirstTuple`. */
module TableHeapIterators {
  import opened Bytes
  import S = Slots
  import opened LogRecords
  import opened Recovery
  import opened TablePages
  import opened PageStores
  import opened Heaps
  import opened LockManagers
  import L = Locks
  import opened Scans
  import opened TableHeaps

  class TableHeapIterator {
    const heap: TableHeap
    const lockManager: LockManager
    const txn: Transaction
    const logging: bool
    /** The current tuple and where it is; none at the end. */
    var atEnd: bool
    var rid: Rid
    var tuple: seq<byte>
    /** The position of the current page in the chain. */
    ghost var at: nat

    ghost predicate Valid(chain: seq<int>)
      reads this, heap.store, heap.store.Arrays()
    {
      heap.Valid(chain) && (!atEnd ==> at < |chain| && rid.page == chain[at] && rid.slot >= 0)
    }

    /** The places not reached yet. */
    ghost function Ahead(chain: seq<int>): seq<Rid>
      requires Valid(chain)
      reads this, heap.store, heap.store.Arrays()
    {
      if atEnd then [] else RidsBehind(heap.View(chain), at, rid.slot + 1)
    }

    /** The rows still to come, the current one first. */
    ghost function Remaining(chain: seq<int>): seq<(Rid, seq<byte>)>
      requires Valid(chain)
      reads this, heap.store, heap.store.Arrays(), lockManager, txn
    {
      if atEnd then [] else [(rid, tuple)] + Yields(heap.View(chain), Ahead(chain), lockManager.View(txn), txn.txnId)
    }

    /** The places from the current one on: what is left for a transaction that nothing has stopped. */
    ghost function Left(chain: seq<int>): seq<Rid>
      requires Valid(chain)
      reads this, heap.store, heap.store.Arrays()
    {
      if atEnd then [] else [rid] + Ahead(chain)
    }

    lemma CurrentIsFirst(chain: seq<int>)
      requires Valid(chain)
      ensures End() ==> |Remaining(chain)| == 0 && |Left(chain)| == 0
      ensures !End() ==> |Remaining(chain)| > 0 && Remaining(chain)[0] == Current() && |Left(chain)| > 0
    {
      hide Dec32, PageOk, SlotsOf, HeapOk, Linked, Yields, RidsBehind, PageStore.Valid, PageStore.View, PageStore.Links;
    }

    /** `GetTuple` at a place, which becomes the current one; a miss is the end. */
    method Step(p: int, slot: int, ghost i: nat, ghost chain: seq<int>)
      requires heap.Valid(chain) && slot >= 0 && i < |chain| && p == chain[i]
      modifies this, lockManager, txn`sharedLockSet, txn`state
      ensures Valid(chain) && heap.View(chain) == old(heap.View(chain))
      ensures Remaining(chain) ==
              Yields(old(heap.View(chain)), [Rid(p, slot)] + RidsBehind(old(heap.View(chain)), i, slot + 1),
                  old(lockManager.View(txn)), txn.txnId)
      ensures txn.state == old(txn.state) || txn.state == ABORTED
      ensures logging && txn.state != ABORTED ==>
                Left(chain) == [Rid(p, slot)] + RidsBehind(old(heap.View(chain)), i, slot + 1)
    {
      hide Dec32, PageOk, SlotsOf, HeapOk, Linked, Requested, Returned, RidsBehind, Yields, CanRead, PageStore.Valid,
           PageStore.View, PageStore.Links;
      PagesOfChain(heap.View(chain));
      ghost var h := heap.View(chain);
      ghost var behind := RidsBehind(h, i, slot + 1);
      ghost var locks := lockManager.View(txn);
      var found, t := heap.GetTuple(Rid(p, slot), txn, lockManager, logging, chain);
      YieldsAfterRequest(h, behind, locks, txn.txnId, Rid(p, slot));
      YieldsStep(h, Rid(p, slot), behind, locks, txn.txnId);
      atEnd, rid, tuple, at := !found, Rid(p, slot), t, i;
      heap.NoneChanged(chain);
    }

    /** `NewTableHeapIterator`: on the first tuple. */
    constructor (heap: TableHeap, lockManager: LockManager, txn: Transaction, logging: bool, ghost chain: seq<int>)
      requires heap.Valid(chain)
      modifies lockManager, txn`sharedLockSet, txn`state
      ensures this.heap == heap && this.lockManager == lockManager && this.txn == txn && this.logging == logging
      ensures Valid(chain) && heap.View(chain) == old(heap.View(chain))
      ensures Remaining(chain) == Yields(old(heap.View(chain)), RidsFrom(old(heap.View(chain)), 0),
              old(lockManager.View(txn)), txn.txnId)
      ensures txn.state == old(txn.state) || txn.state == ABORTED
      ensures logging && txn.state != ABORTED ==> Left(chain) == RidsFrom(old(heap.View(chain)), 0)
    {
      hide Dec32, PageOk, SlotsOf, HeapOk, Linked, Requested, Returned, RidsBehind, RidsFrom, Yields, PageStore.Valid,
           PageStore.View, PageStore.Links;
      this.heap, this.lockManager, this.txn, this.logging := heap, lockManager, txn, logging;
      this.atEnd, this.rid, this.tuple, this.at := true, Rid(-1, 0), [], 0;
      new;
      heap.NoneChanged(chain);
      NothingToYield(heap.View(chain), RidsFrom(heap.View(chain), 0), lockManager.View(txn), txn.txnId);
      var p, slot, i := heap.FirstRid(chain);
      if slot != -1 {
        Step(p, slot, i, chain);
      }
    }

    predicate End()
      reads this
    {
      atEnd
    }

    function Current(): (Rid, seq<byte>)
      reads this
    {
      (rid, tuple)
    }

    /** The search of `Next`: the rest of the current page, then the pages behind it. */
    method FindNext(ghost chain: seq<int>) returns (p: int, slot: int, ghost i: nat)
      requires Valid(chain) && !atEnd
      ensures Valid(chain) && heap.View(chain) == old(heap.View(chain))
      ensures slot == -1 ==> |Ahead(chain)| == 0
      ensures slot != -1 ==> slot >= 0 && i < |chain| && p == chain[i] &&
                             Ahead(chain) == [Rid(p, slot)] + RidsBehind(heap.View(chain), i, slot + 1)
    {
      hide Dec32, PageOk, SlotsOf, HeapOk, Linked, RidsBehind, RidsFrom, PageStore.Valid, PageStore.View,
           PageStore.Links;
      PagesOfChain(heap.View(chain));
      FromHere(heap.View(chain), |chain|);
      p, i := rid.page, at;
      slot := heap.FindOnPage(p, rid.slot + 1, chain, i);
      if slot != -1 {
        return;
      }
      NextLink(chain, heap.store.Links(), i);
      var next := heap.store.NextOf(p);
      while next != -1
        invariant Valid(chain) && heap.View(chain) == old(heap.View(chain))
                  && heap.store.Links() == old(heap.store.Links())
        invariant i < |chain| && slot == -1 && next == (if i + 1 < |chain| then chain[i + 1] else -1)
        invariant Ahead(chain) == RidsFrom(heap.View(chain), i + 1)
        decreases |chain| - i
      {
        p, i := next, i + 1;
        FromHere(heap.View(chain), i);
        slot := heap.FindOnPage(p, 0, chain, i);
        if slot != -1 {
          return;
        }
        NextLink(chain, heap.store.Links(), i);
        next := heap.store.NextOf(p);
      }
    }

    /** `Next`: the rows still to come lose their first one. */
    method Next(ghost chain: seq<int>)
      requires Valid(chain) && !atEnd
      modifies this, lockManager, txn`sharedLockSet, txn`state
      ensures Valid(chain) && heap.View(chain) == old(heap.View(chain))
      ensures Remaining(chain) == old(Remaining(chain))[1..]
      ensures txn.state == old(txn.state) || txn.state == ABORTED
      ensures logging && txn.state != ABORTED ==> Left(chain) == old(Left(chain))[1..]
    {
      hide Dec32, PageOk, SlotsOf, HeapOk, Linked, RidsBehind, RidsFrom, Yields, PageStore.Valid, PageStore.View,
           PageStore.Links;
      NothingToYield(heap.View(chain), Ahead(chain), lockManager.View(txn), txn.txnId);
      var p, slot, i := FindNext(chain);
      if slot == -1 {
        atEnd := true;
        heap.NoneChanged(chain);
      } else {
        Step(p, slot, i, chain);
      }
    }
  }

  lemma YieldsStep(h: Heap, rid: Rid, behind: seq<Rid>, s: L.Tables, txn: int)
    ensures Yields(h, [rid] + behind, s, txn) ==
            if Returned(h, s, txn, rid) then [(rid, Row(h, rid).bytes)] + Yields(h, behind, s, txn) else []
  {
    assert ([rid] + behind)[1..] == behind;
  }

  /**
   A whole scan, as the sequential scan executor drives it. With logging on, a scan that was cut short
   leaves its transaction aborted; with logging off nothing tells.
   */
  method ScanAll(heap: TableHeap, lockManager: LockManager, txn: Transaction, logging: bool, ghost chain: seq<int>)
    returns (rows: seq<(Rid, seq<byte>)>)
    requires heap.Valid(chain)
    modifies lockManager, txn`sharedLockSet, txn`state
    ensures rows == Yields(old(heap.View(chain)), RidsFrom(old(heap.View(chain)), 0), old(lockManager.View(txn)),
            txn.txnId)
    ensures logging && txn.state != ABORTED ==>
              rows == LiveRows(old(heap.View(chain)), RidsFrom(old(heap.View(chain)), 0))
  {
    hide Dec32, PageOk, SlotsOf, HeapOk, Linked, RidsFrom, Yields, LiveRows, PageStore.Valid, PageStore.View,
         PageStore.Links,
      TableHeapIterator.Remaining, TableHeapIterator.Left, TableHeapIterator.Ahead;
    ghost var all := Yields(heap.View(chain), RidsFrom(heap.View(chain), 0), lockManager.View(txn), txn.txnId);
    ghost var places := RidsFrom(heap.View(chain), 0);
    var it := new TableHeapIterator(heap, lockManager, txn, logging, chain);
    rows := [];
    while !it.End()
      invariant it.Valid(chain) && it.txn == txn && it.lockManager == lockManager && it.logging == logging && fresh(it)
      invariant rows + it.Remaining(chain) == all
      invariant logging && txn.state != ABORTED ==> |rows| + |it.Left(chain)| == |places|
      decreases |it.Remaining(chain)|
    {
      it.CurrentIsFirst(chain);
      rows := rows + [it.Current()];
      it.Next(chain);
    }
    it.CurrentIsFirst(chain);
    if logging && txn.state != ABORTED {
      FullScan(old(heap.View(chain)), places, old(lockManager.View(txn)), txn.txnId);
    }
  }
}
