/** The lock manager object and the transactions it works on: storage/access/lock_manager.go, transaction.go. */
module LockManagers {
  import opened LogRecords
  import L = Locks
  import Heaps

  datatype TransactionState = GROWING | SHRINKING | COMMITTED | ABORTED

  class Transaction {
    const txnId: int
    var state: TransactionState
    var prevLsn: int
    var sharedLockSet: seq<Rid>
    var exclusiveLockSet: seq<Rid>
    var writeSet: seq<Heaps.WriteRecord>

    constructor (id: int)
      ensures txnId == id && state == GROWING && prevLsn == -1
      ensures sharedLockSet == [] && exclusiveLockSet == [] && writeSet == []
    {
      txnId, state, prevLsn := id, GROWING, -1;
      sharedLockSet, exclusiveLockSet, writeSet := [], [], [];
    }

    /** `isContainsRID` over the shared set. */
    method IsSharedLocked(rid: Rid) returns (b: bool)
      ensures b <==> rid in sharedLockSet
    {
      b := Contains(sharedLockSet, rid);
    }

    method IsExclusiveLocked(rid: Rid) returns (b: bool)
      ensures b <==> rid in exclusiveLockSet
    {
      b := Contains(exclusiveLockSet, rid);
    }
  }

  /** `isContainsRID` and `isContainTxnID`. */
  method Contains<T(==)>(list: seq<T>, x: T) returns (b: bool)
    ensures b <==> x in list
  {
    for i := 0 to |list|
      invariant x !in list[..i]
    {
      if list[i] == x {
        return true;
      }
    }
    return false;
  }

  lemma {:induction false} WithoutFrom<T(!new)>(list: seq<T>, x: T, i: nat)
    requires i <= |list| && x !in list[..i]
    ensures L.Without(list, x) == list[..i] + L.Without(list[i..], x)
  {
    if i > 0 {
      assert list[0] == list[..i][0];
      assert list[1..][..i - 1] == list[..i][1..] && list[1..][i - 1..] == list[i..];
      WithoutFrom(list[1..], x, i - 1);
      assert list[..i] == [list[0]] + list[..i][1..];
    } else {
      assert list[0..] == list;
    }
  }

  /** `removeRID` and `removeTxnID`: the list without the first occurrence. */
  method Remove<T(==,!new)>(list: seq<T>, x: T) returns (r: seq<T>)
    ensures r == L.Without(list, x)
  {
    for i := 0 to |list|
      invariant x !in list[..i]
    {
      if list[i] == x {
        WithoutFrom(list, x, i);
        assert list[i..][1..] == list[i + 1..];
        return list[..i] + list[i + 1..];
      }
    }
    WithoutFrom(list, x, |list|);
    assert list[..|list|] == list && list[|list|..] == [];
    return list;
  }

  lemma Rebind<T>(k: int, x: T, y: T)
    ensures map[k := x][k := y] == map[k := y]
  {
  }

  class LockManager {
    var sharedLockTable: map<Rid, seq<int>>
    var exclusiveLockTable: map<Rid, int>

    /** The tables together with one transaction's own sets. */
    ghost function View(txn: Transaction): L.Tables
      reads this, txn
    {
      L.Tables(sharedLockTable, exclusiveLockTable, map[txn.txnId := txn.sharedLockSet],
          map[txn.txnId := txn.exclusiveLockSet])
    }

    constructor ()
      ensures sharedLockTable == map[] && exclusiveLockTable == map[]
    {
      sharedLockTable, exclusiveLockTable := map[], map[];
    }

    method LockShared(txn: Transaction, rid: Rid) returns (granted: bool)
      modifies this, txn`sharedLockSet
      ensures (granted, View(txn)) == L.LockShared(old(View(txn)), txn.txnId, rid)
    {
      if rid in exclusiveLockTable {
        return exclusiveLockTable[rid] == txn.txnId;
      }
      if rid in sharedLockTable {
        var listed := Contains(sharedLockTable[rid], txn.txnId);
        if listed {
          return true;
        }
        sharedLockTable := sharedLockTable[rid := sharedLockTable[rid] + [txn.txnId]];
        Rebind(txn.txnId, txn.sharedLockSet, txn.sharedLockSet + [rid]);
        txn.sharedLockSet := txn.sharedLockSet + [rid];
        return true;
      }
      assert L.SharersOf(View(txn), rid) + [txn.txnId] == [txn.txnId];
      sharedLockTable := sharedLockTable[rid := [txn.txnId]];
      Rebind(txn.txnId, txn.sharedLockSet, txn.sharedLockSet + [rid]);
      txn.sharedLockSet := txn.sharedLockSet + [rid];
      return true;
    }

    method LockExclusive(txn: Transaction, rid: Rid) returns (granted: bool)
      modifies this, txn`exclusiveLockSet
      ensures (granted, View(txn)) == L.LockExclusive(old(View(txn)), txn.txnId, rid)
    {
      if rid in exclusiveLockTable {
        return exclusiveLockTable[rid] == txn.txnId;
      }
      if rid in sharedLockTable && |sharedLockTable[rid]| != 0 {
        return false;
      }
      exclusiveLockTable := exclusiveLockTable[rid := txn.txnId];
      Rebind(txn.txnId, txn.exclusiveLockSet, txn.exclusiveLockSet + [rid]);
      txn.exclusiveLockSet := txn.exclusiveLockSet + [rid];
      return true;
    }

    /** Go panics when the row is not share-locked by the transaction. */
    method LockUpgrade(txn: Transaction, rid: Rid) returns (granted: bool)
      requires rid in txn.sharedLockSet
      modifies this, txn`sharedLockSet, txn`exclusiveLockSet
      ensures (granted, View(txn)) == L.LockUpgrade(old(View(txn)), txn.txnId, rid)
    {
      if rid in exclusiveLockTable {
        return exclusiveLockTable[rid] == txn.txnId;
      }
      exclusiveLockTable := exclusiveLockTable[rid := txn.txnId];
      Rebind(txn.txnId, txn.exclusiveLockSet, txn.exclusiveLockSet + [rid]);
      txn.exclusiveLockSet := txn.exclusiveLockSet + [rid];
      var rest := Remove(txn.sharedLockSet, rid);
      Rebind(txn.txnId, txn.sharedLockSet, rest);
      txn.sharedLockSet := rest;
      return true;
    }

    method Unlock(txn: Transaction, rids: seq<Rid>)
      modifies this
      ensures View(txn) == L.Unlock(old(View(txn)), txn.txnId, rids)
    {
      for i := 0 to |rids|
        invariant View(txn) == L.Unlock(old(View(txn)), txn.txnId, rids[..i])
      {
        assert rids[..i + 1][..i] == rids[..i];
        var rid := rids[i];
        if rid in exclusiveLockTable && exclusiveLockTable[rid] == txn.txnId {
          exclusiveLockTable := exclusiveLockTable - {rid};
        }
        if rid in sharedLockTable {
          var listed := Contains(sharedLockTable[rid], txn.txnId);
          if listed {
            var rest := Remove(sharedLockTable[rid], txn.txnId);
            sharedLockTable := sharedLockTable[rid := rest];
          }
        }
      }
      assert rids[..|rids|] == rids;
    }

    /** `TransactionManager.releaseLocks`. */
    method ReleaseLocks(txn: Transaction)
      modifies this
      ensures View(txn) == L.ReleaseLocks(old(View(txn)), txn.txnId)
    {
      var lockSet := txn.exclusiveLockSet + txn.sharedLockSet;
      Unlock(txn, lockSet);
    }
  }
}
