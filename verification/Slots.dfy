/**
 The abstract value of a table page: its slot directory, with the bytes each slot holds.
 Every physical page operation of storage/access/table_page.go is specified by a function here.
 */
module Slots {
  import opened Bytes
  import opened Collections

  const HEADER_SIZE: nat := 24
  const ENTRY_SIZE: nat := 8

  /** A slot is free, holds a row, or holds a row whose deletion is not applied yet. */
  datatype Slot = Empty | Live(bytes: seq<byte>) | Marked(bytes: seq<byte>)

  datatype InsertResult = Inserted(slot: nat) | EmptyTuple | NotEnoughSpace
  datatype UpdateResult = Updated | Refused | NoRoom

  function Len(s: Slot): nat {
    if s.Empty? then 0 else |s.bytes|
  }

  /** Bytes of tuple data on the page. */
  function Used(d: seq<Slot>): nat {
    Sum(Lens(d))
  }

  function Lens(d: seq<Slot>): (ns: seq<nat>)
    ensures |ns| == |d|
  {
    seq(|d|, i requires 0 <= i < |d| => Len(d[i]))
  }

  /** Bytes between the slot directory and the tuple data. */
  function Free(d: seq<Slot>): int {
    PAGE_SIZE - HEADER_SIZE - ENTRY_SIZE * |d| - Used(d)
  }

  /** What a page can hold: no row is empty, and directory and rows fit. */
  predicate Fits(d: seq<Slot>) {
    Free(d) >= 0 && forall i | 0 <= i < |d| :: d[i].Empty? || |d[i].bytes| > 0
  }

  /** The lowest free slot, or the first slot past the directory. */
  function FirstFree(d: seq<Slot>): (k: nat)
    ensures k <= |d|
    ensures k < |d| ==> d[k] == Empty
    ensures forall j | 0 <= j < k :: d[j] != Empty
  {
    if d == [] then 0
    else
      var k := FirstFree(d[..|d| - 1]);
      assert forall j | 0 <= j < k :: d[j] == d[..|d| - 1][j];
      if k < |d| - 1 then k else if d[|d| - 1] == Empty then |d| - 1 else |d|
  }

  lemma FirstFreeIs(d: seq<Slot>, k: nat)
    requires k <= |d| && (k < |d| ==> d[k] == Empty)
    requires forall j | 0 <= j < k :: d[j] != Empty
    ensures k == FirstFree(d)
  {
  }

  /** The slot of a possibly shorter directory; past its end there is nothing. */
  function At(d: seq<Slot>, i: nat): Slot {
    if i < |d| then d[i] else Empty
  }

  function Put(d: seq<Slot>, k: nat, s: Slot): seq<Slot>
    requires k <= |d|
  {
    if k < |d| then d[k := s] else d + [s]
  }

  // ---------- the operations ----------

  function Insert(d: seq<Slot>, b: seq<byte>): (InsertResult, seq<Slot>) {
    if b == [] then (EmptyTuple, d)
    else if Free(d) < |b| + ENTRY_SIZE then (NotEnoughSpace, d)
    else (Inserted(FirstFree(d)), Put(d, FirstFree(d), Live(b)))
  }

  function Update(d: seq<Slot>, k: nat, b: seq<byte>): (UpdateResult, seq<Slot>)
  {
    if k >= |d| || !d[k].Live? then (Refused, d)
    else if Free(d) + |d[k].bytes| < |b| then (NoRoom, d)
    else (Updated, d[k := Live(b)])
  }

  function MarkDelete(d: seq<Slot>, k: nat): (bool, seq<Slot>) {
    if k >= |d| || !d[k].Live? then (false, d) else (true, d[k := Marked(d[k].bytes)])
  }

  function ApplyDelete(d: seq<Slot>, k: nat): seq<Slot>
    requires k < |d|
  {
    d[k := Empty]
  }

  function RollbackDelete(d: seq<Slot>, k: nat): seq<Slot>
    requires k < |d|
  {
    if d[k].Marked? then d[k := Live(d[k].bytes)] else d
  }

  // ---------- their laws ----------

  lemma UsedPut(d: seq<Slot>, k: nat, s: Slot)
    requires k <= |d|
    ensures Used(Put(d, k, s)) == Used(d) - Len(At(d, k)) + Len(s)
  {
    var ns := Lens(d);
    if k == |d| {
      assert Lens(Put(d, k, s)) == ns + [Len(s)];
      assert (ns + [Len(s)])[..k] == ns;
    } else {
      assert Lens(Put(d, k, s)) == ns[k := Len(s)];
      SumPut(ns, k, Len(s));
    }
  }

  lemma UsedOne(s: Slot)
    ensures Used([s]) == Len(s)
  {
    var ns: seq<nat> := [Len(s)];
    assert Lens([s]) == ns && ns[..0] == [];
    assert Sum(ns) == Sum([]) + Len(s);
  }

  lemma UsedTwo(s: Slot, t: Slot)
    ensures Used([s, t]) == Len(s) + Len(t)
  {
    var ns: seq<nat> := [Len(s), Len(t)];
    UsedOne(s);
    assert Lens([s]) == [Len(s)] == ns[..1];
    assert Lens([s, t]) == ns;
    assert Sum(ns) == Sum(ns[..1]) + Len(t);
  }

  lemma PutFits(d: seq<Slot>, k: nat, s: Slot)
    requires Fits(d) && k <= |d| && (s.Empty? || s.bytes != [])
    requires Free(d) + Len(At(d, k)) >= Len(s) + if k == |d| then ENTRY_SIZE else 0
    ensures Fits(Put(d, k, s))
  {
    UsedPut(d, k, s);
  }

  /** No row on a page is longer than 4064 bytes. */
  lemma RowsAreShort(d: seq<Slot>, k: nat)
    requires Fits(d) && k < |d|
    ensures Len(d[k]) <= 4064
  {
    SumAtLeast(Lens(d), k);
  }

  /** A tuple is refused only if it would not fit in a new slot, a resize only if the new row would not fit. */
  lemma RefusalsExact(d: seq<Slot>, k: nat, b: seq<byte>)
    requires Fits(d) && b != []
    ensures Insert(d, b).0 == NotEnoughSpace <==> !Fits(d + [Live(b)])
    ensures !Insert(d, b).0.Inserted? ==> Insert(d, b).1 == d
    ensures Update(d, k, b).0 == Refused <==> !At(d, k).Live?
    ensures Update(d, k, b).0 == NoRoom <==> At(d, k).Live? && !Fits(d[k := Live(b)])
    ensures Update(d, k, b).0 != Updated ==> Update(d, k, b).1 == d
  {
    UsedPut(d, |d|, Live(b));
    if k < |d| {
      UsedPut(d, k, Live(b));
    }
  }

  /** Every operation keeps the page well-formed. */
  lemma OperationsFit(d: seq<Slot>, k: nat, b: seq<byte>)
    requires Fits(d)
    ensures Fits(Insert(d, b).1)
    ensures b != [] ==> Fits(Update(d, k, b).1)
    ensures Fits(MarkDelete(d, k).1)
    ensures k < |d| ==> Fits(ApplyDelete(d, k)) && Fits(RollbackDelete(d, k))
  {
    if Insert(d, b).0.Inserted? {
      PutFits(d, FirstFree(d), Live(b));
    }
    if k < |d| {
      PutFits(d, k, Empty);
      if Update(d, k, b).0 == Updated && b != [] {
        PutFits(d, k, Live(b));
      }
      if !d[k].Empty? {
        PutFits(d, k, Marked(d[k].bytes));
        PutFits(d, k, Live(d[k].bytes));
      }
    }
  }

  /**
   On a page with only `a` the row can shrink to `b`, and then the page takes `c` and has no room for `a` again.
   */
  predicate Crowded(a: seq<byte>, b: seq<byte>, c: seq<byte>) {
    a != [] && b != [] && c != [] && |a| <= 4064 && |b| + |c| <= 4056 < |a| + |c|
  }
}
