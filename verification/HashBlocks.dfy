/** A block page of the hash index, with its two bitmaps: storage/page/hash_table_block_page.go. */
module HashBlocks {
  import opened Probes

  const BITMAP: nat := (BLOCK - 1) / 8 + 1

  datatype Entry = Entry(key: int, value: int)

  /** `1 << k` in a byte. */
  function Mask(k: nat): bv8
    requires k < 8
  {
    (1 as bv8) << k
  }

  predicate Bit(b: bv8, k: nat)
    requires k < 8
  {
    b & Mask(k) != 0
  }

  lemma Masks()
    ensures Mask(0) == 1 && Mask(1) == 2 && Mask(2) == 4 && Mask(3) == 8
    ensures Mask(4) == 16 && Mask(5) == 32 && Mask(6) == 64 && Mask(7) == 128
  {
  }

  /** `b |= 1 << k` and `b &= ^(1 << k)`. */
  function WithBit(b: bv8, k: nat): bv8
    requires k < 8
  {
    b | Mask(k)
  }

  function WithoutBit(b: bv8, k: nat): bv8
    requires k < 8
  {
    b & !Mask(k)
  }

  /** Setting or clearing one bit changes that bit only. */
  lemma BitSet(b: bv8, k: nat, j: nat)
    requires k < 8 && j < 8
    ensures Bit(WithBit(b, k), j) <==> j == k || Bit(b, j)
    ensures Bit(WithoutBit(b, k), j) <==> j != k && Bit(b, j)
  {
    hide Mask;
    Masks();
    ByteBits(b, Mask(k), Mask(j));
    assert (k == 0 || k == 1 || k == 2 || k == 3 || k == 4 || k == 5 || k == 6 || k == 7);
    assert (j == 0 || j == 1 || j == 2 || j == 3 || j == 4 || j == 5 || j == 6 || j == 7);
    assert Mask(k) == Mask(j) <==> k == j;
  }

  predicate Single(m: bv8) {
    m == 1 || m == 2 || m == 4 || m == 8 || m == 16 || m == 32 || m == 64 || m == 128
  }

  lemma ByteBits(b: bv8, m: bv8, q: bv8)
    requires Single(m) && Single(q)
    ensures (b | m) & q != 0 <==> m == q || b & q != 0
    ensures (b & !m) & q != 0 <==> m != q && b & q != 0
  {
  }

  predicate BitAt(map_: seq<bv8>, i: nat)
    requires |map_| == BITMAP && i < BLOCK
  {
    Bit(map_[i / 8], i % 8)
  }

  function SetBit(map_: seq<bv8>, i: nat): (r: seq<bv8>)
    requires |map_| == BITMAP && i < BLOCK
    ensures |r| == BITMAP
  {
    map_[i / 8 := WithBit(map_[i / 8], i % 8)]
  }

  function ClearBit(map_: seq<bv8>, i: nat): (r: seq<bv8>)
    requires |map_| == BITMAP && i < BLOCK
    ensures |r| == BITMAP
  {
    map_[i / 8 := WithoutBit(map_[i / 8], i % 8)]
  }

  lemma SameByte(i: nat, j: nat)
    ensures i == j <==> i / 8 == j / 8 && i % 8 == j % 8
  {
  }

  /** Bit `k` of byte `b` written, bit `l` of byte `c` read. */
  lemma BitOfByte(map_: seq<bv8>, b: nat, k: nat, c: nat, l: nat)
    requires b < |map_| && c < |map_| && k < 8 && l < 8
    ensures Bit(map_[b := WithBit(map_[b], k)][c], l) <==> (b == c && k == l) || Bit(map_[c], l)
    ensures Bit(map_[b := WithoutBit(map_[b], k)][c], l) <==> !(b == c && k == l) && Bit(map_[c], l)
  {
    hide Bit, Mask, WithBit, WithoutBit;
    BitSet(map_[b], k, l);
  }

  lemma BitAtSet(map_: seq<bv8>, i: nat, j: nat)
    requires |map_| == BITMAP && i < BLOCK && j < BLOCK
    ensures BitAt(SetBit(map_, i), j) <==> j == i || BitAt(map_, j)
    ensures BitAt(ClearBit(map_, i), j) <==> j != i && BitAt(map_, j)
  {
    hide Bit, Mask, WithBit, WithoutBit;
    SameByte(i, j);
    BitOfByte(map_, i / 8, i % 8, j / 8, j % 8);
  }

  function CellOf(occupied: bool, readable: bool, e: Entry): Cell {
    if !occupied then Vacant else if readable then Pair(e.key, e.value) else Tomb(e.key, e.value)
  }

  /** The slots of a page, given its two bitmaps and its entries. */
  function CellsOf(occupied: seq<bv8>, readable: seq<bv8>, entries: seq<Entry>): (cells: seq<Cell>)
    requires |occupied| == |readable| == BITMAP && |entries| == BLOCK
    ensures |cells| == BLOCK
    ensures forall i | 0 <= i < BLOCK :: cells[i] == CellOf(BitAt(occupied, i), BitAt(readable, i), entries[i])
  {
    seq(BLOCK, i requires 0 <= i < BLOCK => CellOf(BitAt(occupied, i), BitAt(readable, i), entries[i]))
  }

  /** Only used slots are readable. */
  ghost predicate BitmapsOk(occupied: seq<bv8>, readable: seq<bv8>)
    requires |occupied| == |readable| == BITMAP
  {
    forall i | 0 <= i < BLOCK :: BitAt(readable, i) ==> BitAt(occupied, i)
  }

  /** Both bits set and the entry written: the slot holds the pair. */
  lemma InsertedCells(occupied: seq<bv8>, readable: seq<bv8>, entries: seq<Entry>, i: nat, e: Entry)
    requires |occupied| == |readable| == BITMAP && |entries| == BLOCK && i < BLOCK && BitmapsOk(occupied, readable)
    ensures var o := SetBit(occupied, i);
            var r := SetBit(readable, i);
            BitmapsOk(o, r) && CellsOf(o, r, entries[i := e])
                == CellsOf(occupied, readable, entries)[i := Pair(e.key, e.value)]
  {
    hide BitAt, SetBit, ClearBit;
    forall j | 0 <= j < BLOCK
      ensures BitAt(SetBit(occupied, i), j) <==> j == i || BitAt(occupied, j)
      ensures BitAt(SetBit(readable, i), j) <==> j == i || BitAt(readable, j)
    {
      BitAtSet(occupied, i, j);
      BitAtSet(readable, i, j);
    }
  }

  /** The readable bit cleared: the slot is a tombstone. */
  lemma RemovedCells(occupied: seq<bv8>, readable: seq<bv8>, entries: seq<Entry>, i: nat)
    requires |occupied| == |readable| == BITMAP && |entries| == BLOCK && i < BLOCK && BitmapsOk(occupied, readable)
             && BitAt(readable, i)
    ensures var r := ClearBit(readable, i);
            BitmapsOk(occupied, r) && CellsOf(occupied, r, entries)
                == CellsOf(occupied, readable, entries)[i := Tomb(entries[i].key, entries[i].value)]
  {
    hide BitAt, SetBit, ClearBit;
    forall j | 0 <= j < BLOCK
      ensures BitAt(ClearBit(readable, i), j) <==> j != i && BitAt(readable, j)
    {
      BitAtSet(readable, i, j);
    }
  }

  lemma NoBits(i: nat)
    requires i < 8
    ensures !Bit(0, i)
  {
  }

  method SetBitIn(map_: array<bv8>, index: nat)
    requires map_.Length == BITMAP && index < BLOCK
    modifies map_
    ensures map_[..] == SetBit(old(map_[..]), index)
  {
    map_[index / 8] := WithBit(map_[index / 8], index % 8);
  }

  class HashTableBlockPage {
    const occupied: array<bv8>
    const readable: array<bv8>
    const entries: array<Entry>

    ghost predicate Valid()
      reads occupied, readable
    {
      && occupied.Length == readable.Length == BITMAP && entries.Length == BLOCK && occupied != readable
      && BitmapsOk(occupied[..], readable[..])
    }

    ghost function View(): (cells: seq<Cell>)
      requires Valid()
      reads occupied, readable, entries
      ensures |cells| == BLOCK
    {
      CellsOf(occupied[..], readable[..], entries[..])
    }

    /** A page of zeros. */
    constructor ()
      ensures Valid() && View() == seq(BLOCK, _ => Vacant)
      ensures fresh(occupied) && fresh(readable) && fresh(entries)
    {
      occupied := new bv8[BITMAP](_ => 0);
      readable := new bv8[BITMAP](_ => 0);
      entries := new Entry[BLOCK](_ => Entry(0, 0));
      new;
      hide Bit, Mask, WithBit, WithoutBit;
      forall i: nat | i < 8 ensures !Bit(0, i) {
        NoBits(i);
      }
    }

    function KeyAt(index: nat): int
      requires Valid() && index < BLOCK
      reads occupied, readable, entries
      ensures View()[index] != Vacant ==> KeyAt(index) == View()[index].key
    {
      entries[index].key
    }

    function ValueAt(index: nat): int
      requires Valid() && index < BLOCK
      reads occupied, readable, entries
      ensures View()[index] != Vacant ==> ValueAt(index) == View()[index].value
    {
      entries[index].value
    }

    predicate IsOccupied(index: nat)
      requires Valid() && index < BLOCK
      reads occupied, readable, entries
      ensures IsOccupied(index) <==> View()[index] != Vacant
    {
      occupied[index / 8] & Mask(index % 8) != 0
    }

    predicate IsReadable(index: nat)
      requires Valid() && index < BLOCK
      reads occupied, readable, entries
      ensures IsReadable(index) <==> View()[index].Pair?
    {
      readable[index / 8] & Mask(index % 8) != 0
    }

    method Insert(index: nat, key: int, value: int) returns (ok: bool)
      requires Valid() && index < BLOCK
      modifies occupied, readable, entries
      ensures Valid() && (ok <==> old(View())[index] == Vacant)
      ensures View() == if ok then old(View())[index := Pair(key, value)] else old(View())
    {
      hide Mask, Bit, BitmapsOk, WithBit, WithoutBit;
      if IsOccupied(index) {
        return false;
      }
      InsertedCells(occupied[..], readable[..], entries[..], index, Entry(key, value));
      entries[index] := Entry(key, value);
      SetBitIn(occupied, index);
      SetBitIn(readable, index);
      assert entries[..] == old(entries[..])[index := Entry(key, value)];
      return true;
    }

    /** The key and the value stay in the array. */
    method Remove(index: nat)
      requires Valid() && index < BLOCK
      modifies readable
      ensures Valid()
      ensures View() == if old(View())[index].Pair?
              then old(View())[index := Tomb(old(View())[index].key, old(View())[index].value)] else old(View())
    {
      hide Mask, Bit, BitmapsOk, WithBit, WithoutBit;
      if !IsReadable(index) {
        return;
      }
      RemovedCells(occupied[..], readable[..], entries[..], index);
      readable[index / 8] := WithoutBit(readable[index / 8], index % 8);
      assert readable[..] == ClearBit(old(readable[..]), index);
    }
  }
}
