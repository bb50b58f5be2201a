/** The slotted table page of storage/access/table_page.go, at the level of its 4096 bytes. */
module TablePages {
  import opened Bytes
  import opened Collections
  import opened Slots

  // ---------- reading an image ----------

  function FreePtr(s: seq<byte>): int
    requires |s| == PAGE_SIZE
  {
    Dec32(s, 16)
  }

  function Count(s: seq<byte>): int
    requires |s| == PAGE_SIZE
  {
    Dec32(s, 20)
  }

  /** A directory of `n` entries lies inside the page. */
  predicate InDirectory(n: int) {
    HEADER_SIZE + ENTRY_SIZE * n <= PAGE_SIZE
  }

  function OffAt(s: seq<byte>, i: nat): int
    requires |s| == PAGE_SIZE && InDirectory(i + 1)
  {
    Dec32(s, HEADER_SIZE + ENTRY_SIZE * i)
  }

  /** The raw size word of slot `i`, bit 31 being the deleted flag. */
  function SizeAt(s: seq<byte>, i: nat): int
    requires |s| == PAGE_SIZE && InDirectory(i + 1)
  {
    Dec32(s, HEADER_SIZE + ENTRY_SIZE * i + 4)
  }

  predicate IsDeleted(size: int) {
    size >= U31 || size == 0
  }

  function SetDeletedFlag(size: int): int {
    if size >= U31 then size else size + U31
  }

  function UnsetDeletedFlag(size: int): int {
    if size >= U31 then size - U31 else size
  }

  function SlotAt(s: seq<byte>, i: nat): Slot
    requires |s| == PAGE_SIZE && InDirectory(i + 1)
  {
    var off, size := OffAt(s, i), SizeAt(s, i);
    var m := UnsetDeletedFlag(size);
    if size == 0 || off + m > PAGE_SIZE then Empty
    else if size >= U31 then Marked(s[off..off + m])
    else Live(s[off..off + m])
  }

  /** The abstract value of an image. */
  function SlotsOf(s: seq<byte>): (d: seq<Slot>)
    requires |s| == PAGE_SIZE && InDirectory(Count(s))
    ensures |d| == Count(s)
    ensures forall i | 0 <= i < |d| :: d[i] == SlotAt(s, i)
  {
    seq(Count(s), i requires 0 <= i < Count(s) => SlotAt(s, i))
  }

  ghost predicate EntryOk(s: seq<byte>, i: nat)
    requires |s| == PAGE_SIZE && InDirectory(i + 1)
  {
    var m := UnsetDeletedFlag(SizeAt(s, i));
    SizeAt(s, i) == 0 || (m > 0 && FreePtr(s) <= OffAt(s, i) && OffAt(s, i) + m <= PAGE_SIZE)
  }

  ghost predicate Apart(s: seq<byte>, i: nat, j: nat)
    requires |s| == PAGE_SIZE && InDirectory(i + 1) && InDirectory(j + 1)
  {
    || SizeAt(s, i) == 0
    || SizeAt(s, j) == 0
    || OffAt(s, i) + UnsetDeletedFlag(SizeAt(s, i)) <= OffAt(s, j)
    || OffAt(s, j) + UnsetDeletedFlag(SizeAt(s, j)) <= OffAt(s, i)
  }

  /** The layout invariant: directory below the free pointer, rows disjoint and filling the rest. */
  ghost predicate PageOk(s: seq<byte>) {
    && |s| == PAGE_SIZE
    && InDirectory(Count(s))
    && HEADER_SIZE + ENTRY_SIZE * Count(s) <= FreePtr(s) <= PAGE_SIZE
    && (forall i | 0 <= i < Count(s) :: EntryOk(s, i))
    && (forall i, j | 0 <= i < Count(s) && 0 <= j < Count(s) && i != j :: Apart(s, i, j))
    && FreePtr(s) + Used(SlotsOf(s)) == PAGE_SIZE
  }

  /** If every slot but `k` is as it was, `t` is a well-formed page with slot `k` replaced. */
  lemma Rebuilt(s: seq<byte>, t: seq<byte>, k: nat, x: Slot)
    requires PageOk(s) && |t| == PAGE_SIZE && k <= Count(s)
    requires Count(t) == (if k == Count(s) then k + 1 else Count(s))
    requires HEADER_SIZE + ENTRY_SIZE * Count(t) <= FreePtr(t) == FreePtr(s)
             + Len(At(SlotsOf(s), k)) - Len(x) <= PAGE_SIZE
    requires SlotAt(t, k) == x && EntryOk(t, k)
    requires forall i | 0 <= i < Count(s) && i != k :: EntryOk(t, i) && SlotAt(t, i) == SlotAt(s, i)
    requires forall i | 0 <= i < Count(s) && i != k :: Apart(t, i, k) && Apart(t, k, i)
    requires forall i, j | 0 <= i < Count(s) && 0 <= j < Count(s) && i != j && i != k && j != k :: Apart(t, i, j)
    ensures PageOk(t) && SlotsOf(t) == Put(SlotsOf(s), k, x)
  {
    hide Dec32, SlotAt, EntryOk, Apart, Used;
    assert SlotsOf(t) == Put(SlotsOf(s), k, x);
    UsedPut(SlotsOf(s), k, x);
  }

  /** Slot `i` of `s` and slot `i` of `t` hold the same bytes, `delta` further on in `t`. */
  lemma SlotMoved(s: seq<byte>, t: seq<byte>, i: nat, delta: int)
    requires |s| == |t| == PAGE_SIZE && InDirectory(i + 1)
    requires EntryOk(s, i)
    requires SizeAt(t, i) == SizeAt(s, i)
    requires SizeAt(s, i) != 0 ==>
               OffAt(t, i) == OffAt(s, i) + delta && OffAt(t, i) + UnsetDeletedFlag(SizeAt(s, i)) <= PAGE_SIZE
    requires SizeAt(s, i) != 0 ==> forall p | OffAt(s, i) <= p < OffAt(s, i) + UnsetDeletedFlag(SizeAt(s, i)) ::
             0 <= p + delta < PAGE_SIZE && t[p + delta] == s[p]
    ensures SlotAt(t, i) == SlotAt(s, i)
  {
    if SizeAt(s, i) != 0 {
      var o, m := OffAt(s, i), UnsetDeletedFlag(SizeAt(s, i));
      var a, b := s[o..o + m], t[o + delta..o + delta + m];
      forall q | 0 <= q < m ensures a[q] == b[q] {
        assert t[(o + q) + delta] == s[o + q];
      }
      assert a == b;
    }
  }

  /** Rows below `off` slide by `delta`, `nb` ends where the old row ended, everything above stays. */
  ghost predicate RowsSlide(s: seq<byte>, t: seq<byte>, low: int, off: int, m: int, nb: seq<byte>, delta: int)
    requires |s| == |t| == PAGE_SIZE
  {
    && (forall p | 0 <= low <= p < off <= PAGE_SIZE :: 0 <= p + delta < PAGE_SIZE && t[p + delta] == s[p])
    && (nb != [] ==> 0 <= off + delta <= off + m <= PAGE_SIZE && t[off + delta..off + m] == nb)
    && (forall p | 0 <= off + m <= p < PAGE_SIZE :: t[p] == s[p])
  }

  ghost predicate EntryFollows(s: seq<byte>, t: seq<byte>, i: nat, off: int, delta: int)
    requires |s| == |t| == PAGE_SIZE && InDirectory(i + 1)
  {
    && SizeAt(t, i) == SizeAt(s, i)
    && OffAt(t, i) == OffAt(s, i) + (if SizeAt(s, i) != 0 && OffAt(s, i) < off then delta else 0)
  }

  /**
   What resizing slot `k` to the bytes `nb` does to an image: the rows below it slide by `delta`,
   their directory entries follow, and nothing else changes.
   */
  ghost predicate ResizeImage(s: seq<byte>, t: seq<byte>, k: nat, nb: seq<byte>, m: int, delta: int)
    requires |s| == |t| == PAGE_SIZE && k < Count(s) && InDirectory(Count(s))
  {
    && m == UnsetDeletedFlag(SizeAt(s, k)) && delta == m - |nb|
    && Count(t) == Count(s)
    && HEADER_SIZE + ENTRY_SIZE * Count(s) <= FreePtr(s) + delta == FreePtr(t)
    && SizeAt(t, k) == |nb| < U31
    && (nb != [] ==> OffAt(t, k) == OffAt(s, k) + delta)
    && (forall i | 0 <= i < Count(s) && i != k :: EntryFollows(s, t, i, OffAt(s, k), delta))
    && RowsSlide(s, t, FreePtr(s), OffAt(s, k), m, nb, delta)
  }

  lemma ResizedOther(s: seq<byte>, t: seq<byte>, k: nat, nb: seq<byte>, m: int, delta: int, i: nat)
    requires PageOk(s) && |t| == PAGE_SIZE && k < Count(s) && SizeAt(s, k) != 0
    requires ResizeImage(s, t, k, nb, m, delta) && i < Count(s) && i != k
    ensures EntryOk(t, i) && SlotAt(t, i) == SlotAt(s, i) && Apart(t, i, k) && Apart(t, k, i)
  {
    hide Dec32, SlotAt;
    assert EntryOk(s, i) && Apart(s, i, k) && EntryOk(s, k) && EntryFollows(s, t, i, OffAt(s, k), delta);
    SlotMoved(s, t, i, if SizeAt(s, i) != 0 && OffAt(s, i) < OffAt(s, k) then delta else 0);
  }

  lemma ResizedApart(s: seq<byte>, t: seq<byte>, k: nat, nb: seq<byte>, m: int, delta: int, i: nat, j: nat)
    requires PageOk(s) && |t| == PAGE_SIZE && k < Count(s) && SizeAt(s, k) != 0
    requires ResizeImage(s, t, k, nb, m, delta) && i < Count(s) && j < Count(s) && i != j && i != k && j != k
    ensures Apart(t, i, j)
  {
    hide Dec32;
    assert Apart(s, i, j) && EntryOk(s, i) && EntryOk(s, j) && Apart(s, i, k) && Apart(s, j, k) && EntryOk(s, k);
    assert EntryFollows(s, t, i, OffAt(s, k), delta) && EntryFollows(s, t, j, OffAt(s, k), delta);
  }

  /**
   The heart of `UpdateTuple` and `ApplyDelete`: slot `k` gives up its bytes for `nb` (possibly none),
   and no other slot sees a different row.
   */
  lemma Resized(s: seq<byte>, t: seq<byte>, k: nat, nb: seq<byte>, m: int, delta: int)
    requires PageOk(s) && |t| == PAGE_SIZE && k < Count(s) && SizeAt(s, k) != 0
    requires ResizeImage(s, t, k, nb, m, delta)
    ensures PageOk(t)
    ensures SlotsOf(t) == SlotsOf(s)[k := if nb == [] then Empty else Live(nb)]
  {
    hide Dec32;
    var ns := if nb == [] then Empty else Live(nb);
    assert EntryOk(s, k) && EntryOk(t, k) && SlotAt(t, k) == ns;
    forall i | 0 <= i < Count(s) && i != k
      ensures EntryOk(t, i) && SlotAt(t, i) == SlotAt(s, i) && Apart(t, i, k) && Apart(t, k, i)
    {
      ResizedOther(s, t, k, nb, m, delta, i);
    }
    forall i, j | 0 <= i < Count(s) && 0 <= j < Count(s) && i != j && i != k && j != k
      ensures Apart(t, i, j)
    {
      ResizedApart(s, t, k, nb, m, delta, i, j);
    }
    assert Len(SlotAt(s, k)) == m;
    Rebuilt(s, t, k, ns);
  }

  /** Entry `i` and its row are the same in `t`, whose free pointer may be lower. */
  lemma EntryKept(s: seq<byte>, t: seq<byte>, i: nat)
    requires PageOk(s) && |t| == PAGE_SIZE && i < Count(s)
    requires FreePtr(t) <= FreePtr(s) && EntryFollows(s, t, i, 0, 0)
    requires s[FreePtr(s)..] == t[FreePtr(s)..]
    ensures EntryOk(t, i) && SlotAt(t, i) == SlotAt(s, i)
  {
    hide Dec32;
    assert EntryOk(s, i);
    if SizeAt(s, i) != 0 {
      forall p | OffAt(s, i) <= p < OffAt(s, i) + UnsetDeletedFlag(SizeAt(s, i)) ensures t[p + 0] == s[p] {
        var f := FreePtr(s);
        assert s[p] == s[f..][p - f] && t[p] == t[f..][p - f];
      }
    }
    SlotMoved(s, t, i, 0);
  }

  lemma EntriesKeptApart(s: seq<byte>, t: seq<byte>, i: nat, j: nat)
    requires |s| == |t| == PAGE_SIZE && InDirectory(i + 1) && InDirectory(j + 1)
    requires EntryFollows(s, t, i, 0, 0) && EntryFollows(s, t, j, 0, 0) && Apart(s, i, j)
    ensures Apart(t, i, j)
  {
    hide Dec32;
  }

  /** `InsertTuple`: slot `k`, empty or new, takes the bytes `b` just below the old free pointer. */
  lemma Filled(s: seq<byte>, t: seq<byte>, k: nat, b: seq<byte>)
    requires PageOk(s) && |t| == PAGE_SIZE
    requires k <= Count(s) && (k < Count(s) ==> SizeAt(s, k) == 0)
    requires Count(t) == (if k == Count(s) then k + 1 else Count(s)) && InDirectory(Count(t))
    requires HEADER_SIZE + ENTRY_SIZE * Count(t) <= FreePtr(t) == FreePtr(s) - |b|
    requires OffAt(t, k) == FreePtr(t) && SizeAt(t, k) == |b| && 0 < |b| < U31
    requires forall i | 0 <= i < Count(s) && i != k :: EntryFollows(s, t, i, 0, 0)
    requires t[FreePtr(t)..FreePtr(s)] == b
    requires s[FreePtr(s)..] == t[FreePtr(s)..]
    ensures PageOk(t)
    ensures SlotsOf(t) == Put(SlotsOf(s), k, Live(b))
  {
    hide Dec32;
    forall i | 0 <= i < Count(s) && i != k
      ensures EntryOk(t, i) && SlotAt(t, i) == SlotAt(s, i) && Apart(t, i, k) && Apart(t, k, i)
    {
      assert EntryOk(s, i) && EntryFollows(s, t, i, 0, 0);
      EntryKept(s, t, i);
    }
    assert EntryOk(t, k) && SlotAt(t, k) == Live(b);
    forall i, j | 0 <= i < Count(s) && 0 <= j < Count(s) && i != j && i != k && j != k
      ensures Apart(t, i, j)
    {
      EntriesKeptApart(s, t, i, j);
    }
    assert k < Count(s) ==> SlotAt(s, k) == Empty;
    Rebuilt(s, t, k, Live(b));
  }

  /** The row of a slot whatever its flag. */
  function Reflag(x: Slot, size: int): Slot {
    if x.Empty? then Empty else if size >= U31 then Marked(x.bytes) else Live(x.bytes)
  }

  lemma SameRow(s: seq<byte>, t: seq<byte>, f: nat, o: int, m: int)
    requires 0 <= f <= |s| == |t| && s[f..] == t[f..]
    ensures f <= o <= o + m <= |s| ==> s[o..o + m] == t[o..o + m]
  {
    forall p | f <= p < |s| ensures s[p] == t[p] {
      assert s[p] == s[f..][p - f] && t[p] == t[f..][p - f];
    }
  }

  /** `MarkDelete` and `RollbackDelete`: only the flag of a non-empty slot changes. */
  lemma Reflagged(s: seq<byte>, t: seq<byte>, k: nat)
    requires PageOk(s) && |t| == PAGE_SIZE
    requires k < Count(s) == Count(t) && FreePtr(t) == FreePtr(s)
    requires SizeAt(s, k) != 0 && UnsetDeletedFlag(SizeAt(t, k)) == UnsetDeletedFlag(SizeAt(s, k))
    requires OffAt(t, k) == OffAt(s, k)
    requires forall i | 0 <= i < Count(s) && i != k :: EntryFollows(s, t, i, 0, 0)
    requires s[FreePtr(s)..] == t[FreePtr(s)..]
    ensures PageOk(t)
    ensures SlotsOf(t) == SlotsOf(s)[k := Reflag(SlotAt(s, k), SizeAt(t, k))]
  {
    hide Dec32;
    assert EntryOk(s, k);
    forall i | 0 <= i < Count(s) && i != k
      ensures EntryOk(t, i) && SlotAt(t, i) == SlotAt(s, i) && Apart(t, i, k) && Apart(t, k, i)
    {
      assert EntryFollows(s, t, i, 0, 0) && Apart(s, i, k);
      EntryKept(s, t, i);
    }
    SameRow(s, t, FreePtr(s), OffAt(s, k), UnsetDeletedFlag(SizeAt(s, k)));
    assert EntryOk(t, k) && SlotAt(t, k) == Reflag(SlotAt(s, k), SizeAt(t, k));
    forall i, j | 0 <= i < Count(s) && 0 <= j < Count(s) && i != j && i != k && j != k
      ensures Apart(t, i, j)
    {
      EntriesKeptApart(s, t, i, j);
    }
    Rebuilt(s, t, k, Reflag(SlotAt(s, k), SizeAt(t, k)));
  }

  /** On a well-formed page the wrapping uint32 subtraction gives the true free space. */
  function FreeSpaceRemaining(s: seq<byte>): int
    requires |s| == PAGE_SIZE
  {
    (FreePtr(s) - HEADER_SIZE - ENTRY_SIZE * Count(s)) % U32
  }

  lemma FreeSpaceExact(s: seq<byte>)
    requires PageOk(s)
    ensures FreeSpaceRemaining(s) == Free(SlotsOf(s))
    ensures Fits(SlotsOf(s))
  {
    hide Dec32;
    forall i | 0 <= i < Count(s)
      ensures var x := SlotAt(s, i); x.Empty? || |x.bytes| > 0
    {
      assert EntryOk(s, i);
    }
  }

  /** Image after `InsertTuple` put `b` into slot `k`. */
  function InsertImage(s: seq<byte>, k: nat, b: seq<byte>): (t: seq<byte>)
    requires |s| == PAGE_SIZE && InDirectory(k + 1)
             && HEADER_SIZE + ENTRY_SIZE * (k + 1) <= FreePtr(s) - |b| <= PAGE_SIZE - |b|
    ensures |t| == PAGE_SIZE
  {
    var fsp := FreePtr(s) - |b|;
    var t := Splice(PutWord(s, 16, fsp), fsp, b);
    var t := PutWord(t, HEADER_SIZE + ENTRY_SIZE * k, fsp);
    var t := PutWord(t, HEADER_SIZE + ENTRY_SIZE * k + 4, |b|);
    if k == Count(t) then PutWord(t, 20, k + 1) else t
  }

  /** A word below the new row, before the slot count is updated. */
  lemma RowImageWord(s: seq<byte>, k: nat, b: seq<byte>, fsp: nat, p: nat)
    requires |s| == PAGE_SIZE && HEADER_SIZE + ENTRY_SIZE * (k + 1) <= fsp <= PAGE_SIZE - |b|
    requires p % 4 == 0 && p + 4 <= fsp
    ensures var o := HEADER_SIZE + ENTRY_SIZE * k;
            var t := PutWord(PutWord(Splice(PutWord(s, 16, fsp), fsp, b), o, fsp), o + 4, |b|);
            && |t| == PAGE_SIZE
            && Dec32(t, p) == if p == 16 || p == o then fsp else if p == o + 4 then |b| else Dec32(s, p)
  {
    hide Dec32;
    var o := HEADER_SIZE + ENTRY_SIZE * k;
    var t1 := PutWord(s, 16, fsp);
    var t2 := Splice(t1, fsp, b);
    var t3 := PutWord(t2, o, fsp);
    WordPut(s, 16, fsp, p);
    WordKept(t1, fsp, b, p);
    WordPut(t2, o, fsp, p);
    WordPut(t3, o + 4, |b|, p);
  }

  lemma InsertImageWord(s: seq<byte>, k: nat, b: seq<byte>, p: nat)
    requires |s| == PAGE_SIZE && InDirectory(k + 1)
             && HEADER_SIZE + ENTRY_SIZE * (k + 1) <= FreePtr(s) - |b| <= PAGE_SIZE - |b|
    requires p % 4 == 0 && p + 4 <= FreePtr(s) - |b|
    ensures Dec32(InsertImage(s, k, b), p) ==
            if p == 16 then FreePtr(s) - |b|
            else if p == 20 then if k == Count(s) then k + 1 else Count(s)
            else if p == HEADER_SIZE + ENTRY_SIZE * k then FreePtr(s) - |b|
            else if p == HEADER_SIZE + ENTRY_SIZE * k + 4 then |b|
            else Dec32(s, p)
  {
    hide Dec32, PutWord, Splice;
    var fsp := FreePtr(s) - |b|;
    var o := HEADER_SIZE + ENTRY_SIZE * k;
    var t := PutWord(PutWord(Splice(PutWord(s, 16, fsp), fsp, b), o, fsp), o + 4, |b|);
    RowImageWord(s, k, b, fsp, p);
    RowImageWord(s, k, b, fsp, 20);
    WordPut(t, 20, k + 1, p);
  }

  /** The row just below the old free pointer; nothing above it and nothing in the first header words changes. */
  lemma InsertImageBytes(s: seq<byte>, k: nat, b: seq<byte>)
    requires |s| == PAGE_SIZE && InDirectory(k + 1)
             && HEADER_SIZE + ENTRY_SIZE * (k + 1) <= FreePtr(s) - |b| <= PAGE_SIZE - |b|
    ensures var t := InsertImage(s, k, b);
            t[FreePtr(s) - |b|..FreePtr(s)] == b && t[FreePtr(s)..] == s[FreePtr(s)..] && t[..16] == s[..16]
  {
    hide Dec32;
  }

  lemma SlotsIn(s: seq<byte>)
    requires PageOk(s)
    ensures |SlotsOf(s)| == Count(s) && HEADER_SIZE + ENTRY_SIZE * Count(s) <= FreePtr(s) <= PAGE_SIZE
  {
    hide Dec32;
  }

  lemma FirstFreeSize(s: seq<byte>, k: nat)
    requires PageOk(s) && k == FirstFree(SlotsOf(s))
    ensures k <= Count(s) && (k < Count(s) ==> SizeAt(s, k) == 0)
  {
    hide Dec32;
    if k < Count(s) {
      assert EntryOk(s, k) && SlotAt(s, k) == Empty;
    }
  }

  lemma InsertImageOk(s: seq<byte>, k: nat, b: seq<byte>)
    requires PageOk(s) && b != [] && Free(SlotsOf(s)) >= |b| + ENTRY_SIZE
    requires k == FirstFree(SlotsOf(s))
    ensures HEADER_SIZE + ENTRY_SIZE * (k + 1) <= FreePtr(s) - |b|
    ensures var t := InsertImage(s, k, b); PageOk(t) && SlotsOf(t) == Put(SlotsOf(s), k, Live(b)) && t[..16] == s[..16]
  {
    hide Dec32, InsertImage, SlotAt;
    SlotsIn(s);
    FreeSpaceExact(s);
    FirstFreeSize(s, k);
    InsertImageBytes(s, k, b);
    var t := InsertImage(s, k, b);
    InsertImageWord(s, k, b, 16);
    InsertImageWord(s, k, b, 20);
    forall i | 0 <= i < Count(s) || i == k
      ensures i == k ==> OffAt(t, i) == FreePtr(t) && SizeAt(t, i) == |b|
      ensures i != k ==> EntryFollows(s, t, i, 0, 0)
    {
      InsertImageWord(s, k, b, HEADER_SIZE + ENTRY_SIZE * i);
      InsertImageWord(s, k, b, HEADER_SIZE + ENTRY_SIZE * i + 4);
    }
    Filled(s, t, k, b);
  }

  lemma FirstFreeOf(s: seq<byte>, slot: nat)
    requires PageOk(s) && slot <= Count(s)
    requires forall j | 0 <= j < slot :: SizeAt(s, j) != 0
    requires slot < Count(s) ==> SizeAt(s, slot) == 0
    ensures slot == FirstFree(SlotsOf(s))
  {
    hide Dec32;
    forall j | 0 <= j < slot ensures SlotsOf(s)[j] != Empty {
      assert EntryOk(s, j);
    }
    FirstFreeIs(SlotsOf(s), slot);
  }

  /** The loop "update all tuple offsets" after `n` rounds. */
  function ShiftImage(s: seq<byte>, n: nat, bound: int, delta: int): (t: seq<byte>)
    requires |s| == PAGE_SIZE && InDirectory(n)
    ensures |t| == PAGE_SIZE
  {
    if n == 0 then s
    else
      var t := ShiftImage(s, n - 1, bound, delta);
      if SizeAt(t, n - 1) != 0 && OffAt(t, n - 1) < bound
      then PutWord(t, HEADER_SIZE + ENTRY_SIZE * (n - 1), (OffAt(t, n - 1) + delta) % U32)
      else t
  }

  lemma {:induction false} ShiftEntry(s: seq<byte>, n: nat, bound: int, delta: int, i: nat)
    requires |s| == PAGE_SIZE && InDirectory(n) && InDirectory(i + 1)
    ensures var t := ShiftImage(s, n, bound, delta);
            && SizeAt(t, i) == SizeAt(s, i)
            && OffAt(t, i) == if i < n && SizeAt(s, i) != 0 && OffAt(s, i) < bound then (OffAt(s, i) + delta) % U32
               else OffAt(s, i)
  {
    hide Dec32, PutWord;
    if n > 0 {
      var t := ShiftImage(s, n - 1, bound, delta);
      ShiftEntry(s, n - 1, bound, delta, i);
      ShiftEntry(s, n - 1, bound, delta, n - 1);
      var o, v := HEADER_SIZE + ENTRY_SIZE * (n - 1), (OffAt(t, n - 1) + delta) % U32;
      WordPut(t, o, v, HEADER_SIZE + ENTRY_SIZE * i);
      WordPut(t, o, v, HEADER_SIZE + ENTRY_SIZE * i + 4);
    }
  }

  lemma {:induction false} ShiftRest(s: seq<byte>, n: nat, bound: int, delta: int)
    requires |s| == PAGE_SIZE && InDirectory(n)
    ensures var t := ShiftImage(s, n, bound, delta);
            && t[..HEADER_SIZE] == s[..HEADER_SIZE]
            && t[HEADER_SIZE + ENTRY_SIZE * n..] == s[HEADER_SIZE + ENTRY_SIZE * n..]
  {
    hide Dec32;
    if n > 0 {
      ShiftRest(s, n - 1, bound, delta);
      var t, u := ShiftImage(s, n - 1, bound, delta), ShiftImage(s, n, bound, delta);
      var e := HEADER_SIZE + ENTRY_SIZE * n;
      assert t[e..] == t[e - ENTRY_SIZE..][ENTRY_SIZE..] && s[e..] == s[e - ENTRY_SIZE..][ENTRY_SIZE..];
      assert u[e..] == t[e..] && u[..HEADER_SIZE] == t[..HEADER_SIZE];
    }
  }

  /** Rows below slot `k` moved by `delta`, `nb` written where the old row ended, free pointer and size set. */
  function SlideImage(s: seq<byte>, k: nat, nb: seq<byte>, delta: int): (t: seq<byte>)
    requires |s| == PAGE_SIZE && InDirectory(k + 1) && |nb| < U31
    requires FreePtr(s) <= OffAt(s, k) <= PAGE_SIZE && 0 <= FreePtr(s) + delta
             && OffAt(s, k) + delta + |nb| <= PAGE_SIZE
    ensures |t| == PAGE_SIZE
  {
    var fsp, off := FreePtr(s), OffAt(s, k);
    var t := PutWord(Splice(s, fsp + delta, s[fsp..off]), 16, fsp + delta);
    var t := Splice(t, off + delta, nb);
    PutWord(t, HEADER_SIZE + ENTRY_SIZE * k + 4, |nb|)
  }

  /** A word below moved bytes, with the free pointer set to where they start. */
  lemma RowsMoved(s: seq<byte>, at: nat, rows: seq<byte>, p: nat)
    requires |s| == PAGE_SIZE && at + |rows| <= PAGE_SIZE && p % 4 == 0 && p + 4 <= at < U32
    ensures Dec32(PutWord(Splice(s, at, rows), 16, at), p) == if p == 16 then at else Dec32(s, p)
  {
    hide Dec32;
    WordKept(s, at, rows, p);
    WordPut(Splice(s, at, rows), 16, at, p);
  }

  lemma SlideWord(s: seq<byte>, k: nat, nb: seq<byte>, delta: int, p: nat)
    requires |s| == PAGE_SIZE && InDirectory(k + 1) && |nb| < U31
    requires FreePtr(s) <= OffAt(s, k) <= PAGE_SIZE && 0 <= FreePtr(s) + delta
             && OffAt(s, k) + delta + |nb| <= PAGE_SIZE
    requires p % 4 == 0 && p + 4 <= FreePtr(s) + delta
    ensures Dec32(SlideImage(s, k, nb, delta), p) ==
            if p == 16 then FreePtr(s) + delta else if p == HEADER_SIZE + ENTRY_SIZE * k + 4 then |nb| else Dec32(s, p)
  {
    hide Dec32;
    var fsp, off := FreePtr(s), OffAt(s, k);
    var t2 := PutWord(Splice(s, fsp + delta, s[fsp..off]), 16, fsp + delta);
    RowsMoved(s, fsp + delta, s[fsp..off], p);
    WordKept(t2, off + delta, nb, p);
    WordPut(Splice(t2, off + delta, nb), HEADER_SIZE + ENTRY_SIZE * k + 4, |nb|, p);
  }

  lemma FreePtrIsWord(s: seq<byte>)
    requires |s| == PAGE_SIZE
    ensures 0 <= FreePtr(s) < U32
  {
  }

  lemma SlideRows(s: seq<byte>, k: nat, nb: seq<byte>, delta: int, m: int)
    requires |s| == PAGE_SIZE && InDirectory(k + 1) && |nb| < U31
    requires HEADER_SIZE + ENTRY_SIZE * (k + 1) <= FreePtr(s) <= OffAt(s, k)
             && HEADER_SIZE + ENTRY_SIZE * (k + 1) <= FreePtr(s) + delta
    requires delta == m - |nb| && 0 <= m && OffAt(s, k) + m <= PAGE_SIZE
    ensures RowsSlide(s, SlideImage(s, k, nb, delta), FreePtr(s), OffAt(s, k), m, nb, delta)
    ensures SlideImage(s, k, nb, delta)[..16] == s[..16]
  {
    hide Dec32, Splice, PutWord, FreePtr, OffAt;
    FreePtrIsWord(s);
    SlidBytes(s, FreePtr(s), OffAt(s, k), delta, nb, HEADER_SIZE + ENTRY_SIZE * k + 4, m);
  }

  /** The three writes of a slide, byte by byte. */
  lemma SlidBytes(s: seq<byte>, fsp: nat, off: nat, delta: int, nb: seq<byte>, e: nat, m: int)
    requires |s| == PAGE_SIZE && fsp <= off && |nb| < U31 && 16 <= e && e + 4 <= fsp && HEADER_SIZE <= fsp + delta
             && e + 4 <= fsp + delta < U32
    requires delta == m - |nb| && 0 <= m && off + m <= PAGE_SIZE
    ensures var t := PutWord(Splice(PutWord(Splice(s, fsp + delta, s[fsp..off]), 16, fsp + delta), off + delta, nb),
            e, |nb|);
            RowsSlide(s, t, fsp, off, m, nb, delta) && t[..16] == s[..16]
  {
    var t1 := PutWord(Splice(s, fsp + delta, s[fsp..off]), 16, fsp + delta);
    var t := PutWord(Splice(t1, off + delta, nb), e, |nb|);
    forall p | fsp <= p < off ensures t[p + delta] == s[p] {
      assert s[fsp..off][p - fsp] == s[p];
    }
    assert t[off + delta..off + m] == nb;
  }

  /** `u` is the slid image, up to the offset of slot `k`. */
  ghost predicate Slid(s: seq<byte>, u: seq<byte>, k: nat, nb: seq<byte>, m: int, delta: int)
    requires |s| == |u| == PAGE_SIZE && InDirectory(Count(s)) && k < Count(s)
  {
    && m == UnsetDeletedFlag(SizeAt(s, k)) && delta == m - |nb| && |nb| < U31
    && HEADER_SIZE + ENTRY_SIZE * Count(s) <= FreePtr(s) + delta
    && FreePtr(s) <= OffAt(s, k) && OffAt(s, k) + m <= PAGE_SIZE && 0 <= m
    && (var v := SlideImage(s, k, nb, delta);
        && (forall i | 0 <= i < Count(s) :: SizeAt(u, i) == SizeAt(v, i) && (i != k ==> OffAt(u, i) == OffAt(v, i)))
        && u[..HEADER_SIZE] == v[..HEADER_SIZE]
        && u[HEADER_SIZE + ENTRY_SIZE * Count(s)..] == v[HEADER_SIZE + ENTRY_SIZE * Count(s)..])
  }

  lemma SlidRows(s: seq<byte>, u: seq<byte>, k: nat, nb: seq<byte>, m: int, delta: int, bound: int)
    requires |s| == |u| == PAGE_SIZE && InDirectory(Count(s)) && k < Count(s)
             && HEADER_SIZE + ENTRY_SIZE * Count(s) <= FreePtr(s)
    requires Slid(s, u, k, nb, m, delta)
    ensures var t := ShiftImage(u, Count(s), bound, delta);
            && RowsSlide(s, t, FreePtr(s), OffAt(s, k), m, nb, delta)
            && Count(t) == Count(s) && FreePtr(t) == FreePtr(s) + delta && t[..16] == s[..16]
  {
    hide Dec32, SlideImage, ShiftImage;
    var n, off := Count(s), OffAt(s, k);
    var v := SlideImage(s, k, nb, delta);
    var t := ShiftImage(u, n, bound, delta);
    SlideRows(s, k, nb, delta, m);
    ShiftRest(u, n, bound, delta);
    var e := HEADER_SIZE + ENTRY_SIZE * n;
    forall p | e <= p < PAGE_SIZE ensures t[p] == v[p] {
      assert t[p] == t[e..][p - e] && v[p] == v[e..][p - e];
    }
    assert nb != [] ==> t[off + delta..off + m] == v[off + delta..off + m];
    assert t[..HEADER_SIZE] == v[..HEADER_SIZE];
    assert t[16..20] == t[..HEADER_SIZE][16..20] && t[20..24] == t[..HEADER_SIZE][20..24];
    assert v[16..20] == v[..HEADER_SIZE][16..20] && v[20..24] == v[..HEADER_SIZE][20..24];
    assert t[..16] == t[..HEADER_SIZE][..16] && v[..16] == v[..HEADER_SIZE][..16];
    Dec32Same(t, v, 16, 16);
    Dec32Same(t, v, 20, 20);
    SlideWord(s, k, nb, delta, 16);
    SlideWord(s, k, nb, delta, 20);
  }

  /** The directory entry before the shift of the offsets: only the size of slot `k` is new. */
  lemma SlidWords(s: seq<byte>, u: seq<byte>, k: nat, nb: seq<byte>, m: int, delta: int, i: nat)
    requires |s| == |u| == PAGE_SIZE && InDirectory(Count(s)) && k < Count(s) && i < Count(s)
    requires Slid(s, u, k, nb, m, delta)
    ensures SizeAt(u, i) == if i == k then |nb| else SizeAt(s, i)
    ensures i != k ==> OffAt(u, i) == OffAt(s, i)
  {
    hide Dec32, SlideImage;
    SlideWord(s, k, nb, delta, HEADER_SIZE + ENTRY_SIZE * i);
    SlideWord(s, k, nb, delta, HEADER_SIZE + ENTRY_SIZE * i + 4);
  }

  lemma SlidEntry(s: seq<byte>, u: seq<byte>, k: nat, nb: seq<byte>, m: int, delta: int, bound: int, i: nat)
    requires PageOk(s) && |u| == PAGE_SIZE && k < Count(s) && SizeAt(s, k) != 0 && i < Count(s)
    requires Slid(s, u, k, nb, m, delta)
    requires if nb == [] then bound == OffAt(s, k) else bound == OffAt(s, k) + m && OffAt(u, k) == OffAt(s, k)
    ensures var t := ShiftImage(u, Count(s), bound, delta);
            && (i == k ==> SizeAt(t, i) == |nb| && (nb != [] ==> OffAt(t, i) == OffAt(s, k) + delta))
            && (i != k ==> EntryFollows(s, t, i, OffAt(s, k), delta))
  {
    hide Dec32, SlotAt, SlideImage, ShiftImage;
    ShiftEntry(u, Count(s), bound, delta, i);
    SlidWords(s, u, k, nb, m, delta, i);
    assert EntryOk(s, k) && EntryOk(s, i) && (i != k ==> Apart(s, i, k));
  }

  /** The whole effect of a resize, from the images of its parts. */
  lemma SlideAndShift(s: seq<byte>, u: seq<byte>, k: nat, nb: seq<byte>, m: int, delta: int, bound: int)
    requires PageOk(s) && |u| == PAGE_SIZE && k < Count(s) && SizeAt(s, k) != 0
    requires Slid(s, u, k, nb, m, delta)
    requires if nb == [] then bound == OffAt(s, k) else bound == OffAt(s, k) + m && OffAt(u, k) == OffAt(s, k)
    ensures var t := ShiftImage(u, Count(s), bound, delta);
            PageOk(t) && SlotsOf(t) == SlotsOf(s)[k := if nb == [] then Empty else Live(nb)] && t[..16] == s[..16]
  {
    hide Dec32, SlotAt, SlideImage, ShiftImage, RowsSlide;
    var n, off := Count(s), OffAt(s, k);
    var t := ShiftImage(u, n, bound, delta);
    SlidRows(s, u, k, nb, m, delta, bound);
    assert EntryOk(s, k);
    forall i | 0 <= i < n
      ensures i == k ==> SizeAt(t, i) == |nb| && (nb != [] ==> OffAt(t, i) == off + delta)
      ensures i != k ==> EntryFollows(s, t, i, off, delta)
    {
      SlidEntry(s, u, k, nb, m, delta, bound, i);
    }
    Resized(s, t, k, nb, m, delta);
  }

  /** A change above the free-pointer word leaves the slots alone. */
  lemma HeaderChanged(s: seq<byte>, o: nat, v: int)
    requires PageOk(s) && o % 4 == 0 && o + 4 <= 16 && 0 <= v < U32
    ensures var t := PutWord(s, o, v); PageOk(t) && SlotsOf(t) == SlotsOf(s)
  {
    hide Dec32;
    var t := PutWord(s, o, v);
    WordPut(s, o, v, 16);
    WordPut(s, o, v, 20);
    assert s[FreePtr(s)..] == t[FreePtr(s)..];
    forall i | 0 <= i < Count(s) ensures EntryFollows(s, t, i, 0, 0) && EntryOk(t, i) && SlotAt(t, i) == SlotAt(s, i) {
      WordPut(s, o, v, HEADER_SIZE + ENTRY_SIZE * i);
      WordPut(s, o, v, HEADER_SIZE + ENTRY_SIZE * i + 4);
      EntryKept(s, t, i);
    }
    forall i, j | 0 <= i < Count(s) && 0 <= j < Count(s) && i != j ensures Apart(t, i, j) {
      EntriesKeptApart(s, t, i, j);
    }
    assert SlotsOf(t) == SlotsOf(s);
  }

  /** `ApplyDelete`'s image before the offsets are shifted. */
  function DropImage(s: seq<byte>, k: nat, m: int): (u: seq<byte>)
    requires |s| == PAGE_SIZE && InDirectory(k + 1) && 0 <= m
    requires FreePtr(s) <= OffAt(s, k) && OffAt(s, k) + m <= PAGE_SIZE
    ensures |u| == PAGE_SIZE
  {
    PutWord(SlideImage(s, k, [], m), HEADER_SIZE + ENTRY_SIZE * k, 0)
  }

  lemma SlidByUpdate(s: seq<byte>, k: nat, nb: seq<byte>)
    requires PageOk(s) && k < Count(s) && SizeAt(s, k) != 0 && |nb| < U31
    requires Free(SlotsOf(s)) + UnsetDeletedFlag(SizeAt(s, k)) >= |nb| > 0
    ensures var m := UnsetDeletedFlag(SizeAt(s, k));
            var delta := m - |nb|;
            && FreePtr(s) <= OffAt(s, k) && OffAt(s, k) + m <= PAGE_SIZE && 0 <= FreePtr(s) + delta
            && (var u := SlideImage(s, k, nb, delta);
                Slid(s, u, k, nb, m, delta) && OffAt(u, k) == OffAt(s, k))
  {
    hide Dec32;
    assert EntryOk(s, k);
    SlideWord(s, k, nb, UnsetDeletedFlag(SizeAt(s, k)) - |nb|, HEADER_SIZE + ENTRY_SIZE * k);
  }

  lemma SlidByDelete(s: seq<byte>, k: nat)
    requires PageOk(s) && k < Count(s) && SizeAt(s, k) != 0
    ensures var m := UnsetDeletedFlag(SizeAt(s, k));
            && FreePtr(s) <= OffAt(s, k) && OffAt(s, k) + m <= PAGE_SIZE && 0 <= m
            && Slid(s, DropImage(s, k, m), k, [], m, m)
  {
    hide Dec32, SlideImage, PutWord;
    assert EntryOk(s, k);
    var m := UnsetDeletedFlag(SizeAt(s, k));
    var v := SlideImage(s, k, [], m);
    var o := HEADER_SIZE + ENTRY_SIZE * k;
    forall i | 0 <= i < Count(s)
      ensures SizeAt(DropImage(s, k, m), i) == SizeAt(v, i) && (i != k ==> OffAt(DropImage(s, k, m), i) == OffAt(v, i))
    {
      WordPut(v, o, 0, HEADER_SIZE + ENTRY_SIZE * i);
      WordPut(v, o, 0, HEADER_SIZE + ENTRY_SIZE * i + 4);
    }
  }

  lemma FlagImage(s: seq<byte>, k: nat, size: int)
    requires PageOk(s) && k < Count(s) && SizeAt(s, k) != 0 && 0 <= size < U32
    requires UnsetDeletedFlag(size) == UnsetDeletedFlag(SizeAt(s, k))
    ensures var t := PutWord(s, HEADER_SIZE + ENTRY_SIZE * k + 4, size);
            PageOk(t) && SlotsOf(t) == SlotsOf(s)[k := Reflag(SlotAt(s, k), size)] && t[..16] == s[..16]
  {
    hide Dec32;
    var o := HEADER_SIZE + ENTRY_SIZE * k + 4;
    var t := PutWord(s, o, size);
    WordPut(s, o, size, 16);
    WordPut(s, o, size, 20);
    forall i | 0 <= i < Count(s)
      ensures i == k ==> SizeAt(t, i) == size && OffAt(t, i) == OffAt(s, i)
      ensures i != k ==> EntryFollows(s, t, i, 0, 0)
    {
      WordPut(s, o, size, HEADER_SIZE + ENTRY_SIZE * i);
      WordPut(s, o, size, HEADER_SIZE + ENTRY_SIZE * i + 4);
    }
    Reflagged(s, t, k);
  }

  /** The bytes of the row in slot `i`, flag or no flag. */
  ghost function RowRange(s: seq<byte>, i: nat): set<int>
    requires |s| == PAGE_SIZE && InDirectory(i + 1)
  {
    Interval(OffAt(s, i), OffAt(s, i) + UnsetDeletedFlag(SizeAt(s, i)))
  }

  lemma RowRangeOk(s: seq<byte>, i: nat)
    requires PageOk(s) && i < Count(s)
    ensures RowRange(s, i) <= Interval(FreePtr(s), PAGE_SIZE)
    ensures |RowRange(s, i)| == Len(SlotAt(s, i))
  {
    hide Dec32;
    assert EntryOk(s, i);
  }

  lemma RowRangesApart(s: seq<byte>, i: nat, j: nat)
    requires PageOk(s) && i < Count(s) && j < Count(s) && i != j
    ensures RowRange(s, i) !! RowRange(s, j)
  {
    hide Dec32;
    assert EntryOk(s, i) && EntryOk(s, j) && Apart(s, i, j);
  }

  /** The rows tile the page: every byte from the free pointer on belongs to exactly one slot. */
  lemma RowsTile(s: seq<byte>, p: int)
    requires PageOk(s)
    ensures FreePtr(s) <= p < PAGE_SIZE <==> exists i | 0 <= i < Count(s) :: p in RowRange(s, i)
    ensures forall i, j | 0 <= i < Count(s) && 0 <= j < Count(s) && p in RowRange(s, i) && p in RowRange(s, j) :: i == j
  {
    hide Dec32, SlotAt, EntryOk, Apart, RowRange;
    var n, d, all := Count(s), SlotsOf(s), Interval(FreePtr(s), PAGE_SIZE);
    var rows := seq(n, i requires 0 <= i < n => RowRange(s, i));
    forall i | 0 <= i < n ensures rows[i] <= all && |rows[i]| == Lens(d)[i] {
      RowRangeOk(s, i);
    }
    forall i, j | 0 <= i < n && 0 <= j < n && i != j ensures RowRange(s, i) !! RowRange(s, j) {
      RowRangesApart(s, i, j);
    }
    UnionSize(rows, Lens(d));
    UnionWithin(rows, all);
    SameSize(UnionOf(rows), all);
    if p in all {
      UnionMember(rows, p);
      var i :| 0 <= i < n && p in rows[i];
      assert p in RowRange(s, i);
    }
    if i :| 0 <= i < n && p in RowRange(s, i) {
      assert p in rows[i] && rows[i] <= all;
    }
  }

  /** Page ids, LSN and links live in the first 16 bytes. */
  lemma HeaderSame(s: seq<byte>, t: seq<byte>)
    requires |s| == |t| == PAGE_SIZE && s[..16] == t[..16]
    ensures Dec32(s, 0) == Dec32(t, 0) && Dec32(s, 4) == Dec32(t, 4)
    ensures Dec32(s, 8) == Dec32(t, 8) && Dec32(s, 12) == Dec32(t, 12)
  {
    forall o | o in {0, 4, 8, 12} ensures Dec32(s, o) == Dec32(t, o) {
      assert s[o..o + 4] == s[..16][o..o + 4] && t[o..o + 4] == t[..16][o..o + 4];
      Dec32Same(s, t, o, o);
    }
  }

  // ---------- the page object ----------

  class TablePage {
    const data: array<byte>

    ghost predicate Valid()
      reads data
    {
      data.Length == PAGE_SIZE && PageOk(data[..])
    }

    /** Page id, both links and LSN are as before. */
    twostate predicate SameHeader()
      requires data.Length == PAGE_SIZE
      reads data
    {
      && GetTablePageId() == old(GetTablePageId())
      && GetNextPageId() == old(GetNextPageId())
      && PrevPageId() == old(PrevPageId())
      && GetLSN() == old(GetLSN())
    }

    /** The abstract value of the page. */
    ghost function View(): seq<Slot>
      requires Valid()
      reads data
    {
      SlotsOf(data[..])
    }

    constructor ()
      ensures fresh(data) && data.Length == PAGE_SIZE && GetLSN() == 0
    {
      data := new byte[PAGE_SIZE](_ => 0);
    }

    /** `Page.Copy`: overwrites the bytes from `o` on. */
    method Copy(o: nat, b: seq<byte>)
      requires o + |b| <= data.Length
      modifies data
      ensures data[..] == Splice(old(data[..]), o, b)
    {
      forall i | 0 <= i < |b| {
        data[o + i] := b[i];
      }
      assert data[..] == Splice(old(data[..]), o, b);
    }

    method SetWord(o: nat, v: int)
      requires o + 4 <= data.Length && 0 <= v < U32
      modifies data
      ensures data[..] == PutWord(old(data[..]), o, v)
    {
      Copy(o, Enc32(v));
    }

    /** Go's overlapping `copy(data[dst:], data[src:src+n])`. */
    method Move(dst: nat, src: nat, n: nat)
      requires dst + n <= data.Length && src + n <= data.Length
      modifies data
      ensures data[..] == Splice(old(data[..]), dst, old(data[src..src + n]))
    {
      forall i | 0 <= i < n {
        data[dst + i] := data[src + i];
      }
      assert data[..] == Splice(old(data[..]), dst, old(data[src..src + n]));
    }

    method Init(pageId: int, prevPageId: int)
      requires data.Length == PAGE_SIZE && -U31 <= pageId < U31 && -U31 <= prevPageId < U31
      modifies data
      ensures Valid() && View() == []
      ensures GetTablePageId() == pageId && GetNextPageId() == -1 && GetLSN() == old(GetLSN())
      ensures PrevPageId() == prevPageId
    {
      hide Dec32;
      ghost var s := data[..];
      SetWord(0, ToU32(pageId));
      SetWord(8, ToU32(prevPageId));
      SetWord(12, ToU32(-1));
      SetWord(20, 0);
      SetWord(16, PAGE_SIZE);
      forall p | p in {0, 4, 8, 12, 16, 20}
        ensures Dec32(data[..], p) == if p == 0 then ToU32(pageId) else if p == 4 then Dec32(s, 4)
                else if p == 8 then ToU32(prevPageId) else if p == 12 then ToU32(-1)
                else if p == 16 then PAGE_SIZE else 0
      {
        var t1 := PutWord(s, 0, ToU32(pageId));
        var t2 := PutWord(t1, 8, ToU32(prevPageId));
        var t3 := PutWord(t2, 12, ToU32(-1));
        var t4 := PutWord(t3, 20, 0);
        WordPut(s, 0, ToU32(pageId), p);
        WordPut(t1, 8, ToU32(prevPageId), p);
        WordPut(t2, 12, ToU32(-1), p);
        WordPut(t3, 20, 0, p);
        WordPut(t4, 16, PAGE_SIZE, p);
      }
      assert Count(data[..]) == 0 && FreePtr(data[..]) == PAGE_SIZE;
      assert SlotsOf(data[..]) == [];
    }

    function GetTablePageId(): int
      requires data.Length == PAGE_SIZE
      reads data
    {
      ToI32(Dec32(data[..], 0))
    }

    /** The page before in the chain, as the header has it. */
    ghost function PrevPageId(): int
      requires data.Length == PAGE_SIZE
      reads data
    {
      ToI32(Dec32(data[..], 8))
    }

    function GetNextPageId(): int
      requires data.Length == PAGE_SIZE
      reads data
    {
      ToI32(Dec32(data[..], 12))
    }

    function GetLSN(): int
      requires data.Length == PAGE_SIZE
      reads data
    {
      ToI32(Dec32(data[..], 4))
    }

    method SetLSN(lsn: int)
      requires Valid() && -U31 <= lsn < U31
      modifies data
      ensures Valid() && View() == old(View()) && GetLSN() == lsn
      ensures GetTablePageId() == old(GetTablePageId()) && GetNextPageId() == old(GetNextPageId())
      ensures PrevPageId() == old(PrevPageId())
    {
      hide Dec32;
      ghost var s := data[..];
      SetWord(4, ToU32(lsn));
      HeaderChanged(s, 4, ToU32(lsn));
      WordPut(s, 4, ToU32(lsn), 0);
      WordPut(s, 4, ToU32(lsn), 4);
      WordPut(s, 4, ToU32(lsn), 8);
      WordPut(s, 4, ToU32(lsn), 12);
    }

    method SetNextPageId(pageId: int)
      requires Valid() && -U31 <= pageId < U31
      modifies data
      ensures Valid() && View() == old(View()) && GetNextPageId() == pageId
      ensures GetTablePageId() == old(GetTablePageId()) && GetLSN() == old(GetLSN())
      ensures PrevPageId() == old(PrevPageId())
    {
      hide Dec32;
      ghost var s := data[..];
      SetWord(12, ToU32(pageId));
      HeaderChanged(s, 12, ToU32(pageId));
      WordPut(s, 12, ToU32(pageId), 0);
      WordPut(s, 12, ToU32(pageId), 4);
      WordPut(s, 12, ToU32(pageId), 8);
      WordPut(s, 12, ToU32(pageId), 12);
    }

    /** The scan of `InsertTuple` for a slot of size 0. */
    method FindFreeSlot() returns (slot: nat)
      requires Valid()
      ensures slot == FirstFree(View())
    {
      hide Dec32, SlotAt;
      slot := 0;
      while slot < Count(data[..]) && SizeAt(data[..], slot) != 0
        invariant 0 <= slot <= Count(data[..])
        invariant forall j | 0 <= j < slot :: SizeAt(data[..], j) != 0
      {
        slot := slot + 1;
      }
      FirstFreeOf(data[..], slot);
    }

    /** `setTuple` and the header updates around it. */
    method SetTuple(slot: nat, tuple: seq<byte>)
      requires data.Length == PAGE_SIZE && InDirectory(slot + 1)
      requires HEADER_SIZE + ENTRY_SIZE * (slot + 1) <= FreePtr(data[..]) - |tuple| <= PAGE_SIZE - |tuple|
      modifies data
      ensures data[..] == InsertImage(old(data[..]), slot, tuple)
    {
      hide Dec32, Splice, PutWord;
      var fsp := FreePtr(data[..]) - |tuple|;
      SetWord(16, fsp);
      Copy(fsp, tuple);
      SetWord(HEADER_SIZE + ENTRY_SIZE * slot, fsp);
      SetWord(HEADER_SIZE + ENTRY_SIZE * slot + 4, |tuple|);
      if slot == Count(data[..]) {
        SetWord(20, Count(data[..]) + 1);
      }
    }

    method InsertTuple(tuple: seq<byte>) returns (r: InsertResult)
      requires Valid() && |tuple| < U32 - ENTRY_SIZE
      modifies data
      ensures Valid()
      ensures (r, View()) == Slots.Insert(old(View()), tuple)
      ensures SameHeader()
    {
      hide Dec32, SlotAt;
      FreeSpaceExact(data[..]);
      if |tuple| == 0 {
        return EmptyTuple;
      }
      if FreeSpaceRemaining(data[..]) < |tuple| + ENTRY_SIZE {
        return NotEnoughSpace;
      }
      var slot := FindFreeSlot();
      InsertImageOk(data[..], slot, tuple);
      ghost var s := data[..];
      SetTuple(slot, tuple);
      HeaderSame(s, data[..]);
      return Inserted(slot);
    }

    /** The loop "update all tuple offsets" shared by `UpdateTuple` and `ApplyDelete`. */
    method ShiftOffsets(bound: int, delta: int)
      requires data.Length == PAGE_SIZE && InDirectory(Count(data[..]))
      modifies data
      ensures data[..] == ShiftImage(old(data[..]), old(Count(data[..])), bound, delta)
    {
      hide Dec32, Splice, PutWord;
      var n := Count(data[..]);
      for i := 0 to n
        invariant data[..] == ShiftImage(old(data[..]), i, bound, delta)
      {
        var off := OffAt(data[..], i);
        if SizeAt(data[..], i) != 0 && off < bound {
          SetWord(HEADER_SIZE + ENTRY_SIZE * i, (off + delta) % U32);
        }
      }
    }

    /** The memmove of the lower rows, the new free pointer, the new row and its size. */
    method Slide(k: nat, nb: seq<byte>, delta: int)
      requires data.Length == PAGE_SIZE && InDirectory(k + 1) && |nb| < U31
      requires FreePtr(data[..]) <= OffAt(data[..], k) <= PAGE_SIZE && 0 <= FreePtr(data[..]) + delta
               && OffAt(data[..], k) + delta + |nb| <= PAGE_SIZE
      modifies data
      ensures data[..] == SlideImage(old(data[..]), k, nb, delta)
    {
      hide Dec32, Splice, PutWord, FreePtr, OffAt;
      FreePtrIsWord(data[..]);
      var fsp, off := FreePtr(data[..]), OffAt(data[..], k);
      assert data[fsp..off] == data[..][fsp..off];
      Move(fsp + delta, fsp, off - fsp);
      SetWord(16, fsp + delta);
      Copy(off + delta, nb);
      SetWord(HEADER_SIZE + ENTRY_SIZE * k + 4, |nb|);
    }

    /** `oldTuple` is the row before the update, also when there is no room for the new one. */
    method UpdateTuple(slot: nat, tuple: seq<byte>) returns (r: UpdateResult, oldTuple: seq<byte>)
      requires Valid() && 0 < |tuple| < U31
      modifies data
      ensures Valid()
      ensures (r, View()) == Slots.Update(old(View()), slot, tuple)
      ensures r != Refused ==> old(View()[slot]) == Live(oldTuple)
      ensures SameHeader()
    {
      hide Dec32, Splice, SlideImage, ShiftImage;
      ghost var s := data[..];
      FreeSpaceExact(s);
      oldTuple := [];
      if slot >= Count(data[..]) {
        return Refused, oldTuple;
      }
      assert EntryOk(s, slot);
      var size := SizeAt(data[..], slot);
      if IsDeleted(size) {
        return Refused, oldTuple;
      }
      var off := OffAt(data[..], slot);
      oldTuple := data[..][off..off + size];
      if FreeSpaceRemaining(data[..]) + size < |tuple| {
        return NoRoom, oldTuple;
      }
      SlidByUpdate(s, slot, tuple);
      var delta := size - |tuple|;
      SlideWord(s, slot, tuple, delta, 20);
      SlideAndShift(s, SlideImage(s, slot, tuple, delta), slot, tuple, size, delta, off + size);
      Slide(slot, tuple, delta);
      ShiftOffsets(off + size, delta);
      HeaderSame(s, data[..]);
      return Updated, oldTuple;
    }

    method MarkDelete(slot: nat) returns (marked: bool)
      requires Valid()
      modifies data
      ensures Valid()
      ensures (marked, View()) == Slots.MarkDelete(old(View()), slot)
      ensures SameHeader()
    {
      hide Dec32, PutWord;
      if slot >= Count(data[..]) {
        return false;
      }
      assert EntryOk(data[..], slot);
      var size := SizeAt(data[..], slot);
      if IsDeleted(size) {
        return false;
      }
      ghost var s := data[..];
      FlagImage(s, slot, SetDeletedFlag(size));
      SetWord(HEADER_SIZE + ENTRY_SIZE * slot + 4, SetDeletedFlag(size));
      HeaderSame(s, data[..]);
      return true;
    }

    /**
     What the assertions of `ApplyDelete` and `RollbackDelete` look at: whether the slot is in the directory, and
     whether it has a row. A slot without one has offset 0, below the free pointer.
     */
    method Holds(slot: int) returns (listed: bool, row: bool)
      requires Valid()
      ensures listed <==> 0 <= slot < |View()|
      ensures row <==> listed && View()[slot] != Empty
    {
      hide Dec32;
      listed := 0 <= slot < Count(data[..]);
      row := false;
      if listed {
        assert EntryOk(data[..], slot);
        row := SizeAt(data[..], slot) != 0;
      }
    }

    /** Go panics on an empty or missing slot; the row, marked or not, is returned for the log. */
    method ApplyDelete(slot: nat) returns (deleted: seq<byte>)
      requires Valid() && slot < |View()| && View()[slot] != Empty
      modifies data
      ensures Valid()
      ensures View() == Slots.ApplyDelete(old(View()), slot)
      ensures deleted == old(View()[slot]).bytes
      ensures SameHeader()
    {
      hide Dec32, Splice, PutWord, SlideImage, ShiftImage;
      ghost var s := data[..];
      assert EntryOk(s, slot);
      var off := OffAt(data[..], slot);
      var size := UnsetDeletedFlag(SizeAt(data[..], slot));
      deleted := data[..][off..off + size];
      SlidByDelete(s, slot);
      SlideWord(s, slot, [], size, 20);
      WordPut(SlideImage(s, slot, [], size), HEADER_SIZE + ENTRY_SIZE * slot, 0, 20);
      SlideAndShift(s, DropImage(s, slot, size), slot, [], size, size, off);
      Slide(slot, [], size);
      SetWord(HEADER_SIZE + ENTRY_SIZE * slot, 0);
      ShiftOffsets(off, size);
      HeaderSame(s, data[..]);
    }

    method RollbackDelete(slot: nat)
      requires Valid() && slot < |View()|
      modifies data
      ensures Valid()
      ensures View() == Slots.RollbackDelete(old(View()), slot)
      ensures SameHeader()
    {
      hide Dec32, PutWord;
      assert EntryOk(data[..], slot);
      var size := SizeAt(data[..], slot);
      if IsDeleted(size) {
        if size == 0 {
          WordAgain(data[..], HEADER_SIZE + ENTRY_SIZE * slot + 4);
        } else {
          FlagImage(data[..], slot, UnsetDeletedFlag(size));
        }
        ghost var s := data[..];
        SetWord(HEADER_SIZE + ENTRY_SIZE * slot + 4, UnsetDeletedFlag(size));
        HeaderSame(s, data[..]);
      }
    }

    /** `GetTuple`'s reads: the row of a live slot, nothing otherwise. */
    method GetTuple(slot: nat) returns (found: bool, tuple: seq<byte>)
      requires Valid()
      ensures found <==> At(View(), slot).Live?
      ensures found ==> At(View(), slot) == Live(tuple)
    {
      hide Dec32;
      if slot >= Count(data[..]) {
        return false, [];
      }
      assert EntryOk(data[..], slot);
      var size := SizeAt(data[..], slot);
      if IsDeleted(size) {
        return false, [];
      }
      var off := OffAt(data[..], slot);
      return true, data[..][off..off + size];
    }

    /** The first slot from `start` on whose size is not 0, marked or not; -1 when there is none. */
    method NextTupleSlot(start: nat) returns (slot: int)
      requires Valid()
      ensures slot == -1 ==> forall j | start <= j < |View()| :: View()[j] == Empty
      ensures slot != -1 ==> start <= slot < |View()| && View()[slot] != Empty && forall j | start <= j < slot ::
              View()[j] == Empty
    {
      hide Dec32;
      slot := start;
      while slot < Count(data[..])
        invariant start <= slot
        invariant forall j | start <= j < slot && j < Count(data[..]) :: View()[j] == Empty
      {
        assert EntryOk(data[..], slot);
        if SizeAt(data[..], slot) > 0 {
          return;
        }
        slot := slot + 1;
      }
      slot := -1;
    }
  }
}
