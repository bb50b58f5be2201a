/** The buffer pool's state as a value, and what each call of buffer_pool_manager.go does to it. */
module Pools {
  import opened Bytes
  import opened Collections

  /** A page in a frame. */
  datatype Frame = Frame(id: int, pin: nat, dirty: bool, data: seq<byte>)

  /** `disk` is the database file, page by page; `next` is what `AllocatePage` returns next. */
  datatype Pool = Pool(frames: seq<Option<Frame>>, table: map<int, int>, free: seq<int>, disk: seq<seq<byte>>,
      next: int)

  function Zeros(): (z: seq<byte>)
    ensures |z| == PAGE_SIZE
  {
    seq(PAGE_SIZE, _ => 0)
  }

  /** The frame holds a page of the page table. */
  predicate Mapped(s: Pool, f: int) {
    0 <= f < |s.frames| && s.frames[f].Some? && s.frames[f].value.id in s.table && s.table[s.frames[f].value.id] == f
  }

  predicate Evictable(s: Pool, f: int) {
    Mapped(s, f) && s.frames[f].value.pin == 0
  }

  /** What a page holds: its frame if it has one, else the file. */
  function Contents(s: Pool, pid: int): Option<seq<byte>> {
    if pid in s.table && 0 <= s.table[pid] < |s.frames| && s.frames[s.table[pid]].Some?
        then Some(s.frames[s.table[pid]].value.data)
    else if 0 <= pid < |s.disk| then Some(s.disk[pid])
    else None
  }

  /** Free, mapped and lost frames partition the pool. A frame is lost when a read into it fails. */
  ghost predicate PoolOk(s: Pool, lost: set<int>) {
    && (forall pid | pid in s.table ::
         0 <= pid < s.next && Mapped(s, s.table[pid]) && s.frames[s.table[pid]].value.id == pid)
    && (forall i | 0 <= i < |s.free| :: 0 <= s.free[i] < |s.frames|)
    && (forall i, j | 0 <= i < j < |s.free| :: s.free[i] != s.free[j])
    && (forall f | 0 <= f < |s.frames| :: OnlyOne(f in s.free, Mapped(s, f), f in lost))
    && (forall f | 0 <= f < |s.frames| && s.frames[f].Some? :: |s.frames[f].value.data| == PAGE_SIZE)
    && (forall p | 0 <= p < |s.disk| :: |s.disk[p]| == PAGE_SIZE)
    && |s.disk| <= s.next
  }

  predicate OnlyOne(a: bool, b: bool, c: bool) {
    if a then !b && !c else b != c
  }

  // ---------- the steps ----------

  /** `WritePage`: past the end of the file, the gap reads as zeros. */
  function WriteTo(disk: seq<seq<byte>>, pid: nat, data: seq<byte>): (d: seq<seq<byte>>)
    ensures |d| == if pid < |disk| then |disk| else pid + 1
    ensures forall p | 0 <= p < |d| :: d[p] == if p == pid then data else if p < |disk| then disk[p] else Zeros()
  {
    if pid < |disk| then disk[pid := data] else disk + seq(pid - |disk|, _ => Zeros()) + [data]
  }

  /** The page leaves its frame; it goes to the file only if it is dirty. */
  function Evict(s: Pool, f: int): Pool
    requires Mapped(s, f) && s.frames[f].value.id >= 0
  {
    var fr := s.frames[f].value;
    s.(disk := if fr.dirty then WriteTo(s.disk, fr.id, fr.data) else s.disk, table := s.table - {fr.id})
  }

  function Install(s: Pool, f: int, fr: Frame): Pool
    requires 0 <= f < |s.frames|
  {
    s.(frames := s.frames[f := Some(fr)], table := s.table[fr.id := f])
  }

  /** A victim can be named exactly when the replacer has one. */
  predicate VictimOk(s: Pool, victim: Option<int>) {
    match victim
    case Some(f) => Evictable(s, f) && s.frames[f].value.id >= 0
    case None => forall f | 0 <= f < |s.frames| :: !Evictable(s, f)
  }

  /** `getFrameID`, and the removal of the page in the frame. */
  function TakeFrame(s: Pool, victim: Option<int>): (Option<int>, Pool)
    requires VictimOk(s, victim)
  {
    if |s.free| > 0 then (Some(s.free[0]), s.(free := s.free[1..]))
    else if victim.Some? then (victim, Evict(s, victim.value))
    else (None, s)
  }

  /** The frames a call of `FetchPage` loses: one when the file has no such page. */
  ghost function LostBy(s: Pool, pid: int, victim: Option<int>): set<int>
    requires VictimOk(s, victim)
  {
    var (f, s1) := TakeFrame(s, victim);
    if pid in s.table || f.None? || 0 <= pid < |s1.disk| then {} else {f.value}
  }

  function Fetch(s: Pool, pid: int, victim: Option<int>): (Option<Frame>, Pool)
    requires VictimOk(s, victim) && (pid in s.table ==> Mapped(s, s.table[pid])) && forall i | 0 <= i < |s.free| ::
             0 <= s.free[i] < |s.frames|
  {
    if pid in s.table then
      var f := s.table[pid];
      var fr := s.frames[f].value;
      var up := fr.(pin := fr.pin + 1);
      (Some(up), s.(frames := s.frames[f := Some(up)]))
    else
      var (f, s1) := TakeFrame(s, victim);
      if f.None? then (None, s1)
      else if 0 <= pid < |s1.disk| then
        var fr := Frame(pid, 1, false, s1.disk[pid]);
        (Some(fr), Install(s1, f.value, fr))
      else (None, s1)
  }

  function Create(s: Pool, victim: Option<int>): (Option<Frame>, Pool)
    requires VictimOk(s, victim) && forall i | 0 <= i < |s.free| :: 0 <= s.free[i] < |s.frames|
  {
    var (f, s1) := TakeFrame(s, victim);
    if f.None? then (None, s1)
    else
      var fr := Frame(s1.next, 1, false, Zeros());
      (Some(fr), Install(s1, f.value, fr).(next := s1.next + 1))
  }

  function Put(s: Pool, pid: int, fr: Frame): Pool
    requires pid in s.table && Mapped(s, s.table[pid])
  {
    s.(frames := s.frames[s.table[pid] := Some(fr)])
  }

  function Unpin(s: Pool, pid: int, isDirty: bool): (bool, Pool)
    requires pid in s.table ==> Mapped(s, s.table[pid])
  {
    if pid in s.table then
      var fr := s.frames[s.table[pid]].value;
      (true, Put(s, pid, fr.(pin := if fr.pin > 0 then fr.pin - 1 else 0, dirty := fr.dirty || isDirty)))
    else (false, s)
  }

  /** `FlushPage` also takes a pin away. */
  function Flush(s: Pool, pid: int): (bool, Pool)
    requires pid in s.table ==> Mapped(s, s.table[pid]) && pid >= 0
  {
    if pid in s.table then
      var fr := s.frames[s.table[pid]].value;
      (true, Put(s, pid, fr.(pin := if fr.pin > 0 then fr.pin - 1 else 0, dirty := false)).(disk :=
          WriteTo(s.disk, pid, fr.data)))
    else (false, s)
  }

  /** A pinned page is not deleted; an unpinned one leaves its frame without being written. */
  function Delete(s: Pool, pid: int): (bool, Pool)
    requires pid in s.table ==> Mapped(s, s.table[pid])
  {
    if pid !in s.table then (true, s)
    else if s.frames[s.table[pid]].value.pin > 0 then (false, s)
    else (true, s.(table := s.table - {pid}, free := s.free + [s.table[pid]]))
  }

  /** A client with a pinned page writes into it. */
  function Write(s: Pool, pid: int, data: seq<byte>): Pool
    requires pid in s.table && Mapped(s, s.table[pid])
  {
    Put(s, pid, s.frames[s.table[pid]].value.(data := data))
  }

  // ---------- what every step keeps ----------

  lemma OkFacts(s: Pool, lost: set<int>)
    requires PoolOk(s, lost)
    ensures forall q | q in s.table :: Mapped(s, s.table[q]) && q >= 0 && s.frames[s.table[q]].value.id == q
    ensures forall i | 0 <= i < |s.free| :: 0 <= s.free[i] < |s.frames|
    ensures forall f | Mapped(s, f) :: s.frames[f].value.id >= 0
  {
  }

  /** The frame to use next: it is in none of the three parts. */
  ghost predicate Taken(s: Pool, lost: set<int>, f: int) {
    && 0 <= f < |s.frames| && f !in lost && !Mapped(s, f) && f !in s.free
    && PoolOk(s, lost + {f})
  }

  lemma TakeFrameOk(s: Pool, lost: set<int>, victim: Option<int>)
    requires PoolOk(s, lost) && VictimOk(s, victim)
    ensures var (f, s1) := TakeFrame(s, victim);
            && (f.None? ==> s1 == s && |s.free| == 0)
            && (f.Some? ==> Taken(s1, lost, f.value))
            && s1.next == s.next && |s1.frames| == |s.frames| && (forall q | q in s1.table :: q in s.table)
  {
    hide PoolOk, Taken, Evict;
    if |s.free| > 0 {
      FreeTaken(s, lost);
    } else if victim.Some? {
      EvictTaken(s, lost, victim.value);
    }
  }

  lemma FreeTaken(s: Pool, lost: set<int>)
    requires PoolOk(s, lost) && |s.free| > 0
    ensures Taken(s.(free := s.free[1..]), lost, s.free[0])
  {
    var s1 := s.(free := s.free[1..]);
    assert s.free == [s.free[0]] + s1.free;
    assert forall g :: Mapped(s1, g) <==> Mapped(s, g);
  }

  lemma EvictTaken(s: Pool, lost: set<int>, f: int)
    requires PoolOk(s, lost) && Mapped(s, f) && s.frames[f].value.id >= 0
    ensures var s1 := Evict(s, f);
            Taken(s1, lost, f) && s1.next == s.next && |s1.frames| == |s.frames|
                && (forall q | q in s1.table :: q in s.table)
  {
    hide Zeros;
    var s1 := Evict(s, f);
    assert forall g :: Mapped(s1, g) <==> Mapped(s, g) && g != f;
  }

  lemma InstallOk(s: Pool, lost: set<int>, f: int, fr: Frame)
    requires Taken(s, lost, f) && fr.id !in s.table && 0 <= fr.id < s.next && |fr.data| == PAGE_SIZE
    ensures PoolOk(Install(s, f, fr), lost)
    ensures forall g :: Mapped(Install(s, f, fr), g) <==> Mapped(s, g) || g == f
  {
    var s1 := Install(s, f, fr);
    forall g ensures Mapped(s1, g) <==> Mapped(s, g) || g == f {
      assert g != f && 0 <= g < |s.frames| ==> s1.frames[g] == s.frames[g];
      if g != f && Mapped(s1, g) {
        assert s.frames[g].value.id != fr.id;
      }
    }
  }

  lemma FetchOk(s: Pool, lost: set<int>, pid: int, victim: Option<int>)
    requires PoolOk(s, lost) && VictimOk(s, victim)
    ensures PoolOk(Fetch(s, pid, victim).1, lost + LostBy(s, pid, victim))
  {
    hide Evict;
    OkFacts(s, lost);
    if pid in s.table {
      var f := s.table[pid];
      PutOk(s, lost, pid, s.frames[f].value.(pin := s.frames[f].value.pin + 1));
      assert lost + LostBy(s, pid, victim) == lost;
    } else {
      var (f, s1) := TakeFrame(s, victim);
      TakeFrameOk(s, lost, victim);
      if f.Some? && 0 <= pid < |s1.disk| {
        InstallOk(s1, lost, f.value, Frame(pid, 1, false, s1.disk[pid]));
      }
      assert f.None? || 0 <= pid < |s1.disk| ==> lost + LostBy(s, pid, victim) == lost;
    }
  }

  lemma NextUp(s: Pool, lost: set<int>, f: int)
    requires Taken(s, lost, f)
    ensures Taken(s.(next := s.next + 1), lost, f) && s.next !in s.table && s.next >= 0
  {
    var wider := s.(next := s.next + 1);
    assert forall g :: Mapped(wider, g) <==> Mapped(s, g);
  }

  lemma CreateOk(s: Pool, lost: set<int>, victim: Option<int>)
    requires PoolOk(s, lost) && VictimOk(s, victim)
    ensures PoolOk(Create(s, victim).1, lost)
  {
    hide Evict, Zeros, PoolOk, VictimOk, Mapped;
    OkFacts(s, lost);
    TakeFrameOk(s, lost, victim);
    var (f, s1) := TakeFrame(s, victim);
    if f.Some? {
      NextUp(s1, lost, f.value);
      InstallOk(s1.(next := s1.next + 1), lost, f.value, Frame(s1.next, 1, false, Zeros()));
    }
  }

  /** A page changed in its frame stays the same page. */
  lemma PutOk(s: Pool, lost: set<int>, pid: int, fr: Frame)
    requires PoolOk(s, lost) && pid in s.table && fr.id == pid && |fr.data| == PAGE_SIZE
    ensures PoolOk(Put(s, pid, fr), lost)
    ensures forall g :: Mapped(Put(s, pid, fr), g) <==> Mapped(s, g)
    ensures forall q | q in s.table && q != pid :: s.table[q] != s.table[pid]
  {
    var s1 := Put(s, pid, fr);
    forall g ensures Mapped(s1, g) <==> Mapped(s, g) {
      assert g != s.table[pid] && 0 <= g < |s.frames| ==> s1.frames[g] == s.frames[g];
    }
  }

  lemma UnpinOk(s: Pool, lost: set<int>, pid: int, isDirty: bool)
    requires PoolOk(s, lost)
    ensures (pid in s.table ==> Mapped(s, s.table[pid])) && PoolOk(Unpin(s, pid, isDirty).1, lost)
  {
    OkFacts(s, lost);
    if pid in s.table {
      var fr := s.frames[s.table[pid]].value;
      PutOk(s, lost, pid, fr.(pin := if fr.pin > 0 then fr.pin - 1 else 0, dirty := fr.dirty || isDirty));
    }
  }

  lemma FlushOk(s: Pool, lost: set<int>, pid: int)
    requires PoolOk(s, lost)
    ensures (pid in s.table ==> Mapped(s, s.table[pid]) && pid >= 0) && PoolOk(Flush(s, pid).1, lost)
  {
    hide Zeros;
    OkFacts(s, lost);
    if pid in s.table {
      var fr := s.frames[s.table[pid]].value;
      var fr' := fr.(pin := if fr.pin > 0 then fr.pin - 1 else 0, dirty := false);
      PutOk(s, lost, pid, fr');
      var s1 := Put(s, pid, fr');
      assert forall g :: Mapped(Flush(s, pid).1, g) <==> Mapped(s1, g);
    }
  }

  lemma DeleteOk(s: Pool, lost: set<int>, pid: int)
    requires PoolOk(s, lost)
    ensures (pid in s.table ==> Mapped(s, s.table[pid])) && PoolOk(Delete(s, pid).1, lost)
  {
    OkFacts(s, lost);
    if pid in s.table && s.frames[s.table[pid]].value.pin == 0 {
      var s1 := Delete(s, pid).1;
      var f := s.table[pid];
      assert forall g :: Mapped(s1, g) <==> Mapped(s, g) && g != f;
      assert forall g :: g in s1.free <==> g in s.free || g == f;
    }
  }

  // ---------- which frames may be evicted ----------

  lemma PutEvictable(s: Pool, lost: set<int>, pid: int, fr: Frame)
    requires PoolOk(s, lost) && pid in s.table && fr.id == pid && |fr.data| == PAGE_SIZE
    ensures Mapped(s, s.table[pid]) && PoolOk(Put(s, pid, fr), lost)
    ensures forall g :: Evictable(Put(s, pid, fr), g) <==> if g == s.table[pid] then fr.pin == 0 else Evictable(s, g)
  {
    PutOk(s, lost, pid, fr);
  }

  lemma EvictEvictable(s: Pool, lost: set<int>, f: int)
    requires PoolOk(s, lost) && Mapped(s, f) && s.frames[f].value.id >= 0
    ensures forall g :: Evictable(Evict(s, f), g) <==> Evictable(s, g) && g != f
    ensures PoolOk(Evict(s, f), lost + {f})
  {
    hide Zeros;
    assert forall g :: Mapped(Evict(s, f), g) <==> Mapped(s, g) && g != f;
  }

  lemma InstallEvictable(s: Pool, lost: set<int>, f: int, fr: Frame)
    requires Taken(s, lost, f) && fr.id !in s.table && 0 <= fr.id < s.next && |fr.data| == PAGE_SIZE && fr.pin > 0
    ensures PoolOk(Install(s, f, fr), lost)
    ensures forall g :: Evictable(Install(s, f, fr), g) <==> Evictable(s, g)
  {
    InstallOk(s, lost, f, fr);
    forall g ensures Evictable(Install(s, f, fr), g) <==> Evictable(s, g) {
      assert g != f && 0 <= g < |s.frames| ==> Install(s, f, fr).frames[g] == s.frames[g];
      assert Mapped(Install(s, f, fr), g) <==> Mapped(s, g) || g == f;
    }
  }

  lemma DeleteEvictable(s: Pool, lost: set<int>, pid: int)
    requires PoolOk(s, lost) && pid in s.table && Mapped(s, s.table[pid]) && s.frames[s.table[pid]].value.pin == 0
    ensures PoolOk(Delete(s, pid).1, lost)
    ensures forall g :: Evictable(Delete(s, pid).1, g) <==> Evictable(s, g) && g != s.table[pid]
  {
    DeleteOk(s, lost, pid);
    assert forall g :: Mapped(Delete(s, pid).1, g) <==> Mapped(s, g) && g != s.table[pid];
  }

  // ---------- frames for use ----------

  predicate Usable(s: Pool, f: int) {
    f in s.free || Mapped(s, f)
  }

  /** A page the file does not have costs the pool the frame taken for it. */
  lemma FailedReadLosesFrame(s: Pool, lost: set<int>, pid: int, victim: Option<int>)
    requires PoolOk(s, lost) && VictimOk(s, victim) && pid !in s.table
    requires var (f, s1) := TakeFrame(s, victim); f.Some? && !(0 <= pid < |s1.disk|)
    ensures var (page, s') := Fetch(s, pid, victim);
            && page.None?
            && exists f :: Usable(s, f) && forall g :: Usable(s', g) <==> Usable(s, g) && g != f
  {
    hide Zeros;
    var (f, s1) := TakeFrame(s, victim);
    assert Usable(s, f.value);
    if |s.free| > 0 {
      assert s.free == [f.value] + s1.free;
      assert f.value !in s1.free && forall g :: Mapped(s1, g) <==> Mapped(s, g);
      assert OnlyOne(f.value in s.free, Mapped(s, f.value), f.value in lost);
      forall g ensures Usable(s1, g) <==> Usable(s, g) && g != f.value {
      }
    } else {
      assert forall g :: Mapped(s1, g) <==> Mapped(s, g) && g != f.value;
    }
  }

  /** Freed frames wait their turn: the one freed longest ago is used first. */
  lemma FreedFramesQueue(s: Pool, lost: set<int>, pid: int, victim: Option<int>)
    requires PoolOk(s, lost) && pid in s.table && Mapped(s, s.table[pid]) && s.frames[s.table[pid]].value.pin == 0
    requires VictimOk(Delete(s, pid).1, victim)
    ensures var (f, s') := TakeFrame(Delete(s, pid).1, victim);
            && f.Some? && (f.value == s.table[pid] <==> |s.free| == 0)
            && (|s.free| > 0 ==> f.value == s.free[0] && s.table[pid] in s'.free)
  {
    if |s.free| > 0 {
      assert OnlyOne(s.free[0] in s.free, Mapped(s, s.free[0]), s.free[0] in lost);
      assert (s.free + [s.table[pid]])[1..] == s.free[1..] + [s.table[pid]];
    }
  }

  /** A victim to name. */
  lemma SomeVictim(s: Pool) returns (victim: Option<int>)
    requires forall f | Mapped(s, f) :: s.frames[f].value.id >= 0
    ensures VictimOk(s, victim)
  {
    if f :| 0 <= f < |s.frames| && Evictable(s, f) {
      victim := Some(f);
    } else {
      victim := None;
    }
  }
}
