/** The buffer pool as a cache: over every disciplined run it is indistinguishable from a plain map of pages. */
module PoolRuns {
  import opened Bytes
  import opened Collections
  import opened Pools

  /** Evicting the frame loses nothing: it is dirty, and so written, or the file has the same bytes. */
  predicate Faithful(s: Pool, f: int)
    requires Mapped(s, f)
  {
    var fr := s.frames[f].value;
    fr.dirty || (0 <= fr.id < |s.disk| && s.disk[fr.id] == fr.data)
  }

  /** An eviction keeps the contents of every page if and only if the evicted page is dirty or already on disk. */
  lemma EvictionExact(s: Pool, lost: set<int>, f: int)
    requires PoolOk(s, lost) && Mapped(s, f) && s.frames[f].value.id >= 0
    ensures Faithful(s, f) <==> forall pid | Contents(s, pid).Some? :: Contents(Evict(s, f), pid) == Contents(s, pid)
  {
    hide Zeros;
    var fr := s.frames[f].value;
    if Faithful(s, f) {
      forall pid | Contents(s, pid).Some? ensures Contents(Evict(s, f), pid) == Contents(s, pid) {
        EvictKeeps(s, lost, f, pid);
      }
    } else {
      assert Contents(s, fr.id) == Some(fr.data);
      assert Contents(Evict(s, f), fr.id) != Contents(s, fr.id);
    }
  }

  lemma EvictKeeps(s: Pool, lost: set<int>, f: int, pid: int)
    requires PoolOk(s, lost) && Mapped(s, f) && s.frames[f].value.id >= 0 && Faithful(s, f)
    requires Contents(s, pid).Some?
    ensures Contents(Evict(s, f), pid) == Contents(s, pid)
  {
    hide Zeros;
    var s1 := Evict(s, f);
    if pid in s.table && pid != s.frames[f].value.id {
      assert s1.table[pid] == s.table[pid];
    }
  }

  // ---------- clients ----------

  datatype Op =
    | Fetching(pid: int, victim: Option<int>)
    | Creating(victim: Option<int>)
    | Unpinning(pid: int, isDirty: bool)
    | Writing(pid: int, data: seq<byte>)
    | Deleting(pid: int)
    | Flushing(pid: int)

  /**
   The pool, and what its clients know without looking into it: `spec` the bytes last written to each page,
   `touched` the pages changed since they were last unpinned dirty or flushed, `dirtied` those unpinned dirty
   since they were last flushed, `holders` how many clients have each page, `nextId` the next new page.
   */
  datatype Run = Run(pool: Pool, spec: map<int, seq<byte>>, touched: set<int>, dirtied: set<int>,
      holders: map<int, nat>, nextId: int)

  function HoldersOf(holders: map<int, nat>, pid: int): nat {
    if pid in holders then holders[pid] else 0
  }

  function HeldOnceMore(holders: map<int, nat>, pid: int): map<int, nat> {
    holders[pid := HoldersOf(holders, pid) + 1]
  }

  /** One client less; a page nobody has stays so. */
  function LetGo(holders: map<int, nat>, pid: int): map<int, nat> {
    holders[pid := if HoldersOf(holders, pid) > 0 then HoldersOf(holders, pid) - 1 else 0]
  }

  function PinOf(s: Pool, pid: int): nat {
    if pid in s.table && Mapped(s, s.table[pid]) then s.frames[s.table[pid]].value.pin else 0
  }

  /** Clients fetch pages that exist, write pages they have, and let go of changed ones as dirty. */
  predicate ClientOk(r: Run, op: Op) {
    match op
    case Fetching(pid, victim) => pid in r.spec && VictimOk(r.pool, victim)
    case Creating(victim) => VictimOk(r.pool, victim)
    case Unpinning(pid, isDirty) => isDirty || pid !in r.touched || HoldersOf(r.holders, pid) > 1
    case Writing(pid, data) => HoldersOf(r.holders, pid) > 0 && |data| == PAGE_SIZE
    case Deleting(pid) => true
    case Flushing(pid) => HoldersOf(r.holders, pid) != 1
  }

  /** The parts of the invariant that do not depend on which frame is free. */
  ghost predicate RunKept(spec: map<int, seq<byte>>, touched: set<int>, s: Pool) {
    && (forall p | p in touched :: PinOf(s, p) > 0)
    && (forall f | Mapped(s, f) :: Faithful(s, f) || s.frames[f].value.id in touched)
    && (forall p | p in s.table :: p in spec)
    && (forall p | p in spec :: Contents(s, p) == Some(spec[p]))
  }

  /** A page is pinned once for each client that has it, and marked dirty only if one let go of it as dirty. */
  ghost predicate PinsAgree(holders: map<int, nat>, dirtied: set<int>, s: Pool) {
    && (forall p :: PinOf(s, p) == HoldersOf(holders, p))
    && (forall f | Mapped(s, f) && s.frames[f].value.dirty :: s.frames[f].value.id in dirtied)
  }

  /** What every state of a run satisfies; no frame is ever lost. */
  ghost predicate RunInv(r: Run) {
    && PoolOk(r.pool, {}) && RunKept(r.spec, r.touched, r.pool)
    && PinsAgree(r.holders, r.dirtied, r.pool) && r.pool.next == r.nextId
  }

  /** The frames the tables name exist; where they do not, the step functions of the pool say nothing. */
  predicate Defined(s: Pool, op: Op) {
    && (forall q | q in s.table :: Mapped(s, s.table[q]) && q >= 0)
    && (forall i | 0 <= i < |s.free| :: 0 <= s.free[i] < |s.frames|)
    && (match op
        case Fetching(_, victim) => VictimOk(s, victim)
        case Creating(victim) => VictimOk(s, victim)
        case Writing(pid, _) => pid in s.table
        case _ => true)
  }

  /** What the clients know changes by their operations and by whether a page came back, and by nothing else. */
  function Step(r: Run, op: Op): Run {
    if !Defined(r.pool, op) then r else
    match op
    case Fetching(pid, victim) =>
      var (page, s) := Fetch(r.pool, pid, victim);
      r.(pool := s, holders := if page.Some? then HeldOnceMore(r.holders, pid) else r.holders)
    case Creating(victim) =>
      var (page, s) := Create(r.pool, victim);
      if page.None? then r.(pool := s)
      else r.(pool := s, spec := r.spec[r.nextId := Zeros()], touched := r.touched + {r.nextId},
              holders := HeldOnceMore(r.holders, r.nextId), nextId := r.nextId + 1)
    case Unpinning(pid, isDirty) =>
      r.(pool := Unpin(r.pool, pid, isDirty).1, touched := if isDirty then r.touched - {pid} else r.touched,
         dirtied := if isDirty then r.dirtied + {pid} else r.dirtied, holders := LetGo(r.holders, pid))
    case Writing(pid, data) =>
      r.(pool := Write(r.pool, pid, data), spec := r.spec[pid := data], touched := r.touched + {pid})
    case Deleting(pid) =>
      r.(pool := Delete(r.pool, pid).1, spec := if HoldersOf(r.holders, pid) == 0 then r.spec - {pid} else r.spec)
    case Flushing(pid) =>
      r.(pool := Flush(r.pool, pid).1, touched := r.touched - {pid}, dirtied := r.dirtied - {pid},
         holders := LetGo(r.holders, pid))
  }

  lemma InvDefined(r: Run, op: Op)
    requires RunInv(r) && ClientOk(r, op)
    ensures Defined(r.pool, op)
  {
    OkFacts(r.pool, {});
  }

  /** Whatever frame is taken, pages keep their contents and changed pages stay where they are. */
  lemma TakeFrameKeeps(r: Run, victim: Option<int>)
    requires RunInv(r) && VictimOk(r.pool, victim)
    ensures var (f, s) := TakeFrame(r.pool, victim);
            && RunKept(r.spec, r.touched, s) && (f.Some? ==> Taken(s, {}, f.value))
            && (f.None? ==> s == r.pool && |s.free| == 0)
            && s.next == r.pool.next && (forall q | q in s.table :: q in r.pool.table)
  {
    hide PoolOk, Taken;
    var (f, s) := TakeFrame(r.pool, victim);
    OkFacts(r.pool, {});
    TakeFrameOk(r.pool, {}, victim);
    if |r.pool.free| > 0 {
      assert forall g :: Mapped(s, g) <==> Mapped(r.pool, g);
    } else if victim.Some? {
      EvictRunKept(r, victim.value);
    }
  }

  lemma EvictRunKept(r: Run, f: int)
    requires RunInv(r) && Evictable(r.pool, f) && r.pool.frames[f].value.id >= 0
    ensures RunKept(r.spec, r.touched, Evict(r.pool, f))
  {
    hide Zeros;
    var s := Evict(r.pool, f);
    var id := r.pool.frames[f].value.id;
    assert PinOf(r.pool, id) == 0;
    assert forall g :: Mapped(s, g) <==> Mapped(r.pool, g) && g != f;
    forall p | p in r.spec ensures Contents(s, p) == Some(r.spec[p]) {
      EvictKeeps(r.pool, {}, f, p);
    }
  }

  // ---------- pins ----------

  lemma TakeFramePins(r: Run, victim: Option<int>)
    requires RunInv(r) && VictimOk(r.pool, victim)
    ensures PinsAgree(r.holders, r.dirtied, TakeFrame(r.pool, victim).1)
  {
    hide Zeros;
    var s := TakeFrame(r.pool, victim).1;
    if |r.pool.free| > 0 {
      forall p ensures PinOf(s, p) == PinOf(r.pool, p) {
      }
    } else if victim.Some? {
      var id := r.pool.frames[victim.value].value.id;
      assert PinOf(r.pool, id) == 0;
      forall p ensures PinOf(s, p) == PinOf(r.pool, p) {
        assert p != id && p in r.pool.table ==> s.table[p] == r.pool.table[p];
      }
    }
  }

  lemma InstallPins(holders: map<int, nat>, dirtied: set<int>, s: Pool, f: int, fr: Frame)
    requires PinsAgree(holders, dirtied, s) && Taken(s, {}, f) && fr.id !in s.table && 0 <= fr.id < s.next
    requires |fr.data| == PAGE_SIZE && fr.pin == 1 && !fr.dirty
    ensures PinsAgree(HeldOnceMore(holders, fr.id), dirtied, Install(s, f, fr))
  {
    var s1 := Install(s, f, fr);
    InstallOk(s, {}, f, fr);
    assert PinOf(s, fr.id) == 0;
    forall p | p in s.table ensures s1.table[p] == s.table[p] != f && s1.frames[s.table[p]] == s.frames[s.table[p]] {
      assert Mapped(s, s.table[p]);
    }
    forall p ensures PinOf(s1, p) == HoldersOf(HeldOnceMore(holders, fr.id), p) {
      assert PinOf(s, p) == HoldersOf(holders, p);
    }
  }

  lemma PutPins(r: Run, pid: int, fr: Frame, holders: map<int, nat>, dirtied: set<int>)
    requires PoolOk(r.pool, {}) && PinsAgree(r.holders, r.dirtied, r.pool)
    requires pid in r.pool.table && fr.id == pid && |fr.data| == PAGE_SIZE && Mapped(r.pool, r.pool.table[pid])
    requires HoldersOf(holders, pid) == fr.pin && (fr.dirty ==> pid in dirtied)
    requires forall p | p != pid :: HoldersOf(holders, p) == HoldersOf(r.holders, p)
    requires forall p | p != pid && p in r.dirtied :: p in dirtied
    ensures PinsAgree(holders, dirtied, Put(r.pool, pid, fr))
  {
    var s := Put(r.pool, pid, fr);
    PutOk(r.pool, {}, pid, fr);
    forall p ensures PinOf(s, p) == HoldersOf(holders, p) {
      assert PinOf(r.pool, p) == HoldersOf(r.holders, p);
      assert p != pid && p in r.pool.table ==> s.frames[r.pool.table[p]] == r.pool.frames[r.pool.table[p]];
    }
    forall g | Mapped(s, g) && s.frames[g].value.dirty ensures s.frames[g].value.id in dirtied {
      assert g != r.pool.table[pid] ==> s.frames[g] == r.pool.frames[g] && s.frames[g].value.id != pid;
    }
  }

  lemma UnpinPins(r: Run, pid: int, isDirty: bool)
    requires RunInv(r) && (pid in r.pool.table ==> Mapped(r.pool, r.pool.table[pid]))
    ensures PinsAgree(LetGo(r.holders, pid), if isDirty then r.dirtied + {pid} else r.dirtied,
                      Unpin(r.pool, pid, isDirty).1)
    ensures Unpin(r.pool, pid, isDirty).1.next == r.nextId
  {
    assert PinOf(r.pool, pid) == HoldersOf(r.holders, pid);
    if pid in r.pool.table {
      var fr := r.pool.frames[r.pool.table[pid]].value;
      PutPins(r, pid, fr.(pin := if fr.pin > 0 then fr.pin - 1 else 0, dirty := fr.dirty || isDirty),
              LetGo(r.holders, pid), if isDirty then r.dirtied + {pid} else r.dirtied);
    } else {
      forall p ensures HoldersOf(LetGo(r.holders, pid), p) == HoldersOf(r.holders, p) {
      }
    }
  }

  lemma FlushPins(r: Run, pid: int)
    requires RunInv(r) && (pid in r.pool.table ==> Mapped(r.pool, r.pool.table[pid]) && pid >= 0)
    ensures PinsAgree(LetGo(r.holders, pid), r.dirtied - {pid}, Flush(r.pool, pid).1)
  {
    hide Zeros;
    assert PinOf(r.pool, pid) == HoldersOf(r.holders, pid);
    var s := Flush(r.pool, pid).1;
    if pid in r.pool.table {
      var fr := r.pool.frames[r.pool.table[pid]].value;
      var fr' := fr.(pin := if fr.pin > 0 then fr.pin - 1 else 0, dirty := false);
      PutPins(r, pid, fr', LetGo(r.holders, pid), r.dirtied - {pid});
      DiskPins(LetGo(r.holders, pid), r.dirtied - {pid}, Put(r.pool, pid, fr'), s);
    } else {
      forall p ensures HoldersOf(LetGo(r.holders, pid), p) == HoldersOf(r.holders, p) {
      }
    }
  }

  /** Pins and marks are not on disk. */
  lemma DiskPins(holders: map<int, nat>, dirtied: set<int>, s: Pool, s1: Pool)
    requires PinsAgree(holders, dirtied, s) && s1 == s.(disk := s1.disk)
    ensures PinsAgree(holders, dirtied, s1)
  {
    forall p ensures PinOf(s1, p) == PinOf(s, p) {
    }
  }

  lemma DeletePins(r: Run, pid: int)
    requires RunInv(r) && (pid in r.pool.table ==> Mapped(r.pool, r.pool.table[pid]))
    ensures PinsAgree(r.holders, r.dirtied, Delete(r.pool, pid).1) && Delete(r.pool, pid).1.next == r.nextId
    ensures Delete(r.pool, pid).0 <==> HoldersOf(r.holders, pid) == 0
  {
    assert PinOf(r.pool, pid) == HoldersOf(r.holders, pid);
    var s := Delete(r.pool, pid).1;
    forall p ensures PinOf(s, p) == HoldersOf(r.holders, p) {
      assert PinOf(r.pool, p) == HoldersOf(r.holders, p);
      assert p != pid && p in r.pool.table && pid in r.pool.table ==> r.pool.table[p] != r.pool.table[pid];
    }
  }

  // ---------- steps ----------

  lemma FetchKeeps(r: Run, pid: int, victim: Option<int>)
    requires RunInv(r) && ClientOk(r, Fetching(pid, victim))
    ensures RunInv(Step(r, Fetching(pid, victim)))
  {
    hide PoolOk, Taken, VictimOk, TakeFrame;
    OkFacts(r.pool, {});
    FetchOk(r.pool, {}, pid, victim);
    if pid in r.pool.table {
      assert {} + LostBy(r.pool, pid, victim) == {};
      PinnedKept(r, pid);
      AddedPin(r, pid);
    } else {
      TakeFrameKeeps(r, victim);
      TakeFramePins(r, victim);
      var (f, s) := TakeFrame(r.pool, victim);
      assert f.None? ==> {} + LostBy(r.pool, pid, victim) == {};
      if f.Some? {
        assert Contents(s, pid) == Some(r.spec[pid]);
        assert {} + LostBy(r.pool, pid, victim) == {};
        DiskPages(s, f.value);
        InstallKept(r, s, f.value, Frame(pid, 1, false, s.disk[pid]));
        InstallPins(r.holders, r.dirtied, s, f.value, Frame(pid, 1, false, s.disk[pid]));
      }
    }
  }

  lemma DiskPages(s: Pool, f: int)
    requires Taken(s, {}, f)
    ensures (forall p | 0 <= p < |s.disk| :: |s.disk[p]| == PAGE_SIZE) && |s.disk| <= s.next
  {
  }

  /** One more pin. */
  lemma PinnedKept(r: Run, pid: int)
    requires RunInv(r) && pid in r.pool.table && Mapped(r.pool, r.pool.table[pid])
    ensures var fr := r.pool.frames[r.pool.table[pid]].value;
            RunKept(r.spec, r.touched, r.pool.(frames :=
                r.pool.frames[r.pool.table[pid] := Some(fr.(pin := fr.pin + 1))]))
  {
    var fr := r.pool.frames[r.pool.table[pid]].value;
    OkFacts(r.pool, {});
    PutKept(r, pid, fr.(pin := fr.pin + 1), r.spec, r.touched);
  }

  lemma AddedPin(r: Run, pid: int)
    requires RunInv(r) && pid in r.pool.table && Mapped(r.pool, r.pool.table[pid])
    ensures var fr := r.pool.frames[r.pool.table[pid]].value;
            PinsAgree(HeldOnceMore(r.holders, pid), r.dirtied, r.pool.(frames :=
                r.pool.frames[r.pool.table[pid] := Some(fr.(pin := fr.pin + 1))]))
  {
    var fr := r.pool.frames[r.pool.table[pid]].value;
    assert PinOf(r.pool, pid) == HoldersOf(r.holders, pid);
    PutPins(r, pid, fr.(pin := fr.pin + 1), HeldOnceMore(r.holders, pid), r.dirtied);
  }

  /** A clean page read from the file into a frame. */
  lemma InstallKept(r: Run, s: Pool, f: int, fr: Frame)
    requires RunKept(r.spec, r.touched, s) && Taken(s, {}, f) && fr.id in r.spec && fr.id !in s.table
             && |fr.data| == PAGE_SIZE
    requires 0 <= fr.id < |s.disk| && fr.data == s.disk[fr.id]
    ensures RunKept(r.spec, r.touched, Install(s, f, fr))
  {
    var s1 := Install(s, f, fr);
    InstallOk(s, {}, f, fr);
    forall p | p in s.table ensures s1.table[p] == s.table[p] != f && s1.frames[s.table[p]] == s.frames[s.table[p]] {
      assert Mapped(s, s.table[p]);
    }
    forall p | p in r.touched ensures PinOf(s1, p) > 0 {
      assert PinOf(s, p) > 0;
    }
  }

  lemma CreateKeeps(r: Run, victim: Option<int>)
    requires RunInv(r) && ClientOk(r, Creating(victim))
    ensures RunInv(Step(r, Creating(victim)))
  {
    hide PoolOk, Taken, VictimOk, TakeFrame, Zeros, RunKept, PinsAgree, Install, Mapped, HeldOnceMore;
    OkFacts(r.pool, {});
    CreateOk(r.pool, {}, victim);
    TakeFrameKeeps(r, victim);
    TakeFramePins(r, victim);
    var (f, s) := TakeFrame(r.pool, victim);
    if f.Some? {
      NextUp(s, {}, f.value);
      NewKept(r, s, f.value);
      NewPins(r, s, f.value);
    }
  }

  lemma NewPins(r: Run, s: Pool, f: int)
    requires PinsAgree(r.holders, r.dirtied, s) && Taken(s, {}, f) && s.next !in s.table && s.next >= 0
    ensures PinsAgree(HeldOnceMore(r.holders, s.next), r.dirtied,
                      Install(s, f, Frame(s.next, 1, false, Zeros())).(next := s.next + 1))
  {
    hide Zeros;
    NextUp(s, {}, f);
    var wider := s.(next := s.next + 1);
    forall p ensures PinOf(wider, p) == PinOf(s, p) {
    }
    InstallPins(r.holders, r.dirtied, wider, f, Frame(s.next, 1, false, Zeros()));
  }

  /** A new page, not on disk yet, in a frame. */
  lemma NewKept(r: Run, s: Pool, f: int)
    requires RunKept(r.spec, r.touched, s) && Taken(s, {}, f) && s.next !in s.table && s.next >= 0
    ensures RunKept(r.spec[s.next := Zeros()], r.touched + {s.next},
                    Install(s, f, Frame(s.next, 1, false, Zeros())).(next := s.next + 1))
  {
    hide Zeros;
    var fr := Frame(s.next, 1, false, Zeros());
    var s1 := Install(s, f, fr).(next := s.next + 1);
    NextUp(s, {}, f);
    InstallOk(s.(next := s.next + 1), {}, f, fr);
    forall p | p in s.table ensures s1.table[p] == s.table[p] != f && s1.frames[s.table[p]] == s.frames[s.table[p]] {
      assert Mapped(s, s.table[p]);
    }
    assert forall g :: Mapped(s.(next := s.next + 1), g) <==> Mapped(s, g);
    forall g | Mapped(s1, g) ensures Faithful(s1, g) || s1.frames[g].value.id in r.touched + {s.next} {
      assert g == f || (Mapped(s, g) && s1.frames[g] == s.frames[g]);
    }
    forall p | p in r.touched ensures PinOf(s1, p) > 0 {
      assert PinOf(s, p) > 0;
    }
  }

  /** A change of one mapped page, in its frame, that the page map and the touched set keep up with. */
  lemma PutKept(r: Run, pid: int, fr: Frame, spec: map<int, seq<byte>>, touched: set<int>)
    requires RunInv(r) && pid in r.pool.table && Mapped(r.pool, r.pool.table[pid]) && fr.id == pid
             && |fr.data| == PAGE_SIZE
    requires spec.Keys == r.spec.Keys && pid in spec && spec[pid] == fr.data
             && (forall p | p in spec && p != pid :: spec[p] == r.spec[p])
    requires forall p | p != pid :: p in touched <==> p in r.touched
    requires pid in touched ==> fr.pin > 0
    requires fr.dirty || pid in touched || (0 <= pid < |r.pool.disk| && r.pool.disk[pid] == fr.data)
    ensures RunKept(spec, touched, Put(r.pool, pid, fr))
  {
    var s := Put(r.pool, pid, fr);
    PutOk(r.pool, {}, pid, fr);
    forall p | p in touched ensures PinOf(s, p) > 0 {
      if p != pid {
        assert PinOf(r.pool, p) > 0;
      }
    }
    forall g | Mapped(s, g) ensures Faithful(s, g) || s.frames[g].value.id in touched {
      assert g != r.pool.table[pid] ==> s.frames[g] == r.pool.frames[g] && s.frames[g].value.id != pid;
    }
  }

  lemma UnpinnedKept(r: Run, pid: int, isDirty: bool)
    requires RunInv(r) && ClientOk(r, Unpinning(pid, isDirty)) && pid in r.pool.table
             && Mapped(r.pool, r.pool.table[pid])
    ensures RunKept(r.spec, if isDirty then r.touched - {pid} else r.touched, Unpin(r.pool, pid, isDirty).1)
  {
    hide Zeros;
    OkFacts(r.pool, {});
    var f := r.pool.table[pid];
    var fr := r.pool.frames[f].value;
    assert Contents(r.pool, pid) == Some(fr.data);
    assert Faithful(r.pool, f) || pid in r.touched;
    PutKept(r, pid, fr.(pin := if fr.pin > 0 then fr.pin - 1 else 0, dirty := fr.dirty || isDirty), r.spec,
            if isDirty then r.touched - {pid} else r.touched);
  }

  lemma NotTouched(r: Run, pid: int)
    requires RunInv(r) && pid !in r.pool.table
    ensures pid !in r.touched
  {
  }

  lemma UnpinKeeps(r: Run, pid: int, isDirty: bool)
    requires RunInv(r) && ClientOk(r, Unpinning(pid, isDirty))
    ensures RunInv(Step(r, Unpinning(pid, isDirty)))
  {
    hide Defined, PoolOk, RunKept, Put;
    InvDefined(r, Unpinning(pid, isDirty));
    UnpinOk(r.pool, {}, pid, isDirty);
    UnpinPins(r, pid, isDirty);
    if pid in r.pool.table {
      UnpinnedKept(r, pid, isDirty);
    } else {
      NotTouched(r, pid);
      assert r.touched - {pid} == r.touched;
    }
  }

  lemma WriteKeeps(r: Run, pid: int, data: seq<byte>)
    requires RunInv(r) && ClientOk(r, Writing(pid, data))
    ensures RunInv(Step(r, Writing(pid, data)))
  {
    OkFacts(r.pool, {});
    assert PinOf(r.pool, pid) == HoldersOf(r.holders, pid);
    var fr := r.pool.frames[r.pool.table[pid]].value;
    PutOk(r.pool, {}, pid, fr.(data := data));
    PutPins(r, pid, fr.(data := data), r.holders, r.dirtied);
    PutKept(r, pid, fr.(data := data), r.spec[pid := data], r.touched + {pid});
  }

  lemma FlushKeeps(r: Run, pid: int)
    requires RunInv(r) && ClientOk(r, Flushing(pid))
    ensures RunInv(Step(r, Flushing(pid)))
  {
    OkFacts(r.pool, {});
    FlushOk(r.pool, {}, pid);
    FlushPins(r, pid);
    if pid in r.pool.table {
      var fr := r.pool.frames[r.pool.table[pid]].value;
      var fr' := fr.(pin := if fr.pin > 0 then fr.pin - 1 else 0, dirty := false);
      FlushedKept(r, pid);
    } else {
      assert pid !in r.touched;
    }
  }

  lemma FlushedKept(r: Run, pid: int)
    requires RunInv(r) && ClientOk(r, Flushing(pid)) && pid in r.pool.table && Mapped(r.pool, r.pool.table[pid])
             && pid >= 0
    ensures RunKept(r.spec, r.touched - {pid}, Flush(r.pool, pid).1)
  {
    hide Zeros;
    var s := Flush(r.pool, pid).1;
    var f := r.pool.table[pid];
    OkFacts(r.pool, {});
    forall g | g != f ensures Mapped(s, g) <==> Mapped(r.pool, g) {
    }
    forall p | p in r.touched - {pid} ensures PinOf(s, p) > 0 {
      assert PinOf(r.pool, p) > 0 && r.pool.table[p] != f;
    }
    forall g | Mapped(s, g) ensures Faithful(s, g) || s.frames[g].value.id in r.touched - {pid} {
      if g != f {
        assert s.frames[g] == r.pool.frames[g] && s.frames[g].value.id != pid;
      }
    }
    forall p | p in r.spec ensures Contents(s, p) == Some(r.spec[p]) {
      assert Contents(r.pool, p) == Some(r.spec[p]);
      assert p in r.pool.table && p != pid ==> r.pool.table[p] != f;
    }
  }

  lemma DeletedKept(r: Run, pid: int)
    requires RunInv(r) && (pid in r.pool.table ==> Mapped(r.pool, r.pool.table[pid])) && Delete(r.pool, pid).0
    ensures RunKept(r.spec - {pid}, r.touched, Delete(r.pool, pid).1)
  {
    hide Zeros;
    OkFacts(r.pool, {});
    var s := Delete(r.pool, pid).1;
    forall g | Mapped(s, g) ensures Mapped(r.pool, g) && s.frames[g].value.id != pid {
    }
    forall p | p in r.touched ensures PinOf(s, p) > 0 {
      assert PinOf(r.pool, p) > 0 && p != pid;
    }
    forall p | p in r.spec && p != pid ensures Contents(s, p) == Some(r.spec[p]) {
      assert Contents(r.pool, p) == Some(r.spec[p]);
    }
  }

  lemma RefusedDelete(s: Pool, pid: int)
    requires (pid in s.table ==> Mapped(s, s.table[pid])) && !Delete(s, pid).0
    ensures Delete(s, pid).1 == s
  {
  }

  lemma DeleteKeeps(r: Run, pid: int)
    requires RunInv(r)
    ensures RunInv(Step(r, Deleting(pid)))
  {
    hide Defined, PoolOk, RunKept, Delete;
    InvDefined(r, Deleting(pid));
    DeleteOk(r.pool, {}, pid);
    DeletePins(r, pid);
    if HoldersOf(r.holders, pid) == 0 {
      DeletedKept(r, pid);
    } else {
      RefusedDelete(r.pool, pid);
    }
  }

  /** Every step of a disciplined client keeps the pool equal to the page map, and no frame is lost. */
  lemma StepKeeps(r: Run, op: Op)
    requires RunInv(r) && ClientOk(r, op)
    ensures RunInv(Step(r, op))
  {
    hide RunInv, ClientOk, Step;
    match op
    case Fetching(pid, victim) => FetchKeeps(r, pid, victim);
    case Creating(victim) => CreateKeeps(r, victim);
    case Unpinning(pid, isDirty) => UnpinKeeps(r, pid, isDirty);
    case Writing(pid, data) => WriteKeeps(r, pid, data);
    case Deleting(pid) => DeleteKeeps(r, pid);
    case Flushing(pid) => FlushKeeps(r, pid);
  }

  /** A pool of `size` free frames over a file. */
  function Opened(size: nat, disk: seq<seq<byte>>): Run {
    Run(Pool(seq(size, _ => None), map[], seq(size, i => i), disk, |disk|),
        map p | 0 <= p < |disk| :: disk[p], {}, {}, map[], |disk|)
  }

  lemma OpenedInv(size: nat, disk: seq<seq<byte>>)
    requires forall p | 0 <= p < |disk| :: |disk[p]| == PAGE_SIZE
    ensures RunInv(Opened(size, disk))
  {
    var s := Opened(size, disk).pool;
    forall f | 0 <= f < size ensures f in s.free {
      assert s.free[f] == f;
    }
  }

  function After(start: Run, ops: seq<Op>): Run {
    if ops == [] then start else Step(After(start, ops[..|ops| - 1]), ops[|ops| - 1])
  }

  /** Clients were disciplined at every step. */
  predicate RunOk(start: Run, ops: seq<Op>) {
    ops == [] || (var n := |ops| - 1; RunOk(start, ops[..n]) && ClientOk(After(start, ops[..n]), ops[n]))
  }

  /** From a pool just opened every run of disciplined clients keeps the pool equal to the page map. */
  lemma {:induction false} RunsKeep(size: nat, disk: seq<seq<byte>>, ops: seq<Op>)
    requires forall p | 0 <= p < |disk| :: |disk[p]| == PAGE_SIZE
    requires RunOk(Opened(size, disk), ops)
    ensures RunInv(After(Opened(size, disk), ops))
  {
    hide RunInv, Step, ClientOk, Opened;
    if ops == [] {
      OpenedInv(size, disk);
    } else {
      var n := |ops| - 1;
      RunsKeep(size, disk, ops[..n]);
      StepKeeps(After(Opened(size, disk), ops[..n]), ops[n]);
    }
  }

  lemma FramesStay(r: Run, op: Op)
    ensures |Step(r, op).pool.frames| == |r.pool.frames|
  {
    hide Zeros;
  }

  lemma {:induction false} FramesKept(start: Run, ops: seq<Op>)
    ensures |After(start, ops).pool.frames| == |start.pool.frames|
  {
    hide Step;
    if ops == [] {
    } else {
      FramesKept(start, ops[..|ops| - 1]);
      FramesStay(After(start, ops[..|ops| - 1]), ops[|ops| - 1]);
    }
  }

  // ---------- counting ----------

  /** The pages clients have. */
  function Held(holders: map<int, nat>): set<int> {
    set p | p in holders && holders[p] > 0
  }

  predicate Busy(s: Pool, f: int) {
    Mapped(s, f) && s.frames[f].value.pin > 0
  }

  function BusyPages(s: Pool, n: nat): set<int>
    requires n <= |s.frames|
  {
    if n == 0 then {} else BusyPages(s, n - 1) + if Busy(s, n - 1) then {s.frames[n - 1].value.id} else {}
  }

  predicate InBusyFrame(s: Pool, n: nat, p: int) {
    p in s.table && 0 <= s.table[p] < n && Busy(s, s.table[p]) && s.frames[s.table[p]].value.id == p
  }

  lemma {:induction false} BusyMembers(s: Pool, n: nat)
    requires n <= |s.frames|
    ensures forall p :: p in BusyPages(s, n) <==> InBusyFrame(s, n, p)
  {
    if n > 0 {
      BusyMembers(s, n - 1);
      forall p ensures InBusyFrame(s, n, p) <==>
                       InBusyFrame(s, n - 1, p) || (Busy(s, n - 1) && p == s.frames[n - 1].value.id) {
      }
    }
  }

  ghost predicate AllBusy(s: Pool, n: nat) {
    forall f | 0 <= f < n :: Busy(s, f)
  }

  lemma AllBusyStep(s: Pool, n: nat)
    requires n > 0
    ensures AllBusy(s, n) <==> AllBusy(s, n - 1) && Busy(s, n - 1)
  {
    hide Busy;
  }

  lemma {:induction false} BusyCount(s: Pool, n: nat)
    requires n <= |s.frames|
    ensures |BusyPages(s, n)| <= n
    ensures |BusyPages(s, n)| == n <==> AllBusy(s, n)
  {
    hide Busy, InBusyFrame, Mapped, AllBusy;
    if n > 0 {
      BusyCount(s, n - 1);
      BusyMembers(s, n - 1);
      AllBusyStep(s, n);
      if Busy(s, n - 1) {
        BusyOnce(s, n - 1);
      }
    } else {
      NoneBusy(s);
    }
  }

  lemma NoneBusy(s: Pool)
    ensures AllBusy(s, 0)
  {
  }

  lemma BusyOnce(s: Pool, f: nat)
    requires f < |s.frames| && Busy(s, f)
    ensures s.frames[f].Some? && !InBusyFrame(s, f, s.frames[f].value.id)
  {
  }

  /** Clients can have at most one page a frame, and have that many exactly when every frame is pinned. */
  lemma HeldCount(r: Run)
    requires RunInv(r)
    ensures |Held(r.holders)| <= |r.pool.frames|
    ensures |Held(r.holders)| == |r.pool.frames| <==> forall f | 0 <= f < |r.pool.frames| :: Busy(r.pool, f)
  {
    var n := |r.pool.frames|;
    OkFacts(r.pool, {});
    BusyCount(r.pool, n);
    BusyMembers(r.pool, n);
    forall p ensures p in Held(r.holders) <==> p in BusyPages(r.pool, n) {
      assert PinOf(r.pool, p) == HoldersOf(r.holders, p);
    }
    assert Held(r.holders) == BusyPages(r.pool, n);
  }

  lemma NoFrame(s: Pool, victim: Option<int>)
    requires PoolOk(s, {}) && VictimOk(s, victim)
    ensures TakeFrame(s, victim).0.None? <==> forall f | 0 <= f < |s.frames| :: Busy(s, f)
  {
    if |s.free| > 0 {
      assert OnlyOne(s.free[0] in s.free, Mapped(s, s.free[0]), s.free[0] in {}) && !Busy(s, s.free[0]);
    } else {
      forall f | 0 <= f < |s.frames| ensures Busy(s, f) == !Evictable(s, f) {
        assert OnlyOne(f in s.free, Mapped(s, f), f in {});
      }
    }
  }

  // ---------- what the clients of a run see ----------

  /**
   After any run, fetching an existing page returns the bytes last written to it, whatever has been evicted
   in between, pinned once more than clients had it. It returns nothing if and only if clients have as many
   pages as there are frames and this one is not among them.
   */
  lemma FetchReturnsLastWritten(size: nat, disk: seq<seq<byte>>, ops: seq<Op>, pid: int, victim: Option<int>)
    requires forall p | 0 <= p < |disk| :: |disk[p]| == PAGE_SIZE
    requires RunOk(Opened(size, disk), ops)
    requires pid in After(Opened(size, disk), ops).spec && VictimOk(After(Opened(size, disk), ops).pool, victim)
    ensures var r := After(Opened(size, disk), ops);
            && PoolOk(r.pool, {}) && (pid in r.pool.table ==> Mapped(r.pool, r.pool.table[pid]))
            && (var page := Fetch(r.pool, pid, victim).0;
                && (page.Some? ==> page.value.id == pid && page.value.data == r.spec[pid]
                                   && page.value.pin == HoldersOf(r.holders, pid) + 1)
                && (page.None? <==> pid !in Held(r.holders) && |Held(r.holders)| == size))
  {
    hide After, RunOk, TakeFrame, Opened, Busy;
    RunsKeep(size, disk, ops);
    FramesKept(Opened(size, disk), ops);
    OpenedSize(size, disk);
    var r := After(Opened(size, disk), ops);
    OkFacts(r.pool, {});
    TakeFrameKeeps(r, victim);
    HeldCount(r);
    NoFrame(r.pool, victim);
    var s := TakeFrame(r.pool, victim).1;
    assert PinOf(r.pool, pid) == HoldersOf(r.holders, pid);
    assert Contents(r.pool, pid) == Some(r.spec[pid]) && Contents(s, pid) == Some(r.spec[pid]);
    if pid in r.pool.table {
      MappedHeld(r, pid);
    }
  }

  lemma OpenedSize(size: nat, disk: seq<seq<byte>>)
    ensures |Opened(size, disk).pool.frames| == size
  {
  }

  lemma MappedHeld(r: Run, pid: int)
    requires RunInv(r) && pid in r.pool.table
    ensures (forall f | 0 <= f < |r.pool.frames| :: Busy(r.pool, f)) ==> pid in Held(r.holders)
  {
    assert PinOf(r.pool, pid) == HoldersOf(r.holders, pid);
    assert Mapped(r.pool, r.pool.table[pid]) && r.pool.frames[r.pool.table[pid]].value.id == pid;
    if forall f | 0 <= f < |r.pool.frames| :: Busy(r.pool, f) {
      assert Busy(r.pool, r.pool.table[pid]);
    }
  }

  /**
   After any run, a new page is a page of zeros nobody else has, under a number no page has yet. There is none
   if and only if clients have as many pages as there are frames.
   */
  lemma CreateReturnsNewPage(size: nat, disk: seq<seq<byte>>, ops: seq<Op>, victim: Option<int>)
    requires forall p | 0 <= p < |disk| :: |disk[p]| == PAGE_SIZE
    requires RunOk(Opened(size, disk), ops) && VictimOk(After(Opened(size, disk), ops).pool, victim)
    ensures var r := After(Opened(size, disk), ops);
            && PoolOk(r.pool, {})
            && (var page := Create(r.pool, victim).0;
                && (page.Some? ==> page.value == Frame(r.nextId, 1, false, Zeros()) && r.nextId !in r.spec
                                   && r.nextId !in Held(r.holders))
                && (page.None? <==> |Held(r.holders)| == size))
  {
    hide After, RunOk, TakeFrame, Opened, Busy, Zeros;
    RunsKeep(size, disk, ops);
    FramesKept(Opened(size, disk), ops);
    OpenedSize(size, disk);
    var r := After(Opened(size, disk), ops);
    OkFacts(r.pool, {});
    TakeFrameKeeps(r, victim);
    HeldCount(r);
    NoFrame(r.pool, victim);
    assert PinOf(r.pool, r.nextId) == HoldersOf(r.holders, r.nextId);
  }

  /**
   The answers of the other calls: a page somebody has is found when it is unpinned or flushed, and a page is
   deleted exactly when nobody has it.
   */
  lemma AnswersExact(r: Run, pid: int, isDirty: bool)
    requires RunInv(r)
    ensures pid in r.pool.table ==> Mapped(r.pool, r.pool.table[pid]) && pid >= 0
    ensures Unpin(r.pool, pid, isDirty).0 == Flush(r.pool, pid).0
    ensures pid in Held(r.holders) ==> Unpin(r.pool, pid, isDirty).0
    ensures Unpin(r.pool, pid, isDirty).0 ==> pid in r.spec
    ensures Delete(r.pool, pid).0 <==> pid !in Held(r.holders)
  {
    OkFacts(r.pool, {});
    assert PinOf(r.pool, pid) == HoldersOf(r.holders, pid);
  }

  /** A page somebody has stays in its frame, so the client's pointer stays good. */
  lemma HeldPagesStay(r: Run, op: Op, p: int)
    requires RunInv(r) && ClientOk(r, op) && p in Held(r.holders)
    ensures p in r.pool.table && p in Step(r, op).pool.table && Step(r, op).pool.table[p] == r.pool.table[p]
  {
    hide Zeros, TakeFrame;
    InvDefined(r, op);
    assert PinOf(r.pool, p) == HoldersOf(r.holders, p);
    match op
    case Fetching(pid, victim) => HeldNotTaken(r, victim, p);
    case Creating(victim) => HeldNotTaken(r, victim, p);
    case _ =>
  }

  lemma HeldNotTaken(r: Run, victim: Option<int>, p: int)
    requires RunInv(r) && VictimOk(r.pool, victim) && p in Held(r.holders)
    ensures var s := TakeFrame(r.pool, victim).1;
            && p in r.pool.table && p in s.table && s.table[p] == r.pool.table[p] && s.next == r.pool.next
            && p < s.next
  {
    hide Zeros;
    assert PinOf(r.pool, p) == HoldersOf(r.holders, p);
  }

  /** A page leaves the pool for another only if every frame holds a page and nobody has this one. */
  lemma EvictedOnlyWhenFull(r: Run, op: Op, q: int)
    requires RunInv(r) && ClientOk(r, op) && (op.Fetching? || op.Creating?)
    requires q in r.pool.table && q !in Step(r, op).pool.table
    ensures op.victim == Some(r.pool.table[q]) && q !in Held(r.holders)
    ensures forall f | 0 <= f < |r.pool.frames| :: Mapped(r.pool, f)
  {
    hide Zeros;
    InvDefined(r, op);
    assert PinOf(r.pool, q) == HoldersOf(r.holders, q);
    forall f | 0 <= f < |r.pool.frames| ensures Mapped(r.pool, f) {
      assert OnlyOne(f in r.pool.free, Mapped(r.pool, f), f in {});
    }
  }

  /** The file's page `p` before; past the end it reads as zeros. */
  function OnDisk(disk: seq<seq<byte>>, p: nat): seq<byte> {
    if p < |disk| then disk[p] else Zeros()
  }

  /**
   Only the bytes last written to a page reach the file, and only when the page is flushed or has been let go
   of as dirty.
   */
  lemma DiskWritesExact(r: Run, op: Op, p: nat)
    requires RunInv(r) && ClientOk(r, op)
    ensures var d := Step(r, op).pool.disk;
            && |d| >= |r.pool.disk|
            && (OnDisk(d, p) == OnDisk(r.pool.disk, p)
                || (p in r.spec && OnDisk(d, p) == r.spec[p] && (op == Flushing(p) || p in r.dirtied)))
            && (op == Flushing(p) && p in Held(r.holders) ==> p in r.spec && p < |d| && d[p] == r.spec[p])
            && (op.Unpinning? || op.Writing? || op.Deleting? ==> d == r.pool.disk)
  {
    hide Zeros, PinsAgree, TakeFrame, Evict;
    InvDefined(r, op);
    assert p in r.spec ==> Contents(r.pool, p) == Some(r.spec[p]);
    HeldMapped(r, p);
    match op
    case Fetching(pid, victim) => TakenDisk(r, victim, p);
    case Creating(victim) => TakenDisk(r, victim, p);
    case _ =>
  }

  lemma HeldMapped(r: Run, p: int)
    requires RunInv(r)
    ensures p in Held(r.holders) ==> p in r.pool.table
  {
    assert PinOf(r.pool, p) == HoldersOf(r.holders, p);
  }

  lemma TakenDisk(r: Run, victim: Option<int>, p: nat)
    requires RunInv(r) && VictimOk(r.pool, victim)
    ensures var d := TakeFrame(r.pool, victim).1.disk;
            && |d| >= |r.pool.disk|
            && (OnDisk(d, p) == OnDisk(r.pool.disk, p) || (p in r.spec && OnDisk(d, p) == r.spec[p] && p in r.dirtied))
  {
    hide Zeros;
    assert p in r.spec ==> Contents(r.pool, p) == Some(r.spec[p]);
  }
}
