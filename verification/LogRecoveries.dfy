/** The recovery object that reads the log file back: `Redo` and `Undo` of recovery/log_recovery/log_recovery.go. */
module LogRecoveries {
  import opened Bytes
  import opened Collections
  import S = Slots
  import opened LogRecords
  import opened LogManagers
  import opened Recovery
  import opened CrashSafety
  import opened TablePages
  import opened PageStores

  // ---------- reading the file window by window ----------

  function Total(rs: seq<LogRecord>): nat
    requires AllOk(rs)
  {
    |EncodeAll(rs)|
  }

  /** How many of the records fit wholly in the given room. */
  function Fit(rs: seq<LogRecord>, room: int): (n: nat)
    ensures n <= |rs|
  {
    if rs == [] || Size(rs[0]) > room then 0 else 1 + Fit(rs[1..], room - Size(rs[0]))
  }

  /**
   From record `w` on, no window of the log buffer's size ends inside a record whose header it still
   shows in full: what is left of the window after the whole records is shorter than a header.
   */
  predicate CutsOk(rs: seq<LogRecord>, w: nat)
    requires AllOk(rs) && w <= |rs|
    decreases |rs| - w
  {
    var k := Fit(rs[w..], LOG_BUFFER_SIZE);
    w + k == |rs| || (k > 0 && LOG_BUFFER_SIZE - Total(rs[w..w + k]) < LOG_HEADER && CutsOk(rs, w + k))
  }

  /** A log that fits one buffer has no cuts. */
  lemma {:induction false} SmallLogFits(rs: seq<LogRecord>, room: nat)
    requires AllOk(rs) && Total(rs) <= room
    ensures Fit(rs, room) == |rs|
  {
    hide RecordOk, Encode;
    if rs != [] {
      EncodeAllAt(rs, 0);
      SmallLogFits(rs[1..], room - Size(rs[0]));
    }
  }

  lemma OneWindowCutsOk(rs: seq<LogRecord>)
    requires AllOk(rs) && Total(rs) <= LOG_BUFFER_SIZE
    ensures CutsOk(rs, 0)
  {
    SmallLogFits(rs, LOG_BUFFER_SIZE);
    assert rs[0..] == rs;
  }

  lemma ShortWindow(s: seq<byte>)
    requires |s| < LOG_HEADER
    ensures Decode(s) == Short
  {
  }

  /** What the rest of a window that starts at record `n` decodes to. */
  lemma WindowDecodes(rs: seq<LogRecord>, n: nat, len: nat)
    requires AllOk(rs) && n <= |rs| && len <= Total(rs[n..])
    ensures var d := Decode(EncodeAll(rs[n..])[..len]);
            if n == |rs| then d == Short
            else if Size(rs[n]) <= len then d == Record(rs[n], Size(rs[n]))
            else d == if len < LOG_HEADER then Short else Torn
  {
    hide Decode, Encode, RecordOk;
    var s := EncodeAll(rs[n..]);
    if n == |rs| {
      assert s == [];
      ShortWindow(s[..len]);
    } else {
      EncodeAllAt(rs[n..], 0);
      var rest := EncodeAll(rs[n..][1..]);
      assert s == Encode(rs[n]) + rest;
      hide EncodeAll;
      if Size(rs[n]) <= len {
        assert s[..len] == Encode(rs[n]) + s[Size(rs[n])..len];
        DecodeEncode(rs[n], s[Size(rs[n])..len]);
      } else {
        assert s[..len] == Encode(rs[n])[..len];
        DecodeTorn(rs[n], len);
      }
    }
  }

  lemma RedoTaken(db: Db, r: LogRecord)
    requires OnSlot(r.body) && r.body.rid.page in db && db[r.body.rid.page].lsn < r.lsn
    ensures RedoOne(db, r) == db[r.body.rid.page := PageState(ApplyBody(db[r.body.rid.page].slots, r.body), r.lsn)]
  {
  }

  lemma RedoSkipped(db: Db, r: LogRecord)
    requires OnSlot(r.body) ==> r.body.rid.page in db && db[r.body.rid.page].lsn >= r.lsn
    ensures RedoOne(db, r) == db
  {
  }

  lemma RecordLsn(r: LogRecord)
    requires RecordOk(r)
    ensures Int32(r.lsn) && (r.body.NewPage? ==> Int32(r.body.prevPage))
  {
  }

  // ---------- operations Go does not panic on ----------

  predicate BodySafe(d: seq<S.Slot>, b: Body)
    requires OnSlot(b)
  {
    match b
    case Insert(_, t) => |t| < U31
    case Update(rid, _, t) => rid.slot >= 0 && 0 < |t| < U31
    case MarkDelete(rid, _) => rid.slot >= 0
    case RollbackDelete(rid, _) => 0 <= rid.slot < |d|
    case ApplyDelete(rid, _) => 0 <= rid.slot < |d| && d[rid.slot] != S.Empty
  }

  /** The tuples and slots Go's types allow, for the page calls `Undo` makes. */
  predicate UndoTyped(b: Body) {
    match b
    case Update(rid, t, _) => rid.slot >= 0 && 0 < |t| < U31
    case RollbackDelete(rid, _) => rid.slot >= 0
    case ApplyDelete(_, t) => |t| < U31
    case _ => true
  }

  predicate RedoSafe(db: Db, log: seq<LogRecord>) {
    log == [] ||
    (var n := |log| - 1;
     var r := log[n];
     && RedoSafe(db, log[..n])
     && (OnSlot(r.body) ==>
           && r.body.rid.page in db
           && (var s := RedoAll(db, log[..n])[r.body.rid.page];
               s.lsn < r.lsn ==> BodySafe(s.slots, r.body))))
  }

  lemma {:induction false} RedoSafePrefix(db: Db, log: seq<LogRecord>, n: nat)
    requires RedoSafe(db, log) && n < |log|
    ensures RedoSafe(db, log[..n]) && RedoSafe(db, log[..n + 1]) && log[..n + 1][..n] == log[..n]
    ensures RedoAll(db, log[..n + 1]) == RedoOne(RedoAll(db, log[..n]), log[n])
    ensures var r := log[n];
            OnSlot(r.body) ==>
              && r.body.rid.page in db
              && (var s := RedoAll(db, log[..n])[r.body.rid.page]; s.lsn < r.lsn ==> BodySafe(s.slots, r.body))
  {
    if n < |log| - 1 {
      RedoSafePrefix(db, log[..|log| - 1], n);
      assert log[..|log| - 1][..n] == log[..n] && log[..|log| - 1][..n + 1] == log[..n + 1];
    } else {
      assert log[..n + 1] == log;
    }
  }

  /** Redo of a legal log on a crash image never meets a panic. */
  lemma LegalIsRedoSafe(db: Db, log: seq<LogRecord>, disk: Db, upTo: map<int, nat>)
    requires Legal(db, log) && AllOk(log) && DiskImage(db, log, disk, upTo)
    ensures RedoSafe(disk, log)
  {
    assert log[..|log|] == log;
    LegalIsRedoSafeUpTo(db, log, disk, upTo, |log|);
  }

  lemma {:induction false} LegalIsRedoSafeUpTo(db: Db, log: seq<LogRecord>, disk: Db, upTo: map<int, nat>, n: nat)
    requires Legal(db, log) && AllOk(log) && DiskImage(db, log, disk, upTo) && n <= |log|
    ensures RedoSafe(disk, log[..n])
  {
    if n > 0 {
      LegalIsRedoSafeUpTo(db, log, disk, upTo, n - 1);
      assert log[..n][..n - 1] == log[..n - 1];
      LegalPrefix(db, log, n - 1);
      var r := log[n - 1];
      if OnSlot(r.body) {
        var p := r.body.rid.page;
        RedoPage(db, log, disk, upTo, n - 1, p);
        assert RecordOk(r);
        if n <= upTo[p] {
          LsnGrows(db, log, n - 1, upTo[p], p);
        }
      }
    }
  }

  lemma LegalIsTyped(db: Db, r: LogRecord)
    requires OnSlot(r.body) && LegalOn(db, r) && RecordOk(r)
    ensures r.body.rid.page in db && UndoTyped(r.body)
  {
  }

  /** Redo is done on `cur`. */
  ghost predicate Redone(db: Db, rs: seq<LogRecord>, cur: Db) {
    && EngineLog(db, rs) && AllOk(rs)
    && db.Keys <= cur.Keys && (forall p | p in db :: cur[p].slots == Hist(db, rs)[p].slots)
  }

  /** `order` then `t`: distinct losers. */
  ghost predicate NextLoser(rs: seq<LogRecord>, order: seq<int>, t: int) {
    && (forall i | 0 <= i < |order| :: order[i] in Active(rs) && order[i] != t)
    && (forall i, j | 0 <= i < j < |order| :: order[i] != order[j])
    && t in Active(rs)
  }

  /** The prev-LSN pointers lead from each record of a walk to the next and end in -1. */
  lemma {:induction false} ChainNext(rs: seq<LogRecord>, lsn: int, k: nat)
    requires WellChained(rs) && -1 <= lsn < |rs| && k <= |Chain(rs, lsn)|
    ensures var us := Chain(rs, lsn);
            && (if us == [] then lsn == -1 else us[0] == lsn)
            && (k < |us| ==> rs[us[k]].prevLsn == if k + 1 < |us| then us[k + 1] else -1)
    decreases lsn
  {
    if lsn >= 0 {
      assert Chain(rs, lsn) == [lsn] + Chain(rs, rs[lsn].prevLsn);
      ChainNext(rs, rs[lsn].prevLsn, if k > 0 then k - 1 else 0);
    }
  }

  /** The walk of `t` stands at position `m` of the records to undo. */
  ghost predicate WalkAt(rs: seq<LogRecord>, before: seq<nat>, all: seq<nat>, t: int, m: nat, lsn: int) {
    && all == before + Chain(rs, LastOf(rs, t)) && |before| <= m <= |all|
    && lsn == if m < |all| then all[m] else -1
  }

  lemma WalkStarts(rs: seq<LogRecord>, before: seq<nat>, t: int)
    requires WellChained(rs) && forall i | 0 <= i < |before| :: before[i] < |rs|
    ensures var all := before + Chain(rs, LastOf(rs, t));
            && WalkAt(rs, before, all, t, |before|, LastOf(rs, t))
            && all[..|before|] == before && forall i | 0 <= i < |all| :: all[i] < |rs|
  {
    ChainNext(rs, LastOf(rs, t), 0);
  }

  lemma WalkGoesOn(rs: seq<LogRecord>, before: seq<nat>, all: seq<nat>, t: int, m: nat, lsn: int)
    requires WellChained(rs) && WalkAt(rs, before, all, t, m, lsn) && lsn != -1
    requires forall i | 0 <= i < |all| :: all[i] < |rs|
    ensures m < |all| && lsn == all[m] && WalkAt(rs, before, all, t, m + 1, rs[lsn].prevLsn) && all[..m + 1] <= all
  {
    hide Chain, LastOf, WellChained;
    ChainNext(rs, LastOf(rs, t), m - |before|);
  }

  lemma WalkEnds(rs: seq<LogRecord>, before: seq<nat>, all: seq<nat>, t: int, m: nat)
    requires WalkAt(rs, before, all, t, m, -1)
    ensures all[..m] == all
  {
  }

  /** What an undo step may rely on. */
  lemma WalkStep(db: Db, rs: seq<LogRecord>, cur: Db, all: seq<nat>, m: nat)
    requires Redone(db, rs, cur) && (forall i | 0 <= i < |all| :: all[i] < |rs|) && m < |all|
    ensures var now := UndoAll(cur, rs, all[..m]);
            var b := rs[all[m]].body;
            && (OnSlot(b) ==> b.rid.page in now && UndoTyped(b))
            && UndoAll(cur, rs, all[..m + 1]) == UndoOne(now, rs[all[m]])
            && (UndoRunSafe(cur, rs, all[..m + 1]) <==> UndoRunSafe(cur, rs, all[..m]) && StepSafe(now, rs[all[m]]))
  {
    hide EngineLog, Hist, RecordOk, StepSafe, UndoOne, UndoAll, UndoTyped, LegalOn, Legal, UndoRunSafe;
    RedoneChained(db, rs, cur);
    assert all[..m + 1] == all[..m] + [all[m]];
    if OnSlot(rs[all[m]].body) {
      LegalPrefix(db, rs, all[m]);
      LegalIsTyped(Hist(db, rs[..all[m]]), rs[all[m]]);
    }
    UndoAllSnoc(cur, rs, all[..m], all[m]);
  }

  lemma RedoneChained(db: Db, rs: seq<LogRecord>, cur: Db)
    requires Redone(db, rs, cur)
    ensures WellChained(rs) && EndsFinal(rs) && Legal(db, rs) && AllOk(rs)
  {
  }

  lemma UndoAllSnoc(cur: Db, rs: seq<LogRecord>, us: seq<nat>, u: nat)
    requires (forall i | 0 <= i < |us| :: us[i] < |rs|) && u < |rs|
    ensures UndoAll(cur, rs, us + [u]) == UndoOne(UndoAll(cur, rs, us), rs[u])
    ensures UndoRunSafe(cur, rs, us + [u]) <==> UndoRunSafe(cur, rs, us) && StepSafe(UndoAll(cur, rs, us), rs[u])
  {
    hide StepSafe, UndoOne;
    assert (us + [u])[..|us|] == us;
  }

  lemma SafeAgrees(cur: Db, base: Db, r: LogRecord)
    requires Agrees(cur, base) && (OnSlot(r.body) ==> r.body.rid.page in base)
    ensures StepSafe(cur, r) <==> StepSafe(base, r)
  {
  }

  /** Pages beyond those the log is about make no difference to undo. */
  lemma {:induction false} UndoAgrees(cur: Db, base: Db, rs: seq<LogRecord>, us: seq<nat>)
    requires Agrees(cur, base) && (forall i | 0 <= i < |us| :: us[i] < |rs|)
    requires forall i | 0 <= i < |rs| && OnSlot(rs[i].body) :: rs[i].body.rid.page in base
    ensures Agrees(UndoAll(cur, rs, us), UndoAll(base, rs, us))
    ensures UndoRunSafe(cur, rs, us) <==> UndoRunSafe(base, rs, us)
  {
    hide StepSafe, UndoOne;
    if us != [] {
      var n := |us| - 1;
      UndoAgrees(cur, base, rs, us[..n]);
      SafeAgrees(UndoAll(cur, rs, us[..n]), UndoAll(base, rs, us[..n]), rs[us[n]]);
      AgreesStep(UndoAll(cur, rs, us[..n]), UndoAll(base, rs, us[..n]), rs[us[n]]);
    }
  }

  lemma StepAgrees(cur: Db, base: Db, r: LogRecord, rid: Rid)
    requires Agrees(cur, base) && rid.page in base && (OnSlot(r.body) ==> r.body.rid.page in base)
    ensures SlotOf(cur, rid) == SlotOf(base, rid)
    ensures (Lands(cur, r, rid) <==> Lands(base, r, rid)) && (RoomAt(cur, r) <==> RoomAt(base, r))
  {
  }

  lemma {:induction false} SpoiledAgrees(init: S.Slot, cur: Db, base: Db, rs: seq<LogRecord>, us: seq<nat>, rid: Rid)
    requires Agrees(cur, base) && (forall i | 0 <= i < |us| :: us[i] < |rs|) && rid.page in base
    requires forall i | 0 <= i < |rs| && OnSlot(rs[i].body) :: rs[i].body.rid.page in base
    ensures Spoiled(init, cur, rs, us, rid) <==> Spoiled(init, base, rs, us, rid)
  {
    hide Lands, RoomAt, SlotOf, UndoAll, Replay;
    if us != [] {
      var n := |us| - 1;
      UndoAgrees(cur, base, rs, us[..n]);
      StepAgrees(UndoAll(cur, rs, us[..n]), UndoAll(base, rs, us[..n]), rs[us[n]], rid);
      SpoiledAgrees(init, cur, base, rs, us[..n], rid);
    }
  }

  lemma {:induction false} LegalPages(db: Db, log: seq<LogRecord>, i: nat)
    requires Legal(db, log) && i < |log| && OnSlot(log[i].body)
    ensures log[i].body.rid.page in db
  {
    LegalPrefix(db, log, i);
  }

  /** After redo the pool stands where the whole log has left the pages. */
  lemma RedoDone(db: Db, rs: seq<LogRecord>, disk: Db, upTo: map<int, nat>, cur: Db)
    requires EngineLog(db, rs) && AllOk(rs) && DiskImage(db, rs, disk, upTo) && Agrees(cur, RedoAll(disk, rs))
    ensures Redone(db, rs, cur) && db.Keys <= RedoAll(disk, rs).Keys
    ensures forall p | p in db :: p in cur && cur[p].lsn == Hist(db, rs)[p].lsn
    ensures forall i | 0 <= i < |rs| && OnSlot(rs[i].body) :: rs[i].body.rid.page in db
  {
    hide EngineLog, Hist;
    EngineIsLegal(db, rs);
    RedoRepeatsHistory(db, rs, disk, upTo);
    forall p | p in db ensures p in cur && cur[p] == Hist(db, rs)[p] {
      assert p in RedoAll(disk, rs);
    }
    forall i | 0 <= i < |rs| && OnSlot(rs[i].body) ensures rs[i].body.rid.page in db {
      LegalPages(db, rs, i);
    }
  }

  /** Where record `n` starts in the file. */
  function OffsetOf(rs: seq<LogRecord>, n: nat): nat
    requires AllOk(rs) && n <= |rs|
  {
    |EncodeAll(rs[..n])|
  }

  lemma OffsetStep(rs: seq<LogRecord>, n: nat)
    requires AllOk(rs) && n < |rs|
    ensures OffsetOf(rs, n + 1) == OffsetOf(rs, n) + Size(rs[n])
  {
    hide RecordOk, Encode, EncodeAll;
    EncodeAllAt(rs, n);
  }

  lemma OffsetEnds(rs: seq<LogRecord>)
    requires AllOk(rs)
    ensures OffsetOf(rs, 0) == 0 && OffsetOf(rs, |rs|) == Total(rs)
  {
    hide RecordOk, Encode;
    assert rs[..|rs|] == rs;
  }

  /** Bytes from record `w` up to record `n`. */
  lemma OffsetBetween(rs: seq<LogRecord>, w: nat, n: nat)
    requires AllOk(rs) && w <= n <= |rs|
    ensures OffsetOf(rs, n) == OffsetOf(rs, w) + Total(rs[w..n])
    ensures Total(rs) == OffsetOf(rs, n) + Total(rs[n..])
  {
    hide RecordOk, Encode, EncodeAll;
    EncodeAllSplit(rs[..n], w);
    assert rs[..n][..w] == rs[..w] && rs[..n][w..] == rs[w..n];
    EncodeAllSplit(rs, n);
  }

  /** The next record of a window either fits its room or ends the window. */
  lemma FitStep(rs: seq<LogRecord>, n: nat, room: int)
    requires n <= |rs|
    ensures Fit(rs[n..], room) == if n == |rs| || Size(rs[n]) > room then 0
            else 1 + Fit(rs[n + 1..], room - Size(rs[n]))
  {
    if n < |rs| {
      assert rs[n..][0] == rs[n] && rs[n..][1..] == rs[n + 1..];
    }
  }

  lemma CutsStep(rs: seq<LogRecord>, w: nat)
    requires AllOk(rs) && w < |rs| && Size(rs[w]) <= LOG_BUFFER_SIZE
    ensures var n := w + Fit(rs[w..], LOG_BUFFER_SIZE);
            && w < n <= |rs|
            && (CutsOk(rs, w) <==> n == |rs| || (LOG_BUFFER_SIZE - Total(rs[w..n]) < LOG_HEADER && CutsOk(rs, n)))
  {
    hide RecordOk, EncodeAll;
    FitStep(rs, w, LOG_BUFFER_SIZE);
  }

  lemma CutsEnd(rs: seq<LogRecord>)
    requires AllOk(rs)
    ensures CutsOk(rs, |rs|)
  {
    assert rs[|rs|..] == [];
  }

  /** `ReadLog`: up to a buffer of bytes from `offset`; nothing at or past the end of the file. */
  function ReadLog(file: seq<byte>, offset: nat): (window: seq<byte>)
    ensures |window| <= LOG_BUFFER_SIZE
  {
    if offset >= |file| then []
    else if |file| - offset <= LOG_BUFFER_SIZE then file[offset..]
    else file[offset..offset + LOG_BUFFER_SIZE]
  }

  lemma WindowBytes(file: seq<byte>, p: seq<byte>, s: seq<byte>, o: nat)
    requires file == p + s && o <= |p|
    ensures var window := ReadLog(file, o);
            var b := |p| - o;
            b <= |window| ==>
              && |window| - b <= |s|
              && (|window| == LOG_BUFFER_SIZE || |window| - b == |s|)
              && window[b..] == s[..|window| - b]
  {
    var window := ReadLog(file, o);
    var b := |p| - o;
    if b <= |window| {
      TailOf(p, s);
      if o < |file| {
        SliceTail(file, o, |window|, b);
      }
    }
  }

  lemma TailOf(a: seq<byte>, b: seq<byte>)
    ensures (a + b)[|a|..] == b
  {
  }

  lemma SliceTail(s: seq<byte>, a: nat, len: nat, b: nat)
    requires b <= len && a + len <= |s|
    ensures s[a..a + len][b..] == s[a + b..][..len - b]
  {
  }

  /** The pages of `db` are in `cur`, in the same state. */
  ghost predicate Agrees(cur: Db, db: Db) {
    forall p | p in db :: p in cur && cur[p] == db[p]
  }

  /** The pages of the pool, their next-page links, and the next page id. */
  datatype Pages = Pages(db: Db, links: map<int, int>, next: int)

  function NewPages(rs: seq<LogRecord>): (n: nat)
    ensures n <= |rs|
  {
    if rs == [] then 0 else NewPages(rs[..|rs| - 1]) + if rs[|rs| - 1].body.NewPage? then 1 else 0
  }

  /** `n` empty pages have been added behind those there were, whose links are as before. */
  ghost predicate Grown(now: Pages, was: Pages, n: nat) {
    && now.next == was.next + n
    && was.links.Keys == was.db.Keys && now.links.Keys == now.db.Keys
    && (forall p | p in was.db :: p < was.next)
    && (forall p :: p in now.db <==> p in was.db || was.next <= p < now.next)
    && (forall p | p in was.db :: now.links[p] == was.links[p])
    && (forall p | was.next <= p < now.next :: now.db[p] == PageState([], 0) && now.links[p] == -1)
  }

  lemma GrownRedo(now: Pages, was: Pages, n: nat, r: LogRecord)
    requires Grown(now, was, n) && (OnSlot(r.body) ==> r.body.rid.page in was.db)
    ensures Grown(now.(db := RedoOne(now.db, r)), was, n)
    ensures Grown(now.(db := UndoOne(now.db, r)), was, n)
  {
    hide ApplyBody, UndoBody;
  }

  lemma GrownNew(now: Pages, was: Pages, n: nat)
    requires Grown(now, was, n)
    ensures Grown(Pages(now.db[now.next := PageState([], 0)], now.links[now.next := -1], now.next + 1), was, n + 1)
  {
  }

  /** One more record: a NEWPAGE adds a page, any other record changes pages that were there. */
  lemma GrownRecord(now: Pages, was: Pages, rs: seq<LogRecord>, n: nat)
    requires n < |rs| && Grown(now, was, NewPages(rs[..n]))
    requires OnSlot(rs[n].body) ==> rs[n].body.rid.page in was.db
    ensures Grown(if rs[n].body.NewPage?
                  then Pages(now.db[now.next := PageState([], 0)], now.links[now.next := -1], now.next + 1)
                  else now.(db := RedoOne(now.db, rs[n])), was, NewPages(rs[..n + 1]))
  {
    hide Grown, RedoOne;
    assert rs[..n + 1][..n] == rs[..n];
    if rs[n].body.NewPage? {
      GrownNew(now, was, NewPages(rs[..n]));
    } else {
      GrownRedo(now, was, NewPages(rs[..n]), rs[n]);
    }
  }

  /** Undo adds no page and leaves the new ones empty. */
  lemma {:induction false} GrownUndo(now: Pages, was: Pages, n: nat, rs: seq<LogRecord>, us: seq<nat>)
    requires Grown(now, was, n) && forall i | 0 <= i < |us| :: us[i] < |rs|
    requires forall i | 0 <= i < |rs| && OnSlot(rs[i].body) :: rs[i].body.rid.page in was.db
    ensures Grown(now.(db := UndoAll(now.db, rs, us)), was, n)
  {
    hide Grown, UndoOne;
    if us == [] {
      assert now.(db := UndoAll(now.db, rs, us)) == now;
    } else {
      var k := |us| - 1;
      GrownUndo(now, was, n, rs, us[..k]);
      GrownRedo(now.(db := UndoAll(now.db, rs, us[..k])), was, n, rs[us[k]]);
    }
  }

  /** The page call `Redo` makes for a record. */
  method ApplyTo(page: TablePage, b: Body)
    requires page.Valid() && OnSlot(b) && BodySafe(page.View(), b)
    modifies page.data
    ensures page.Valid() && page.View() == ApplyBody(old(page.View()), b) && page.SameHeader()
  {
    hide Dec32, PageOk, SlotsOf, S.Insert, S.Update, S.MarkDelete, S.ApplyDelete, S.RollbackDelete;
    match b {
      case Insert(_, t) =>
        var _ := page.InsertTuple(t);
      case ApplyDelete(rid, _) =>
        var _ := page.ApplyDelete(rid.slot);
      case MarkDelete(rid, _) =>
        var _ := page.MarkDelete(rid.slot);
      case RollbackDelete(rid, _) =>
        page.RollbackDelete(rid.slot);
      case Update(rid, _, t) =>
        var _, _ := page.UpdateTuple(rid.slot, t);
    }
  }

  /** The page call `Undo` makes for a record, or the failed assertion in it. */
  method UnapplyTo(page: TablePage, b: Body) returns (panicked: bool)
    requires page.Valid() && OnSlot(b) && UndoTyped(b)
    modifies page.data
    ensures panicked <==> !UndoSafe(old(page.View()), b)
    ensures page.Valid() && page.SameHeader()
    ensures page.View() == if panicked then old(page.View()) else UndoBody(old(page.View()), b)
  {
    hide Dec32, PageOk, SlotsOf, S.Insert, S.Update, S.MarkDelete, S.ApplyDelete, S.RollbackDelete;
    panicked := false;
    match b {
      case Insert(rid, _) =>
        var _, row := page.Holds(rid.slot);
        if !row {
          return true;
        }
        var _ := page.ApplyDelete(rid.slot);
      case ApplyDelete(_, t) =>
        var _ := page.InsertTuple(t);
      case MarkDelete(rid, _) =>
        var listed, _ := page.Holds(rid.slot);
        if !listed {
          return true;
        }
        page.RollbackDelete(rid.slot);
      case RollbackDelete(rid, _) =>
        var _ := page.MarkDelete(rid.slot);
      case Update(rid, t, _) =>
        var _, _ := page.UpdateTuple(rid.slot, t);
    }
  }

  lemma AgreesStep(cur: Db, db: Db, r: LogRecord)
    requires Agrees(cur, db) && (OnSlot(r.body) ==> r.body.rid.page in db)
    ensures Agrees(RedoOne(cur, r), RedoOne(db, r)) && Agrees(UndoOne(cur, r), UndoOne(db, r))
  {
  }

  /** `active_txn` and `lsn_mapping` after the first `n` records. */
  ghost predicate TablesOk(active: map<int, int>, mapping: map<int, nat>, rs: seq<LogRecord>, n: nat)
    requires AllOk(rs) && n <= |rs|
  {
    && active == Active(rs[..n])
    && (forall i | 0 <= i < n :: i in mapping && mapping[i] == OffsetOf(rs, i))
  }

  lemma TablesStep(active: map<int, int>, mapping: map<int, nat>, rs: seq<LogRecord>, n: nat)
    requires AllOk(rs) && n < |rs| && rs[n].lsn == n && TablesOk(active, mapping, rs, n)
    ensures var all := active[rs[n].txn := n];
            TablesOk(if rs[n].body.Commit? then all - {rs[n].txn} else all, mapping[n := OffsetOf(rs, n)], rs, n + 1)
  {
    assert rs[..n + 1][..n] == rs[..n];
  }

  /**
   In `now` the row at `rid` is the one the committed transactions left there, if and only if no step of undoing
   the losers in this order, on what redo makes of `disk`, goes wrong at it.
   */
  predicate CommittedExactly(db: Db, rs: seq<LogRecord>, disk: Db, order: seq<int>, now: Db, rid: Rid) {
    Restored(db, rs, now, rid) <==> !Spoiled(SlotOf(db, rid), RedoAll(disk, rs), rs, UndoList(rs, order), rid)
  }

  class LogRecovery {
    const pool: PageStore
    /** The log file. */
    const file: seq<byte>
    /** Transactions without a COMMIT, and their last LSN. */
    var activeTxn: map<int, int>
    /** File offset of each LSN. */
    var lsnMapping: map<int, nat>

    constructor (pool: PageStore, file: seq<byte>)
      ensures this.pool == pool && this.file == file
      ensures activeTxn == map[] && lsnMapping == map[]
    {
      this.pool, this.file := pool, file;
      activeTxn, lsnMapping := map[], map[];
    }

    ghost function PagesNow(): Pages
      requires pool.Valid()
      reads pool, pool.Arrays()
    {
      Pages(pool.View(), pool.Links(), pool.nextPageId)
    }

    /** The page branches of `Redo`: the operation only runs on a page with an older LSN. */
    method RedoOnPage(r: LogRecord)
      requires pool.Valid() && OnSlot(r.body) && RecordOk(r) && r.body.rid.page in pool.pages
      requires pool.View()[r.body.rid.page].lsn < r.lsn ==> BodySafe(pool.View()[r.body.rid.page].slots, r.body)
      modifies pool.pages[r.body.rid.page].data
      ensures pool.Valid() && pool.View() == RedoOne(old(pool.View()), r) && pool.Links() == old(pool.Links())
    {
      hide Dec32, PageOk, SlotsOf, RecordOk, ApplyBody, BodySafe, RedoOne;
      RecordLsn(r);
      var p := r.body.rid.page;
      var page := pool.pages[p];
      ghost var db := pool.View();
      if page.GetLSN() < r.lsn {
        ghost var after := PageState(ApplyBody(db[p].slots, r.body), r.lsn);
        RedoTaken(db, r);
        ApplyTo(page, r.body);
        page.SetLSN(r.lsn);
        pool.OneChanged(p);
      } else {
        RedoSkipped(db, r);
      }
    }

    method UndoOnPage(r: LogRecord) returns (panicked: bool)
      requires pool.Valid() && OnSlot(r.body) && r.body.rid.page in pool.pages && UndoTyped(r.body)
      modifies pool.pages[r.body.rid.page].data
      ensures panicked <==> !UndoSafe(old(pool.View())[r.body.rid.page].slots, r.body)
      ensures pool.Valid() && pool.Links() == old(pool.Links())
      ensures pool.View() == if panicked then old(pool.View()) else UndoOne(old(pool.View()), r)
    {
      hide Dec32, PageOk, SlotsOf, UndoBody, UndoSafe, UndoTyped;
      var p := r.body.rid.page;
      panicked := UnapplyTo(pool.pages[p], r.body);
      pool.OneChanged(p);
    }

    /** What one record does to the pages; NEWPAGE adds one that `db` does not know. */
    method RedoPages(r: LogRecord, ghost db: Db)
      requires pool.Valid() && pool.nextPageId < U31 - 1 && RecordOk(r) && Agrees(pool.View(), db)
      requires OnSlot(r.body) ==>
                 r.body.rid.page in db
                 && (db[r.body.rid.page].lsn < r.lsn ==> BodySafe(db[r.body.rid.page].slots, r.body))
      modifies pool, pool.Arrays()
      ensures pool.Valid() && Agrees(pool.View(), RedoOne(db, r))
      ensures fresh(pool.Arrays() - old(pool.Arrays())) && pool.nextPageId <= old(pool.nextPageId) + 1
      ensures PagesNow() == var was := old(PagesNow());
                            if r.body.NewPage?
                            then Pages(was.db[was.next := PageState([], 0)], was.links[was.next := -1], was.next + 1)
                            else was.(db := RedoOne(was.db, r))
      ensures r.body.NewPage? ==>
                var p := old(pool.nextPageId); p in pool.pages && pool.pages[p].PrevPageId() == r.body.prevPage
    {
      hide Dec32, PageOk, SlotsOf, RecordOk, RedoOne, ApplyBody, BodySafe;
      AgreesStep(pool.View(), db, r);
      RecordLsn(r);
      if OnSlot(r.body) {
        RedoOnPage(r);
      } else {
        RedoSkipped(db, r);
        RedoSkipped(pool.View(), r);
        if r.body.NewPage? {
          var _ := pool.NewTablePage(r.body.prevPage);
        }
      }
    }

    /** The state of `Redo` after the first `n` records. */
    ghost predicate Replayed(was: Pages, rs: seq<LogRecord>, n: nat)
      requires AllOk(rs) && n <= |rs|
      reads this, pool, pool.Arrays()
    {
      && pool.Valid() && Agrees(pool.View(), RedoAll(was.db, rs[..n]))
      && Grown(PagesNow(), was, NewPages(rs[..n]))
      && TablesOk(activeTxn, lsnMapping, rs, n)
    }

    /** `active_txn` and `lsn_mapping` take note of the record. */
    method NoteRecord(r: LogRecord, offset: nat, ghost rs: seq<LogRecord>, ghost n: nat)
      requires AllOk(rs) && n < |rs| && r == rs[n] && r.lsn == n && offset == OffsetOf(rs, n)
      requires TablesOk(activeTxn, lsnMapping, rs, n)
      modifies `activeTxn, `lsnMapping
      ensures TablesOk(activeTxn, lsnMapping, rs, n + 1)
    {
      hide TablesOk, OffsetOf;
      TablesStep(activeTxn, lsnMapping, rs, n);
      activeTxn := activeTxn[r.txn := r.lsn];
      lsnMapping := lsnMapping[r.lsn := offset];
      if r.body.Begin? {
        assert activeTxn[r.txn := r.lsn] == activeTxn;
        activeTxn := activeTxn[r.txn := r.lsn];
      } else if r.body.Commit? {
        activeTxn := activeTxn - {r.txn};
      }
    }

    /** One round of `Redo`'s inner loop. */
    method RedoRecord(r: LogRecord, offset: nat, ghost was: Pages, ghost rs: seq<LogRecord>, ghost n: nat)
      requires AllOk(rs) && n < |rs| && r == rs[n] && r.lsn == n && offset == OffsetOf(rs, n)
      requires Replayed(was, rs, n) && RedoSafe(was.db, rs) && pool.nextPageId < U31 - 1
      modifies `activeTxn, `lsnMapping, pool, pool.Arrays()
      ensures Replayed(was, rs, n + 1) && fresh(pool.Arrays() - old(pool.Arrays()))
      ensures pool.nextPageId <= old(pool.nextPageId) + 1
    {
      hide Dec32, PageOk, SlotsOf, RecordOk, RedoOne, RedoAll, ApplyBody, BodySafe, EncodeAll, TablesOk, RedoSafe,
           Grown, PageStore.Valid, PageStore.View, PageStore.Links;
      ghost var before := PagesNow();
      RedoSafePrefix(was.db, rs, n);
      GrownRecord(before, was, rs, n);
      NoteRecord(r, offset, rs, n);
      RedoPages(r, RedoAll(was.db, rs[..n]));
    }

    /** A window read at record `w`, seen from record `n` on. */
    lemma WindowTail(rs: seq<LogRecord>, w: nat, n: nat)
      requires AllOk(rs) && file == EncodeAll(rs) && w <= n <= |rs|
      ensures var window := ReadLog(file, OffsetOf(rs, w));
              var b := OffsetOf(rs, n) - OffsetOf(rs, w);
              0 <= b <= |window| ==>
                && |window| - b <= Total(rs[n..])
                && (|window| == LOG_BUFFER_SIZE || |window| - b == Total(rs[n..]))
                && window[b..] == EncodeAll(rs[n..])[..|window| - b]
    {
      hide RecordOk, Encode, EncodeAll, ReadLog;
      OffsetBetween(rs, w, n);
      EncodeAllSplit(rs, n);
      WindowBytes(file, EncodeAll(rs[..n]), EncodeAll(rs[n..]), OffsetOf(rs, w));
    }

    /** `Redo`'s inner loop over one window. */
    method RedoWindow(start: nat, ghost was: Pages, ghost rs: seq<LogRecord>, ghost w: nat)
        returns (end: nat, torn: bool, ghost n: nat)
      requires AllOk(rs) && file == EncodeAll(rs) && w < |rs| && start == OffsetOf(rs, w)
      requires forall i | 0 <= i < |rs| :: rs[i].lsn == i && Size(rs[i]) <= LOG_BUFFER_SIZE
      requires RedoSafe(was.db, rs) && Replayed(was, rs, w) && pool.nextPageId + |rs| - w < U31 - 1
      modifies `activeTxn, `lsnMapping, pool, pool.Arrays()
      ensures n == w + Fit(rs[w..], LOG_BUFFER_SIZE) && n <= |rs| && end == OffsetOf(rs, n)
      ensures Replayed(was, rs, n) && fresh(pool.Arrays() - old(pool.Arrays()))
      ensures pool.nextPageId <= old(pool.nextPageId) + n - w
      ensures torn <==> n < |rs| && LOG_BUFFER_SIZE - Total(rs[w..n]) >= LOG_HEADER
    {
      hide Dec32, PageOk, SlotsOf, RecordOk, Replayed, EncodeAll, Decode, RedoSafe, Fit;
      var window := ReadLog(file, start);
      var offset := 0;
      n := w;
      torn := false;
      FitStep(rs, w, LOG_BUFFER_SIZE);
      while true
        invariant w <= n <= |rs| && offset == OffsetOf(rs, n) - start && offset <= |window|
        invariant Fit(rs[w..], LOG_BUFFER_SIZE) == n - w + Fit(rs[n..], LOG_BUFFER_SIZE - offset)
        invariant Replayed(was, rs, n) && fresh(pool.Arrays() - old(pool.Arrays()))
        invariant pool.nextPageId <= old(pool.nextPageId) + n - w
        decreases |rs| - n
      {
        OffsetBetween(rs, w, n);
        WindowTail(rs, w, n);
        WindowDecodes(rs, n, |window| - offset);
        FitStep(rs, n, LOG_BUFFER_SIZE - offset);
        var d := Decode(window[offset..]);
        if !d.Record? {
          if n < |rs| {
            OffsetStep(rs, n);
            OffsetBetween(rs, n, n + 1);
            OffsetBetween(rs, n + 1, |rs|);
          }
          return start + offset, d.Torn?, n;
        }
        OffsetStep(rs, n);
        RedoRecord(d.r, start + offset, was, rs, n);
        offset := offset + d.size;
        n := n + 1;
      }
    }

    /**
     `Redo`. It reads the whole log exactly when no window cuts a record after its header; the code then
     slices past the window and panics, which `torn` stands for.
     */
    method Redo(ghost rs: seq<LogRecord>) returns (torn: bool)
      requires pool.Valid() && AllOk(rs) && file == EncodeAll(rs) && pool.nextPageId + |rs| < U31 - 1
      requires forall i | 0 <= i < |rs| :: rs[i].lsn == i && Size(rs[i]) <= LOG_BUFFER_SIZE
      requires RedoSafe(pool.View(), rs) && activeTxn == map[] && lsnMapping == map[]
      modifies `activeTxn, `lsnMapping, pool, pool.Arrays()
      ensures torn <==> !CutsOk(rs, 0)
      ensures !torn ==> Replayed(old(PagesNow()), rs, |rs|)
      ensures fresh(pool.Arrays() - old(pool.Arrays()))
    {
      hide Dec32, PageOk, SlotsOf, RecordOk, Replayed, EncodeAll, Decode, CutsOk, RedoSafe;
      ghost var was := PagesNow();
      var fileOffset := 0;
      ghost var w := 0;
      torn := false;
      OffsetEnds(rs);
      RedoStarts(rs);
      while fileOffset < |file|
        invariant w <= |rs| && fileOffset == OffsetOf(rs, w)
        invariant Replayed(was, rs, w) && pool.nextPageId <= old(pool.nextPageId) + w
        invariant fresh(pool.Arrays() - old(pool.Arrays()))
        invariant CutsOk(rs, w) <==> CutsOk(rs, 0)
        decreases |rs| - w
      {
        OffsetBetween(rs, w, |rs|);
        CutsStep(rs, w);
        CutsEnd(rs);
        fileOffset, torn, w := RedoWindow(fileOffset, was, rs, w);
        if torn {
          return;
        }
      }
      OffsetBetween(rs, w, |rs|);
      if w < |rs| {
        OffsetStep(rs, w);
        OffsetBetween(rs, w + 1, |rs|);
      }
      CutsEnd(rs);
    }

    /** Before the first record nothing has been replayed. */
    lemma RedoStarts(rs: seq<LogRecord>)
      requires pool.Valid() && AllOk(rs) && activeTxn == map[] && lsnMapping == map[]
      ensures Replayed(PagesNow(), rs, 0)
    {
      hide Dec32, PageOk, SlotsOf, RecordOk;
      assert rs[..0] == [];
    }

    /** One step of `Undo`'s walk: reads the record back through `lsn_mapping`. */
    method UndoRecord(lsn: int, ghost rs: seq<LogRecord>) returns (panicked: bool, prev: int)
      requires AllOk(rs) && file == EncodeAll(rs) && 0 <= lsn < |rs| && Size(rs[lsn]) <= LOG_BUFFER_SIZE
      requires TablesOk(activeTxn, lsnMapping, rs, |rs|) && pool.Valid()
      requires OnSlot(rs[lsn].body) ==> rs[lsn].body.rid.page in pool.View() && UndoTyped(rs[lsn].body)
      modifies pool.Arrays()
      ensures panicked <==> !StepSafe(old(pool.View()), rs[lsn])
      ensures pool.Valid() && prev == rs[lsn].prevLsn && pool.Links() == old(pool.Links())
      ensures pool.View() == if panicked then old(pool.View()) else UndoOne(old(pool.View()), rs[lsn])
    {
      hide Dec32, PageOk, SlotsOf, RecordOk, EncodeAll, Decode, UndoBody, UndoSafe, UndoTyped, UndoOne;
      SafeMeans(pool.View(), rs[lsn]);
      var offset := lsnMapping[lsn];
      WindowTail(rs, lsn, lsn);
      OffsetStep(rs, lsn);
      OffsetBetween(rs, lsn, lsn + 1);
      OffsetBetween(rs, lsn + 1, |rs|);
      OffsetBetween(rs, lsn, |rs|);
      var window := ReadLog(file, offset);
      WindowDecodes(rs, lsn, |window|);
      var d := Decode(window);
      prev := d.r.prevLsn;
      panicked := false;
      if OnSlot(d.r.body) {
        panicked := UndoOnPage(d.r);
      } else {
        UndoSkipped(pool.View(), d.r);
      }
    }

    /** The walk along one transaction's prev-LSN chain, as far as no assertion fails. */
    method UndoTransaction(t: int, ghost db: Db, ghost rs: seq<LogRecord>, ghost cur: Db, ghost order: seq<int>)
      returns (panicked: bool)
      requires Redone(db, rs, cur) && NextLoser(rs, order, t) && file == EncodeAll(rs)
      requires forall i | 0 <= i < |rs| :: Size(rs[i]) <= LOG_BUFFER_SIZE
      requires TablesOk(activeTxn, lsnMapping, rs, |rs|) && t in activeTxn
      requires pool.Valid() && pool.View() == UndoAll(cur, rs, UndoList(rs, order))
      requires UndoRunSafe(cur, rs, UndoList(rs, order))
      modifies pool.Arrays()
      ensures pool.Valid() && (panicked <==> !UndoRunSafe(cur, rs, UndoList(rs, order + [t])))
      ensures pool.Links() == old(pool.Links())
      ensures !panicked ==> pool.View() == UndoAll(cur, rs, UndoList(rs, order + [t]))
    {
      hide Dec32, PageOk, SlotsOf, RecordOk, EncodeAll, StepSafe, UndoTyped, UndoOne, Redone, Chain, LastOf, UndoAll,
           UndoRunSafe, NextLoser, TablesOk, WalkAt, UndoList, Legal, WellChained, EndsFinal, Active;
      RedoneChained(db, rs, cur);
      TablesDone(rs);
      LoserActive(rs, order, t);
      ActiveLsn(rs, t);
      ghost var before := UndoList(rs, order);
      WalkStarts(rs, before, t);
      UndoListSnoc(rs, order, t);
      ghost var all := UndoList(rs, order + [t]);
      ghost var m := |before|;
      var lsn := activeTxn[t];
      while lsn != -1
        invariant m <= |all| && WalkAt(rs, before, all, t, m, lsn)
        invariant pool.Valid() && pool.View() == UndoAll(cur, rs, all[..m]) && pool.Links() == old(pool.Links())
        invariant UndoRunSafe(cur, rs, all[..m])
        decreases |all| - m
      {
        WalkGoesOn(rs, before, all, t, m, lsn);
        WalkStep(db, rs, cur, all, m);
        m := m + 1;
        panicked, lsn := UndoRecord(lsn, rs);
        if panicked {
          UnsafePrefix(cur, rs, all, all[..m]);
          return;
        }
      }
      WalkEnds(rs, before, all, t, m);
      panicked := false;
    }

    lemma TablesDone(rs: seq<LogRecord>)
      requires AllOk(rs) && TablesOk(activeTxn, lsnMapping, rs, |rs|)
      ensures activeTxn == Active(rs)
    {
      assert rs[..|rs|] == rs;
    }

    /**
     `Undo`: the losers come up in an order the map iteration chooses. It ends in a failed assertion exactly
     when a step on the records visited in that order fails.
     */
    method Undo(ghost db: Db, ghost rs: seq<LogRecord>) returns (panicked: bool, ghost order: seq<int>)
      requires pool.Valid() && Redone(db, rs, pool.View()) && file == EncodeAll(rs)
      requires forall i | 0 <= i < |rs| :: Size(rs[i]) <= LOG_BUFFER_SIZE
      requires TablesOk(activeTxn, lsnMapping, rs, |rs|)
      modifies pool.Arrays()
      ensures pool.Valid() && (panicked <==> !UndoRunSafe(old(pool.View()), rs, UndoList(rs, order)))
      ensures pool.Links() == old(pool.Links())
      ensures (forall t | t in order :: t in Active(rs)) && forall i, j | 0 <= i < j < |order| :: order[i] != order[j]
      ensures !panicked ==> OrderOf(order, Active(rs).Keys)
      ensures !panicked ==> pool.View() == UndoAll(old(pool.View()), rs, UndoList(rs, order))
      ensures !panicked ==>
                forall p | p in old(pool.View()) :: p in pool.View() && pool.View()[p].lsn == old(pool.View())[p].lsn
    {
      hide Dec32, PageOk, SlotsOf, RecordOk, EncodeAll, Redone, Chain, LastOf, TablesOk, UndoAll, UndoRunSafe;
      ghost var cur := pool.View();
      RedoneChained(db, rs, cur);
      NothingUndone(cur, rs);
      TablesDone(rs);
      order := [];
      panicked := false;
      var left := activeTxn.Keys;
      while left != {}
        invariant left <= activeTxn.Keys
        invariant forall x :: x in activeTxn.Keys <==> x in left || x in order
        invariant forall x | x in order :: x !in left
        invariant forall i, j | 0 <= i < j < |order| :: order[i] != order[j]
        invariant pool.Valid() && pool.View() == UndoAll(cur, rs, UndoList(rs, order))
        invariant pool.Links() == old(pool.Links())
        invariant UndoRunSafe(cur, rs, UndoList(rs, order))
        decreases left
      {
        ghost var some := Pick(left);
        var t :| t in left;
        panicked := UndoTransaction(t, db, rs, cur, order);
        order := order + [t];
        left := left - {t};
        if panicked {
          return;
        }
      }
      LsnsKept(cur, rs, UndoList(rs, order));
    }

    /**
     Recovery after a crash, on the bytes of the pages and of the log: redo, then undo of the losers in
     whatever order. It fails exactly where a window cuts a record or an assertion of an undo step fails, and
     otherwise leaves the pages that redo and undo make of the disk and the log, next to newly allocated ones, each
     with the LSN of the last record done on it; then every RID not reused after an abort has the row the
     committed transactions left there, if and only if no undo step goes wrong at it.
     */
    method Recover(ghost db: Db, ghost rs: seq<LogRecord>, ghost upTo: map<int, nat>)
      returns (torn: bool, panicked: bool, ghost order: seq<int>)
      requires pool.Valid() && activeTxn == map[] && lsnMapping == map[] && pool.nextPageId + |rs| < U31 - 1
      requires AllOk(rs) && file == EncodeAll(rs) && forall i | 0 <= i < |rs| :: Size(rs[i]) <= LOG_BUFFER_SIZE
      requires EngineLog(db, rs) && DiskImage(db, rs, pool.View(), upTo)
      modifies `activeTxn, `lsnMapping, pool, pool.Arrays()
      ensures torn <==> !CutsOk(rs, 0)
      ensures !torn ==> (panicked <==> Recovered(old(pool.View()), rs, order) == Panicked)
      ensures !torn && !panicked ==> pool.Valid() && OrderOf(order, Active(rs).Keys)
      ensures !torn && !panicked ==>
                Recovered(old(pool.View()), rs, order).Finished?
                && Agrees(pool.View(), Recovered(old(pool.View()), rs, order).db)
      ensures !torn && !panicked ==> Grown(PagesNow(), old(PagesNow()), NewPages(rs))
      ensures !torn && !panicked ==>
                forall p | p in db :: p in pool.View() && pool.View()[p].lsn == Hist(db, rs)[p].lsn
      ensures !torn && !panicked ==>
                forall rid: Rid | rid.page in db && rid.slot >= 0 && NotReused(rs, rid) && !SlotOf(db, rid).Marked? ::
                  CommittedExactly(db, rs, old(pool.View()), order, pool.View(), rid)
    {
      hide Dec32, PageOk, SlotsOf, RecordOk, EncodeAll, Redone, Chain, LastOf, TablesOk, EngineLog, DiskImage, CutsOk,
           CommittedExactly, Hist, RedoAll, UndoAll, UndoList, Active, UndoRunSafe, UndoRun, NotReused, PagesFit,
               SlotOf;
      ghost var disk, was := pool.View(), PagesNow();
      LegalIsReady(db, rs, disk, upTo);
      torn := Redo(rs);
      panicked, order := false, [];
      if !torn {
        assert rs[..|rs|] == rs;
        ghost var cur, base := pool.View(), RedoAll(disk, rs);
        RedoDone(db, rs, disk, upTo, cur);
        ViewFits(db);
        ghost var redone := PagesNow();
        panicked, order := Undo(db, rs);
        if !panicked {
          GrownUndo(redone, was, NewPages(rs), rs, UndoList(rs, order));
        }
        UndoAgrees(cur, base, rs, UndoList(rs, order));
        UndoRunExact(base, rs, UndoList(rs, order));
        forall rid: Rid | !panicked && rid.page in db && rid.slot >= 0 && NotReused(rs, rid) && !SlotOf(db, rid).Marked?
          ensures CommittedExactly(db, rs, disk, order, pool.View(), rid)
        {
          UndoneExact(db, rs, disk, cur, order, rid);
        }
      }
    }

    /** Pages of the pool are well-formed. */
    lemma ViewFits(db: Db)
      requires pool.Valid()
      ensures PagesFit(pool.View(), db.Keys)
    {
      hide Dec32, PageOk, SlotsOf, S.Fits;
      forall p | p in pool.pages ensures S.Fits(pool.pages[p].View()) {
        FreeSpaceExact(pool.pages[p].data[..]);
      }
    }
  }

  lemma LsnsKept(cur: Db, rs: seq<LogRecord>, us: seq<nat>)
    requires forall i | 0 <= i < |us| :: us[i] < |rs|
    ensures forall p | p in cur :: UndoAll(cur, rs, us)[p].lsn == cur[p].lsn
  {
    forall p | p in cur ensures UndoAll(cur, rs, us)[p].lsn == cur[p].lsn {
      UndoKeepsLsn(cur, rs, us, p);
    }
  }

  lemma UndoneExact(db: Db, rs: seq<LogRecord>, disk: Db, cur: Db, order: seq<int>, rid: Rid)
    requires Redone(db, rs, cur) && Agrees(cur, RedoAll(disk, rs)) && db.Keys <= disk.Keys && PagesFit(cur, db.Keys)
    requires OrderOf(order, Active(rs).Keys) && rid.page in db && rid.slot >= 0 && NotReused(rs, rid)
    requires !SlotOf(db, rid).Marked? && forall i | 0 <= i < |rs| && OnSlot(rs[i].body) :: rs[i].body.rid.page in db
    ensures CommittedExactly(db, rs, disk, order, UndoAll(cur, rs, UndoList(rs, order)), rid)
  {
    hide Spoiled, EngineLog, PagesFit, Hist, RecordOk, UndoList, Restored, UndoAll, RedoAll, SlotOf;
    UndoRestoresCommitted(db, rs, cur, order, rid);
    SpoiledAgrees(SlotOf(db, rid), cur, RedoAll(disk, rs), rs, UndoList(rs, order), rid);
  }

  lemma LegalIsReady(db: Db, rs: seq<LogRecord>, disk: Db, upTo: map<int, nat>)
    requires EngineLog(db, rs) && AllOk(rs) && DiskImage(db, rs, disk, upTo)
    ensures RedoSafe(disk, rs) && forall i | 0 <= i < |rs| :: rs[i].lsn == i
  {
    LegalIsRedoSafe(db, rs, disk, upTo);
  }

  lemma LoserActive(rs: seq<LogRecord>, order: seq<int>, t: int)
    requires NextLoser(rs, order, t)
    ensures t in Active(rs)
  {
  }

  lemma UndoListSnoc(rs: seq<LogRecord>, order: seq<int>, t: int)
    ensures UndoList(rs, order + [t]) == UndoList(rs, order) + Chain(rs, LastOf(rs, t))
  {
    assert (order + [t])[..|order|] == order;
  }

  lemma SafeMeans(now: Db, r: LogRecord)
    ensures StepSafe(now, r) <==>
            (OnSlot(r.body) ==> r.body.rid.page in now && UndoSafe(now[r.body.rid.page].slots, r.body))
  {
  }

  lemma NothingUndone(cur: Db, rs: seq<LogRecord>)
    ensures UndoAll(cur, rs, []) == cur && UndoRunSafe(cur, rs, [])
  {
  }

  lemma ActiveLsn(rs: seq<LogRecord>, t: int)
    requires EndsFinal(rs) && WellChained(rs) && t in Active(rs)
    ensures Active(rs)[t] == LastOf(rs, t)
  {
    ActiveMeans(rs, t);
  }

  lemma UndoSkipped(db: Db, r: LogRecord)
    requires !OnSlot(r.body)
    ensures UndoOne(db, r) == db
  {
  }
}
