/** What redo and undo mean, and why they restore the committed state: recovery/log_recovery/log_recovery.go. */
module Recovery {
  import opened Bytes
  import opened Slots
  import opened LogRecords

  datatype PageState = PageState(slots: seq<Slot>, lsn: int)
  type Db = map<int, PageState>

  function SlotOf(db: Db, rid: Rid): Slot {
    if rid.page in db && rid.slot >= 0 then At(db[rid.page].slots, rid.slot) else Empty
  }

  predicate OnPage(b: Body, page: int) {
    OnSlot(b) && b.rid.page == page
  }

  predicate OnRid(b: Body, rid: Rid) {
    OnSlot(b) && b.rid == rid
  }

  // ---------- one record ----------

  /** The page operation `Redo` calls for a record. */
  function ApplyBody(d: seq<Slot>, b: Body): seq<Slot>
    requires OnSlot(b)
  {
    match b
    case Insert(_, t) => Slots.Insert(d, t).1
    case Update(rid, _, t) => if rid.slot < 0 then d else Slots.Update(d, rid.slot, t).1
    case MarkDelete(rid, _) => if rid.slot < 0 then d else Slots.MarkDelete(d, rid.slot).1
    case ApplyDelete(rid, _) => if 0 <= rid.slot < |d| then Slots.ApplyDelete(d, rid.slot) else d
    case RollbackDelete(rid, _) => if 0 <= rid.slot < |d| then Slots.RollbackDelete(d, rid.slot) else d
  }

  /** The inverse page operation `Undo` calls for a record. */
  function UndoBody(d: seq<Slot>, b: Body): seq<Slot>
    requires OnSlot(b)
  {
    match b
    case Insert(rid, _) => if 0 <= rid.slot < |d| then Slots.ApplyDelete(d, rid.slot) else d
    case Update(rid, t, _) => if rid.slot < 0 then d else Slots.Update(d, rid.slot, t).1
    case MarkDelete(rid, _) => if 0 <= rid.slot < |d| then Slots.RollbackDelete(d, rid.slot) else d
    case RollbackDelete(rid, _) => if rid.slot < 0 then d else Slots.MarkDelete(d, rid.slot).1
    case ApplyDelete(_, t) => Slots.Insert(d, t).1
  }

  /** Executing a record: the page changes and carries the record's LSN. */
  function Perform(db: Db, r: LogRecord): Db {
    if OnSlot(r.body) && r.body.rid.page in db
    then db[r.body.rid.page := PageState(ApplyBody(db[r.body.rid.page].slots, r.body), r.lsn)]
    else db
  }

  /** `Redo`'s treatment of a record: performed only on a page whose LSN is older. */
  function RedoOne(db: Db, r: LogRecord): Db {
    if OnSlot(r.body) && r.body.rid.page in db && db[r.body.rid.page].lsn < r.lsn then Perform(db, r) else db
  }

  function UndoOne(db: Db, r: LogRecord): Db {
    if OnSlot(r.body) && r.body.rid.page in db
    then db[r.body.rid.page := db[r.body.rid.page].(slots := UndoBody(db[r.body.rid.page].slots, r.body))]
    else db
  }

  // ---------- whole logs ----------

  /** The database after the logged operations, run in order on `db`. */
  function Hist(db: Db, log: seq<LogRecord>): (r: Db)
    ensures r.Keys == db.Keys
  {
    if log == [] then db else Perform(Hist(db, log[..|log| - 1]), log[|log| - 1])
  }

  function RedoAll(db: Db, log: seq<LogRecord>): (r: Db)
    ensures r.Keys == db.Keys
  {
    if log == [] then db else RedoOne(RedoAll(db, log[..|log| - 1]), log[|log| - 1])
  }

  /** Undo the records at positions `us`, in that order. */
  function UndoAll(db: Db, log: seq<LogRecord>, us: seq<nat>): (r: Db)
    requires forall i | 0 <= i < |us| :: us[i] < |log|
    ensures r.Keys == db.Keys
  {
    if us == [] then db
    else UndoOne(UndoAll(db, log, us[..|us| - 1]), log[us[|us| - 1]])
  }

  /** The operation a record describes really happened on `db` when it was logged. */
  predicate LegalOn(db: Db, r: LogRecord) {
    OnSlot(r.body) ==>
      && r.body.rid.page in db && r.body.rid.slot >= 0
      && db[r.body.rid.page].lsn < r.lsn
      && (var d := db[r.body.rid.page].slots;
          var k := r.body.rid.slot;
          match r.body
          case Insert(_, t) => Slots.Insert(d, t).0 == Inserted(k)
          case Update(_, old_, t) => t != [] && old_ != [] && Slots.Update(d, k, t).0 == Updated && d[k] == Live(old_)
          case MarkDelete(_, _) => At(d, k).Live?
          case RollbackDelete(_, _) => At(d, k).Marked?
          case ApplyDelete(_, t) => k < |d| && d[k] != Empty && d[k].bytes == t)
  }

  /** A log written by running operations on `db`: record `n` carries LSN `n`. */
  predicate Legal(db: Db, log: seq<LogRecord>) {
    log == [] ||
    (var n := |log| - 1;
     Legal(db, log[..n]) && log[n].lsn == n && LegalOn(Hist(db, log[..n]), log[n]))
  }

  lemma {:induction false} LegalPrefix(db: Db, log: seq<LogRecord>, n: nat)
    requires Legal(db, log) && n <= |log|
    ensures Legal(db, log[..n])
    ensures n < |log| ==>
              log[n].lsn == n && LegalOn(Hist(db, log[..n]), log[n])
              && Hist(db, log[..n + 1]) == Perform(Hist(db, log[..n]), log[n])
  {
    if n == |log| {
      assert log[..n] == log;
    } else if n == |log| - 1 {
      assert log[..n + 1] == log;
    } else {
      LegalPrefix(db, log[..|log| - 1], n);
      assert log[..|log| - 1][..n] == log[..n] && log[..|log| - 1][..n + 1] == log[..n + 1];
    }
  }

  // ---------- redo repeats history ----------

  lemma LegalLater(db: Db, r: LogRecord)
    requires LegalOn(db, r)
    ensures OnSlot(r.body) ==> r.body.rid.page in db && db[r.body.rid.page].lsn < r.lsn
  {
  }

  /** Page LSNs only grow, and a page carries at least the LSN of every record done on it. */
  lemma {:induction false} LsnGrows(db: Db, log: seq<LogRecord>, k: nat, n: nat, page: int)
    requires Legal(db, log) && k <= n <= |log| && page in db
    ensures Hist(db, log[..k])[page].lsn <= Hist(db, log[..n])[page].lsn
    ensures forall i | k <= i < n && OnPage(log[i].body, page) :: i <= Hist(db, log[..n])[page].lsn
    ensures (forall i | k <= i < n :: !OnPage(log[i].body, page))
            ==> Hist(db, log[..k])[page] == Hist(db, log[..n])[page]
    decreases n - k
  {
    hide Legal, LegalOn, ApplyBody, Hist;
    if k < n {
      LsnGrows(db, log, k, n - 1, page);
      LegalPrefix(db, log, n - 1);
      LegalLater(Hist(db, log[..n - 1]), log[n - 1]);
    }
  }

  /** A page carries the LSN of the last record done on it. */
  lemma LsnIsLast(db: Db, log: seq<LogRecord>, i: nat, n: nat, page: int)
    requires Legal(db, log) && i < n <= |log| && page in db
    requires OnPage(log[i].body, page) && forall j | i < j < n :: !OnPage(log[j].body, page)
    ensures Hist(db, log[..n])[page].lsn == i
  {
    hide Legal, LegalOn, ApplyBody, Hist;
    LegalPrefix(db, log, i);
    LegalLater(Hist(db, log[..i]), log[i]);
    LsnGrows(db, log, i + 1, n, page);
  }

  /** The disk at a crash: each page is as some prefix of the log left it, and stamped accordingly. */
  ghost predicate DiskImage(db: Db, log: seq<LogRecord>, disk: Db, upTo: map<int, nat>) {
    && upTo.Keys == db.Keys && db.Keys <= disk.Keys
    && forall p | p in db :: upTo[p] <= |log| && disk[p] == Hist(db, log[..upTo[p]])[p]
  }

  lemma HistStart(db: Db, log: seq<LogRecord>)
    ensures Hist(db, log[..0]) == db
  {
  }

  lemma {:induction false} RedoPage(db: Db, log: seq<LogRecord>, disk: Db, upTo: map<int, nat>, n: nat, page: int)
    requires Legal(db, log) && DiskImage(db, log, disk, upTo) && n <= |log| && page in db
    ensures var m := if n < upTo[page] then upTo[page] else n;
            RedoAll(disk, log[..n])[page] == Hist(db, log[..m])[page]
  {
    hide Legal, LegalOn, ApplyBody, Hist;
    HistStart(db, log);
    if n > 0 {
      RedoPage(db, log, disk, upTo, n - 1, page);
      LegalPrefix(db, log, n - 1);
      LegalLater(Hist(db, log[..n - 1]), log[n - 1]);
      assert log[..n][..n - 1] == log[..n - 1];
      if OnPage(log[n - 1].body, page) && n <= upTo[page] {
        LsnGrows(db, log, n - 1, upTo[page], page);
      }
    }
  }

  /**
   Redo repeats history: whatever prefix each page had reached on disk, redo brings all pages to the
   state after the whole log, slots and LSNs included; running it again changes nothing.
   */
  lemma RedoRepeatsHistory(db: Db, log: seq<LogRecord>, disk: Db, upTo: map<int, nat>)
    requires Legal(db, log) && DiskImage(db, log, disk, upTo)
    ensures var once := RedoAll(disk, log);
            && (forall p | p in db :: once[p] == Hist(db, log)[p])
            && (forall p | p in db :: RedoAll(once, log)[p] == once[p])
  {
    var once := RedoAll(disk, log);
    assert log[..|log|] == log;
    forall p | p in db ensures once[p] == Hist(db, log)[p] {
      RedoPage(db, log, disk, upTo, |log|, p);
    }
    var full := map p | p in db :: |log|;
    assert DiskImage(db, log, once, full);
    forall p | p in db ensures RedoAll(once, log)[p] == once[p] {
      RedoPage(db, log, once, full, |log|, p);
    }
  }

  // ---------- what a slot should hold ----------

  /** The effect of a record on the row of its own RID. */
  function Effect(b: Body, s: Slot): Slot
    requires OnSlot(b)
  {
    match b
    case Insert(_, t) => Live(t)
    case Update(_, _, t) => Live(t)
    case MarkDelete(_, _) => if s.Live? then Marked(s.bytes) else s
    case RollbackDelete(_, _) => if s.Marked? then Live(s.bytes) else s
    case ApplyDelete(_, _) => Empty
  }

  /** The row of `rid` after the log's records on it, leaving out those at positions in `skip`. */
  function Replay(init: Slot, log: seq<LogRecord>, rid: Rid, skip: set<nat>): Slot {
    if log == [] then init
    else
      var n := |log| - 1;
      var before := Replay(init, log[..n], rid, skip);
      if n !in skip && OnRid(log[n].body, rid) then Effect(log[n].body, before) else before
  }

  lemma {:induction false} ReplayAgrees(init: Slot, log: seq<LogRecord>, rid: Rid, skip: set<nat>, skip': set<nat>)
    requires forall i | 0 <= i < |log| && OnRid(log[i].body, rid) :: i in skip <==> i in skip'
    ensures Replay(init, log, rid, skip) == Replay(init, log, rid, skip')
  {
    if log != [] {
      ReplayAgrees(init, log[..|log| - 1], rid, skip, skip');
    }
  }

  /** Skipped records at the end of the log count for nothing. */
  lemma {:induction false} ReplayTail(init: Slot, log: seq<LogRecord>, rid: Rid, skip: set<nat>, n: nat)
    requires n <= |log| && forall i | n <= i < |log| && OnRid(log[i].body, rid) :: i in skip
    ensures Replay(init, log, rid, skip) == Replay(init, log[..n], rid, skip)
  {
    if n < |log| {
      ReplayTail(init, log[..|log| - 1], rid, skip, n);
      assert log[..|log| - 1][..n] == log[..n];
    } else {
      assert log[..n] == log;
    }
  }

  /** The row is what the last record not skipped left there; with none, what it was at the start. */
  lemma LastWriteWins(init: Slot, log: seq<LogRecord>, rid: Rid, skip: set<nat>, last: int)
    requires -1 <= last < |log|
    requires forall i | last < i < |log| && OnRid(log[i].body, rid) :: i in skip
    requires last >= 0 ==> last !in skip && OnRid(log[last].body, rid)
    requires last == -1 ==> forall i | 0 <= i < |log| && OnRid(log[i].body, rid) :: i in skip
    ensures var row := Replay(init, log, rid, skip);
            && (last == -1 ==> row == init)
            && (last >= 0 && log[last].body.Insert? ==> row == Live(log[last].body.tuple))
            && (last >= 0 && log[last].body.Update? ==> row == Live(log[last].body.newTuple))
            && (last >= 0 && log[last].body.ApplyDelete? ==> row == Empty)
  {
    ReplayTail(init, log, rid, skip, last + 1);
    if last >= 0 {
      assert log[..last + 1][..last] == log[..last];
    }
  }

  lemma PerformEffect(db: Db, r: LogRecord, rid: Rid)
    requires LegalOn(db, r) && rid.slot >= 0 && rid.page in db
    ensures SlotOf(Perform(db, r), rid) == if OnRid(r.body, rid) then Effect(r.body, SlotOf(db, rid))
            else SlotOf(db, rid)
  {
  }

  lemma {:induction false} HistSlot(db: Db, log: seq<LogRecord>, rid: Rid)
    requires Legal(db, log) && rid.slot >= 0 && rid.page in db
    ensures SlotOf(Hist(db, log), rid) == Replay(SlotOf(db, rid), log, rid, {})
  {
    if log != [] {
      var n := |log| - 1;
      HistSlot(db, log[..n], rid);
      PerformEffect(Hist(db, log[..n]), log[n], rid);
    }
  }

  // ---------- pages stay well-formed ----------

  /** The pages named are well-formed. */
  ghost predicate PagesFit(db: Db, pages: set<int>) {
    forall p | p in pages && p in db :: Fits(db[p].slots)
  }

  lemma PerformFits(db: Db, r: LogRecord, pages: set<int>)
    requires PagesFit(db, pages) && LegalOn(db, r)
    ensures PagesFit(Perform(db, r), pages)
  {
    hide Fits, Slots.Insert, Slots.Update, Slots.MarkDelete;
    if OnSlot(r.body) && r.body.rid.page in pages {
      var k := r.body.rid.slot;
      OperationsFit(db[r.body.rid.page].slots, k, if r.body.Update? then r.body.newTuple else r.body.tuple);
    }
  }

  /** Logged operations keep the pages well-formed. */
  lemma {:induction false} HistFits(db: Db, log: seq<LogRecord>)
    requires Legal(db, log) && PagesFit(db, db.Keys)
    ensures PagesFit(Hist(db, log), db.Keys)
  {
    hide PagesFit, LegalOn;
    if log != [] {
      var n := |log| - 1;
      HistFits(db, log[..n]);
      PerformFits(Hist(db, log[..n]), log[n], db.Keys);
    }
  }

  lemma UndoFits(now: Db, before: Db, r: LogRecord, pages: set<int>)
    requires PagesFit(now, pages) && LegalOn(before, r)
    ensures PagesFit(UndoOne(now, r), pages)
  {
    hide Fits, Slots.Insert, Slots.Update, Slots.MarkDelete;
    if OnSlot(r.body) && r.body.rid.page in pages && r.body.rid.page in now {
      var k := r.body.rid.slot;
      OperationsFit(now[r.body.rid.page].slots, k, if r.body.Update? then r.body.oldTuple else r.body.tuple);
    }
  }

  /** Undone records, whatever their order, keep the pages well-formed. */
  lemma {:induction false} UndoAllFits(db: Db, log: seq<LogRecord>, cur: Db, us: seq<nat>)
    requires Legal(db, log) && PagesFit(cur, db.Keys) && db.Keys <= cur.Keys
    requires forall i | 0 <= i < |us| :: us[i] < |log|
    ensures PagesFit(UndoAll(cur, log, us), db.Keys)
  {
    hide PagesFit, LegalOn;
    if us != [] {
      var n := |us| - 1;
      UndoAllFits(db, log, cur, us[..n]);
      LegalPrefix(db, log, us[n]);
      UndoFits(UndoAll(cur, log, us[..n]), Hist(db, log[..us[n]]), log[us[n]], db.Keys);
    }
  }

  // ---------- undo ----------

  /** An in-place undo of an update finds room for the old row. */
  predicate RoomAt(db: Db, r: LogRecord) {
    r.body.Update? && r.body.rid.page in db && r.body.rid.slot >= 0 ==>
      var d := db[r.body.rid.page].slots;
      Free(d) + Len(At(d, r.body.rid.slot)) >= |r.body.oldTuple|
  }

  /** Undo of an APPLYDELETE inserts the row anew, and the page puts it into the slot of `rid`. */
  predicate Lands(db: Db, r: LogRecord, rid: Rid) {
    r.body.ApplyDelete? && r.body.rid.page == rid.page && rid.page in db
    && var d := db[rid.page].slots;
       r.body.tuple != [] && FirstFree(d) == rid.slot && Free(d) >= |r.body.tuple| + ENTRY_SIZE
  }

  /** What undoing a record makes of the row at its own RID, a reinsertion apart. */
  function UndoRow(b: Body, s: Slot, room: bool): Slot
    requires OnSlot(b)
  {
    match b
    case Insert(_, _) => Empty
    case Update(_, t, _) => if s.Live? && room then Live(t) else s
    case MarkDelete(_, _) => if s.Marked? then Live(s.bytes) else s
    case RollbackDelete(_, _) => if s.Live? then Marked(s.bytes) else s
    case ApplyDelete(_, _) => s
  }

  /** One undo step, row by row. */
  lemma UndoSlot(now: Db, r: LogRecord, rid: Rid)
    requires OnSlot(r.body) && r.body.rid.page in now && r.body.rid.slot >= 0 && rid.slot >= 0
    ensures SlotOf(UndoOne(now, r), rid)
         == if Lands(now, r, rid) then Live(r.body.tuple)
            else if OnRid(r.body, rid) then UndoRow(r.body, SlotOf(now, rid), RoomAt(now, r))
            else SlotOf(now, rid)
    ensures Lands(now, r, rid) ==> SlotOf(now, rid) == Empty
  {
    hide Free;
  }

  function Elems(us: seq<nat>): set<nat> {
    set u | u in us
  }

  /** No position twice, and a record on `rid` is undone only after every later record on `rid`. */
  ghost predicate UndoOrder(log: seq<LogRecord>, us: seq<nat>, rid: Rid) {
    && (forall i | 0 <= i < |us| :: us[i] < |log|)
    && (forall i, j | 0 <= i < j < |us| :: us[i] != us[j])
    && (forall i, n | 0 <= i < |us| && us[i] < n < |log| && OnRid(log[us[i]].body, rid) && OnRid(log[n].body, rid) ::
          n in us[..i])
  }

  lemma UndoOrderPrefix(log: seq<LogRecord>, us: seq<nat>, rid: Rid)
    requires UndoOrder(log, us, rid) && us != []
    ensures UndoOrder(log, us[..|us| - 1], rid)
  {
    var vs := us[..|us| - 1];
    forall i, n | 0 <= i < |vs| && vs[i] < n < |log| && OnRid(log[vs[i]].body, rid) && OnRid(log[n].body, rid)
      ensures n in vs[..i]
    {
      assert vs[..i] == us[..i] && vs[i] == us[i];
    }
  }

  lemma LastInRow(log: seq<LogRecord>, us: seq<nat>, rid: Rid)
    requires UndoOrder(log, us, rid) && us != [] && OnRid(log[us[|us| - 1]].body, rid)
    ensures var u := us[|us| - 1];
            && u < |log|
            && (forall n | u < n < |log| && OnRid(log[n].body, rid) :: n in Elems(us[..|us| - 1]) && n in Elems(us))
            && (forall n: nat | n < u && OnRid(log[n].body, rid) :: n !in Elems(us) && n !in Elems(us[..|us| - 1]))
            && u in Elems(us) && u !in Elems(us[..|us| - 1])
  {
    var l := |us| - 1;
    var u := us[l];
    forall n | u < n < |log| && OnRid(log[n].body, rid) ensures n in Elems(us[..l]) && n in Elems(us) {
      assert n in us[..l];
    }
    forall i | 0 <= i < |us| && OnRid(log[us[i]].body, rid) ensures us[i] >= u {
      var earlier := us[..i];
      assert us[i] < u ==> u in earlier;
    }
  }

  /** What the skip sets say about the record undone last. */
  lemma UndoneLast(db: Db, log: seq<LogRecord>, us: seq<nat>, rid: Rid)
    requires Legal(db, log) && UndoOrder(log, us, rid) && us != [] && OnRid(log[us[|us| - 1]].body, rid)
    ensures var u := us[|us| - 1];
            var done := Elems(us[..|us| - 1]);
            && Replay(SlotOf(db, rid), log, rid, done) == Effect(log[u].body, SlotOf(Hist(db, log[..u]), rid))
            && Replay(SlotOf(db, rid), log, rid, Elems(us)) == SlotOf(Hist(db, log[..u]), rid)
  {
    hide Legal, Hist, UndoOrder, Elems, Effect;
    var u, init := us[|us| - 1], SlotOf(db, rid);
    var done := Elems(us[..|us| - 1]);
    LastInRow(log, us, rid);
    LegalPrefix(db, log, u);
    HistSlot(db, log[..u], rid);
    ReplayTail(init, log, rid, done, u + 1);
    assert log[..u + 1][..u] == log[..u];
    ReplayAgrees(init, log[..u], rid, done, {});
    ReplayTail(init, log, rid, Elems(us), u);
    ReplayAgrees(init, log[..u], rid, Elems(us), {});
  }

  /** An APPLYDELETE on `rid` is among the records undone. */
  predicate Dropped(log: seq<LogRecord>, us: seq<nat>, rid: Rid)
    requires forall i | 0 <= i < |us| :: us[i] < |log|
  {
    exists i | 0 <= i < |us| :: OnRid(log[us[i]].body, rid) && log[us[i]].body.ApplyDelete?
  }

  /** The row `e`; but a marked row that was dropped and is back is no longer marked. */
  predicate RightRow(s: Slot, e: Slot, dropped: bool) {
    s == e || (dropped && e.Marked? && s == Live(e.bytes))
  }

  /**
   Undo goes wrong at `rid`. The last step that decides the row is looked at: a reinsertion into this
   slot, which must be of the row that belongs here; or the undo of an UPDATE, which needs a live row and
   room for the old one, of an APPLYDELETE, which must land here, or of an INSERT, which cannot fail.
   */
  predicate Spoiled(init: Slot, cur: Db, log: seq<LogRecord>, us: seq<nat>, rid: Rid)
    requires forall i | 0 <= i < |us| :: us[i] < |log|
  {
    us != []
    && var n := |us| - 1;
       var r, now := log[us[n]], UndoAll(cur, log, us[..n]);
       if Lands(now, r, rid) then
         !OnRid(r.body, rid) && var e := Replay(init, log, rid, Elems(us)); e.Empty? || e.bytes != r.body.tuple
       else if OnRid(r.body, rid) && r.body.Insert? then false
       else if OnRid(r.body, rid) && r.body.Update? then !(SlotOf(now, rid).Live? && RoomAt(now, r))
       else if OnRid(r.body, rid) && r.body.ApplyDelete? then SlotOf(now, rid) != Live(r.body.tuple)
       else Spoiled(init, cur, log, us[..n], rid)
  }

  /** How the row `s` undo has reached and the row `e` it should be are related, right or wrong. */
  predicate Near(s: Slot, e: Slot, dropped: bool) {
    && (s.Marked? ==> e.Marked?)
    && (s.Empty? && !e.Empty? ==> dropped)
    && (e.Marked? && !s.Marked? ==> dropped)
  }

  /** A step on the row itself, from `s` where `e` was due to where `before` is due. */
  lemma RowStep(d: Db, r: LogRecord, before: Slot, s: Slot, dropped: bool, room: bool)
    requires OnSlot(r.body) && !r.body.ApplyDelete? && LegalOn(d, r) && before == SlotOf(d, r.body.rid)
    requires Near(s, Effect(r.body, before), dropped)
    requires r.body.Update? && s.Live? && !room ==> |s.bytes| < |r.body.oldTuple|
    ensures var s' := UndoRow(r.body, s, room);
            && Near(s', before, dropped)
            && (RightRow(s', before, dropped)
                <==> r.body.Insert? || (r.body.Update? && s.Live? && room)
                     || (!r.body.Insert? && !r.body.Update? && RightRow(s, Effect(r.body, before), dropped)))
  {
    hide Free;
    if r.body.Update? {
      assert before == Live(r.body.oldTuple);
    } else if r.body.Insert? {
      assert before == Empty;
    }
  }

  lemma DroppedStep(log: seq<LogRecord>, us: seq<nat>, rid: Rid)
    requires us != [] && forall i | 0 <= i < |us| :: us[i] < |log|
    ensures var b := log[us[|us| - 1]].body;
            Dropped(log, us, rid) <==> Dropped(log, us[..|us| - 1], rid) || (OnRid(b, rid) && b.ApplyDelete?)
  {
    var vs, n := us[..|us| - 1], |us| - 1;
    if Dropped(log, vs, rid) {
      var i :| 0 <= i < |vs| && OnRid(log[vs[i]].body, rid) && log[vs[i]].body.ApplyDelete?;
      assert us[i] == vs[i];
    }
    if i :| 0 <= i < |us| && OnRid(log[us[i]].body, rid) && log[us[i]].body.ApplyDelete? {
      assert i < n ==> vs[i] == us[i];
    }
  }

  /** Without room the row there is shorter than the old one. */
  lemma NoRoomShorter(now: Db, r: LogRecord, pages: set<int>)
    requires r.body.Update? && r.body.rid.page in now && r.body.rid.page in pages && r.body.rid.slot >= 0
    requires PagesFit(now, pages)
    ensures SlotOf(now, r.body.rid).Live? && !RoomAt(now, r) ==> |SlotOf(now, r.body.rid).bytes| < |r.body.oldTuple|
  {
  }

  lemma ApplyDeleteRow(d: Db, r: LogRecord)
    requires r.body.ApplyDelete? && LegalOn(d, r)
    ensures SlotOf(d, r.body.rid) != Empty && SlotOf(d, r.body.rid).bytes == r.body.tuple
    ensures Effect(r.body, SlotOf(d, r.body.rid)) == Empty
  {
  }

  /** The last step of an undo run, when its record is on the row. */
  lemma OwnStep(db: Db, log: seq<LogRecord>, cur: Db, us: seq<nat>, rid: Rid)
    requires Legal(db, log) && UndoOrder(log, us, rid) && us != [] && OnRid(log[us[|us| - 1]].body, rid)
    requires PagesFit(cur, db.Keys) && db.Keys <= cur.Keys && rid.page in db && rid.slot >= 0
    requires var vs := us[..|us| - 1];
             var s, e := SlotOf(UndoAll(cur, log, vs), rid), Replay(SlotOf(db, rid), log, rid, Elems(vs));
             && Near(s, e, Dropped(log, vs, rid))
             && (RightRow(s, e, Dropped(log, vs, rid)) <==> !Spoiled(SlotOf(db, rid), cur, log, vs, rid))
    ensures var s, e := SlotOf(UndoAll(cur, log, us), rid), Replay(SlotOf(db, rid), log, rid, Elems(us));
            && Near(s, e, Dropped(log, us, rid))
            && (RightRow(s, e, Dropped(log, us, rid)) <==> !Spoiled(SlotOf(db, rid), cur, log, us, rid))
  {
    hide LegalOn, Lands, RoomAt, UndoOne, PagesFit, Effect, Dropped, Hist, Replay, Legal, UndoOrder, SlotOf, Elems;
    var l := |us| - 1;
    OrderInRange(log, us, rid);
    var u, now := us[l], UndoAll(cur, log, us[..l]);
    DroppedStep(log, us, rid);
    LegalPrefix(db, log, u);
    UndoAllFits(db, log, cur, us[..l]);
    UndoSlot(now, log[u], rid);
    UndoneLast(db, log, us, rid);
    var before := Hist(db, log[..u]);
    if log[u].body.ApplyDelete? {
      ApplyDeleteRow(before, log[u]);
    } else {
      OnlyDeletesLand(now, log[u], rid);
      if log[u].body.Update? {
        NoRoomShorter(now, log[u], db.Keys);
      }
      RowStep(before, log[u], SlotOf(before, rid), SlotOf(now, rid), Dropped(log, us, rid), RoomAt(now, log[u]));
    }
  }

  lemma OnlyDeletesLand(now: Db, r: LogRecord, rid: Rid)
    requires !r.body.ApplyDelete?
    ensures !Lands(now, r, rid)
  {
  }

  lemma OrderInRange(log: seq<LogRecord>, us: seq<nat>, rid: Rid)
    requires UndoOrder(log, us, rid)
    ensures forall i | 0 <= i < |us| :: us[i] < |log|
  {
  }

  /**
   What undo leaves at a row, exactly. In any order that takes the row's own records back newest first,
   the row ends up as if the undone records had never been, if and only if undo does not go wrong there.
   */
  lemma {:induction false} UndoExact(db: Db, log: seq<LogRecord>, cur: Db, us: seq<nat>, rid: Rid)
    requires Legal(db, log) && db.Keys <= cur.Keys && forall p | p in db :: cur[p].slots == Hist(db, log)[p].slots
    requires PagesFit(cur, db.Keys) && UndoOrder(log, us, rid) && rid.page in db && rid.slot >= 0
    ensures var s, e := SlotOf(UndoAll(cur, log, us), rid), Replay(SlotOf(db, rid), log, rid, Elems(us));
            && Near(s, e, Dropped(log, us, rid))
            && (RightRow(s, e, Dropped(log, us, rid)) <==> !Spoiled(SlotOf(db, rid), cur, log, us, rid))
  {
    hide LegalOn, Lands, RoomAt, UndoOne, PagesFit, Effect, Hist, Dropped, Legal, UndoOrder;
    var init := SlotOf(db, rid);
    OrderInRange(log, us, rid);
    if us == [] {
      HistSlot(db, log, rid);
      assert Elems(us) == {};
      NothingDropped(log, rid);
    } else {
      var l := |us| - 1;
      var u := us[l];
      UndoOrderPrefix(log, us, rid);
      UndoExact(db, log, cur, us[..l], rid);
      if OnRid(log[u].body, rid) {
        OwnStep(db, log, cur, us, rid);
      } else {
        DroppedStep(log, us, rid);
        LegalPrefix(db, log, u);
        LegalRid(Hist(db, log[..u]), log[u]);
        UndoAllFits(db, log, cur, us[..l]);
        ReplayAgrees(init, log, rid, Elems(us[..l]), Elems(us));
        if OnSlot(log[u].body) {
          UndoSlot(UndoAll(cur, log, us[..l]), log[u], rid);
        } else {
          OnlyDeletesLand(UndoAll(cur, log, us[..l]), log[u], rid);
          UndoNothing(UndoAll(cur, log, us[..l]), log[u]);
        }
      }
    }
  }

  lemma LegalRid(db: Db, r: LogRecord)
    requires LegalOn(db, r)
    ensures OnSlot(r.body) ==> r.body.rid.page in db && r.body.rid.slot >= 0
  {
  }

  lemma UndoNothing(db: Db, r: LogRecord)
    requires !OnSlot(r.body)
    ensures UndoOne(db, r) == db
  {
  }

  lemma NothingDropped(log: seq<LogRecord>, rid: Rid)
    ensures !Dropped(log, [], rid)
  {
  }

  /** Every APPLYDELETE on `rid` that was undone has put its row back there. */
  ghost predicate AllLand(cur: Db, log: seq<LogRecord>, us: seq<nat>, rid: Rid)
    requires forall i | 0 <= i < |us| :: us[i] < |log|
  {
    forall i | 0 <= i < |us| && OnRid(log[us[i]].body, rid) && log[us[i]].body.ApplyDelete? ::
      Lands(UndoAll(cur, log, us[..i]), log[us[i]], rid)
  }

  /** Then no row is missing on the way. */
  lemma {:induction false} RowPresent(db: Db, log: seq<LogRecord>, cur: Db, us: seq<nat>, rid: Rid)
    requires Legal(db, log) && db.Keys <= cur.Keys && forall p | p in db :: cur[p].slots == Hist(db, log)[p].slots
    requires PagesFit(cur, db.Keys) && UndoOrder(log, us, rid) && rid.page in db && rid.slot >= 0
    requires (forall i | 0 <= i < |us| :: us[i] < |log|) && AllLand(cur, log, us, rid)
    ensures SlotOf(UndoAll(cur, log, us), rid) == Empty ==> Replay(SlotOf(db, rid), log, rid, Elems(us)) == Empty
  {
    hide LegalOn, Lands, RoomAt, UndoOne, PagesFit, Hist, Legal, UndoOrder;
    if us == [] {
      HistSlot(db, log, rid);
      assert Elems(us) == {};
    } else {
      var l := |us| - 1;
      var u, now := us[l], UndoAll(cur, log, us[..l]);
      UndoOrderPrefix(log, us, rid);
      LandPrefix(cur, log, us, rid, l);
      RowPresent(db, log, cur, us[..l], rid);
      LegalPrefix(db, log, u);
      LegalRid(Hist(db, log[..u]), log[u]);
      UndoAllFits(db, log, cur, us[..l]);
      if OnSlot(log[u].body) {
        UndoSlot(now, log[u], rid);
      } else {
        UndoNothing(now, log[u]);
      }
      if OnRid(log[u].body, rid) {
        UndoneLast(db, log, us, rid);
        InsertRow(Hist(db, log[..u]), log[u]);
      } else {
        ReplayAgrees(SlotOf(db, rid), log, rid, Elems(us[..l]), Elems(us));
      }
    }
  }

  lemma InsertRow(d: Db, r: LogRecord)
    requires LegalOn(d, r)
    ensures r.body.Insert? ==> SlotOf(d, r.body.rid) == Empty
    ensures r.body.MarkDelete? || r.body.RollbackDelete? ==> SlotOf(d, r.body.rid) != Empty
  {
  }

  lemma LandPrefix(cur: Db, log: seq<LogRecord>, us: seq<nat>, rid: Rid, n: nat)
    requires (forall i | 0 <= i < |us| :: us[i] < |log|) && AllLand(cur, log, us, rid) && n <= |us|
    ensures AllLand(cur, log, us[..n], rid)
  {
    forall i | 0 <= i < n ensures us[..n][..i] == us[..i] {
    }
  }

  // ---------- undo with the assertions of the page calls ----------

  /** The assertions of the page call `Undo` makes for a record hold: `ApplyDelete`'s and `RollbackDelete`'s. */
  predicate UndoSafe(d: seq<Slot>, b: Body) {
    match b
    case Insert(rid, _) => 0 <= rid.slot < |d| && d[rid.slot] != Empty
    case MarkDelete(rid, _) => 0 <= rid.slot < |d|
    case _ => true
  }

  predicate StepSafe(now: Db, r: LogRecord) {
    OnSlot(r.body) ==> r.body.rid.page in now && UndoSafe(now[r.body.rid.page].slots, r.body)
  }

  datatype Outcome = Panicked | Finished(db: Db)

  /** What `Undo` makes of the records at `us`: it ends with the first assertion that fails. */
  function UndoRun(db: Db, log: seq<LogRecord>, us: seq<nat>): Outcome
    requires forall i | 0 <= i < |us| :: us[i] < |log|
  {
    if us == [] then Finished(db)
    else
      var r := log[us[|us| - 1]];
      match UndoRun(db, log, us[..|us| - 1])
      case Panicked => Panicked
      case Finished(now) => if StepSafe(now, r) then Finished(UndoOne(now, r)) else Panicked
  }

  /** No step fails on the state the steps before it leave. */
  predicate UndoRunSafe(db: Db, log: seq<LogRecord>, us: seq<nat>)
    requires forall i | 0 <= i < |us| :: us[i] < |log|
  {
    us == [] ||
    (var n := |us| - 1; UndoRunSafe(db, log, us[..n]) && StepSafe(UndoAll(db, log, us[..n]), log[us[n]]))
  }

  /** Undo gets through exactly when no step fails, and then has undone all records. */
  lemma {:induction false} UndoRunExact(db: Db, log: seq<LogRecord>, us: seq<nat>)
    requires forall i | 0 <= i < |us| :: us[i] < |log|
    ensures UndoRun(db, log, us) == if UndoRunSafe(db, log, us) then Finished(UndoAll(db, log, us)) else Panicked
  {
    hide StepSafe, UndoOne;
    if us != [] {
      UndoRunExact(db, log, us[..|us| - 1]);
    }
  }

  lemma UnsafePrefix(db: Db, log: seq<LogRecord>, us: seq<nat>, vs: seq<nat>)
    requires (forall i | 0 <= i < |us| :: us[i] < |log|) && vs <= us
    requires (forall i | 0 <= i < |vs| :: vs[i] < |log|) && !UndoRunSafe(db, log, vs)
    ensures !UndoRunSafe(db, log, us)
  {
    if UndoRunSafe(db, log, us) {
      UndoRunSafePrefix(db, log, us, vs);
    }
  }

  lemma {:induction false} UndoRunSafePrefix(db: Db, log: seq<LogRecord>, us: seq<nat>, vs: seq<nat>)
    requires (forall i | 0 <= i < |us| :: us[i] < |log|) && UndoRunSafe(db, log, us) && vs <= us
    ensures (forall i | 0 <= i < |vs| :: vs[i] < |log|) && UndoRunSafe(db, log, vs)
  {
    if vs != us {
      assert vs <= us[..|us| - 1];
      UndoRunSafePrefix(db, log, us[..|us| - 1], vs);
    }
  }

  /** The row a record is about is there after it, unless it was an APPLYDELETE. */
  lemma RowThere(before: Db, now: Db, r: LogRecord)
    requires OnSlot(r.body) && LegalOn(before, r) && r.body.rid.page in now
    requires r.body.Insert? || r.body.MarkDelete? ==> SlotOf(now, r.body.rid) != Empty
    ensures UndoSafe(now[r.body.rid.page].slots, r.body)
  {
  }

  /**
   Undo meets no panic if every row concerned is taken back newest first and every APPLYDELETE puts its row
   back where it was.
   */
  lemma {:induction false} UndoNeverPanics(db: Db, log: seq<LogRecord>, cur: Db, us: seq<nat>)
    requires Legal(db, log) && db.Keys <= cur.Keys && (forall p | p in db :: cur[p].slots == Hist(db, log)[p].slots)
    requires PagesFit(cur, db.Keys) && forall i | 0 <= i < |us| :: us[i] < |log|
    requires forall i | 0 <= i < |us| && OnSlot(log[us[i]].body) ::
               UndoOrder(log, us, log[us[i]].body.rid) && AllLand(cur, log, us, log[us[i]].body.rid)
    ensures UndoRunSafe(cur, log, us)
  {
    hide LegalOn, Legal, Lands, UndoOne, PagesFit, UndoOrder, AllLand, UndoSafe, Replay, Hist;
    if us != [] {
      var l := |us| - 1;
      var u := us[l];
      forall i | 0 <= i < l && OnSlot(log[us[i]].body)
        ensures UndoOrder(log, us[..l], log[us[i]].body.rid) && AllLand(cur, log, us[..l], log[us[i]].body.rid)
      {
        UndoOrderPrefix(log, us, log[us[i]].body.rid);
        LandPrefix(cur, log, us, log[us[i]].body.rid, l);
      }
      UndoNeverPanics(db, log, cur, us[..l]);
      if OnSlot(log[u].body) {
        var rid, now := log[u].body.rid, UndoAll(cur, log, us[..l]);
        LegalPrefix(db, log, u);
        LegalRid(Hist(db, log[..u]), log[u]);
        UndoAllFits(db, log, cur, us[..l]);
        UndoOrderPrefix(log, us, rid);
        LandPrefix(cur, log, us, rid, l);
        RowPresent(db, log, cur, us[..l], rid);
        UndoneLast(db, log, us, rid);
        InsertRow(Hist(db, log[..u]), log[u]);
        RowThere(Hist(db, log[..u]), now, log[u]);
      }
    }
  }

  // ---------- only an INSERT whose row is gone fails ----------

  lemma StepKeepsDirectory(db: Db, r: LogRecord, page: int)
    requires page in db
    ensures |db[page].slots| <= |Perform(db, r)[page].slots| && |db[page].slots| <= |UndoOne(db, r)[page].slots|
  {
    hide Free, Used;
  }

  /** Slot directories never shrink. */
  lemma {:induction false} DirectoryGrows(db: Db, log: seq<LogRecord>, k: nat, n: nat, page: int)
    requires Legal(db, log) && k <= n <= |log| && page in db
    ensures |Hist(db, log[..k])[page].slots| <= |Hist(db, log[..n])[page].slots|
    decreases n - k
  {
    hide Legal, LegalOn, Perform, UndoOne, Hist;
    if k < n {
      DirectoryGrows(db, log, k, n - 1, page);
      LegalPrefix(db, log, n - 1);
      StepKeepsDirectory(Hist(db, log[..n - 1]), log[n - 1], page);
    }
  }

  lemma {:induction false} UndoKeepsDirectory(cur: Db, log: seq<LogRecord>, us: seq<nat>, page: int)
    requires (forall i | 0 <= i < |us| :: us[i] < |log|) && page in cur
    ensures |cur[page].slots| <= |UndoAll(cur, log, us)[page].slots|
  {
    hide Perform, UndoOne;
    if us != [] {
      UndoKeepsDirectory(cur, log, us[..|us| - 1], page);
      StepKeepsDirectory(UndoAll(cur, log, us[..|us| - 1]), log[us[|us| - 1]], page);
    }
  }

  lemma MarkListed(d: Db, r: LogRecord)
    requires LegalOn(d, r) && r.body.MarkDelete?
    ensures r.body.rid.page in d && 0 <= r.body.rid.slot < |d[r.body.rid.page].slots|
  {
  }

  lemma StepSafeMeans(now: Db, r: LogRecord)
    requires OnSlot(r.body) && r.body.rid.page in now && r.body.rid.slot >= 0
    requires r.body.MarkDelete? ==> r.body.rid.slot < |now[r.body.rid.page].slots|
    ensures StepSafe(now, r) <==> (r.body.Insert? ==> SlotOf(now, r.body.rid) != Empty)
  {
  }

  lemma MarkStillListed(db: Db, log: seq<LogRecord>, cur: Db, us: seq<nat>, u: nat)
    requires Legal(db, log) && db.Keys <= cur.Keys && (forall p | p in db :: cur[p].slots == Hist(db, log)[p].slots)
    requires (forall i | 0 <= i < |us| :: us[i] < |log|) && u < |log| && log[u].body.MarkDelete?
    ensures var rid := log[u].body.rid;
            rid.page in cur && rid.slot < |UndoAll(cur, log, us)[rid.page].slots|
  {
    hide LegalOn, Legal, Hist, UndoOne, UndoAll;
    var page := log[u].body.rid.page;
    LegalPrefix(db, log, u);
    MarkListed(Hist(db, log[..u]), log[u]);
    DirectoryGrows(db, log, u, |log|, page);
    assert log[..|log|] == log;
    assert cur[page].slots == Hist(db, log)[page].slots;
    UndoKeepsDirectory(cur, log, us, page);
  }

  lemma LegalStepSafe(db: Db, log: seq<LogRecord>, cur: Db, us: seq<nat>, u: nat)
    requires Legal(db, log) && db.Keys <= cur.Keys && (forall p | p in db :: cur[p].slots == Hist(db, log)[p].slots)
    requires (forall i | 0 <= i < |us| :: us[i] < |log|) && u < |log|
    ensures var now := UndoAll(cur, log, us);
            StepSafe(now, log[u]) <==> (log[u].body.Insert? ==> SlotOf(now, log[u].body.rid) != Empty)
  {
    hide LegalOn, Legal, Hist, StepSafe, UndoOne, SlotOf, UndoAll;
    LegalPrefix(db, log, u);
    LegalRid(Hist(db, log[..u]), log[u]);
    if log[u].body.MarkDelete? {
      MarkStillListed(db, log, cur, us, u);
    }
    if OnSlot(log[u].body) {
      StepSafeMeans(UndoAll(cur, log, us), log[u]);
    } else {
      OffSlotSafe(UndoAll(cur, log, us), log[u]);
    }
  }

  predicate RowFound(cur: Db, log: seq<LogRecord>, us: seq<nat>, i: nat)
    requires i < |us| && forall i | 0 <= i < |us| :: us[i] < |log|
  {
    log[us[i]].body.Insert? ==> SlotOf(UndoAll(cur, log, us[..i]), log[us[i]].body.rid) != Empty
  }

  /** Every undone INSERT finds its row. */
  predicate RowsFound(cur: Db, log: seq<LogRecord>, us: seq<nat>)
    requires forall i | 0 <= i < |us| :: us[i] < |log|
  {
    forall i | 0 <= i < |us| :: RowFound(cur, log, us, i)
  }

  /** Of a legal log, whatever the order, undo panics exactly when it takes back an INSERT whose row is not there. */
  lemma {:induction false} OnlyInsertsPanic(db: Db, log: seq<LogRecord>, cur: Db, us: seq<nat>)
    requires Legal(db, log) && db.Keys <= cur.Keys && (forall p | p in db :: cur[p].slots == Hist(db, log)[p].slots)
    requires forall i | 0 <= i < |us| :: us[i] < |log|
    ensures UndoRunSafe(cur, log, us) <==> RowsFound(cur, log, us)
  {
    hide Legal, Hist, StepSafe, SlotOf, UndoAll;
    if us != [] {
      var n := |us| - 1;
      OnlyInsertsPanic(db, log, cur, us[..n]);
      LegalStepSafe(db, log, cur, us[..n], us[n]);
      forall i | 0 <= i < n ensures RowFound(cur, log, us[..n], i) <==> RowFound(cur, log, us, i) {
        assert us[..n][..i] == us[..i];
      }
      assert RowFound(cur, log, us, n) <==> StepSafe(UndoAll(cur, log, us[..n]), log[us[n]]);
    }
  }

  /** Undo stamps no page: it changes rows with logging off. */
  lemma {:induction false} UndoKeepsLsn(cur: Db, log: seq<LogRecord>, us: seq<nat>, page: int)
    requires (forall i | 0 <= i < |us| :: us[i] < |log|) && page in cur
    ensures UndoAll(cur, log, us)[page].lsn == cur[page].lsn
  {
    hide UndoBody;
    if us != [] {
      UndoKeepsLsn(cur, log, us[..|us| - 1], page);
    }
  }

  /** Redo leaves a page alone that is stamped with the last record done on it, whatever its rows. */
  lemma {:induction false} RedoSkips(db: Db, log: seq<LogRecord>, now: Db, n: nat, page: int)
    requires Legal(db, log) && n <= |log| && page in db && page in now && now[page].lsn == Hist(db, log)[page].lsn
    ensures RedoAll(now, log[..n])[page] == now[page]
  {
    hide Legal, LegalOn, ApplyBody, Hist;
    if n > 0 {
      RedoSkips(db, log, now, n - 1, page);
      LegalPrefix(db, log, n - 1);
      assert log[..n][..n - 1] == log[..n - 1] && log[..|log|] == log;
      LsnGrows(db, log, 0, |log|, page);
    }
  }

  /** After recovery every page carries the LSN of the last record done on it, so redo would not touch it again. */
  lemma RedoAfterUndo(db: Db, log: seq<LogRecord>, cur: Db, us: seq<nat>, page: int)
    requires Legal(db, log) && (forall i | 0 <= i < |us| :: us[i] < |log|)
    requires page in db && page in cur && cur[page].lsn == Hist(db, log)[page].lsn
    ensures var now := UndoAll(cur, log, us);
            now[page].lsn == Hist(db, log)[page].lsn && RedoAll(now, log)[page] == now[page]
  {
    hide Legal, Hist, RedoAll, UndoAll;
    UndoKeepsLsn(cur, log, us, page);
    RedoSkips(db, log, UndoAll(cur, log, us), |log|, page);
    assert log[..|log|] == log;
  }

  lemma OffSlotSafe(now: Db, r: LogRecord)
    requires !OnSlot(r.body)
    ensures StepSafe(now, r) && !r.body.Insert?
  {
  }

  /**
   What `Undo` does, assertions included. It gets through exactly when every undone INSERT finds its row; and then
   a row whose records are taken back newest first ends up as if the undone records had never been, if and only if
   undo does not go wrong there. No page's LSN changes.
   */
  lemma UndoOutcomeExact(db: Db, log: seq<LogRecord>, cur: Db, us: seq<nat>, rid: Rid)
    requires Legal(db, log) && db.Keys <= cur.Keys && forall p | p in db :: cur[p].slots == Hist(db, log)[p].slots
    requires PagesFit(cur, db.Keys) && UndoOrder(log, us, rid) && rid.page in db && rid.slot >= 0
    ensures var r := UndoRun(cur, log, us);
            && (r.Finished? <==> RowsFound(cur, log, us))
            && (r.Finished? ==>
                  (RightRow(SlotOf(r.db, rid), Replay(SlotOf(db, rid), log, rid, Elems(us)), Dropped(log, us, rid))
                   <==> !Spoiled(SlotOf(db, rid), cur, log, us, rid)))
            && (r.Finished? ==> forall p | p in cur :: p in r.db && r.db[p].lsn == cur[p].lsn)
  {
    hide Legal, Hist, PagesFit, UndoRun, UndoRunSafe, RowsFound, RightRow, Replay, Dropped, Spoiled, UndoAll;
    forall p | p in cur ensures UndoAll(cur, log, us)[p].lsn == cur[p].lsn {
      UndoKeepsLsn(cur, log, us, p);
    }
    UndoExact(db, log, cur, us, rid);
    OnlyInsertsPanic(db, log, cur, us);
    UndoRunExact(cur, log, us);
  }
}
