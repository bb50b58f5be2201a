/** A log the recovery scan cannot read: its first window ends right behind the header of a record. */
module LogCuts {
  import opened Bytes
  import opened LogRecords
  import opened LogManagers
  import opened Recovery
  import opened CrashSafety
  import opened Engines
  import opened LogRecoveries

  /** Three transactions begin, and the third one allocates pages. */
  function RecordAt(i: nat): LogRecord {
    if i < 3 then LogRecord(i, i + 1, -1, Begin) else LogRecord(i, 3, i - 1, NewPage(-1))
  }

  function Records(n: nat): (rs: seq<LogRecord>)
    ensures |rs| == n && forall i | 0 <= i < n :: rs[i] == RecordAt(i)
  {
    seq(n, i requires 0 <= i < n => RecordAt(i))
  }

  lemma RecordsOk(n: nat)
    requires n <= 2000
    ensures AllOk(Records(n)) && forall i | 0 <= i < n :: Size(Records(n)[i]) == if i < 3 then 20 else 24
  {
  }

  function ActionAt(i: nat): Action {
    if i < 3 then BeginTxn else AllocatePage(3, -1)
  }

  /** The actions that write the records. */
  function Actions(n: nat): (actions: seq<Action>)
    ensures |actions| == n && forall i | 0 <= i < n :: actions[i] == ActionAt(i)
  {
    seq(n, i requires 0 <= i < n => ActionAt(i))
  }

  /** The engine after the first `n` of them. */
  predicate Written(e: Engine, n: nat) {
    && e.log == Records(n) && e.lastTxn == (if n < 3 then n else 3)
    && (n >= 3 ==> 3 in e.live && e.live[3] == n - 1)
    && (forall t | t in e.live :: t <= e.lastTxn)
  }

  lemma OneMoreWritten(e: Engine, n: nat)
    requires Written(e, n)
    ensures Enabled(e, ActionAt(n)) && Written(Do(e, ActionAt(n)), n + 1)
  {
    assert Records(n + 1) == Records(n) + [RecordAt(n)];
  }

  /** An engine runs them, whatever the pages are. */
  lemma {:induction false} RecordsOfARun(db: Db, n: nat)
    ensures RunOk(db, Actions(n)) && Written(Run(db, Actions(n)), n)
  {
    if n > 0 {
      hide Written, Do, Enabled;
      RecordsOfARun(db, n - 1);
      assert Actions(n)[..n - 1] == Actions(n - 1);
      OneMoreWritten(Run(db, Actions(n - 1)), n - 1);
    }
  }

  lemma {:induction false} FitSame(rs: seq<LogRecord>, room: nat, size: nat)
    requires size > 0 && forall i | 0 <= i < |rs| :: Size(rs[i]) == size
    ensures size * Fit(rs, room) <= room
    ensures Fit(rs, room) < |rs| ==> size * (Fit(rs, room) + 1) > room
  {
    if rs != [] && size <= room {
      FitSame(rs[1..], room - size, size);
      assert size * (Fit(rs[1..], room - size) + 1) == size * Fit(rs[1..], room - size) + size;
    }
  }

  lemma {:induction false} TotalSame(rs: seq<LogRecord>, size: nat)
    requires AllOk(rs) && forall i | 0 <= i < |rs| :: Size(rs[i]) == size
    ensures Total(rs) == size * |rs|
  {
    hide RecordOk, Encode;
    if rs != [] {
      TotalSame(rs[..|rs| - 1], size);
      assert size * |rs| == size * (|rs| - 1) + size;
    }
  }

  /** 1877 records fit the first window and leave 20 bytes of it: the header of the next record, without its body. */
  lemma FirstWindow()
    ensures var rs := Records(1878);
            AllOk(rs) && Fit(rs, LOG_BUFFER_SIZE) == 1877 && Total(rs[..1877]) == LOG_BUFFER_SIZE - LOG_HEADER
  {
    hide RecordOk, Encode, EncodeAll;
    var rs := Records(1878);
    RecordsOk(1878);
    assert rs[0..] == rs;
    FitStep(rs, 0, 45056);
    FitStep(rs, 1, 45036);
    FitStep(rs, 2, 45016);
    FitSame(rs[3..], 44996, 24);
    EncodeAllSplit(rs[..1877], 3);
    TotalSame(rs[..1877][..3], 20);
    TotalSame(rs[..1877][3..], 24);
  }

  /** Every record is far shorter than the window, a run of the engine writes them, and the scan fails. */
  lemma ScanFails(db: Db)
    ensures var actions, rs := Actions(1878), Records(1878);
            && RunOk(db, actions + [FlushLog]) && DurableLog(Run(db, actions + [FlushLog])) == rs
            && AllOk(rs) && (forall i | 0 <= i < |rs| :: Size(rs[i]) <= 24)
            && !CutsOk(rs, 0)
  {
    hide RecordOk, EncodeAll, Records, Actions;
    RecordsOfARun(db, 1878);
    FlushedRun(db, Actions(1878));
    RecordsOk(1878);
    FirstWindow();
    var rs := Records(1878);
    assert rs[0..] == rs && rs[0..1877] == rs[..1877];
  }

  lemma FlushedRun(db: Db, actions: seq<Action>)
    requires RunOk(db, actions)
    ensures RunOk(db, actions + [FlushLog]) && DurableLog(Run(db, actions + [FlushLog])) == Run(db, actions).log
  {
    hide Do, Enabled;
    assert (actions + [FlushLog])[..|actions|] == actions;
    Flushed(Run(db, actions));
  }

  lemma Flushed(e: Engine)
    ensures Enabled(e, FlushLog) && DurableLog(Do(e, FlushLog)) == e.log
  {
  }
}
