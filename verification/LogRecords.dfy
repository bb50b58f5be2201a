/** Log records and their byte format: recovery/log_record.go and the codec in log_manager.go / log_recovery.go. */
module LogRecords {
  import opened Bytes

  const LOG_HEADER: nat := 20
  const RID_SIZE: nat := 8

  datatype Rid = Rid(page: int, slot: int)

  datatype Body =
    | Insert(rid: Rid, tuple: seq<byte>)
    | MarkDelete(rid: Rid, tuple: seq<byte>)
    | ApplyDelete(rid: Rid, tuple: seq<byte>)
    | RollbackDelete(rid: Rid, tuple: seq<byte>)
    | Update(rid: Rid, oldTuple: seq<byte>, newTuple: seq<byte>)
    | Begin
    | Commit
    | Abort
    | NewPage(prevPage: int)

  datatype LogRecord = LogRecord(lsn: int, txn: int, prevLsn: int, body: Body)

  /** A record about a slot of a table page. */
  predicate OnSlot(b: Body) {
    b.Insert? || b.MarkDelete? || b.ApplyDelete? || b.RollbackDelete? || b.Update?
  }

  /** The LogRecordType constants. */
  function TypeCode(b: Body): (c: int)
    ensures 1 <= c <= 9
  {
    match b
    case Insert(_, _) => 1
    case MarkDelete(_, _) => 2
    case ApplyDelete(_, _) => 3
    case RollbackDelete(_, _) => 4
    case Update(_, _, _) => 5
    case Begin => 6
    case Commit => 7
    case Abort => 8
    case NewPage(_) => 9
  }

  /** The `Size` field as the constructors compute it. */
  function Size(r: LogRecord): (n: nat)
    ensures n >= LOG_HEADER
  {
    match r.body
    case Update(_, old_, new_) => LOG_HEADER + RID_SIZE + |old_| + |new_| + 8
    case NewPage(_) => LOG_HEADER + 4
    case Begin => LOG_HEADER
    case Commit => LOG_HEADER
    case Abort => LOG_HEADER
    case _ => LOG_HEADER + RID_SIZE + 4 + |r.body.tuple|
  }

  predicate Int32(v: int) {
    -U31 <= v < U31
  }

  predicate RidOk(rid: Rid) {
    Int32(rid.page) && 0 <= rid.slot < U32
  }

  /** Every field fits the Go type that holds it. */
  predicate RecordOk(r: LogRecord) {
    && Int32(r.lsn) && Int32(r.txn) && Int32(r.prevLsn)
    && Size(r) < U31
    && (OnSlot(r.body) ==> RidOk(r.body.rid))
    && (r.body.NewPage? ==> Int32(r.body.prevPage))
  }

  // ---------- encoding ----------

  function HeaderBytes(r: LogRecord): (s: seq<byte>)
    requires RecordOk(r)
    ensures |s| == LOG_HEADER
  {
    Enc32(Size(r)) + Enc32(ToU32(r.lsn)) + Enc32(ToU32(r.txn)) + Enc32(ToU32(r.prevLsn)) + Enc32(TypeCode(r.body))
  }

  function RidBytes(rid: Rid): (s: seq<byte>)
    requires RidOk(rid)
    ensures |s| == RID_SIZE
  {
    Enc32(ToU32(rid.page)) + Enc32(rid.slot)
  }

  /** `Tuple.SerializeTo`. */
  function TupleBytes(t: seq<byte>): (s: seq<byte>)
    requires |t| < U32
    ensures |s| == 4 + |t|
  {
    Enc32(|t|) + t
  }

  function BodyBytes(r: LogRecord): (s: seq<byte>)
    requires RecordOk(r)
    ensures |s| == Size(r) - LOG_HEADER
  {
    match r.body
    case Update(rid, old_, new_) => RidBytes(rid) + TupleBytes(old_) + TupleBytes(new_)
    case NewPage(prev) => Enc32(ToU32(prev))
    case Begin => []
    case Commit => []
    case Abort => []
    case _ => RidBytes(r.body.rid) + TupleBytes(r.body.tuple)
  }

  function Encode(r: LogRecord): (s: seq<byte>)
    requires RecordOk(r)
    ensures |s| == Size(r)
  {
    HeaderBytes(r) + BodyBytes(r)
  }

  // ---------- decoding ----------

  /**
   What `DeserializeLogRecord` makes of a window: a record with its `Size`, no record (too short for a
   header, or a zero size), or a header whose body is not wholly in the window, where the Go code
   slices past the end.
   */
  datatype Decoded = Record(r: LogRecord, size: nat) | Short | Torn

  function DecodeTuple(s: seq<byte>, o: nat): (t: seq<byte>)
    requires o + 4 <= |s| && o + 4 + Dec32(s, o) <= |s|
  {
    s[o + 4..o + 4 + Dec32(s, o)]
  }

  predicate TupleInside(s: seq<byte>, o: nat) {
    o + 4 <= |s| && o + 4 + Dec32(s, o) <= |s|
  }

  function DecodeRid(s: seq<byte>, o: nat): Rid
    requires o + RID_SIZE <= |s|
  {
    Rid(ToI32(Dec32(s, o)), Dec32(s, o + 4))
  }

  function Decode(s: seq<byte>): Decoded {
    if |s| < LOG_HEADER then Short
    else
      var size := Dec32(s, 0);
      var lsn, txn, prev, code := ToI32(Dec32(s, 4)), ToI32(Dec32(s, 8)), ToI32(Dec32(s, 12)), Dec32(s, 16);
      if size == 0 then Short
      else if 1 <= code <= 5 then
        if |s| < LOG_HEADER + RID_SIZE || !TupleInside(s, LOG_HEADER + RID_SIZE) then Torn
        else
          var rid := DecodeRid(s, LOG_HEADER);
          var tuple := DecodeTuple(s, LOG_HEADER + RID_SIZE);
          if code == 1 then Record(LogRecord(lsn, txn, prev, Insert(rid, tuple)), size)
          else if code == 2 then Record(LogRecord(lsn, txn, prev, MarkDelete(rid, tuple)), size)
          else if code == 3 then Record(LogRecord(lsn, txn, prev, ApplyDelete(rid, tuple)), size)
          else if code == 4 then Record(LogRecord(lsn, txn, prev, RollbackDelete(rid, tuple)), size)
          else
            var o := LOG_HEADER + RID_SIZE + 4 + |tuple|;
            if !TupleInside(s, o) then Torn
            else Record(LogRecord(lsn, txn, prev, Update(rid, tuple, DecodeTuple(s, o))), size)
      else if code == 9 then
        if |s| < LOG_HEADER + 4 then Torn
        else Record(LogRecord(lsn, txn, prev, NewPage(ToI32(Dec32(s, LOG_HEADER)))), size)
      else if code == 6 then Record(LogRecord(lsn, txn, prev, Begin), size)
      else if code == 7 then Record(LogRecord(lsn, txn, prev, Commit), size)
      else if code == 8 then Record(LogRecord(lsn, txn, prev, Abort), size)
      else Torn
  }

  /** A uint32 encoded at offset `o`. */
  lemma WordAt(s: seq<byte>, o: nat, v: int)
    requires 0 <= v < U32 && o + 4 <= |s| && s[o..o + 4] == Enc32(v)
    ensures Dec32(s, o) == v
  {
    DecEnc32(s, o, v);
  }

  lemma TupleAt(s: seq<byte>, o: nat, t: seq<byte>)
    requires |t| < U32 && o + 4 + |t| <= |s| && s[o..o + 4 + |t|] == TupleBytes(t)
    ensures TupleInside(s, o) && DecodeTuple(s, o) == t
  {
    assert s[o..o + 4] == s[o..o + 4 + |t|][..4] == Enc32(|t|);
    WordAt(s, o, |t|);
    assert s[o + 4..o + 4 + |t|] == s[o..o + 4 + |t|][4..];
  }

  /** Header fields of an encoded record, and where its body lies. */
  lemma HeaderAt(r: LogRecord, rest: seq<byte>)
    requires RecordOk(r)
    ensures var s := Encode(r) + rest;
            && Dec32(s, 0) == Size(r) && Dec32(s, 4) == ToU32(r.lsn) && Dec32(s, 8) == ToU32(r.txn)
            && Dec32(s, 12) == ToU32(r.prevLsn) && Dec32(s, 16) == TypeCode(r.body)
            && s[LOG_HEADER..Size(r)] == BodyBytes(r)
  {
    hide Dec32, Enc32;
    var s := Encode(r) + rest;
    assert s[..LOG_HEADER] == HeaderBytes(r);
    forall k | 0 <= k < 5 ensures s[4 * k..4 * k + 4] == HeaderBytes(r)[4 * k..4 * k + 4] {
    }
    WordAt(s, 0, Size(r));
    WordAt(s, 4, ToU32(r.lsn));
    WordAt(s, 8, ToU32(r.txn));
    WordAt(s, 12, ToU32(r.prevLsn));
    WordAt(s, 16, TypeCode(r.body));
  }

  lemma RidAt(s: seq<byte>, o: nat, rid: Rid)
    requires RidOk(rid) && o + RID_SIZE <= |s| && s[o..o + RID_SIZE] == RidBytes(rid)
    ensures DecodeRid(s, o) == rid
  {
    assert s[o..o + 4] == s[o..o + RID_SIZE][..4] && s[o + 4..o + 8] == s[o..o + RID_SIZE][4..];
    WordAt(s, o, ToU32(rid.page));
    WordAt(s, o + 4, rid.slot);
  }

  /** Deserializing an appended record gives it back, for every record type and whatever follows it. */
  lemma DecodeEncode(r: LogRecord, rest: seq<byte>)
    requires RecordOk(r)
    ensures Decode(Encode(r) + rest) == Record(r, Size(r))
  {
    hide Dec32, Enc32;
    var s := Encode(r) + rest;
    HeaderAt(r, rest);
    var b := s[LOG_HEADER..Size(r)];
    if OnSlot(r.body) {
      var first := if r.body.Update? then r.body.oldTuple else r.body.tuple;
      var o := LOG_HEADER + RID_SIZE;
      assert b[..RID_SIZE] == RidBytes(r.body.rid) && b[RID_SIZE..RID_SIZE + 4 + |first|] == TupleBytes(first);
      assert s[LOG_HEADER..o] == b[..RID_SIZE] && s[o..o + 4 + |first|] == b[RID_SIZE..RID_SIZE + 4 + |first|];
      RidAt(s, LOG_HEADER, r.body.rid);
      TupleAt(s, o, first);
      if r.body.Update? {
        var p := o + 4 + |first|;
        var t := r.body.newTuple;
        assert b[p - LOG_HEADER..p - LOG_HEADER + 4 + |t|] == TupleBytes(t);
        assert s[p..p + 4 + |t|] == b[p - LOG_HEADER..p - LOG_HEADER + 4 + |t|];
        TupleAt(s, p, t);
      }
    } else if r.body.NewPage? {
      assert s[LOG_HEADER..LOG_HEADER + 4] == b[..4];
      WordAt(s, LOG_HEADER, ToU32(r.body.prevPage));
    }
  }

  /** A prefix of an encoded record is never taken for a record, unless it is too short to look at. */
  lemma DecodeTorn(r: LogRecord, n: nat)
    requires RecordOk(r) && n < Size(r)
    ensures Decode(Encode(r)[..n]) == if n < LOG_HEADER then Short else Torn
  {
    hide Dec32, Enc32;
    if n >= LOG_HEADER {
      var s, c := Encode(r), Encode(r)[..n];
      HeaderAt(r, []);
      assert s + [] == s;
      forall o | 0 <= o && o + 4 <= n ensures Dec32(c, o) == Dec32(s, o) {
        assert c[o..o + 4] == s[o..o + 4];
        Dec32Same(c, s, o, o);
      }
      if OnSlot(r.body) {
        var first := if r.body.Update? then r.body.oldTuple else r.body.tuple;
        var o := LOG_HEADER + RID_SIZE;
        var b := s[LOG_HEADER..Size(r)];
        assert b[RID_SIZE..RID_SIZE + 4 + |first|] == TupleBytes(first) == s[o..o + 4 + |first|];
        TupleAt(s, o, first);
        if r.body.Update? {
          var p := o + 4 + |first|;
          var t := r.body.newTuple;
          assert s[p..p + 4 + |t|] == b[p - LOG_HEADER..p - LOG_HEADER + 4 + |t|] == TupleBytes(t);
          TupleAt(s, p, t);
        }
      }
    }
  }

  lemma SmallWord(v: int)
    requires 0 <= v < 0x100
    ensures Enc32(v) == [v as byte, 0, 0, 0]
  {
  }

  lemma Fives(a: seq<byte>, b: seq<byte>, c: seq<byte>, d: seq<byte>, e: seq<byte>)
    requires |a| == |b| == |c| == |d| == |e| == 4
    ensures a + b + c + d + e == [a[0], a[1], a[2], a[3], b[0], b[1], b[2], b[3], c[0], c[1], c[2], c[3]]
        + [d[0], d[1], d[2], d[3], e[0], e[1], e[2], e[3]]
  {
  }

  /** A COMMIT and an ABORT record, byte for byte. */
  lemma SampleEnds()
    ensures Encode(LogRecord(300, 2, -1, Commit))
            == [20, 0, 0, 0, 44, 1, 0, 0, 2, 0, 0, 0] + [255, 255, 255, 255, 7, 0, 0, 0]
    ensures Encode(LogRecord(1, 2, 0, Abort)) == [20, 0, 0, 0, 1, 0, 0, 0, 2, 0, 0, 0] + [0, 0, 0, 0, 8, 0, 0, 0]
  {
    assert Enc32(300) == [44, 1, 0, 0] && Enc32(ToU32(-1)) == [255, 255, 255, 255];
    SampleWords();
    hide Enc32;
    Fives(Enc32(20), Enc32(300), Enc32(2), Enc32(ToU32(-1)), Enc32(7));
    Fives(Enc32(20), Enc32(1), Enc32(2), Enc32(0), Enc32(8));
  }

  lemma SampleWords()
    ensures forall v | v in {0, 1, 2, 5, 6, 7, 8, 20, 39} :: Enc32(v) == [v as byte, 0, 0, 0]
  {
    forall v | v in {0, 1, 2, 5, 6, 7, 8, 20, 39} ensures Enc32(v) == [v as byte, 0, 0, 0] {
      SmallWord(v);
    }
  }

  /** An UPDATE record, byte for byte. */
  lemma SampleUpdate()
    ensures Encode(LogRecord(1, 2, 0, Update(Rid(5, 6), [9], [8, 7])))
            == [39, 0, 0, 0, 1, 0, 0, 0, 2, 0, 0, 0] + [0, 0, 0, 0, 5, 0, 0, 0]
               + ([5, 0, 0, 0, 6, 0, 0, 0] + [1, 0, 0, 0, 9] + [2, 0, 0, 0, 8, 7])
  {
    hide Enc32;
    SampleWords();
    Fives(Enc32(39), Enc32(1), Enc32(2), Enc32(0), Enc32(5));
    assert Enc32(5) + Enc32(6) == [5, 0, 0, 0, 6, 0, 0, 0];
    assert Enc32(1) + [9] == [1, 0, 0, 0, 9] && Enc32(2) + [8, 7] == [2, 0, 0, 0, 8, 7];
  }

  // ---------- a log as one byte stream ----------

  predicate AllOk(rs: seq<LogRecord>) {
    forall i | 0 <= i < |rs| :: RecordOk(rs[i])
  }

  function EncodeAll(rs: seq<LogRecord>): (s: seq<byte>)
    requires AllOk(rs)
  {
    if rs == [] then [] else EncodeAll(rs[..|rs| - 1]) + Encode(rs[|rs| - 1])
  }

  lemma {:induction false} EncodeAllAppend(a: seq<LogRecord>, b: seq<LogRecord>)
    requires AllOk(a) && AllOk(b)
    ensures EncodeAll(a + b) == EncodeAll(a) + EncodeAll(b)
  {
    hide RecordOk, Encode;
    if b == [] {
      assert a + b == a;
    } else {
      var n := |b| - 1;
      EncodeAllAppend(a, b[..n]);
      assert (a + b)[..|a + b| - 1] == a + b[..n];
    }
  }

  lemma EncodeAllSplit(rs: seq<LogRecord>, n: nat)
    requires AllOk(rs) && n <= |rs|
    ensures EncodeAll(rs[..n]) + EncodeAll(rs[n..]) == EncodeAll(rs)
  {
    hide RecordOk, Encode, EncodeAll;
    EncodeAllAppend(rs[..n], rs[n..]);
    assert rs == rs[..n] + rs[n..];
  }

  lemma EncodeAllWhole(rs: seq<LogRecord>)
    requires AllOk(rs)
    ensures rs[..|rs|] == rs && rs[|rs|..] == [] && EncodeAll(rs[|rs|..]) == []
  {
    hide RecordOk;
  }

  /** Appending one record to the pending ones. */
  lemma EncodeAllSnoc(rs: seq<LogRecord>, n: nat, r: LogRecord)
    requires AllOk(rs) && n <= |rs| && RecordOk(r)
    ensures AllOk(rs + [r]) && (rs + [r])[..n] == rs[..n]
    ensures EncodeAll((rs + [r])[n..]) == EncodeAll(rs[n..]) + Encode(r)
  {
    assert (rs + [r])[n..] == rs[n..] + [r];
    assert (rs[n..] + [r])[..|rs| - n] == rs[n..];
  }

  /** The stream from record `n` on starts with that record. */
  lemma EncodeAllAt(rs: seq<LogRecord>, n: nat)
    requires AllOk(rs) && n < |rs|
    ensures EncodeAll(rs) == EncodeAll(rs[..n]) + Encode(rs[n]) + EncodeAll(rs[n + 1..])
    ensures EncodeAll(rs[..n + 1]) == EncodeAll(rs[..n]) + Encode(rs[n])
  {
    assert rs[..n + 1][..n] == rs[..n];
    assert EncodeAll(rs[..n + 1]) == EncodeAll(rs[..n]) + Encode(rs[n]);
    EncodeAllSplit(rs, n + 1);
  }
}
