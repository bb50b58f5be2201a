/** The write-ahead log manager with its two swapped buffers: recovery/log_manager.go. */
module LogManagers {
  import opened Bytes
  import opened LogRecords

  /** (BufferPoolSize + 1) * PageSize, common/config.go. */
  const LOG_BUFFER_SIZE: nat := 11 * 4096

  /** File and pending bytes together are the appended records in LSN order, with no gap and no overlap. */
  ghost predicate Conserves(file: seq<byte>, pending: seq<byte>, appended: seq<LogRecord>, flushed: nat, last: int) {
    && flushed <= |appended| && AllOk(appended)
    && (forall i | 0 <= i < |appended| :: appended[i].lsn == i)
    && last == (if |appended| == 0 then 0 else |appended| - 1)
    && file == EncodeAll(appended[..flushed])
    && pending == EncodeAll(appended[flushed..])
  }

  lemma FlushConserves(file: seq<byte>, pending: seq<byte>, appended: seq<LogRecord>, flushed: nat, last: int)
    requires Conserves(file, pending, appended, flushed, last)
    ensures Conserves(file + pending, [], appended, |appended|, last)
    ensures flushed <= |appended| && last == if |appended| == 0 then 0 else |appended| - 1
  {
    EncodeAllSplit(appended, flushed);
    EncodeAllWhole(appended);
  }

  lemma AppendConserves(file: seq<byte>, pending: seq<byte>, appended: seq<LogRecord>, flushed: nat, last: int,
      r: LogRecord)
    requires Conserves(file, pending, appended, flushed, last) && RecordOk(r) && r.lsn == |appended|
    ensures Conserves(file, pending + Encode(r), appended + [r], flushed, r.lsn)
  {
    EncodeAllSnoc(appended, flushed, r);
  }

  lemma EncodeParts(pending: seq<byte>, r: LogRecord)
    requires RecordOk(r)
    ensures pending + HeaderBytes(r) + BodyBytes(r) == pending + Encode(r)
  {
  }

  class LogManager {
    var offset: nat
    var logBufferLsn: int
    var nextLsn: int
    var persistentLsn: int
    var logBuffer: array<byte>
    var flushBuffer: array<byte>
    /** The log file. */
    var file: seq<byte>
    /** All records appended so far, and how many of them are wholly in the file. */
    ghost var appended: seq<LogRecord>
    ghost var flushed: nat

    ghost predicate Valid()
      reads this, logBuffer, flushBuffer
    {
      Conserved() && nextLsn == |appended|
    }

    ghost predicate Conserved()
      reads this, logBuffer, flushBuffer
    {
      && logBuffer != flushBuffer && logBuffer.Length == flushBuffer.Length == LOG_BUFFER_SIZE
      && offset <= LOG_BUFFER_SIZE
      && Conserves(file, logBuffer[..offset], appended, flushed, logBufferLsn)
    }

    /** Everything up to and including the persistent LSN is on disk. */
    ghost predicate Honest()
      reads this
    {
      persistentLsn < flushed
    }

    /** The two buffers, possibly swapped. */
    twostate predicate SameBuffers()
      reads this
    {
      || (logBuffer == old(logBuffer) && flushBuffer == old(flushBuffer))
      || (logBuffer == old(flushBuffer) && flushBuffer == old(logBuffer))
    }

    /** The buffer was flushed exactly if it had no room for `size` more bytes behind the first `used`. */
    twostate predicate FlushedFor(used: nat, size: nat)
      reads this
    {
      if used + size <= LOG_BUFFER_SIZE
      then file == old(file) && flushed == old(flushed) && persistentLsn == old(persistentLsn)
      else flushed == old(|appended|) && persistentLsn == old(logBufferLsn)
    }

    constructor ()
      ensures Valid() && Honest() && appended == [] && flushed == 0
      ensures fresh(logBuffer) && fresh(flushBuffer)
    {
      offset, logBufferLsn, nextLsn, persistentLsn := 0, 0, 0, -1;
      logBuffer := new byte[LOG_BUFFER_SIZE](_ => 0);
      flushBuffer := new byte[LOG_BUFFER_SIZE](_ => 0);
      file, appended, flushed := [], [], 0;
    }

    method Flush()
      requires Conserved()
      modifies this
      ensures Conserved() && appended == old(appended) && nextLsn == old(nextLsn) && logBufferLsn == old(logBufferLsn)
      ensures flushed == |appended| && offset == 0
      ensures logBuffer == old(flushBuffer) && flushBuffer == old(logBuffer)
      ensures persistentLsn == old(logBufferLsn)
      ensures Honest() <==> |appended| > 0
    {
      hide Conserves;
      FlushConserves(file, logBuffer[..offset], appended, flushed, logBufferLsn);
      var lsn := logBufferLsn;
      var n := offset;
      offset := 0;
      logBuffer, flushBuffer := flushBuffer, logBuffer;
      assert logBuffer[..offset] == [];
      WriteLog(flushBuffer[..n]);
      flushed := |appended|;
      persistentLsn := lsn;
    }

    /** The disk manager appends to the log file. */
    method WriteLog(b: seq<byte>)
      modifies `file
      ensures file == old(file) + b
    {
      file := file + b;
    }

    /** Go's `copy(log_buffer[pos:], b)` where there is room. */
    method Write(pos: nat, b: seq<byte>)
      requires pos + |b| <= logBuffer.Length
      modifies logBuffer
      ensures logBuffer[..] == Splice(old(logBuffer[..]), pos, b)
    {
      forall i | 0 <= i < |b| {
        logBuffer[pos + i] := b[i];
      }
      assert logBuffer[..] == Splice(old(logBuffer[..]), pos, b);
    }

    /** The body of the record after its header, field by field. */
    method WriteBody(start: nat, r: LogRecord)
      requires RecordOk(r) && start + Size(r) - LOG_HEADER <= logBuffer.Length
      modifies logBuffer
      ensures logBuffer[..start + Size(r) - LOG_HEADER] == old(logBuffer[..start]) + BodyBytes(r)
    {
      hide Enc32, TupleBytes, RidBytes;
      var pos := start;
      if OnSlot(r.body) {
        Write(pos, RidBytes(r.body.rid));
        pos := pos + RID_SIZE;
        if r.body.Update? {
          Write(pos, TupleBytes(r.body.oldTuple));
          pos := pos + |r.body.oldTuple| + 4;
          Write(pos, TupleBytes(r.body.newTuple));
        } else {
          Write(pos, TupleBytes(r.body.tuple));
        }
      } else if r.body.NewPage? {
        Write(pos, Enc32(ToU32(r.body.prevPage)));
      }
      assert logBuffer[..start + Size(r) - LOG_HEADER] == logBuffer[..][..start + Size(r) - LOG_HEADER];
    }

    /** The header goes past the pending bytes. */
    method WriteHeader(r: LogRecord)
      requires Conserved() && RecordOk(r) && offset + LOG_HEADER <= LOG_BUFFER_SIZE
      modifies logBuffer
      ensures Conserved() && logBuffer[..offset + LOG_HEADER] == old(logBuffer[..offset]) + HeaderBytes(r)
    {
      Write(offset, HeaderBytes(r));
      assert logBuffer[..offset] == logBuffer[..][..offset];
      assert logBuffer[..offset + LOG_HEADER] == logBuffer[..][..offset + LOG_HEADER];
    }

    /** The flushes of `AppendLogRecord` and the header copy before and after them. */
    method StartRecord(r: LogRecord)
      requires Conserved() && RecordOk(r) && Size(r) <= LOG_BUFFER_SIZE
      modifies this, logBuffer, flushBuffer
      ensures Conserved() && SameBuffers()
      ensures appended == old(appended) && nextLsn == old(nextLsn) && logBufferLsn == old(logBufferLsn)
      ensures flushed >= old(flushed) && (old(Honest()) ==> Honest())
      ensures offset + Size(r) <= LOG_BUFFER_SIZE && FlushedFor(old(offset), Size(r))
      ensures offset == if old(offset) + Size(r) <= LOG_BUFFER_SIZE then old(offset) else 0
      ensures logBuffer[..offset + LOG_HEADER] == logBuffer[..offset] + HeaderBytes(r)
    {
      hide Conserves, HeaderBytes;
      FlushConserves(file, logBuffer[..offset], appended, flushed, logBufferLsn);
      if LOG_BUFFER_SIZE - offset < LOG_HEADER {
        Flush();
      }
      WriteHeader(r);
      if LOG_BUFFER_SIZE - offset < Size(r) {
        Flush();
        WriteHeader(r);
      }
    }

    /** A record longer than the whole buffer makes Go slice out of bounds. */
    method AppendLogRecord(r: LogRecord) returns (lsn: int)
      requires Valid() && nextLsn < U31 - 1
      requires RecordOk(r.(lsn := nextLsn)) && Size(r) <= LOG_BUFFER_SIZE
      modifies this, logBuffer, flushBuffer
      ensures Valid() && SameBuffers()
      ensures lsn == old(|appended|) && appended == old(appended) + [r.(lsn := lsn)]
      ensures flushed >= old(flushed) && (old(Honest()) ==> Honest())
      ensures FlushedFor(old(offset), Size(r))
      ensures offset == Size(r) + if old(offset) + Size(r) <= LOG_BUFFER_SIZE then old(offset) else 0
    {
      hide RecordOk, Conserves;
      lsn := nextLsn;
      nextLsn := nextLsn + 1;
      var rec := r.(lsn := lsn);
      StartRecord(rec);
      AppendConserves(file, logBuffer[..offset], appended, flushed, logBufferLsn, rec);
      logBufferLsn := rec.lsn;
      AddBody(rec);
      appended := appended + [rec];
    }

    /** The body copy once the header is in place. */
    method AddBody(rec: LogRecord)
      requires RecordOk(rec) && offset + Size(rec) <= logBuffer.Length
      requires logBuffer[..offset + LOG_HEADER] == logBuffer[..offset] + HeaderBytes(rec)
      modifies this`offset, logBuffer
      ensures offset == old(offset) + Size(rec)
      ensures logBuffer[..offset] == old(logBuffer[..offset]) + Encode(rec)
    {
      hide HeaderBytes, BodyBytes, RecordOk, Encode;
      EncodeParts(logBuffer[..offset], rec);
      var pos := offset + LOG_HEADER;
      offset := offset + Size(rec);
      WriteBody(pos, rec);
    }
  }
}
