/** The log: each record is an eight-byte size and an encoded entry. */
module LogFile {
  import opened Bytes
  import opened Coding
  import opened Env
  import opened Format

  const MAX_RECORD_SIZE := 100000     // the reader's scratch buffer

  type Payload = p: bytes | |p| <= MAX_RECORD_SIZE

  function Record(payload: Payload): bytes {
    Fixed64(|payload|) + payload
  }

  /** A payload that fits the reader's buffer and decodes to the entry. */
  ghost predicate Carries(payload: Payload, e: MemEntry) {
    12 <= |payload| && DecodeMemEntry(payload) == Some(e)
  }

  ghost predicate EncodeAll(payloads: seq<Payload>, es: seq<MemEntry>) {
    |payloads| == |es| && forall i :: 0 <= i < |es| ==> Carries(payloads[i], es[i])
  }

  /** The log file holding these payloads. */
  function LogBytes(payloads: seq<Payload>): bytes {
    if payloads == [] then [] else LogBytes(payloads[..|payloads| - 1]) + Record(payloads[|payloads| - 1])
  }

  /** `Reader::end`. */
  predicate AtEnd(file: bytes, offset: nat) {
    offset + 4 >= |file|
  }

  /** `Reader::ReadRecord` at an offset: the entry and the next offset. None marks the files on which
      it would use bytes that are not there or overrun its buffer. */
  function RecordAt(file: bytes, offset: nat): (r: Option<(MemEntry, nat)>)
    ensures r.Some? ==> offset + 8 <= r.value.1
  {
    var header := ReadAt(file, offset, 8);
    if |header| < 8 then None else
    var size := DecodeFixed64(header);
    if size > MAX_RECORD_SIZE then None else
    match DecodeMemEntry(ReadAt(file, offset + 8, size))
    case None => None
    case Some(e) => Some((e, offset + 8 + size))
  }

  /** Reading until `end()`. */
  function ReadFrom(file: bytes, offset: nat): Option<seq<MemEntry>>
    decreases |file| - offset
  {
    if AtEnd(file, offset) then Some([]) else
    match RecordAt(file, offset)
    case None => None
    case Some((e, next)) =>
      match ReadFrom(file, next)
      case None => None
      case Some(es) => Some([e] + es)
  }

  /** A record in the middle of a file is read back, whatever surrounds it. */
  lemma RecordRoundTrip(before: bytes, payload: Payload, after: bytes, e: MemEntry)
    requires Carries(payload, e)
    ensures RecordAt(before + Record(payload) + after, |before|) == Some((e, |before + Record(payload)|))
    ensures !AtEnd(before + Record(payload) + after, |before|)
  {
    hide DecodeMemEntry, Fixed64, DecodeFixed64;
    var file := before + Record(payload) + after;
    assert file[|before|..|before| + 8] == Fixed64(|payload|) + [];
    Fixed64RoundTrip(|payload|, []);
    assert file[|before| + 8..|before| + 8 + |payload|] == payload;
  }

  /** Reading from the i-th record on gives the entries from i on, and `end()` holds exactly after
      the last record. */
  lemma {:induction false} ReadsSuffix(payloads: seq<Payload>, es: seq<MemEntry>, i: nat)
    requires EncodeAll(payloads, es) && i <= |es|
    ensures ReadFrom(LogBytes(payloads), |LogBytes(payloads[..i])|) == Some(es[i..])
    ensures AtEnd(LogBytes(payloads), |LogBytes(payloads[..i])|) <==> i == |es|
    decreases |es| - i
  {
    hide RecordAt, Carries, Record;
    if i == |es| {
      assert payloads[..i] == payloads;
    } else {
      var after := Split(payloads, i);
      assert Carries(payloads[i], es[i]);
      RecordRoundTrip(LogBytes(payloads[..i]), payloads[i], after, es[i]);
      assert payloads[..i + 1][..i] == payloads[..i];
      ReadsSuffix(payloads, es, i + 1);
      assert es[i..] == [es[i]] + es[i + 1..];
    }
  }

  lemma {:induction false} Split(payloads: seq<Payload>, i: nat) returns (after: bytes)
    requires i < |payloads|
    ensures LogBytes(payloads) == LogBytes(payloads[..i]) + Record(payloads[i]) + after
    decreases |payloads|
  {
    hide Record;
    var last := |payloads| - 1;
    if i == last {
      after := [];
    } else {
      var front := Split(payloads[..last], i);
      assert payloads[..last][..i] == payloads[..i];
      after := front + Record(payloads[last]);
    }
  }

  /** Whatever was written is what a later start replays. */
  lemma LogRoundTrip(payloads: seq<Payload>, es: seq<MemEntry>)
    requires EncodeAll(payloads, es)
    ensures ReadFrom(LogBytes(payloads), 0) == Some(es)
  {
    ReadsSuffix(payloads, es, 0);
    assert payloads[..0] == [] && es[0..] == es;
  }

  /** After the records, up to four stray bytes are passed over, and five to seven make the reader use bytes
      that are not there. */
  lemma TornTail(payloads: seq<Payload>, es: seq<MemEntry>, t: bytes)
    requires EncodeAll(payloads, es)
    ensures |t| <= 4 ==> ReadFrom(LogBytes(payloads) + t, 0) == Some(es)
    ensures 5 <= |t| < 8 ==> ReadFrom(LogBytes(payloads) + t, 0) == None
  {
    TornSuffix(payloads, es, t, 0);
    assert payloads[..0] == [] && es[0..] == es;
  }

  lemma {:induction false} TornSuffix(payloads: seq<Payload>, es: seq<MemEntry>, t: bytes, i: nat)
    requires EncodeAll(payloads, es) && i <= |es|
    ensures |t| <= 4 ==> ReadFrom(LogBytes(payloads) + t, |LogBytes(payloads[..i])|) == Some(es[i..])
    ensures 5 <= |t| < 8 ==> ReadFrom(LogBytes(payloads) + t, |LogBytes(payloads[..i])|) == None
    decreases |es| - i
  {
    hide DecodeMemEntry, Carries, Record, LogBytes;
    if i == |es| {
      assert payloads[..i] == payloads;
    } else {
      hide RecordAt;
      var after := Split(payloads, i);
      assert Carries(payloads[i], es[i]);
      var before := LogBytes(payloads[..i]);
      assert LogBytes(payloads) + t == before + Record(payloads[i]) + (after + t);
      RecordRoundTrip(before, payloads[i], after + t, es[i]);
      LogBytesPush(payloads, i);
      TornSuffix(payloads, es, t, i + 1);
      assert es[i..] == [es[i]] + es[i + 1..];
    }
  }

  lemma LogBytesPush(payloads: seq<Payload>, i: nat)
    requires i < |payloads|
    ensures LogBytes(payloads[..i + 1]) == LogBytes(payloads[..i]) + Record(payloads[i])
  {
    assert payloads[..i + 1][..i] == payloads[..i];
  }

  /** `log::Writer`. */
  class LogWriter {
    const file: WritableFile
    ghost var entries: seq<MemEntry>
    ghost var payloads: seq<Payload>

    /** Between records nothing is buffered and the file is exactly the records written. */
    ghost predicate Valid()
      reads this, file
    {
      && file.Valid() && file.pos == 0
      && EncodeAll(payloads, entries)
      && file.disk == LogBytes(payloads)
    }

    constructor (file: WritableFile)
      requires file.Valid() && file.pos == 0 && file.disk == []
      ensures Valid() && this.file == file && entries == []
    {
      this.file := file;
      entries, payloads := [], [];
    }

    /** Size, record, flush. The size goes into an empty buffer, since every record ends with a
        flush. The original asserts that the append and the flush succeed. */
    method AddRecord(e: MemEntry, keyPad: byte, valuePad: byte)
      requires Valid() && InRange(e)
      requires |MemEntryBytes(e, keyPad, valuePad)| <= MAX_RECORD_SIZE
      requires NoFailure(file.script)
      modifies this, file, file.buf
      ensures Valid() && NoFailure(file.script)
      ensures entries == old(entries) + [e]
      ensures old(file.disk) <= file.disk
    {
      hide MemEntryBytes, DecodeMemEntry, LogBytes, Record, EncodeAll, Carries, InRange;
      var buf := EncodeMemEntry(e, keyPad, valuePad);
      var slice := buf[..];
      EncodedEntry(e, keyPad, valuePad);
      OneMoreRecord(payloads, entries, slice, e);
      AppendRecord(slice);
      entries, payloads := entries + [e], payloads + [slice];
    }

    /** What is on disk now replays as exactly the entries added. */
    lemma ReplaysBack()
      requires Valid()
      ensures ReadFrom(file.disk, 0) == Some(entries)
    {
      LogRoundTrip(payloads, entries);
    }

    method AppendRecord(slice: Payload)
      requires file.Valid() && file.pos == 0 && NoFailure(file.script)
      modifies file, file.buf
      ensures file.Valid() && file.pos == 0 && NoFailure(file.script)
      ensures file.disk == old(file.disk) + Record(slice)
    {
      hide Fixed64;
      assert file.Contents() == old(file.disk);
      file.AppendSize(|slice|);
      var s := file.Append(slice);
      assert s == OK;
      assert file.Contents() == old(file.disk) + Record(slice);
      s := file.Flush();
      assert s == OK;
    }
  }

  lemma EncodedEntry(e: MemEntry, keyPad: byte, valuePad: byte)
    requires InRange(e) && |MemEntryBytes(e, keyPad, valuePad)| <= MAX_RECORD_SIZE
    ensures Carries(MemEntryBytes(e, keyPad, valuePad), e)
  {
    hide MemEntryBytes, DecodeMemEntry;
    MemEntryRoundTrip(e, keyPad, valuePad);
    MemEntryBytesSize(e, keyPad, valuePad);
  }

  lemma OneMoreRecord(payloads: seq<Payload>, es: seq<MemEntry>, payload: Payload, e: MemEntry)
    requires EncodeAll(payloads, es) && Carries(payload, e)
    ensures EncodeAll(payloads + [payload], es + [e])
    ensures LogBytes(payloads + [payload]) == LogBytes(payloads) + Record(payload)
  {
    assert (payloads + [payload])[..|payloads|] == payloads;
  }

  /** `log::Reader`. */
  class LogReader {
    const file: bytes
    var offset: nat

    constructor (file: bytes)
      ensures this.file == file && offset == 0
    {
      this.file := file;
      offset := 0;
    }

    predicate End()
      reads this
    {
      AtEnd(file, offset)
    }

    method ReadRecord() returns (e: MemEntry)
      requires RecordAt(file, offset).Some?
      modifies this
      ensures RecordAt(file, old(offset)) == Some((e, offset))
    {
      e := RecordAt(file, offset).value.0;
      offset := RecordAt(file, offset).value.1;
    }
  }
}
