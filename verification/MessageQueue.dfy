/** `MessageQueue`: a ring of fixed size in front of a writer, with its log. */
module MessageQueues {
  import opened Bytes
  import opened Coding
  import opened Sequences
  import opened Env
  import opened LogFile
  import opened Pipeline

  class MessageQueue {
    const ring: array<MemEntry>     // queue_[kQueueSize + 5]
    var wPtr: nat
    var rPtr: nat
    const log: LogWriter

    ghost predicate Valid()
      reads this, log, log.file
    {
      && ring.Length == QUEUE_SIZE + 5
      && 1 <= rPtr <= wPtr <= rPtr + QUEUE_SIZE
      && log.Valid()
    }

    /** The queued entries, oldest first. */
    ghost function Contents(): (es: seq<MemEntry>)
      requires Valid()
      reads this, ring, log, log.file
      ensures |es| == wPtr - rPtr <= QUEUE_SIZE
    {
      seq(wPtr - rPtr, i requires 0 <= i < wPtr - rPtr reads this, ring, log, log.file requires Valid() =>
        ring[(rPtr + i) % QUEUE_SIZE])
    }

    constructor (log: LogWriter)
      requires log.Valid()
      ensures Valid() && Contents() == [] && this.log == log && fresh(ring)
    {
      ring := new MemEntry[QUEUE_SIZE + 5];
      wPtr, rPtr := 1, 1;
      this.log := log;
    }

    predicate IsFull()
      requires wPtr >= rPtr
      reads this
    {
      wPtr - rPtr == QUEUE_SIZE
    }

    predicate IsEmpty()
      reads this
    {
      wPtr == rPtr
    }

    /** The first half of push: the record is in the log file before the entry is queued. */
    method LogRecord(entry: MemEntry, keyPad: byte, valuePad: byte)
      requires Valid() && InRange(entry) && NoFailure(log.file.script)
      requires |MemEntryBytes(entry, keyPad, valuePad)| <= MAX_RECORD_SIZE
      modifies log, log.file, log.file.buf
      ensures Valid() && NoFailure(log.file.script)
      ensures log.entries == old(log.entries) + [entry]
      ensures wPtr == old(wPtr) && rPtr == old(rPtr) && Contents() == old(Contents())
    {
      log.AddRecord(entry, keyPad, valuePad);
    }

    /** The second half, once the wait for room is over. */
    method Enqueue(entry: MemEntry)
      requires Valid() && !IsFull()
      modifies this`wPtr, ring
      ensures Valid() && Contents() == old(Contents()) + [entry]
    {
      ring[wPtr % QUEUE_SIZE] := entry;
      wPtr := wPtr + 1;
    }

    method GetFront() returns (entry: MemEntry)
      requires Valid() && !IsEmpty()
      ensures entry == Contents()[0]
    {
      entry := ring[rPtr % QUEUE_SIZE];
    }

    method Pop()
      requires Valid() && !IsEmpty()
      modifies this`rPtr
      ensures Valid() && Contents() == old(Contents())[1..]
    {
      rPtr := rPtr + 1;
    }

    /** Newest first, down to the front. */
    method Search(key: bytes, seqNum: nat) returns (r: Option<MemEntry>)
      requires Valid()
      ensures r == SearchQueue(Contents(), key, seqNum)
    {
      var i := wPtr - 1;
      ghost var es := Contents();
      assert es[..wPtr - rPtr] == es;
      while i >= rPtr
        invariant rPtr - 1 <= i < wPtr
        invariant SearchQueue(es, key, seqNum) == SearchQueue(es[..i + 1 - rPtr], key, seqNum)
      {
        var entry := ring[i % QUEUE_SIZE];
        assert entry == es[i - rPtr];
        assert es[..i + 1 - rPtr][..i - rPtr] == es[..i - rPtr];
        if entry.key == key && seqNum <= entry.seqNum {
          return Some(entry);
        }
        i := i - 1;
      }
      assert es[..0] == [];
      r := None;
    }

    /** The constructor's loop over the old logs: each record is pushed without being logged again. No
        thread drains the ring yet, so a push that finds it full never returns: `done` is false then. */
    method ReplayLogs(logs: seq<bytes>, ghost records: seq<seq<MemEntry>>) returns (done: bool, maxId: nat)
      requires Valid() && Contents() == [] && |logs| == |records|
      requires forall i :: 0 <= i < |logs| ==> ReadFrom(logs[i], 0) == Some(records[i])
      modifies this`wPtr, ring
      ensures Valid()
      ensures done <==> |Flatten(records)| <= QUEUE_SIZE
      ensures done ==> Contents() == Flatten(records) && IsMaxId(maxId, Flatten(records))
      ensures !done ==> IsFull() && Contents() == Flatten(records)[..QUEUE_SIZE]
    {
      hide RecordAt;
      done, maxId := true, 0;
      for i := 0 to |logs|
        invariant Valid() && Contents() == Flatten(records[..i]) && IsMaxId(maxId, Contents())
      {
        assert records[..i + 1][..i] == records[..i];
        ghost var before := Contents();
        done, maxId := ReplayLog(logs[i], records[i], maxId);
        if !done {
          FlattenPrefix(records, i + 1);
          return;
        }
      }
      assert records[..|logs|] == records;
    }

    method ReplayLog(file: bytes, ghost es: seq<MemEntry>, maxId0: nat) returns (done: bool, maxId: nat)
      requires Valid() && ReadFrom(file, 0) == Some(es) && IsMaxId(maxId0, Contents())
      modifies this`wPtr, ring
      ensures Valid()
      ensures done <==> |old(Contents()) + es| <= QUEUE_SIZE
      ensures done ==> Contents() == old(Contents()) + es && IsMaxId(maxId, Contents())
      ensures !done ==> IsFull() && Contents() == (old(Contents()) + es)[..QUEUE_SIZE]
    {
      hide RecordAt, MessageQueue.Contents, LogWriter.Valid, IsMaxId;
      maxId := maxId0;
      var reader := new LogReader(file);
      while !reader.End()
        invariant reader.file == file && fresh(reader) && Valid()
        invariant ReadFrom(file, reader.offset).Some?
        invariant Contents() + ReadFrom(file, reader.offset).value == old(Contents()) + es
        invariant IsMaxId(maxId, Contents())
        decreases |file| - reader.offset
      {
        var entry := reader.ReadRecord();
        MaxIdPush(maxId, Contents(), entry);
        maxId := if maxId < entry.seqNum then entry.seqNum else maxId;
        if IsFull() {
          return false, maxId;
        }
        Enqueue(entry);
      }
      done := true;
    }
  }

  /** A log of forty-one records: the constructor never returns. */
  method ReplayHangs(queue: MessageQueue, e: MemEntry, keyPad: byte, valuePad: byte) returns (done: bool)
    requires queue.Valid() && queue.Contents() == []
    requires InRange(e) && |MemEntryBytes(e, keyPad, valuePad)| <= MAX_RECORD_SIZE
    modifies queue`wPtr, queue.ring
    ensures !done && queue.Valid() && queue.IsFull()
  {
    hide LogBytes, ReadFrom, Carries, MemEntryBytes, InRange, MessageQueue.Contents;
    var payload: Payload := MemEntryBytes(e, keyPad, valuePad);
    var payloads := seq(QUEUE_SIZE + 1, i => payload);
    ghost var es := seq(QUEUE_SIZE + 1, i => e);
    EncodedEntry(e, keyPad, valuePad);
    LogRoundTrip(payloads, es);
    assert Flatten([es]) == Flatten([]) + es;
    var maxId;
    done, maxId := queue.ReplayLogs([LogBytes(payloads)], [es]);
  }

  /** The highest sequence number, or 0 for no entries. */
  ghost predicate IsMaxId(maxId: nat, es: seq<MemEntry>) {
    && (forall e :: e in es ==> e.seqNum <= maxId)
    && (maxId == 0 || exists e :: e in es && e.seqNum == maxId)
  }

  lemma MaxIdPush(maxId: nat, es: seq<MemEntry>, e: MemEntry)
    requires IsMaxId(maxId, es)
    ensures IsMaxId(if maxId < e.seqNum then e.seqNum else maxId, es + [e])
  {
    var all := es + [e];
    assert e in all && forall f :: f in es ==> f in all;
  }
}
