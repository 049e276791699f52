/** `WritableFile`: a 64 KiB buffer in front of write(2). */
module Env {
  import opened Bytes
  import opened Coding

  const WRITABLE_FILE_BUFFER_SIZE := 65536

  /** What one write(2) call does: it stores a prefix, is interrupted, or fails. */
  datatype SysResult = Wrote(n: nat) | Interrupted | Failed

  ghost predicate NoFailure(script: seq<SysResult>) {
    Failed !in script
  }

  /** What the coming call on `n` bytes does. */
  function Outcome(script: seq<SysResult>, n: nat): (r: SysResult)
    ensures r.Wrote? ==> r.n <= n
  {
    if script == [] then Wrote(n)
    else match script[0]
      case Wrote(k) => Wrote(if k > n then n else k)
      case Interrupted => Interrupted
      case Failed => Failed
  }

  /** Writing `n` bytes, retried as the loop retries, gets them all out. */
  predicate Drains(n: nat, script: seq<SysResult>)
    decreases |script|, n
  {
    n == 0 || script == [] ||
    match Outcome(script, n)
    case Failed => false
    case Interrupted => Drains(n, script[1..])
    case Wrote(k) => Drains(n - k, script[1..])
  }

  lemma {:induction false} DrainsUnlessFailed(n: nat, script: seq<SysResult>)
    requires NoFailure(script)
    ensures Drains(n, script)
    decreases |script|
  {
    if n == 0 || script == [] {
    } else {
      assert script[0] in script && forall r :: r in script[1..] ==> r in script;
      match Outcome(script, n)
      case Failed =>
        assert false;
      case Interrupted =>
        DrainsUnlessFailed(n, script[1..]);
      case Wrote(k) =>
        DrainsUnlessFailed(n - k, script[1..]);
    }
  }

  lemma DrainsNext(n: nat, script: seq<SysResult>)
    ensures n == 0 || script == [] ==> Drains(n, script)
    ensures n > 0 && script != [] ==>
              Drains(n, script) == match Outcome(script, n)
                                   case Failed => false
                                   case Interrupted => Drains(n, script[1..])
                                   case Wrote(k) => Drains(n - k, script[1..])
    ensures NoFailure(script) && script != [] ==> NoFailure(script[1..]) && !Outcome(script, n).Failed?
  {
    if NoFailure(script) && script != [] {
      assert script[0] in script && forall r :: r in script[1..] ==> r in script;
    }
  }

  class WritableFile {
    const buf: array<byte>
    var pos: nat
    var disk: bytes                // bytes that reached the file
    var script: seq<SysResult>     // what the coming write(2) calls do; all later ones succeed

    ghost predicate Valid()
      reads this
    {
      buf.Length == WRITABLE_FILE_BUFFER_SIZE && pos <= buf.Length
    }

    /** Everything accepted so far, written or still buffered. */
    ghost function Contents(): bytes
      requires Valid()
      reads this, buf
    {
      disk + buf[..pos]
    }

    /** The coming write(2) call fails. */
    ghost predicate Failing()
      reads this`script
    {
      script != [] && script[0] == Failed
    }

    lemma NothingBuffered()
      requires Valid() && pos == 0
      ensures disk == Contents()
    {
    }

    lemma NothingToDrain()
      ensures Drains(0, script)
    {
    }

    lemma EmptyDisk()
      requires Valid() && Contents() == []
      ensures disk == [] && pos == 0
    {
    }

    constructor (script: seq<SysResult>)
      ensures Valid() && fresh(buf)
      ensures disk == [] && Contents() == [] && pos == 0 && this.script == script
    {
      buf := new byte[WRITABLE_FILE_BUFFER_SIZE];
      pos, disk := 0, [];
      this.script := script;
    }

    /** One system call; a short write is any prefix, the empty one included. */
    method SysWrite(data: bytes) returns (r: SysResult)
      requires data != []
      modifies this`disk, this`script
      ensures r == Outcome(old(script), |data|)
      ensures script == if old(script) == [] then [] else old(script)[1..]
      ensures disk == old(disk) + if r.Wrote? then data[..r.n] else []
    {
      if script == [] {
        r := Wrote(|data|);
      } else {
        match script[0] {
          case Wrote(n) => r := Wrote(if n > |data| then |data| else n);
          case Interrupted => r := Interrupted;
          case Failed => r := Failed;
        }
        script := script[1..];
      }
      if r.Wrote? {
        disk := disk + data[..r.n];
      }
    }

    /** Retries after a short write or an interruption until all bytes are out or a call fails. */
    method WriteUnbuffered(data: bytes) returns (status: Status)
      modifies this`disk, this`script
      ensures status == OK || status == Error
      ensures status == OK ==> disk == old(disk) + data
      ensures status == Error ==> old(disk) <= disk < old(disk) + data
      ensures NoFailure(old(script)) ==> status == OK && NoFailure(script)
      ensures status == OK <==> Drains(|data|, old(script))
      ensures data != [] && old(script) != [] && old(script)[0] == Failed ==> disk == old(disk)
    {
      if NoFailure(script) {
        DrainsUnlessFailed(|data|, script);
      }
      hide Drains, NoFailure;
      var left, failed := data, false;
      while left != [] && !failed
        invariant disk + left == old(disk) + data && old(disk) <= disk
        invariant NoFailure(old(script)) ==> NoFailure(script) && !failed
        invariant failed ==> left != [] && !Drains(|data|, old(script))
        invariant !failed ==> Drains(|left|, script) == Drains(|data|, old(script))
        invariant old(Failing()) ==> disk == old(disk) && (!failed ==> left == data && Failing())
        decreases !failed, |script|, |left|
      {
        left, failed := WriteOnce(left);
      }
      DrainsNext(0, script);
      status := if failed then Error else OK;
    }

    /** One turn of the loop: a failing call ends it, an interrupted one leaves everything to do. */
    method WriteOnce(data: bytes) returns (left: bytes, failed: bool)
      requires data != []
      modifies this`disk, this`script
      ensures disk + left == old(disk) + data && old(disk) <= disk
      ensures script == if old(script) == [] then [] else old(script)[1..]
      ensures failed <==> old(Failing())
      ensures if failed then left == data && disk == old(disk) && !Drains(|data|, old(script))
              else Drains(|left|, script) == Drains(|data|, old(script))
      ensures old(script) == [] ==> left == []
      ensures NoFailure(old(script)) ==> NoFailure(script) && !failed
    {
      hide Drains, NoFailure;
      DrainsNext(|data|, script);
      DrainsNext(0, []);
      var r := SysWrite(data);
      left, failed := data, r.Failed?;
      if r.Wrote? {
        assert data == data[..r.n] + data[r.n..];
        left := data[r.n..];
      }
      assert r.Wrote? || disk == old(disk) + [];
    }

    method FlushBuffer() returns (status: Status)
      requires Valid()
      modifies this
      ensures Valid() && pos == 0
      ensures status == OK || status == Error
      ensures status == OK ==> disk == old(Contents())
      ensures status == Error ==> old(disk) <= disk < old(Contents())
      ensures NoFailure(old(script)) ==> status == OK && NoFailure(script)
      ensures status == OK <==> Drains(old(pos), old(script))
      ensures old(Failing()) && old(pos) > 0 ==> status == Error && disk == old(disk)
    {
      status := WriteUnbuffered(buf[..pos]);
      pos := 0;
    }

    method Flush() returns (status: Status)
      requires Valid()
      modifies this
      ensures Valid() && pos == 0
      ensures status == OK || status == Error
      ensures status == OK ==> disk == Contents() == old(Contents())
      ensures status == Error ==> old(disk) <= disk == Contents() < old(Contents())
      ensures NoFailure(old(script)) ==> status == OK && NoFailure(script)
      ensures old(Failing()) && old(pos) > 0 ==> status == Error && disk == old(disk)
    {
      status := FlushBuffer();
    }

    /** Flushes, then asks for fdatasync(2). `writes` is what the coming write(2) calls do, in place of
        the rest of the script. A failed flush still empties the buffer, so what it did not write is
        gone: the file keeps a proper prefix. */
    method Sync(writes: seq<SysResult>, datasyncOk: bool) returns (status: Status)
      requires Valid()
      modifies this
      ensures Valid() && pos == 0
      ensures status == (if Drains(old(pos), writes) && datasyncOk then OK else Error)
      ensures old(disk) <= disk
      ensures if Drains(old(pos), writes) then disk == old(Contents()) else disk < old(Contents())
      ensures old(pos) > 0 && writes != [] && writes[0] == Failed ==> disk == old(disk)
    {
      script := writes;
      status := FlushBuffer();
      if status == OK && !datasyncOk {
        status := Error;
      }
    }

    /** Flushes and closes, whatever the flush says. */
    method Close(closeOk: bool) returns (status: Status)
      requires Valid()
      modifies this
      ensures Valid() && pos == 0
      ensures status == (if Drains(old(pos), old(script)) && closeOk then OK else Error)
      ensures old(disk) <= disk
      ensures if Drains(old(pos), old(script)) then disk == old(Contents()) else disk < old(Contents())
    {
      status := FlushBuffer();
      if !closeOk && status == OK {
        status := Error;
      }
    }

    /** Buffered append refines plain concatenation; a failed append leaves a prefix of it. */
    method Append(data: bytes) returns (status: Status)
      requires Valid()
      modifies this, buf
      ensures Valid()
      ensures status == OK || status == Error
      ensures old(disk) <= disk
      ensures status == OK ==> Contents() == old(Contents()) + data
      ensures status == Error ==> Contents() <= old(Contents()) + data
      ensures NoFailure(old(script)) ==> status == OK && NoFailure(script)
      ensures var room := WRITABLE_FILE_BUFFER_SIZE - old(pos);
              if |data| <= room
              then status == OK && pos == old(pos) + |data| && disk == old(disk) && script == old(script)
              else pos == if status == OK && |data| - room < WRITABLE_FILE_BUFFER_SIZE then |data| - room else 0
      ensures status == Error ==> pos == 0
      ensures old(Failing()) ==>
                && disk == old(disk)
                && (status == OK ==> script == old(script) && pos == old(pos) + |data|)
    {
      var room := buf.Length - pos;
      var copySize := if |data| < room then |data| else room;
      var writeData := data[copySize..];
      ghost var before := Contents();
      pos := CopyInto(buf, pos, data[..copySize]);
      assert Contents() == before + data[..copySize];
      assert before + data == before + data[..copySize] + writeData;
      if writeData == [] {
        return OK;
      }
      status := FlushBuffer();
      if status != OK {
        return status;
      }
      if |writeData| < WRITABLE_FILE_BUFFER_SIZE {
        pos := CopyInto(buf, 0, writeData);
        return OK;
      }
      status := WriteUnbuffered(writeData);
    }

    /** Stores the eight bytes of a size in the buffer with no room check, so the caller must leave
        room; the log always starts from an empty buffer. */
    method AppendSize(value: nat)
      requires Valid() && value < UINT64_LIMIT
      requires pos + 8 <= WRITABLE_FILE_BUFFER_SIZE
      modifies this`pos, buf
      ensures Valid() && pos == old(pos) + 8
      ensures Contents() == old(Contents()) + Fixed64(value)
    {
      pos := CopyInto(buf, pos, Fixed64(value));
    }
  }
}
