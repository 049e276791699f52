/** A writer thread draining its queue into lists: the loop behind the Insert and Freeze steps. */
module WriterThreads {
  import opened Bytes
  import opened Coding
  import opened SkipLists
  import opened MessageQueues
  import LogFile
  import P = Pipeline
  import opened PipelineProofs
  import opened PipelineTheorems
  import opened PipelineRuns
  import opened Env

  /** The lists of the current version, one sequence per writer. */
  class VersionLists {
    var lists: seq<seq<SkipList>>
    var listCount: nat

    constructor ()
      ensures lists == seq(P.MAX_WRITER, i => []) && listCount == 0
    {
      lists, listCount := seq(P.MAX_WRITER, i => []), 0;
    }

    predicate IsFull()
      reads this
    {
      listCount >= P.MAX_FROZEN_LIST
    }

    method AppendList(list: SkipList, idx: nat)
      requires idx < |lists|
      modifies this
      ensures lists == old(lists)[idx := old(lists[idx]) + [list]]
      ensures listCount == old(listCount) + 1
    {
      lists := lists[idx := lists[idx] + [list]];
      listCount := listCount + 1;
    }
  }

  /** What draining the queue does to a writer when the version has room for so many more lists: a full
      list that finds no room makes the writer wait, with the rest of the queue behind it. */
  function Drain(x: P.Writer, room: nat): P.Writer
    decreases |x.queue|
  {
    if x.queue == [] then x
    else
      var y := P.InsertFront(x);
      if |y.active| < P.MAX_ACTIVE_LIST_SIZE then Drain(y, room)
      else if room == 0 then y.(gate := P.Waiting)
      else Drain(P.FreezeActive(y), room - 1)
  }

  /** Draining loses, reorders and duplicates nothing pushed. It ends with an empty queue and a list below
      its limit, or waiting with a full list and the version full. */
  lemma {:induction false} DrainKeepsHistory(x: P.Writer, w: nat, room: nat)
    requires P.WriterInv(x, w) && |x.active| < P.MAX_ACTIVE_LIST_SIZE && x.gate == P.Free
    ensures var y := Drain(x, room);
            && P.WriterInv(y, w) && P.Pushed(y) == P.Pushed(x)
            && |x.frozen| <= |y.frozen| <= |x.frozen| + room
            && (if y.gate == P.Waiting then |y.active| >= P.MAX_ACTIVE_LIST_SIZE && |y.frozen| == |x.frozen| + room
                else y.gate == P.Free && y.queue == [] && |y.active| < P.MAX_ACTIVE_LIST_SIZE)
    decreases |x.queue|
  {
    hide P.WriterInv, P.Pushed;
    if x.queue == [] {
    } else {
      var y := P.InsertFront(x);
      InsertKeepsInv(x, w);
      if |y.active| < P.MAX_ACTIVE_LIST_SIZE {
        DrainKeepsHistory(y, w, room);
      } else if room == 0 {
        WaitingKeepsInv(y, w);
      } else {
        FreezeKeepsInv(y, w);
        DrainKeepsHistory(P.FreezeActive(y), w, room - 1);
      }
    }
  }

  /** Lists were only appended, and each of them has exactly ten keys. */
  ghost predicate AppendsFull(before: seq<P.List>, after: seq<P.List>) {
    && before <= after
    && forall j :: |before| <= j < |after| ==> |after[j]| == P.MAX_ACTIVE_LIST_SIZE
  }

  lemma AppendsFullPush(before: seq<P.List>, l: P.List, after: seq<P.List>)
    requires |l| == P.MAX_ACTIVE_LIST_SIZE && AppendsFull(before + [l], after)
    ensures AppendsFull(before, after)
  {
    assert after[|before|] == (before + [l])[|before|] == l;
    assert before == (before + [l])[..|before|] == after[..|before|];
  }

  lemma InsertGrowsByOne(x: P.Writer)
    requires x.queue != []
    ensures |P.InsertFront(x).active| <= |x.active| + 1
  {
    assert P.InsertFront(x).active.Keys == x.active.Keys + {x.queue[0].key};
  }

  /** Draining appends only full lists. */
  lemma {:induction false} DrainFreezesFullLists(x: P.Writer, room: nat)
    requires |x.active| < P.MAX_ACTIVE_LIST_SIZE
    ensures AppendsFull(x.frozen, Drain(x, room).frozen)
    decreases |x.queue|
  {
    hide AppendsFull;
    if x.queue == [] {
      AppendsNothing(x.frozen);
    } else {
      var y := P.InsertFront(x);
      InsertGrowsByOne(x);
      if |y.active| < P.MAX_ACTIVE_LIST_SIZE {
        DrainFreezesFullLists(y, room);
      } else if room == 0 {
        AppendsNothing(x.frozen);
      } else {
        DrainFreezesFullLists(P.FreezeActive(y), room - 1);
        AppendsFullPush(x.frozen, y.active, Drain(x, room).frozen);
      }
    }
  }

  lemma DrainNothing(x: P.Writer, room: nat)
    ensures x.queue == [] ==> Drain(x, room) == x
  {
  }

  lemma AppendsNothing(lists: seq<P.List>)
    ensures AppendsFull(lists, lists)
  {
  }

  /** How many lists a version in this state takes without a wait. */
  function RoomOf(s: P.State): nat {
    if P.IsFull(s) then 0 else P.MAX_FROZEN_LIST - P.ListCount(s.writers)
  }

  /** Draining is what a run of the writer's own Insert, Freeze and Block steps reaches, each of them
      enabled when it is taken: a list freezes exactly when it is full and the version is not, and the
      writer waits exactly when both are. */
  lemma {:induction false} DrainIsARun(s: P.State, w: nat) returns (steps: seq<P.Step>)
    requires |s.writers| == P.MAX_WRITER && w < P.MAX_WRITER
    requires s.writers[w].gate == P.Free && |s.writers[w].active| < P.MAX_ACTIVE_LIST_SIZE
    ensures Leads(s, steps, WithWriter(s, w, Drain(s.writers[w], RoomOf(s))))
    ensures forall i :: 0 <= i < |steps| ==> steps[i] in {P.Insert(w), P.Freeze(w), P.Block(w)}
    decreases |s.writers[w].queue|
  {
    hide Leads, P.ListCount, P.Owner;
    var x := s.writers[w];
    if x.queue == [] {
      steps := [];
      Stay(s);
      assert s.writers[w := x] == s.writers;
    } else {
      var y := P.InsertFront(x);
      var t := WithWriter(s, w, y);
      OneStep(s, P.Insert(w));
      CountsUpdate(s.writers, w, y);
      var first: seq<P.Step> := [P.Insert(w)];
      if |y.active| < P.MAX_ACTIVE_LIST_SIZE {
        var more := DrainIsARun(t, w);
        steps := first + more;
        JoinSame(s, w, first, t, more, Drain(y, RoomOf(t)));
      } else if RoomOf(s) == 0 {
        steps := first + [P.Block(w)];
        OneStep(t, P.Block(w));
        JoinSame(s, w, first, t, [P.Block(w)], y.(gate := P.Waiting));
      } else {
        var z := P.FreezeActive(y);
        var u := WithWriter(s, w, z);
        OneStep(t, P.Freeze(w));
        CountsUpdate(s.writers, w, z);
        JoinSame(s, w, first, t, [P.Freeze(w)], z);
        var more := DrainIsARun(u, w);
        steps := (first + [P.Freeze(w)]) + more;
        JoinSame(s, w, first + [P.Freeze(w)], u, more, Drain(z, RoomOf(u)));
      }
    }
  }

  lemma JoinSame(s: P.State, w: nat, a: seq<P.Step>, t: P.State, b: seq<P.Step>, z: P.Writer)
    requires w < |s.writers| == |t.writers| && t.tables == s.tables && t.merge == s.merge
    requires t.writers == s.writers[w := t.writers[w]]
    requires Leads(s, a, t) && Leads(t, b, WithWriter(t, w, z))
    ensures Leads(s, a + b, WithWriter(s, w, z))
  {
    hide Leads;
    assert t.writers[w := z] == s.writers[w := z];
    Join(s, a, t, b, WithWriter(s, w, z));
  }

  lemma WaitingKeepsInv(x: P.Writer, w: nat)
    requires P.WriterInv(x, w)
    ensures P.WriterInv(x.(gate := P.Waiting), w) && P.Pushed(x.(gate := P.Waiting)) == P.Pushed(x)
  {
    SamePushed(x, x.(gate := P.Waiting));
  }

  class WriterThread {
    const id: nat
    const queue: MessageQueue
    const version: VersionLists
    var list: SkipList
    ghost var state: P.Writer

    ghost function Frozen(): seq<SkipList>
      reads this, version
    {
      if id < |version.lists| then version.lists[id] else []
    }

    /** The objects hold exactly the abstract writer's layers. */
    ghost predicate Valid()
      reads this, queue, queue.ring, queue.log, queue.log.file, list, version, Frozen()
    {
      && id < |version.lists|
      && queue.Valid() && list.Valid() && list !in Frozen()
      && (forall e :: e in queue.Contents() ==> InRange(e))
      && (state.inflight.Some? ==> InRange(state.inflight.value))
      && state.log == queue.log.entries && state.queue == queue.Contents() && state.active == list.Contents()
      && |state.frozen| == |Frozen()|
      && forall j :: 0 <= j < |Frozen()| ==> Frozen()[j].Valid() && state.frozen[j] == Frozen()[j].Contents()
    }

    constructor (id: nat, queue: MessageQueue, version: VersionLists)
      requires id < |version.lists| && version.lists[id] == []
      requires queue.Valid() && queue.IsEmpty() && queue.log.entries == []
      ensures Valid() && state == P.NewWriter()
      ensures this.id == id && this.queue == queue && this.version == version
    {
      this.id, this.queue, this.version := id, queue, version;
      list := new SkipList();
      state := P.NewWriter();
    }

    /** `insert(getFront())` and `pop()`. */
    method InsertFrontEntry(keyPad: byte, valuePad: byte)
      requires Valid() && !queue.IsEmpty()
      modifies this`state, queue`rPtr, list
      ensures Valid() && state == P.InsertFront(old(state))
    {
      hide SkipList.Valid, SkipList.Contents, InRange, MessageQueue.Contents, LogFile.LogWriter.Valid;
      var entry := queue.GetFront();
      list.Insert(entry, keyPad, valuePad);
      queue.Pop();
      state := P.InsertFront(state);
      assert forall j :: 0 <= j < |Frozen()| ==>
          && Frozen()[j] == old(Frozen()[j]) && Frozen()[j].Valid()
          && Frozen()[j].Contents() == old(Frozen()[j].Contents());
    }

    /** The first half of push: the entry is in the log file, and the queue lock is held. */
    method LogEntry(entry: MemEntry, keyPad: byte, valuePad: byte)
      requires Valid() && state.inflight == None
      requires InRange(entry) && |MemEntryBytes(entry, keyPad, valuePad)| <= LogFile.MAX_RECORD_SIZE
      requires NoFailure(queue.log.file.script)
      modifies this`state, queue.log, queue.log.file, queue.log.file.buf
      ensures Valid() && NoFailure(queue.log.file.script)
      ensures state == StepWriter(old(state), P.LogRecord(id, entry))
    {
      hide SkipList.Valid, SkipList.Contents, InRange, MemEntryBytes;
      hide LogFile.LogWriter.Valid;
      queue.LogRecord(entry, keyPad, valuePad);
      state := StepWriter(state, P.LogRecord(id, entry));
    }

    /** The second half, when the wait for room is over. */
    method EnqueueEntry(entry: MemEntry)
      requires Valid() && state.inflight == Some(entry) && !queue.IsFull()
      modifies this`state, queue`wPtr, queue.ring
      ensures Valid() && state == StepWriter(old(state), P.Enqueue(id))
    {
      hide SkipList.Valid, SkipList.Contents, InRange, MessageQueue.Contents;
      hide LogFile.LogWriter.Valid;
      queue.Enqueue(entry);
      state := StepWriter(state, P.Enqueue(id));
    }

    /** In every state the pipeline can reach, this writer's log file read back from disk holds what was
        accepted for it and at most the entry in flight; folded, it gives the last push of each of its keys,
        also of those whose lists a swap has dropped. */
    lemma DiskRecovers(steps: seq<P.Step>, key: bytes)
      requires Valid() && CanRun(P.Init(), steps) && id == P.Owner(key)
      requires |Run(P.Init(), steps).writers| == P.MAX_WRITER && Run(P.Init(), steps).writers[id] == state
      ensures LogFile.ReadFrom(queue.log.file.disk, 0) == Some(Accepted(steps, id, None) + Pending(state))
      ensures var es := LogFile.ReadFrom(queue.log.file.disk, 0).value;
              P.Get(P.Fold(es), key) ==
              if state.inflight.Some? && state.inflight.value.key == key then state.inflight
              else P.Get(P.Fold(Accepted(steps, id, None)), key)
    {
      hide P.Inv, P.Fold, LogFile.ReadFrom, P.Owner, Run, CanRun, Accepted;
      hide LogFile.LogWriter.Valid;
      queue.log.ReplaysBack();
      LogCoversHistory(steps, id);
      ReplayRecovers(steps, key);
    }

    /** How many lists the version still takes without a wait. */
    function Room(): nat
      reads version
    {
      if version.IsFull() then 0 else P.MAX_FROZEN_LIST - version.listCount
    }

    /** `AppendList(list_)` and a new active list. */
    method FreezeList()
      requires Valid()
      modifies this`list, this`state, version
      ensures Valid() && fresh(list) && state == P.FreezeActive(old(state))
      ensures version.listCount == old(version.listCount) + 1
    {
      hide SkipList.Valid, SkipList.Contents, InRange, MessageQueue.Valid, MessageQueue.Contents;
      version.AppendList(list, id);
      list := new SkipList();
      state := P.FreezeActive(state);
    }

    /** `AppendFrozenList`: a full version makes the writer wait; otherwise the list goes in. */
    method FreezeOrWait() returns (waiting: bool)
      requires Valid()
      modifies this`list, this`state, version
      ensures Valid() && waiting == (old(Room()) == 0)
      ensures state == if waiting then old(state).(gate := P.Waiting) else P.FreezeActive(old(state))
      ensures if waiting then list == old(list) && Room() == 0 else fresh(list) && Room() == old(Room()) - 1
    {
      hide SkipList.Valid, SkipList.Contents, InRange, MessageQueue.Valid, MessageQueue.Contents;
      waiting := version.IsFull();
      if waiting {
        state := state.(gate := P.Waiting);
      } else {
        FreezeList();
      }
    }

    /** Inserts queued entries and hands each full list to the version, until the queue is empty or the
        version is full. */
    method MayInsertMessage(keyPad: byte, valuePad: byte) returns (waiting: bool)
      requires Valid() && state.gate == P.Free
      modifies this`list, this`state, queue`rPtr, list, version
      ensures Valid() && state == Drain(old(state), old(Room()))
      ensures waiting <==> state.gate == P.Waiting
      ensures old(|state.active|) < P.MAX_ACTIVE_LIST_SIZE ==> AppendsFull(old(state.frozen), state.frozen)
    {
      hide SkipList.Valid, SkipList.Contents, InRange, MessageQueue.Valid, MessageQueue.Contents, AppendsFull, Drain;
      if |state.active| < P.MAX_ACTIVE_LIST_SIZE {
        DrainFreezesFullLists(state, Room());
      }
      waiting := false;
      while !queue.IsEmpty() && !waiting
        invariant Valid() && state.gate == (if waiting then P.Waiting else P.Free)
        invariant list == old(list) || fresh(list)
        invariant (if waiting then state else Drain(state, Room())) == Drain(old(state), old(Room()))
        decreases !waiting, |state.queue|
      {
        waiting := InsertNext(keyPad, valuePad);
      }
      DrainNothing(state, Room());
    }

    /** One turn of the loop. */
    method InsertNext(keyPad: byte, valuePad: byte) returns (waiting: bool)
      requires Valid() && state.gate == P.Free && !queue.IsEmpty()
      modifies this`list, this`state, queue`rPtr, list, version
      ensures Valid() && (list == old(list) || fresh(list)) && |state.queue| < old(|state.queue|)
      ensures state.gate == if waiting then P.Waiting else P.Free
      ensures (if waiting then state else Drain(state, Room())) == Drain(old(state), old(Room()))
    {
      hide SkipList.Valid, SkipList.Contents, InRange, MessageQueue.Valid, MessageQueue.Contents;
      waiting := false;
      InsertFrontEntry(keyPad, valuePad);
      list.SizeIsContents();
      if list.Size() >= P.MAX_ACTIVE_LIST_SIZE {
        waiting := FreezeOrWait();
      }
    }

    /** Back from the wait: the list goes in without another look, and the loop goes on. */
    method Resume(keyPad: byte, valuePad: byte) returns (waiting: bool)
      requires Valid() && state.gate == P.Woken
      modifies this`list, this`state, queue`rPtr, version
      ensures Valid()
      ensures state == Drain(P.FreezeActive(old(state)),
                             if old(Room()) == 0 then 0 else old(Room()) - 1)
      ensures waiting <==> state.gate == P.Waiting
      ensures AppendsFull(old(state.frozen) + [old(state.active)], state.frozen)
    {
      hide SkipList.Valid, SkipList.Contents, InRange, MessageQueue.Valid, MessageQueue.Contents, Drain, AppendsFull;
      FreezeList();
      waiting := MayInsertMessage(keyPad, valuePad);
    }
  }
}
