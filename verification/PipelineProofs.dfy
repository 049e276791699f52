/** Every layer of the pipeline shows the same last-push-wins map. */
module PipelineProofs {
  import opened Bytes
  import opened Coding
  import opened Sequences
  import opened Pipeline

  // ---------- refinement: lookups see the last push ----------

  lemma {:induction false} OverlayOfRuns(lists: seq<List>, runs: seq<seq<MemEntry>>)
    requires ListsAreRuns(lists, runs)
    ensures Overlay(lists) == Fold(Flatten(runs))
  {
    if lists == [] {
    } else {
      var last := |lists| - 1;
      OverlayOfRuns(lists[..last], runs[..last]);
      FoldConcat(Flatten(runs[..last]), runs[last]);
    }
  }

  /** The map a writer's pushes define, layer by layer. */
  lemma PushedLayers(x: Writer, key: bytes)
    ensures Get(Fold(Pushed(x)), key) ==
            OrElse(Get(Fold(x.queue), key),
                   OrElse(Get(Fold(x.activeRun), key),
                          OrElse(Get(Fold(Flatten(x.frozenRuns)), key), Get(Fold(x.tabled), key))))
  {
    FoldConcat(x.tabled + Flatten(x.frozenRuns) + x.activeRun, x.queue);
    FoldConcat(x.tabled + Flatten(x.frozenRuns), x.activeRun);
    FoldConcat(x.tabled, Flatten(x.frozenRuns));
  }

  /** In memory a reader sees the newest entry not yet in a table. */
  lemma FindInMemoryIsFold(x: Writer, w: nat, key: bytes)
    requires WriterInv(x, w)
    ensures FindInMemory(x, key) == OrElse(Get(Fold(x.queue), key),
                                           OrElse(Get(Fold(x.activeRun), key), Get(Fold(Flatten(x.frozenRuns)), key)))
  {
    ScanQueueIsFold(x.queue, key);
    ScanListsIsOverlay(x.frozen, key);
    OverlayOfRuns(x.frozen, x.frozenRuns);
  }

  /** The pipeline refines one last-push-wins map per writer: for every key, the newest-first scan
      over queue, active list, frozen lists and tables finds the last entry pushed. */
  lemma FindsLastPush(s: State, key: bytes)
    requires Inv(s)
    ensures Find(s, key) == Get(Fold(Pushed(s.writers[Owner(key)])), key)
  {
    var w := Owner(key);
    FindInMemoryIsFold(s.writers[w], w, key);
    PushedLayers(s.writers[w], key);
    ScanListsIsOverlay(s.tables, key);
    assert TablesInv(s.tables, s.writers[w], w);
  }

  // ---------- every step keeps the invariant ----------

  lemma NewWriterInv(w: nat)
    ensures WriterInv(NewWriter(), w)
  {
  }

  lemma InitInv()
    ensures Inv(Init())
  {
    hide WriterInv;
    forall w | 0 <= w < MAX_WRITER
      ensures WriterInv(Init().writers[w], w)
    {
      NewWriterInv(w);
    }
  }

  lemma LogRecordKeepsInv(x: Writer, w: nat, e: MemEntry)
    requires WriterInv(x, w) && x.inflight == None && Owner(e.key) == w
    requires forall y :: y in x.log ==> y.seqNum != e.seqNum
    ensures WriterInv(x.(log := x.log + [e], inflight := Some(e)), w)
  {
    hide Fold, Flatten, Subsequence;
    var x' := x.(log := x.log + [e], inflight := Some(e));
    SubsequencePush(Kept(x), x.log, e);
    assert Kept(x') == Kept(x) + [e];
  }

  lemma EnqueueKeepsInv(x: Writer, w: nat)
    requires WriterInv(x, w) && x.inflight.Some? && |x.queue| < QUEUE_SIZE
    ensures var x' := x.(queue := x.queue + [x.inflight.value], inflight := None);
            WriterInv(x', w) && Pushed(x') == Pushed(x) + [x.inflight.value]
  {
    var x' := x.(queue := x.queue + [x.inflight.value], inflight := None);
    assert Pushed(x') == Pushed(x) + [x.inflight.value];
    assert Kept(x') == Kept(x);
  }

  lemma InsertKeepsInv(x: Writer, w: nat)
    requires WriterInv(x, w) && x.queue != []
    ensures WriterInv(InsertFront(x), w) && Pushed(InsertFront(x)) == Pushed(x)
  {
    assert x.queue == [x.queue[0]] + x.queue[1..];
    assert Pushed(InsertFront(x)) == Pushed(x);
    FoldPush(x.activeRun, x.queue[0]);
  }

  lemma FreezeKeepsInv(x: Writer, w: nat)
    requires WriterInv(x, w)
    ensures WriterInv(FreezeActive(x), w) && Pushed(FreezeActive(x)) == Pushed(x)
  {
    hide Fold, Distinct, Owned, Flatten;
    FlattenPush(x.frozenRuns, x.activeRun);
    NothingFolds();
    assert Pushed(FreezeActive(x)) == Pushed(x);
  }

  lemma NothingFolds()
    ensures Fold([]) == map[] && Flatten<MemEntry>([]) == []
  {
  }

  /** What comes after the frozen lists. */
  function Newer(x: Writer): seq<MemEntry> {
    x.activeRun + x.queue + if x.inflight.Some? then [x.inflight.value] else []
  }

  lemma KeptByLayer(x: Writer)
    ensures Kept(x) == x.tabled + Flatten(x.frozenRuns) + Newer(x)
  {
    hide Flatten;
  }

  /** A swap leaves out the lists frozen since the merge; without such lists it keeps everything. */
  lemma DropKeepsInv(x: Writer, w: nat, count: nat)
    requires WriterInv(x, w) && count <= |x.frozenRuns|
    ensures WriterInv(DropLists(x, count), w)
    ensures count == |x.frozen| ==> Pushed(DropLists(x, count)) == Pushed(x)
  {
    hide Fold, Flatten, Subsequence, Distinct, Owned, Kept, Newer;
    var x' := DropLists(x, count);
    var early, late := Flatten(x.frozenRuns[..count]), Flatten(x.frozenRuns[count..]);
    KeptByLayer(x);
    KeptByLayer(x');
    FlattenSplit(x.frozenRuns, count);
    NothingFolds();
    SameNewer(x, x');
    assert Kept(x) == (x.tabled + early) + late + Newer(x);
    SubsequenceDrop(x.tabled + early, late, Newer(x), x.log);
    assert Kept(x') == (x.tabled + early) + Newer(x);
    if count == |x.frozen| {
      assert x.frozenRuns[..count] == x.frozenRuns;
      assert Pushed(x') == Pushed(x);
    }
  }

  lemma SameNewer(x: Writer, y: Writer)
    requires x.activeRun == y.activeRun && x.queue == y.queue && x.inflight == y.inflight
    ensures Newer(x) == Newer(y)
  {
  }

  /** Freezing appends, so an unfinished compaction still has its lists. */
  lemma FreezeKeepsMerge(m: Merge, x: Writer, w: nat)
    requires MergeInv(m, x, w)
    ensures MergeInv(m, FreezeActive(x), w)
  {
    var c := m.counts[w];
    assert (x.frozenRuns + [x.activeRun])[..c] == x.frozenRuns[..c];
  }

  /** Keys live only in the lists of the writer that their hash selects. */
  ghost predicate ListsOwned(lists: seq<List>, w: nat) {
    forall j, key :: 0 <= j < |lists| && key in lists[j] ==> Owner(key) == w
  }

  /** Lists of other writers never hold a key, so the merge of all writers agrees with the owner's
      own newest-first scan: what MergeIterator emits is what Version::Get finds. */
  lemma {:induction false} MergeAgreesWithScan(ws: seq<Writer>, n: nat, key: bytes)
    requires n <= |ws|
    requires forall w :: 0 <= w < |ws| ==> ListsOwned(ws[w].frozen, w)
    ensures Get(MergeAll(ws[..n]), key) ==
            if Owner(key) < n then ScanLists(ws[Owner(key)].frozen, key) else None
  {
    hide Owner;
    if n == 0 {
    } else {
      MergeAgreesWithScan(ws, n - 1, key);
      assert ws[..n][..n - 1] == ws[..n - 1];
      ScanListsIsOverlay(ws[n - 1].frozen, key);
      if Owner(key) != n - 1 {
        OnlyOwnedKeys(ws[n - 1].frozen, n - 1, key);
      }
    }
  }

  lemma {:induction false} OnlyOwnedKeys(lists: seq<List>, w: nat, key: bytes)
    requires ListsOwned(lists, w) && Owner(key) != w
    ensures key !in Overlay(lists)
  {
    hide Owner;
    if lists == [] {
    } else {
      OnlyOwnedKeys(lists[..|lists| - 1], w, key);
    }
  }

  /** Every reachable writer's lists are its own. */
  lemma FrozenOwned(x: Writer, w: nat)
    requires WriterInv(x, w)
    ensures ListsOwned(x.frozen, w)
  {
    hide Owner, Fold, Flatten, Subsequence, Distinct;
    forall j, key | 0 <= j < |x.frozen| && key in x.frozen[j]
      ensures Owner(key) == w
    {
      FoldMember(x.frozenRuns[j], key);
      var e := Fold(x.frozenRuns[j])[key];
      FlattenMember(x.frozenRuns, e);
      assert e in Kept(x);
      SubsequenceMember(Kept(x), x.log, e);
    }
  }

  lemma MergeListsKeepsInv(s: State, w: nat)
    requires Inv(s) && Enabled(s, MergeLists) && w < MAX_WRITER
    ensures MergeInv(Next(s, MergeLists).merge.value, s.writers[w], w)
  {
    var x := s.writers[w];
    assert WriterInv(x, w);
    assert x.frozenRuns[..|x.frozenRuns|] == x.frozenRuns && s.writers[..MAX_WRITER] == s.writers;
    forall v | 0 <= v < MAX_WRITER
      ensures ListsOwned(s.writers[v].frozen, v)
    {
      assert WriterInv(s.writers[v], v);
      FrozenOwned(s.writers[v], v);
    }
    forall key | Owner(key) == w
      ensures Get(MergeAll(s.writers), key) == Get(Fold(Flatten(x.frozenRuns)), key)
    {
      MergeAgreesWithScan(s.writers, MAX_WRITER, key);
      ScanListsIsOverlay(x.frozen, key);
      OverlayOfRuns(x.frozen, x.frozenRuns);
    }
  }

  /** The new table goes over the older ones. */
  lemma SwapKeepsTables(s: State, w: nat)
    requires Inv(s) && s.merge.Some? && w < MAX_WRITER
    ensures var x := s.writers[w];
            TablesInv(s.tables + [s.merge.value.table], DropLists(x, s.merge.value.counts[w]), w)
  {
    var x, m := s.writers[w], s.merge.value;
    assert WriterInv(x, w) && TablesInv(s.tables, x, w) && MergeInv(m, x, w);
    var run := Flatten(x.frozenRuns[..m.counts[w]]);
    var tables := s.tables + [m.table];
    assert tables[..|s.tables|] == s.tables;
    FoldConcat(x.tabled, run);
    forall key | Owner(key) == w
      ensures Get(Overlay(tables), key) == Get(Fold(x.tabled + run), key)
    {
      assert Get(m.table, key) == Get(Fold(run), key);
      assert Get(Overlay(s.tables), key) == Get(Fold(x.tabled), key);
    }
  }

  /** A step of one writer that leaves its tabled history alone. */
  lemma WriterStepKeepsInv(s: State, w: nat, x: Writer)
    requires Inv(s) && w < MAX_WRITER && WriterInv(x, w) && x.tabled == s.writers[w].tabled
    requires s.merge.Some? ==> MergeInv(s.merge.value, x, w)
    ensures Inv(s.(writers := s.writers[w := x]))
  {
    hide WriterInv, MergeInv;
    var s' := s.(writers := s.writers[w := x]);
    forall v | 0 <= v < MAX_WRITER
      ensures WriterInv(s'.writers[v], v) && TablesInv(s'.tables, s'.writers[v], v)
      ensures s'.merge.Some? ==> MergeInv(s'.merge.value, s'.writers[v], v)
    {
      assert WriterInv(s.writers[v], v) && TablesInv(s.tables, s.writers[v], v);
    }
  }

  /** What a step does to the writer it belongs to. */
  function StepWriter(x: Writer, step: Step): Writer
    requires step.Enqueue? ==> x.inflight.Some?
    requires step.Insert? ==> x.queue != []
  {
    match step
    case LogRecord(w, e) => x.(log := x.log + [e], inflight := Some(e))
    case Enqueue(w) => x.(queue := x.queue + [x.inflight.value], inflight := None)
    case Insert(w) => InsertFront(x)
    case Freeze(w) => FreezeActive(x)
    case Block(w) => x.(gate := Waiting)
    case _ => x
  }

  /** A writer's own step keeps its invariant, its compacted lists and, but for Enqueue, its history. */
  lemma StepWriterKeeps(s: State, step: Step)
    requires Inv(s) && Enabled(s, step) && !step.MergeLists? && !step.Swap?
    ensures var w := step.w;
            var x, x' := s.writers[w], StepWriter(s.writers[w], step);
            && Next(s, step) == s.(writers := s.writers[w := x'])
            && WriterInv(x', w) && x'.tabled == x.tabled
            && (s.merge.Some? ==> MergeInv(s.merge.value, x', w))
            && Pushed(x') == Pushed(x) + if step.Enqueue? then [x.inflight.value] else []
  {
    hide Pushed, Fold, Flatten;
    var w := step.w;
    var x := s.writers[w];
    assert WriterInv(x, w);
    assert s.merge.Some? ==> MergeInv(s.merge.value, x, w);
    assert Pushed(x) + [] == Pushed(x);
    match step {
      case LogRecord(_, e) =>
        LogRecordKeepsInv(x, w, e);
        SamePushed(x, StepWriter(x, step));
      case Enqueue(_) =>
        EnqueueKeepsInv(x, w);
      case Insert(_) =>
        InsertKeepsInv(x, w);
      case Freeze(_) =>
        FreezeKeepsInv(x, w);
        if s.merge.Some? {
          FreezeKeepsMerge(s.merge.value, x, w);
        }
      case Block(_) =>
        SamePushed(x, x.(gate := Waiting));
    }
  }

  lemma SamePushed(x: Writer, y: Writer)
    requires x.tabled == y.tabled && x.frozenRuns == y.frozenRuns && x.activeRun == y.activeRun && x.queue == y.queue
    ensures Pushed(x) == Pushed(y)
  {
  }

  lemma SwapKeepsInv(s: State)
    requires Inv(s) && Enabled(s, Swap)
    ensures Inv(Next(s, Swap))
    ensures !Lossy(s, Swap) ==>
              forall w :: 0 <= w < MAX_WRITER ==> Pushed(Next(s, Swap).writers[w]) == Pushed(s.writers[w])
  {
    hide Pushed, TablesInv;
    var s' := Next(s, Swap);
    forall w | 0 <= w < MAX_WRITER
      ensures WriterInv(s'.writers[w], w) && TablesInv(s'.tables, s'.writers[w], w)
      ensures !Lossy(s, Swap) ==> Pushed(s'.writers[w]) == Pushed(s.writers[w])
    {
      assert WriterInv(s.writers[w], w) && MergeInv(s.merge.value, s.writers[w], w);
      assert !Lossy(s, Swap) ==> s.merge.value.counts[w] == |s.writers[w].frozen|;
      DropKeepsInv(s.writers[w], w, s.merge.value.counts[w]);
      SwapKeepsTables(s, w);
    }
  }

  /** Every step keeps the invariant, also a swap that drops lists. */
  lemma StepKeepsInv(s: State, step: Step)
    requires Inv(s) && Enabled(s, step)
    ensures Inv(Next(s, step))
  {
    hide WriterInv, TablesInv, MergeInv, StepWriter;
    match step {
      case MergeLists =>
        forall w | 0 <= w < MAX_WRITER
          ensures MergeInv(Next(s, step).merge.value, s.writers[w], w)
        {
          MergeListsKeepsInv(s, w);
        }
      case Swap =>
        SwapKeepsInv(s);
      case _ =>
        StepWriterKeeps(s, step);
        WriterStepKeepsInv(s, step.w, StepWriter(s.writers[step.w], step));
    }
  }

  /** Only Enqueue extends what has been pushed, by the entry already in the log; moving entries
      between layers leaves every writer's history as it was. */
  lemma StepKeepsHistory(s: State, step: Step, w: nat)
    requires Inv(s) && Enabled(s, step) && !Lossy(s, step) && w < MAX_WRITER
    ensures Pushed(Next(s, step).writers[w]) ==
            Pushed(s.writers[w]) + if step == Enqueue(w) then [s.writers[w].inflight.value] else []
  {
    hide WriterInv, TablesInv, MergeInv, StepWriter, Pushed;
    match step {
      case MergeLists =>
      case Swap =>
        SwapKeepsInv(s);
      case _ =>
        StepWriterKeeps(s, step);
    }
  }

  /** No step but Enqueue changes what any lookup finds. */
  lemma MovesAreInvisible(s: State, step: Step, key: bytes)
    requires Inv(s) && Enabled(s, step) && !Lossy(s, step) && !step.Enqueue?
    ensures Find(Next(s, step), key) == Find(s, key)
  {
    hide Enabled, Next, Find, Pushed, Fold, Lossy;
    var x := s.writers[Owner(key)];
    assert Pushed(x) + [] == Pushed(x);
    StepKeepsInv(s, step);
    StepKeepsHistory(s, step, Owner(key));
    FindsLastPush(s, key);
    FindsLastPush(Next(s, step), key);
  }
}
