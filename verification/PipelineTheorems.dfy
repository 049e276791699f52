/** Whole runs of the pipeline: what lookups see, what the log holds, what a compaction can lose. */
module PipelineTheorems {
  import opened Bytes
  import opened Coding
  import opened Sequences
  import opened Pipeline
  import opened PipelineProofs

  // ---------- runs ----------

  predicate CanRun(s: State, steps: seq<Step>)
    decreases |steps|
  {
    steps != [] ==> Enabled(s, steps[0]) && CanRun(Next(s, steps[0]), steps[1..])
  }

  function Run(s: State, steps: seq<Step>): State
    requires CanRun(s, steps)
    decreases |steps|
  {
    if steps == [] then s else Run(Next(s, steps[0]), steps[1..])
  }

  /** No list is frozen between a compaction's merge and its swap. */
  predicate Lossless(s: State, steps: seq<Step>)
    requires CanRun(s, steps)
    decreases |steps|
  {
    steps != [] ==> !Lossy(s, steps[0]) && Lossless(Next(s, steps[0]), steps[1..])
  }

  /** The entries a run pushes to writer `w`, read off the steps alone: each LogRecord's entry once
      its Enqueue has happened. */
  function Accepted(steps: seq<Step>, w: nat, pending: Option<MemEntry>): seq<MemEntry> {
    if steps == [] then []
    else match steps[0]
      case LogRecord(v, e) => Accepted(steps[1..], w, if v == w then Some(e) else pending)
      case Enqueue(v) =>
        if v == w && pending.Some? then [pending.value] + Accepted(steps[1..], w, None)
        else Accepted(steps[1..], w, pending)
      case _ => Accepted(steps[1..], w, pending)
  }

  lemma {:induction false} RunKeepsHistory(s: State, steps: seq<Step>, w: nat)
    requires Inv(s) && CanRun(s, steps) && Lossless(s, steps) && w < MAX_WRITER
    ensures Inv(Run(s, steps))
    ensures Pushed(Run(s, steps).writers[w]) == Pushed(s.writers[w]) + Accepted(steps, w, s.writers[w].inflight)
    decreases |steps|
  {
    hide WriterInv, TablesInv, MergeInv, Pushed, Lossy, Owner, ListCount, MergeAll, Flatten;
    if steps == [] {
      assert Pushed(s.writers[w]) + [] == Pushed(s.writers[w]);
    } else {
      var step, x := steps[0], s.writers[w];
      var s' := Next(s, step);
      StepKeepsInv(s, step);
      StepKeepsHistory(s, step, w);
      RunKeepsHistory(s', steps[1..], w);
      assert Pushed(x) + [] == Pushed(x);
      if step == Enqueue(w) {
        assert Pushed(x) + [x.inflight.value] + Accepted(steps[1..], w, None)
            == Pushed(x) + ([x.inflight.value] + Accepted(steps[1..], w, None));
      }
      assert step != Enqueue(w) ==>
          s'.writers[w].inflight == if step.LogRecord? && step.w == w then Some(step.e) else x.inflight;
    }
  }

  /** In every state a lossless run reaches, a lookup finds the last entry the run pushed under the
      key, wherever that entry has moved to. */
  lemma LookupsSeeLastPush(steps: seq<Step>, key: bytes)
    requires CanRun(Init(), steps) && Lossless(Init(), steps)
    ensures Inv(Run(Init(), steps))
    ensures Find(Run(Init(), steps), key) == Get(Fold(Accepted(steps, Owner(key), None)), key)
  {
    InitInv();
    RunKeepsHistory(Init(), steps, Owner(key));
    FindsLastPush(Run(Init(), steps), key);
    var none: seq<MemEntry> := [];
    assert Pushed(NewWriter()) == none;
    assert none + Accepted(steps, Owner(key), None) == Accepted(steps, Owner(key), None);
  }

  // ---------- every run, lossy or not ----------

  lemma {:induction false} RunKeepsInv(s: State, steps: seq<Step>)
    requires Inv(s) && CanRun(s, steps)
    ensures Inv(Run(s, steps))
    decreases |steps|
  {
    hide Inv, Enabled, Next;
    if steps == [] {
    } else {
      StepKeepsInv(s, steps[0]);
      RunKeepsInv(Next(s, steps[0]), steps[1..]);
    }
  }

  function Pending(x: Writer): seq<MemEntry> {
    if x.inflight.Some? then [x.inflight.value] else []
  }

  /** The log gains exactly the entries accepted, whatever swaps do meanwhile. */
  lemma {:induction false} RunLogs(s: State, steps: seq<Step>, w: nat, before: seq<MemEntry>)
    requires CanRun(s, steps) && w < |s.writers| && s.writers[w].log == before + Pending(s.writers[w])
    ensures w < |Run(s, steps).writers|
    ensures var y := Run(s, steps).writers[w];
            y.log == before + Accepted(steps, w, s.writers[w].inflight) + Pending(y)
    decreases |steps|
  {
    hide Lossy, Owner, ListCount, MergeAll, Flatten;
    if steps == [] {
      assert before + [] == before;
    } else {
      var step, x := steps[0], s.writers[w];
      var s' := Next(s, step);
      if step == Enqueue(w) {
        var e := x.inflight.value;
        RunLogs(s', steps[1..], w, before + [e]);
        assert before + [e] + Accepted(steps[1..], w, None) == before + ([e] + Accepted(steps[1..], w, None));
      } else {
        StepLogs(s, step, w, before);
        RunLogs(s', steps[1..], w, before);
      }
    }
  }

  lemma StepLogs(s: State, step: Step, w: nat, before: seq<MemEntry>)
    requires Enabled(s, step) && step != Enqueue(w)
    requires w < |s.writers| && s.writers[w].log == before + Pending(s.writers[w])
    ensures w < |Next(s, step).writers|
    ensures var y := Next(s, step).writers[w];
            && y.log == before + Pending(y)
            && y.inflight == if step.LogRecord? && step.w == w then Some(step.e) else s.writers[w].inflight
  {
    hide Owner, ListCount, MergeAll, Flatten;
  }

  /** In every reachable state a writer's log is exactly what was accepted for it, then at most the one
      entry logged but not yet queued. */
  lemma LogCoversHistory(steps: seq<Step>, w: nat)
    requires CanRun(Init(), steps) && w < MAX_WRITER
    ensures Inv(Run(Init(), steps))
    ensures var x := Run(Init(), steps).writers[w]; x.log == Accepted(steps, w, None) + Pending(x)
  {
    hide Run, CanRun, Accepted, Inv;
    InitInv();
    RunKeepsInv(Init(), steps);
    RunLogs(Init(), steps, w, []);
    var es := Accepted(steps, w, None);
    assert [] + es == es;
  }

  /** So replaying the log recovers every key's last push in every reachable state, also after swaps that
      lost it, extended by at most the entry in flight. */
  lemma ReplayRecovers(steps: seq<Step>, key: bytes)
    requires CanRun(Init(), steps)
    ensures Inv(Run(Init(), steps))
    ensures var x := Run(Init(), steps).writers[Owner(key)];
            Get(Fold(x.log), key) ==
            if x.inflight.Some? && x.inflight.value.key == key then x.inflight
            else Get(Fold(Accepted(steps, Owner(key), None)), key)
  {
    hide Run, CanRun, Accepted, Owner, Fold;
    LogCoversHistory(steps, Owner(key));
    var es := Accepted(steps, Owner(key), None);
    var x := Run(Init(), steps).writers[Owner(key)];
    if x.inflight.Some? {
      FoldPush(es, x.inflight.value);
    } else {
      assert es + [] == es;
    }
  }

  lemma LastIsNew(es: seq<MemEntry>, e: MemEntry)
    requires Distinct(es + [e])
    ensures e !in es
  {
    var all := es + [e];
    forall i | 0 <= i < |es|
      ensures es[i] != e
    {
      assert all[i].seqNum != all[|es|].seqNum;
    }
  }

  lemma NotLeft(a: seq<MemEntry>, b: seq<MemEntry>, e: MemEntry)
    requires Subsequence(a, b) && e !in b
    ensures e !in a
  {
    if e in a {
      SubsequenceMember(a, b, e);
    }
  }

  /** Among distinct entries, a subsequence shows the same last entry of a key if and only if it still has
      that entry. */
  lemma {:induction false} SubsequenceShows(a: seq<MemEntry>, b: seq<MemEntry>, key: bytes)
    requires Subsequence(a, b) && Distinct(b)
    ensures Get(Fold(a), key) == Get(Fold(b), key) <==> (key in Fold(b) ==> Fold(b)[key] in a)
    decreases |b|
  {
    FoldMember(a, key);
    if a == [] || b == [] {
    } else {
      var e, rest, front := b[|b| - 1], b[..|b| - 1], a[..|a| - 1];
      assert b == rest + [e] && a == front + [a[|a| - 1]];
      FoldMember(rest, key);
      if a[|a| - 1] == e && Subsequence(front, rest) {
        SubsequenceShows(front, rest, key);
      } else {
        SubsequenceShows(a, rest, key);
        LastIsNew(rest, e);
        NotLeft(a, rest, e);
      }
    }
  }

  /** In every reachable state, a lookup finds the last entry accepted for its key if and only if no swap
      has dropped that entry. */
  lemma LookupIsExact(steps: seq<Step>, key: bytes)
    requires CanRun(Init(), steps)
    ensures Inv(Run(Init(), steps))
    ensures var s := Run(Init(), steps);
            var last := Get(Fold(Accepted(steps, Owner(key), None)), key);
            Find(s, key) == last <==> (last.Some? ==> last.value in Pushed(s.writers[Owner(key)]))
  {
    hide Run, CanRun, Accepted, Find, Owner, Pushed, Fold;
    LogCoversHistory(steps, Owner(key));
    var s := Run(Init(), steps);
    var x, es := s.writers[Owner(key)], Accepted(steps, Owner(key), None);
    assert WriterInv(x, Owner(key));
    hide Inv, WriterInv, Subsequence;
    FindsLastPush(s, key);
    WithoutPending(Pushed(x), es, x.inflight);
    SubsequenceShows(Pushed(x), es, key);
  }

  lemma WithoutPending(a: seq<MemEntry>, b: seq<MemEntry>, pending: Option<MemEntry>)
    requires var p := if pending.Some? then [pending.value] else []; Subsequence(a + p, b + p) && Distinct(b + p)
    ensures Subsequence(a, b) && Distinct(b)
  {
    if pending.Some? {
      var f := pending.value;
      assert (a + [f])[..|a|] == a && (b + [f])[..|b|] == b;
      assert Distinct(b) by {
        assert forall i :: 0 <= i < |b| ==> (b + [f])[i] == b[i];
      }
      LastIsNew(b, f);
      if !Subsequence(a, b) {
        assert f in a + [f];
        SubsequenceMember(a + [f], b, f);
      }
    } else {
      assert a + [] == a && b + [] == b;
    }
  }

  // ---------- what a swap can lose ----------

  /** Keys of the lists frozen after the table was built. */
  predicate InLateLists(x: Writer, count: nat, key: bytes) {
    count <= |x.frozen| && ScanLists(x.frozen[count..], key).Some?
  }

  /** The queue or the active list still covers the key. */
  predicate Covered(x: Writer, key: bytes) {
    ScanQueue(x.queue, key).Some? || key in x.active
  }

  /** Entries from two stretches of one log differ. */
  lemma StretchesDiffer(log: seq<MemEntry>, a: seq<MemEntry>, b: seq<MemEntry>, c: seq<MemEntry>, e: MemEntry,
                        f: MemEntry)
    requires Distinct(log) && log == a + b + c && e in a && f in b
    ensures e != f
  {
    var i :| 0 <= i < |a| && a[i] == e;
    var j :| 0 <= j < |b| && b[j] == f;
    assert log[i] == e && log[|a| + j] == f;
  }

  /** A lookup with the frozen lists split into those in the table being built and later ones. */
  lemma FindBySplit(s: State, key: bytes, c: nat)
    requires Inv(s) && c <= |s.writers[Owner(key)].frozenRuns|
    ensures var x := s.writers[Owner(key)];
            Find(s, key) ==
            OrElse(Get(Fold(x.queue), key),
                   OrElse(Get(x.active, key),
                          OrElse(Get(Fold(Flatten(x.frozenRuns[c..])), key),
                                 OrElse(Get(Fold(Flatten(x.frozenRuns[..c])), key), Get(Fold(x.tabled), key)))))
  {
    hide Fold, Flatten, Find;
    var x := s.writers[Owner(key)];
    assert WriterInv(x, Owner(key));
    FindsLastPush(s, key);
    PushedLayers(x, key);
    FlattenSplit(x.frozenRuns, c);
    FoldConcat(Flatten(x.frozenRuns[..c]), Flatten(x.frozenRuns[c..]));
  }

  lemma {:induction false} SubsequenceDistinct(a: seq<MemEntry>, b: seq<MemEntry>)
    requires Subsequence(a, b) && Distinct(b)
    ensures Distinct(a)
    decreases |b|
  {
    if a == [] || b == [] {
    } else {
      var e, rest, front := b[|b| - 1], b[..|b| - 1], a[..|a| - 1];
      assert forall i :: 0 <= i < |rest| ==> rest[i] == b[i];
      if a[|a| - 1] == e && Subsequence(front, rest) {
        SubsequenceDistinct(front, rest);
        forall i | 0 <= i < |front|
          ensures a[i].seqNum != e.seqNum
        {
          SubsequenceMember(front, rest, front[i]);
          var j :| 0 <= j < |rest| && rest[j] == front[i];
          assert b[j].seqNum != b[|b| - 1].seqNum;
        }
      } else {
        SubsequenceDistinct(a, rest);
      }
    }
  }

  /** No entry of a late list equals one from before the split. */
  lemma LateEntriesDiffer(x: Writer, w: nat, c: nat, key: bytes)
    requires WriterInv(x, w) && c <= |x.frozenRuns|
    requires Get(Fold(Flatten(x.frozenRuns[c..])), key).Some?
    ensures Get(Fold(Flatten(x.frozenRuns[c..])), key) !=
            OrElse(Get(Fold(Flatten(x.frozenRuns[..c])), key), Get(Fold(x.tabled), key))
  {
    hide Fold, Flatten;
    var early, late := Flatten(x.frozenRuns[..c]), Flatten(x.frozenRuns[c..]);
    FlattenSplit(x.frozenRuns, c);
    FoldMember(late, key);
    FoldMember(early, key);
    FoldMember(x.tabled, key);
    var older := OrElse(Get(Fold(early), key), Get(Fold(x.tabled), key));
    if older.Some? {
      var before := x.tabled + early;
      KeptByLayer(x);
      SubsequenceDistinct(Kept(x), x.log);
      assert Kept(x) == before + late + Newer(x);
      assert older.value in before;
      StretchesDiffer(Kept(x), before, late, Newer(x), older.value, Fold(late)[key]);
    }
  }

  /** A swap changes what a lookup of `key` finds exactly when a late list holds the key and nothing
      newer covers it. */
  lemma SwapAtKey(s: State, key: bytes)
    requires Inv(s) && Enabled(s, Swap)
    ensures var x := s.writers[Owner(key)];
            Find(Next(s, Swap), key) == Find(s, key) <==>
            (InLateLists(x, s.merge.value.counts[Owner(key)], key) ==> Covered(x, key))
  {
    hide Fold, Flatten, Find, Next;
    var w := Owner(key);
    var x, m := s.writers[w], s.merge.value;
    var c := m.counts[w];
    assert WriterInv(x, w) && MergeInv(m, x, w);
    FindBySplit(s, key, c);
    FindAfterSwap(s, key);
    ScanListsIsOverlay(x.frozen[c..], key);
    OverlayOfRuns(x.frozen[c..], x.frozenRuns[c..]);
    ScanQueueIsFold(x.queue, key);
    if Get(Fold(Flatten(x.frozenRuns[c..])), key).Some? {
      LateEntriesDiffer(x, w, c, key);
    }
  }

  lemma FindAfterSwap(s: State, key: bytes)
    requires Inv(s) && Enabled(s, Swap)
    ensures var x, m := s.writers[Owner(key)], s.merge.value;
            Find(Next(s, Swap), key) ==
            OrElse(Get(Fold(x.queue), key),
                   OrElse(Get(x.active, key),
                          OrElse(Get(Fold(Flatten(x.frozenRuns[..m.counts[Owner(key)]])), key),
                                 Get(Fold(x.tabled), key))))
  {
    var w := Owner(key);
    var x, m, s' := s.writers[w], s.merge.value, Next(s, Swap);
    assert WriterInv(x, w) && MergeInv(m, x, w) && TablesInv(s.tables, x, w);
    ScanQueueIsFold(x.queue, key);
    ScanListsIsOverlay(s.tables, key);
    assert s'.tables[..|s.tables|] == s.tables;
    assert s'.writers[w].frozen == [];
  }

  /** The compaction step is invisible to all lookups if and only if every key in a list frozen
      since the merge has been pushed again and is still queued or active. */
  lemma SwapIsInvisibleExactly(s: State)
    requires Inv(s) && Enabled(s, Swap)
    ensures (forall key :: Find(Next(s, Swap), key) == Find(s, key)) <==>
            (forall key :: var x := s.writers[Owner(key)];
              InLateLists(x, s.merge.value.counts[Owner(key)], key) ==> Covered(x, key))
  {
    forall key
      ensures var x := s.writers[Owner(key)];
              Find(Next(s, Swap), key) == Find(s, key) <==>
              (InLateLists(x, s.merge.value.counts[Owner(key)], key) ==> Covered(x, key))
    {
      SwapAtKey(s, key);
    }
  }

  // ---------- deletions ----------

  /** What a reader concludes: a tombstone in memory hides the key, but a table row carries only a
      key and a value. */
  function Visible(s: State, key: bytes): Option<bytes>
    requires |s.writers| == MAX_WRITER
  {
    match FindInMemory(s.writers[Owner(key)], key)
    case Some(e) => if e.deleted then None else Some(e.value)
    case None =>
      match ScanLists(s.tables, key)
      case Some(row) => Some(row.value)
      case None => None
  }

  /** What the pushes say. */
  function Live(es: seq<MemEntry>, key: bytes): Option<bytes> {
    match Get(Fold(es), key)
    case Some(e) => if e.deleted then None else Some(e.value)
    case None => None
  }

  /** A key reads as the pushes say exactly when its last push is not a deletion that memory has
      already let go of. */
  lemma DeletionsLiveInMemory(s: State, key: bytes)
    requires Inv(s)
    ensures var x := s.writers[Owner(key)];
            Visible(s, key) == Live(Pushed(x), key) <==>
            !(FindInMemory(x, key) == None && ScanLists(s.tables, key).Some? && ScanLists(s.tables, key).value.deleted)
  {
    FindsLastPush(s, key);
  }

  /** A lossless swap changes no visible value if and only if each tombstone in the new table is
      still overlaid by a queued or active entry: compaction turns the others into present keys. */
  lemma SwapKeepsVisibleExactly(s: State)
    requires Inv(s) && Enabled(s, Swap) && !Lossy(s, Swap)
    ensures (forall key :: Visible(Next(s, Swap), key) == Visible(s, key)) <==>
            (forall key :: key in s.merge.value.table && s.merge.value.table[key].deleted ==>
              Covered(s.writers[Owner(key)], key))
  {
    forall key
      ensures Visible(Next(s, Swap), key) == Visible(s, key) <==>
              (key in s.merge.value.table && s.merge.value.table[key].deleted ==> Covered(s.writers[Owner(key)], key))
    {
      VisibleAfterSwap(s, key);
    }
  }

  lemma VisibleAfterSwap(s: State, key: bytes)
    requires Inv(s) && Enabled(s, Swap) && !Lossy(s, Swap)
    ensures Visible(Next(s, Swap), key) == Visible(s, key) <==>
            (key in s.merge.value.table && s.merge.value.table[key].deleted ==> Covered(s.writers[Owner(key)], key))
  {
    LosslessSwapLayers(s, key);
    hide Next, Inv, Enabled, ScanQueue, ScanLists, Owner;
  }

  /** The owner's frozen layer moves on top of the tables; nothing above it changes. */
  lemma LosslessSwapLayers(s: State, key: bytes)
    requires Inv(s) && Enabled(s, Swap) && !Lossy(s, Swap)
    ensures var x, m, s' := s.writers[Owner(key)], s.merge.value, Next(s, Swap);
            var x' := s'.writers[Owner(key)];
            && x'.queue == x.queue && x'.active == x.active && ScanLists(x'.frozen, key) == None
            && ScanLists(x.frozen, key) == Get(m.table, key)
            && ScanLists(s'.tables, key) == OrElse(Get(m.table, key), ScanLists(s.tables, key))
  {
    hide Fold, Flatten, Pushed, MergeAll, Owned, Distinct;
    var w := Owner(key);
    var x, m, s' := s.writers[w], s.merge.value, Next(s, Swap);
    assert WriterInv(x, w) && MergeInv(m, x, w);
    assert m.counts[w] == |x.frozen| && x.frozenRuns[..|x.frozen|] == x.frozenRuns;
    ScanListsIsOverlay(x.frozen, key);
    OverlayOfRuns(x.frozen, x.frozenRuns);
    assert s'.tables[..|s.tables|] == s.tables;
  }

  // ---------- the frozen-list bound ----------

  /** Lists in the current version, plus woken writers that will append without checking again. */
  ghost predicate Bounded(s: State) {
    |s.writers| == MAX_WRITER && ListCount(s.writers) + WokenCount(s.writers) <= MAX_FROZEN_LIST + MAX_WRITER - 1
  }

  function Awake(x: Writer): nat {
    if x.gate == Woken then 1 else 0
  }

  lemma {:induction false} CountsUpdate(ws: seq<Writer>, w: nat, x: Writer)
    requires w < |ws|
    ensures ListCount(ws[w := x]) == ListCount(ws) - |ws[w].frozen| + |x.frozen|
    ensures WokenCount(ws[w := x]) == WokenCount(ws) - Awake(ws[w]) + Awake(x)
  {
    var last := |ws| - 1;
    if w == last {
      assert ws[w := x][..last] == ws[..last];
    } else {
      assert ws[w := x][..last] == ws[..last][w := x];
      CountsUpdate(ws[..last], w, x);
    }
  }

  lemma {:induction false} WokenAtMost(ws: seq<Writer>)
    ensures WokenCount(ws) <= |ws|
    ensures (exists w :: 0 <= w < |ws| && ws[w].gate != Woken) ==> WokenCount(ws) < |ws|
  {
    if ws == [] {
    } else {
      var last := |ws| - 1;
      WokenAtMost(ws[..last]);
      if w :| 0 <= w < |ws| && ws[w].gate != Woken && w < last {
        assert ws[..last][w].gate != Woken;
      }
    }
  }

  lemma {:induction false} NoLists(ws: seq<Writer>)
    requires forall w :: 0 <= w < |ws| ==> ws[w].frozen == []
    ensures ListCount(ws) == 0
  {
    if ws == [] {
    } else {
      NoLists(ws[..|ws| - 1]);
    }
  }

  /** Every step, lossy or not, keeps the bound: the wait under an `if` lets at most the three other
      writers slip past a version that has just filled up. */
  lemma StepKeepsBound(s: State, step: Step)
    requires Bounded(s) && Enabled(s, step)
    ensures Bounded(Next(s, step))
  {
    match step {
      case LogRecord(w, e) =>
        CountsUpdate(s.writers, w, Next(s, step).writers[w]);
      case Enqueue(w) =>
        CountsUpdate(s.writers, w, Next(s, step).writers[w]);
      case Insert(w) =>
        CountsUpdate(s.writers, w, Next(s, step).writers[w]);
      case Freeze(w) =>
        WokenAtMost(s.writers);
        CountsUpdate(s.writers, w, Next(s, step).writers[w]);
      case Block(w) =>
        CountsUpdate(s.writers, w, Next(s, step).writers[w]);
      case MergeLists =>
      case Swap =>
        NoLists(Next(s, step).writers);
        WokenAtMost(Next(s, step).writers);
    }
  }

  /** So no run ever has more than 13 lists in the current version. */
  lemma {:induction false} RunKeepsBound(s: State, steps: seq<Step>)
    requires Bounded(s) && CanRun(s, steps)
    ensures Bounded(Run(s, steps))
    decreases |steps|
  {
    if steps == [] {
    } else {
      StepKeepsBound(s, steps[0]);
      RunKeepsBound(Next(s, steps[0]), steps[1..]);
    }
  }

  lemma ListBound(steps: seq<Step>)
    requires CanRun(Init(), steps)
    ensures ListCount(Run(Init(), steps).writers) <= MAX_FROZEN_LIST + MAX_WRITER - 1
  {
    NoLists(Init().writers);
    assert WokenCount(Init().writers) == 0 by { NoneWoken(Init().writers); }
    RunKeepsBound(Init(), steps);
  }

  lemma {:induction false} NoneWoken(ws: seq<Writer>)
    requires forall w :: 0 <= w < |ws| ==> ws[w].gate == Free
    ensures WokenCount(ws) == 0
  {
    if ws == [] {
    } else {
      NoneWoken(ws[..|ws| - 1]);
    }
  }
}
