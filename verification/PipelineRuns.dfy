/** Concrete runs of the pipeline from its start: a version over its limit, an entry lost, a deletion
    undone. */
module PipelineRuns {
  import opened Bytes
  import opened Coding
  import opened Sequences
  import opened Pipeline
  import opened PipelineProofs
  import opened PipelineTheorems
  import LogFile

  // ---------- joining runs ----------

  /** A lossless run from one state to another. */
  ghost predicate Leads(s: State, steps: seq<Step>, t: State) {
    CanRun(s, steps) && Lossless(s, steps) && Run(s, steps) == t
  }

  lemma {:induction false} Join(s: State, a: seq<Step>, t: State, b: seq<Step>, u: State)
    requires Leads(s, a, t) && Leads(t, b, u)
    ensures Leads(s, a + b, u)
    decreases |a|
  {
    hide Enabled, Next, Lossy;
    if a == [] {
      assert a + b == b;
    } else {
      assert (a + b)[0] == a[0] && (a + b)[1..] == a[1..] + b;
      Join(Next(s, a[0]), a[1..], t, b, u);
    }
  }

  lemma OneStep(s: State, step: Step)
    requires Enabled(s, step) && !Lossy(s, step)
    ensures Leads(s, [step], Next(s, step))
  {
    hide Enabled, Next, Lossy;
    Stay(Next(s, step));
    assert [step][1..] == [];
  }

  lemma Stay(s: State)
    ensures Leads(s, [], s)
  {
  }

  /** A run extended by one more step, which may be lossy. */
  lemma {:induction false} OneMore(s: State, steps: seq<Step>, step: Step)
    requires CanRun(s, steps) && Enabled(Run(s, steps), step)
    ensures CanRun(s, steps + [step]) && Run(s, steps + [step]) == Next(Run(s, steps), step)
    ensures Lossless(s, steps + [step]) <==> Lossless(s, steps) && !Lossy(Run(s, steps), step)
    decreases |steps|
  {
    hide Enabled, Next, Lossy;
    var all := steps + [step];
    if steps == [] {
      assert all == [step] && all[1..] == [];
    } else {
      assert all[0] == steps[0] && all[1..] == steps[1..] + [step];
      OneMore(Next(s, steps[0]), steps[1..], step);
    }
  }

  lemma {:induction false} AcceptedBySwap(steps: seq<Step>, w: nat, pending: Option<MemEntry>)
    ensures Accepted(steps + [Swap], w, pending) == Accepted(steps, w, pending)
    decreases |steps|
  {
    var all := steps + [Swap];
    if steps == [] {
      assert all == [Swap] && all[1..] == [];
    } else {
      assert all[0] == steps[0] && all[1..] == steps[1..] + [Swap];
      AcceptedBySwap(steps[1..], w, if steps[0].LogRecord? && steps[0].w == w then Some(steps[0].e) else pending);
      AcceptedBySwap(steps[1..], w, None);
      AcceptedBySwap(steps[1..], w, pending);
    }
  }

  // ---------- the size of what is set ----------

  /** Entries that came through the log are at most a record long; `longest` bounds their keys. */
  predicate EntryFits(e: MemEntry, longest: nat) {
    |e.key| <= longest && |e.key| + |e.value| <= LogFile.MAX_RECORD_SIZE
  }

  ghost predicate EntriesFit(steps: seq<Step>, longest: nat) {
    forall i :: 0 <= i < |steps| && steps[i].LogRecord? ==> EntryFits(steps[i].e, longest)
  }

  lemma FitJoin(a: seq<Step>, b: seq<Step>, longest: nat)
    requires EntriesFit(a, longest) && EntriesFit(b, longest)
    ensures EntriesFit(a + b, longest)
  {
    hide EntryFits;
  }

  // ---------- filling a list ----------

  /** Nothing on the way and nothing in the active list. */
  ghost predicate Idle(x: Writer, next: nat) {
    && x.inflight == None && x.queue == [] && x.active == map[] && x.activeRun == []
    && forall e :: e in x.log ==> e.seqNum < next
  }

  /** Ten entries under ten one-byte keys of one writer. */
  function Batch(w: nat, next: nat, deleted: bool): (es: seq<MemEntry>)
    requires w < MAX_WRITER
    ensures |es| == MAX_ACTIVE_LIST_SIZE
  {
    seq(MAX_ACTIVE_LIST_SIZE, i requires 0 <= i < MAX_ACTIVE_LIST_SIZE =>
      MemEntry([(4 * i + (w + 3) % 4) as byte], [], next + i, deleted))
  }

  lemma OneByteOwner(c: byte)
    requires c < 128
    ensures Owner([c]) == (1 + c) % 4
  {
    assert [c][..0] == [];
    assert StrHash([], SEED_FOR_WRITER) == 1;
    assert StrHash([c], SEED_FOR_WRITER) == (1 + c) * 37;
  }

  lemma BatchFacts(w: nat, next: nat, deleted: bool)
    requires w < MAX_WRITER
    ensures var es := Batch(w, next, deleted);
            forall i :: 0 <= i < |es| ==>
              && Owner(es[i].key) == w && EntryFits(es[i], 1)
              && next <= es[i].seqNum == next + i < next + 10 && es[i].deleted == deleted
    ensures |Fold(Batch(w, next, deleted))| == MAX_ACTIVE_LIST_SIZE
    ensures forall key :: key in Fold(Batch(w, next, deleted)) ==> Fold(Batch(w, next, deleted))[key].deleted == deleted
    ensures [((w + 3) % 4) as byte] in Fold(Batch(w, next, deleted))
  {
    hide Owner, Fold;
    var es := Batch(w, next, deleted);
    forall i | 0 <= i < |es|
      ensures Owner(es[i].key) == w
    {
      OneByteOwner((4 * i + (w + 3) % 4) as byte);
    }
    forall i, j | 0 <= i < j < |es|
      ensures es[i].key != es[j].key
    {
      assert es[i].key[0] != es[j].key[0];
    }
    FoldSize(es);
    forall key | key in Fold(es)
      ensures Fold(es)[key].deleted == deleted
    {
      FoldMember(es, key);
    }
    assert es[0].key == [((w + 3) % 4) as byte];
    FoldMember(es, es[0].key);
  }

  lemma {:induction false} FoldSize(es: seq<MemEntry>)
    requires forall i, j :: 0 <= i < j < |es| ==> es[i].key != es[j].key
    ensures |Fold(es)| == |es|
  {
    if es == [] {
    } else {
      var last := |es| - 1;
      FoldSize(es[..last]);
      FoldMember(es[..last], es[last].key);
      assert Fold(es).Keys == Fold(es[..last]).Keys + {es[last].key};
    }
  }

  /** An idle writer after these entries have gone through log and queue into its active list. */
  function Filled(x: Writer, es: seq<MemEntry>): Writer {
    x.(log := x.log + es, active := Fold(es), activeRun := es)
  }

  function WithWriter(s: State, w: nat, x: Writer): State
    requires w < |s.writers|
  {
    s.(writers := s.writers[w := x])
  }

  lemma PushOne(s: State, w: nat, e: MemEntry) returns (steps: seq<Step>)
    requires w < |s.writers| && Owner(e.key) == w && EntryFits(e, 1)
    requires var x := s.writers[w];
             && x.inflight == None && x.queue == [] && |x.active| < MAX_ACTIVE_LIST_SIZE
             && forall f :: f in x.log ==> f.seqNum != e.seqNum
    ensures EntriesFit(steps, 1)
    ensures var x := s.writers[w];
            Leads(s, steps, WithWriter(s, w, x.(log := x.log + [e], active := x.active[e.key := e],
                                                activeRun := x.activeRun + [e])))
  {
    hide Owner, ListCount;
    var s1 := Next(s, LogRecord(w, e));
    OneStep(s, LogRecord(w, e));
    var s2 := Next(s1, Enqueue(w));
    OneStep(s1, Enqueue(w));
    assert s2.writers[w].queue == [e] && [e][1..] == [];
    OneStep(s2, Insert(w));
    Join(s1, [Enqueue(w)], s2, [Insert(w)], Next(s2, Insert(w)));
    steps := [LogRecord(w, e)] + ([Enqueue(w)] + [Insert(w)]);
    Join(s, [LogRecord(w, e)], s1, [Enqueue(w)] + [Insert(w)], Next(s2, Insert(w)));
  }

  lemma {:induction false} Fill(s: State, w: nat, next: nat, deleted: bool, k: nat) returns (steps: seq<Step>)
    requires w < |s.writers| && w < MAX_WRITER && Idle(s.writers[w], next) && k <= MAX_ACTIVE_LIST_SIZE
    ensures Leads(s, steps, WithWriter(s, w, Filled(s.writers[w], Batch(w, next, deleted)[..k])))
    ensures EntriesFit(steps, 1)
  {
    hide Leads, Fold, Batch;
    var x, es := s.writers[w], Batch(w, next, deleted);
    if k == 0 {
      Stay(s);
      steps := [];
      assert x.log + es[..0] == x.log && Fold([]) == map[] by { NothingFolds(); }
      assert s.writers[w := x] == s.writers;
      assert WithWriter(s, w, Filled(x, es[..0])) == s;
    } else {
      steps := Fill(s, w, next, deleted, k - 1);
      var y := Filled(x, es[..k - 1]);
      var t := WithWriter(s, w, y);
      BatchFacts(w, next, deleted);
      FoldAtMost(es[..k - 1]);
      assert es[..k] == es[..k - 1] + [es[k - 1]];
      FoldPush(es[..k - 1], es[k - 1]);
      forall f | f in y.log
        ensures f.seqNum != es[k - 1].seqNum
      {
        if f !in x.log {
          var i :| 0 <= i < k - 1 && es[..k - 1][i] == f;
          assert f == es[i];
        }
      }
      var last := PushOne(t, w, es[k - 1]);
      assert x.log + es[..k] == y.log + [es[k - 1]];
      var u := WithWriter(s, w, Filled(x, es[..k]));
      assert u.writers == t.writers[w := u.writers[w]];
      Join(s, steps, t, last, u);
      FitJoin(steps, last, 1);
      steps := steps + last;
    }
  }

  lemma {:induction false} FoldAtMost(es: seq<MemEntry>)
    ensures |Fold(es)| <= |es|
  {
    if es == [] {
    } else {
      var last := |es| - 1;
      FoldAtMost(es[..last]);
      assert Fold(es).Keys == Fold(es[..last]).Keys + {es[last].key};
    }
  }

  /** An idle writer after `n` lists filled and frozen. */
  function WithLists(x: Writer, w: nat, n: nat, next: nat, deleted: bool): Writer
    requires w < MAX_WRITER
  {
    if n == 0 then x
    else FreezeActive(Filled(WithLists(x, w, n - 1, next, deleted), Batch(w, next + 10 * (n - 1), deleted)))
  }

  lemma {:induction false} WithListsFacts(x: Writer, w: nat, n: nat, next: nat, deleted: bool)
    requires w < MAX_WRITER && Idle(x, next)
    ensures var y := WithLists(x, w, n, next, deleted);
            && Idle(y, next + 10 * n) && |y.frozen| == |x.frozen| + n && y.tabled == x.tabled
            && y.gate == (if n == 0 then x.gate else Free)
            && (n > 0 ==> var l := y.frozen[|y.frozen| - 1];
                          && [((w + 3) % 4) as byte] in l
                          && forall key :: key in l ==> l[key].deleted == deleted)
  {
    hide Fold, Batch;
    if n == 0 {
    } else {
      WithListsFacts(x, w, n - 1, next, deleted);
      BatchFacts(w, next + 10 * (n - 1), deleted);
    }
  }

  /** A free writer can freeze lists until the version is full. */
  lemma {:induction false} FreezeLists(s: State, w: nat, n: nat, next: nat, deleted: bool) returns (steps: seq<Step>)
    requires |s.writers| == MAX_WRITER && w < MAX_WRITER
    requires Idle(s.writers[w], next) && s.writers[w].gate == Free
    requires ListCount(s.writers) + n <= MAX_FROZEN_LIST
    ensures Leads(s, steps, WithWriter(s, w, WithLists(s.writers[w], w, n, next, deleted)))
    ensures EntriesFit(steps, 1)
  {
    hide Leads, Fold, Batch, ListCount, WithLists;
    var x := s.writers[w];
    if n == 0 {
      Stay(s);
      steps := [];
      NoMoreLists(x, w, 0, next, deleted);
      assert s.writers[w := x] == s.writers;
      assert WithWriter(s, w, x) == s;
    } else {
      steps := FreezeLists(s, w, n - 1, next, deleted);
      var y, es := WithLists(x, w, n - 1, next, deleted), Batch(w, next + 10 * (n - 1), deleted);
      WithListsFacts(x, w, n - 1, next, deleted);
      var t := WithWriter(s, w, y);
      var fill := Fill(t, w, next + 10 * (n - 1), deleted, 10);
      assert es[..10] == es;
      var u := WithWriter(s, w, Filled(y, es));
      assert WithWriter(t, w, Filled(y, es)) == u;
      BatchFacts(w, next + 10 * (n - 1), deleted);
      CountsUpdate(s.writers, w, Filled(y, es));
      OneStep(u, Freeze(w));
      NoMoreLists(x, w, n, next, deleted);
      var v := WithWriter(s, w, WithLists(x, w, n, next, deleted));
      assert Next(u, Freeze(w)) == v;
      Join(t, fill, u, [Freeze(w)], v);
      Join(s, steps, t, fill + [Freeze(w)], v);
      FitJoin(fill, [Freeze(w)], 1);
      FitJoin(steps, fill + [Freeze(w)], 1);
      steps := steps + (fill + [Freeze(w)]);
    }
  }

  lemma NoMoreLists(x: Writer, w: nat, n: nat, next: nat, deleted: bool)
    requires w < MAX_WRITER
    ensures WithLists(x, w, n, next, deleted) ==
            if n == 0 then x
            else FreezeActive(Filled(WithLists(x, w, n - 1, next, deleted), Batch(w, next + 10 * (n - 1), deleted)))
  {
  }

  /** Ten lists of one-byte keys fill the version. */
  lemma ReachFullVersion() returns (steps: seq<Step>)
    ensures CanRun(Init(), steps) && Lossless(Init(), steps) && IsFull(Run(Init(), steps)) && EntriesFit(steps, 1)
  {
    hide ListCount, WithLists, EntriesFit;
    NoLists(Init().writers);
    steps := FreezeLists(Init(), 0, 10, 0, false);
    WithListsFacts(NewWriter(), 0, 10, 0, false);
    CountsUpdate(Init().writers, 0, WithLists(NewWriter(), 0, 10, 0, false));
  }

  /** A free writer that fills its list while the version is full ends up waiting. */
  lemma FillAndWait(s: State, w: nat, next: nat) returns (steps: seq<Step>)
    requires |s.writers| == MAX_WRITER && w < MAX_WRITER && IsFull(s)
    requires Idle(s.writers[w], next) && s.writers[w].gate == Free
    ensures Leads(s, steps, WithWriter(s, w, Filled(s.writers[w], Batch(w, next, false)).(gate := Waiting)))
    ensures IsFull(WithWriter(s, w, Filled(s.writers[w], Batch(w, next, false)).(gate := Waiting)))
  {
    hide Leads, Fold, Batch, ListCount;
    var es := Batch(w, next, false);
    var fill := Fill(s, w, next, false, 10);
    assert es[..10] == es;
    var y := Filled(s.writers[w], es);
    var t := WithWriter(s, w, y);
    BatchFacts(w, next, false);
    CountsUpdate(s.writers, w, y);
    OneStep(t, Block(w));
    var u := WithWriter(s, w, y.(gate := Waiting));
    assert Next(t, Block(w)) == u;
    CountsUpdate(s.writers, w, y.(gate := Waiting));
    Join(s, fill, t, [Block(w)], u);
    steps := fill + [Block(w)];
  }

  // ---------- a version over its limit ----------

  function Waits(x: Writer, w: nat): Writer
    requires w < MAX_WRITER
  {
    Filled(x, Batch(w, 1000, false)).(gate := Waiting)
  }

  /** Writer 0 has frozen ten lists, and all four writers wait with a full list each. */
  function FourWaiting(): State {
    State([Waits(WithLists(NewWriter(), 0, 10, 0, false), 0), Waits(NewWriter(), 1), Waits(NewWriter(), 2),
           Waits(NewWriter(), 3)], [], None)
  }

  lemma ReachFourWaiting() returns (steps: seq<Step>)
    ensures Leads(Init(), steps, FourWaiting()) && IsFull(FourWaiting())
  {
    hide Leads, Fold, Batch, ListCount, WithLists;
    var x0 := WithLists(NewWriter(), 0, 10, 0, false);
    NoLists(Init().writers);
    steps := FreezeLists(Init(), 0, 10, 0, false);
    WithListsFacts(NewWriter(), 0, 10, 0, false);
    var s := WithWriter(Init(), 0, x0);
    CountsUpdate(Init().writers, 0, x0);
    var more := FillAndWait(s, 0, 1000);
    var t := WithWriter(s, 0, Waits(x0, 0));
    Join(Init(), steps, s, more, t);
    steps, s := steps + more, t;
    for w := 1 to MAX_WRITER
      invariant Leads(Init(), steps, s) && IsFull(s)
      invariant |s.writers| == MAX_WRITER && s.tables == [] && s.merge == None
      invariant s.writers[0] == Waits(x0, 0)
      invariant forall v :: 1 <= v < w ==> s.writers[v] == Waits(NewWriter(), v)
      invariant forall v :: w <= v < MAX_WRITER ==> s.writers[v] == NewWriter()
    {
      more := FillAndWait(s, w, 1000);
      t := WithWriter(s, w, Waits(NewWriter(), w));
      Join(Init(), steps, s, more, t);
      steps, s := steps + more, t;
    }
    assert s.writers == FourWaiting().writers;
    assert s == FourWaiting();
  }

  /** Just woken, with a full list to append. */
  ghost predicate AboutToAppend(x: Writer, w: nat) {
    && x.gate == Woken && x.inflight == None && x.queue == [] && x.frozen == [] && x.frozenRuns == []
    && |x.active| == MAX_ACTIVE_LIST_SIZE && (w < MAX_WRITER ==> [((w + 3) % 4) as byte] in x.active)
    && (forall e :: e in x.log ==> e.seqNum < 2000)
  }

  lemma WaitsFacts(x: Writer, w: nat, count: nat)
    requires w < MAX_WRITER && Idle(x, 1000)
    ensures AboutToAppend(DropLists(Waits(x, w), count), w)
    ensures x.tabled == [] && x.frozenRuns == [] ==> DropLists(Waits(x, w), count).tabled == []
  {
    hide Fold, Batch;
    BatchFacts(w, 1000, false);
    var es := Batch(w, 1000, false);
    forall e | e in x.log + es
      ensures e.seqNum < 2000
    {
      if e !in x.log {
        var i :| 0 <= i < |es| && es[i] == e;
      }
    }
  }

  /** The swap that follows four waiting writers wakes them all. */
  lemma ReachAwake() returns (steps: seq<Step>, s: State)
    ensures Leads(Init(), steps, s) && |s.writers| == MAX_WRITER && s.merge == None
    ensures forall w :: 0 <= w < MAX_WRITER ==> AboutToAppend(s.writers[w], w)
    ensures forall w :: 1 <= w < MAX_WRITER ==> s.writers[w].tabled == []
  {
    hide Leads, Fold, Batch, ListCount, WithLists, MergeAll, Flatten, DropLists, AboutToAppend, Waits;
    steps := ReachFourWaiting();
    var full := FourWaiting();
    var merging := Next(full, MergeLists);
    OneStep(full, MergeLists);
    s := Next(merging, Swap);
    OneStep(merging, Swap);
    Join(full, [MergeLists], merging, [Swap], s);
    Join(Init(), steps, full, [MergeLists] + [Swap], s);
    steps := steps + ([MergeLists] + [Swap]);
    WithListsFacts(NewWriter(), 0, 10, 0, false);
    WaitsFacts(WithLists(NewWriter(), 0, 10, 0, false), 0, merging.merge.value.counts[0]);
    forall w | 1 <= w < MAX_WRITER
      ensures AboutToAppend(s.writers[w], w) && s.writers[w].tabled == []
    {
      WaitsFacts(NewWriter(), w, merging.merge.value.counts[w]);
    }
  }

  /** The version is full again while three woken writers each still hold a full list. */
  ghost predicate Crowded(s: State) {
    && |s.writers| == MAX_WRITER && s.merge == None && ListCount(s.writers) == MAX_FROZEN_LIST
    && forall w :: 1 <= w < MAX_WRITER ==> AboutToAppend(s.writers[w], w) && s.writers[w].tabled == []
  }

  /** Writer 0 appends its list and nine more before the other woken writers run. */
  lemma ReachCrowded() returns (steps: seq<Step>, s: State)
    ensures Leads(Init(), steps, s) && Crowded(s)
  {
    hide Leads, Fold, Batch, ListCount, WithLists, MergeAll, Flatten;
    var awake;
    steps, awake := ReachAwake();
    assert AboutToAppend(awake.writers[0], 0);
    OneStep(awake, Freeze(0));
    var first := Next(awake, Freeze(0));
    Join(Init(), steps, awake, [Freeze(0)], first);
    steps := steps + [Freeze(0)];
    NoLists(awake.writers);
    CountsUpdate(awake.writers, 0, first.writers[0]);
    var more := FreezeLists(first, 0, 9, 2000, false);
    WithListsFacts(first.writers[0], 0, 9, 2000, false);
    s := WithWriter(first, 0, WithLists(first.writers[0], 0, 9, 2000, false));
    CountsUpdate(first.writers, 0, s.writers[0]);
    Join(Init(), steps, first, more, s);
    steps := steps + more;
  }

  lemma FreezeWoken(s: State, w: nat) returns (t: State)
    requires |s.writers| == MAX_WRITER && 1 <= w < MAX_WRITER && AboutToAppend(s.writers[w], w)
    ensures t == WithWriter(s, w, FreezeActive(s.writers[w]))
    ensures Enabled(s, Freeze(w)) && Leads(s, [Freeze(w)], t)
    ensures ListCount(t.writers) == ListCount(s.writers) + 1
  {
    hide Leads, ListCount;
    t := Next(s, Freeze(w));
    OneStep(s, Freeze(w));
    CountsUpdate(s.writers, w, t.writers[w]);
  }

  /** The bound of thirteen is reached, without any loss on the way. */
  lemma ThirteenIsReached() returns (steps: seq<Step>)
    ensures CanRun(Init(), steps) && Lossless(Init(), steps)
    ensures ListCount(Run(Init(), steps).writers) == MAX_FROZEN_LIST + MAX_WRITER - 1
  {
    hide ListCount;
    var s;
    steps, s := ReachCrowded();
    hide Leads, AboutToAppend;
    for w := 1 to MAX_WRITER
      invariant Leads(Init(), steps, s) && |s.writers| == MAX_WRITER
      invariant ListCount(s.writers) == MAX_FROZEN_LIST + w - 1
      invariant forall v :: w <= v < MAX_WRITER ==> AboutToAppend(s.writers[v], v)
    {
      var t := FreezeWoken(s, w);
      Join(Init(), steps, s, [Freeze(w)], t);
      steps, s := steps + [Freeze(w)], t;
    }
    LeadsThere(steps, s);
  }

  lemma LeadsThere(steps: seq<Step>, s: State)
    requires Leads(Init(), steps, s)
    ensures CanRun(Init(), steps) && Lossless(Init(), steps) && Run(Init(), steps) == s
  {
  }

  // ---------- an entry lost ----------

  /** A woken writer has frozen its list between a merge and its swap. */
  lemma ReachLateList() returns (steps: seq<Step>, s: State)
    ensures Leads(Init(), steps, s) && |s.writers| == MAX_WRITER && Enabled(s, Swap) && Lossy(s, Swap)
    ensures OneLateList(s.writers[1], s.merge.value.counts[1], [0])
  {
    hide ListCount, MergeAll, Fold, Leads;
    var crowded;
    steps, crowded := ReachCrowded();
    var merging := Next(crowded, MergeLists);
    OneStep(crowded, MergeLists);
    Join(Init(), steps, crowded, [MergeLists], merging);
    steps := steps + [MergeLists];
    assert AboutToAppend(merging.writers[1], 1);
    s := FreezeWoken(merging, 1);
    Join(Init(), steps, merging, [Freeze(1)], s);
    steps := steps + [Freeze(1)];
    assert s.merge.value.counts[1] < |s.writers[1].frozen|;
  }

  /** One late list with the key, nothing newer, nothing older. */
  ghost predicate OneLateList(x: Writer, count: nat, key: bytes) {
    && count == 0 && x.queue == [] && x.active == map[] && x.tabled == [] && |x.frozen| == 1 && key in x.frozen[0]
  }

  /** A run whose last step loses an entry. The lookup that found it before the swap finds nothing after
      it, though it is the last entry pushed under its key. */
  lemma SwapLosesAnEntry() returns (steps: seq<Step>, key: bytes)
    ensures CanRun(Init(), steps + [Swap]) && CanRun(Init(), steps)
    ensures Lossless(Init(), steps) && !Lossless(Init(), steps + [Swap])
    ensures var s, t := Run(Init(), steps), Run(Init(), steps + [Swap]);
            && |s.writers| == |t.writers| == MAX_WRITER
            && Find(s, key).Some? && Find(t, key) == None
            && Get(Fold(Accepted(steps + [Swap], Owner(key), None)), key) == Find(s, key)
  {
    hide ListCount, MergeAll, Fold, Find, Run, CanRun, Lossless, Accepted, Lossy, Inv, Owner, Leads, Init;
    hide Enabled, Next, OneLateList, Get;
    var s;
    steps, s := ReachLateList();
    LeadsThere(steps, s);
    key := [0];
    OneByteOwner(0);
    OneMore(Init(), steps, Swap);
    LookupsSeeLastPush(steps, key);
    AcceptedBySwap(steps, Owner(key), None);
    LateListIsLost(s, key);
  }

  lemma LateListIsLost(s: State, key: bytes)
    requires Inv(s) && Enabled(s, Swap)
    requires OneLateList(s.writers[Owner(key)], s.merge.value.counts[Owner(key)], key)
    ensures |Next(s, Swap).writers| == |s.writers| == MAX_WRITER
    ensures Find(s, key).Some? && Find(Next(s, Swap), key) == None
  {
    hide Owner;
    var x := s.writers[Owner(key)];
    FindAfterSwap(s, key);
    NothingFolds();
    assert x.frozenRuns[..0] == [];
    assert ScanLists(x.frozen, key).Some?;
  }

  // ---------- a deletion undone ----------

  /** A run without loss whose last step undoes a deletion: the key's last push is a deletion and reads
      as one before the swap, and the table that the swap installs has a row for it. */
  lemma SwapUndoesADeletion() returns (steps: seq<Step>, key: bytes)
    ensures CanRun(Init(), steps + [Swap]) && CanRun(Init(), steps) && Lossless(Init(), steps + [Swap])
    ensures Live(Accepted(steps + [Swap], Owner(key), None), key) == None
    ensures var s, t := Run(Init(), steps), Run(Init(), steps + [Swap]);
            |s.writers| == |t.writers| == MAX_WRITER && Visible(s, key) == None && Visible(t, key).Some?
  {
    hide ListCount, Fold, Find, Run, CanRun, Lossless, Accepted, Visible, Inv, Enabled, Next, Lossy, Leads, Init;
    hide Frozen, Owner, Get;
    var s;
    steps, s := ReachTombstones();
    LeadsThere(steps, s);
    OneMore(Init(), steps, Swap);
    key := [3];
    OneByteOwner(3);
    LookupsSeeLastPush(steps, key);
    AcceptedBySwap(steps, Owner(key), None);
    FrozenTombstone(s, key);
  }

  /** Writer 0 has frozen ten lists of deletions, and the merge is done. */
  lemma ReachTombstones() returns (steps: seq<Step>, s: State)
    ensures Leads(Init(), steps, s) && |s.writers| == MAX_WRITER && Enabled(s, Swap) && !Lossy(s, Swap)
    ensures Frozen(s.writers[0], [3])
  {
    hide ListCount, MergeAll, Fold, WithLists, Leads;
    NoLists(Init().writers);
    steps := FreezeLists(Init(), 0, 10, 0, true);
    var x := WithLists(NewWriter(), 0, 10, 0, true);
    WithListsFacts(NewWriter(), 0, 10, 0, true);
    var full := WithWriter(Init(), 0, x);
    CountsUpdate(Init().writers, 0, x);
    s := Next(full, MergeLists);
    OneStep(full, MergeLists);
    Join(Init(), steps, full, [MergeLists], s);
    steps := steps + [MergeLists];
  }

  /** The newest list holds a deletion of the key, and nothing newer does. */
  ghost predicate Frozen(x: Writer, key: bytes) {
    && x.queue == [] && x.active == map[] && x.frozen != []
    && key in x.frozen[|x.frozen| - 1] && x.frozen[|x.frozen| - 1][key].deleted
  }

  lemma FrozenTombstone(s: State, key: bytes)
    requires Inv(s) && Enabled(s, Swap) && !Lossy(s, Swap) && Frozen(s.writers[Owner(key)], key)
    ensures |Next(s, Swap).writers| == |s.writers| == MAX_WRITER
    ensures Visible(s, key) == None && Visible(Next(s, Swap), key).Some?
    ensures Find(s, key).Some? && Find(s, key).value.deleted
  {
    assert |s.writers| == MAX_WRITER;
    hide Owner, Inv;
    LosslessSwapLayers(s, key);
    VisibleAfterSwap(s, key);
    assert Inv(s);
    ScanNewest(s.writers[Owner(key)].frozen, key);
  }

  lemma ScanNewest(lists: seq<List>, key: bytes)
    requires lists != [] && key in lists[|lists| - 1]
    ensures ScanLists(lists, key) == Some(lists[|lists| - 1][key])
  {
  }

  // ---------- staying within ten ----------

  /** Freezing takes the version past its limit exactly when a woken writer finds it full again. */
  lemma FreezePassesLimit(s: State, w: nat)
    requires Enabled(s, Freeze(w))
    ensures ListCount(Next(s, Freeze(w)).writers) > MAX_FROZEN_LIST <==> s.writers[w].gate == Woken && IsFull(s)
  {
    hide ListCount;
    CountsUpdate(s.writers, w, FreezeActive(s.writers[w]));
  }

  /** No state of the run is over the limit. */
  ghost predicate StaysWithin(s: State, steps: seq<Step>)
    requires CanRun(s, steps)
    decreases |steps|
  {
    && ListCount(s.writers) <= MAX_FROZEN_LIST
    && (steps != [] ==> StaysWithin(Next(s, steps[0]), steps[1..]))
  }

  /** Every list is frozen into a version with room. */
  ghost predicate FreezesIntoRoom(s: State, steps: seq<Step>)
    requires CanRun(s, steps)
    decreases |steps|
  {
    steps != [] ==> (steps[0].Freeze? ==> !IsFull(s)) && FreezesIntoRoom(Next(s, steps[0]), steps[1..])
  }

  lemma {:induction false} StaysWithinExactly(s: State, steps: seq<Step>)
    requires CanRun(s, steps) && ListCount(s.writers) <= MAX_FROZEN_LIST
    ensures StaysWithin(s, steps) <==> FreezesIntoRoom(s, steps)
    decreases |steps|
  {
    hide ListCount;
    if steps == [] {
    } else {
      CountAfter(s, steps[0]);
      if ListCount(Next(s, steps[0]).writers) <= MAX_FROZEN_LIST {
        StaysWithinExactly(Next(s, steps[0]), steps[1..]);
      }
    }
  }

  lemma CountAfter(s: State, step: Step)
    requires Enabled(s, step)
    ensures ListCount(Next(s, step).writers) ==
            if step.Freeze? then ListCount(s.writers) + 1 else if step.Swap? then 0 else ListCount(s.writers)
  {
    hide ListCount;
    match step {
      case LogRecord(w, e) => CountsUpdate(s.writers, w, Next(s, step).writers[w]);
      case Enqueue(w) => CountsUpdate(s.writers, w, Next(s, step).writers[w]);
      case Insert(w) => CountsUpdate(s.writers, w, Next(s, step).writers[w]);
      case Freeze(w) => CountsUpdate(s.writers, w, Next(s, step).writers[w]);
      case Block(w) => CountsUpdate(s.writers, w, Next(s, step).writers[w]);
      case MergeLists =>
      case Swap => NoLists(Next(s, step).writers);
    }
  }

  // ---------- what compaction merges ----------

  ghost predicate ListFits(l: List, longest: nat) {
    forall key :: key in l ==> EntryFits(l[key], longest) && l[key].key == key
  }

  /** Frozen lists hold exactly ten keys, the active list at most ten, and every entry fits. */
  ghost predicate ListsFull(x: Writer, longest: nat) {
    && |x.active| <= MAX_ACTIVE_LIST_SIZE && ListFits(x.active, longest)
    && (forall l :: l in x.frozen ==> |l| == MAX_ACTIVE_LIST_SIZE && ListFits(l, longest))
    && (forall e :: e in x.queue ==> EntryFits(e, longest))
    && (x.inflight.Some? ==> EntryFits(x.inflight.value, longest))
  }

  ghost predicate AllListsFull(s: State, longest: nat) {
    forall w :: 0 <= w < |s.writers| ==> ListsFull(s.writers[w], longest)
  }

  /** Every step keeps this, lossy or not. */
  lemma StepKeepsListsFull(s: State, step: Step, longest: nat)
    requires AllListsFull(s, longest) && Enabled(s, step) && (step.LogRecord? ==> EntryFits(step.e, longest))
    ensures AllListsFull(Next(s, step), longest)
  {
    hide EntryFits, Owner, ListCount, MergeAll, Flatten;
    match step {
      case Insert(w) => assert s.writers[w].queue[0] in s.writers[w].queue;
      case Swap =>
      case _ =>
    }
  }

  lemma {:induction false} RunKeepsListsFull(s: State, steps: seq<Step>, longest: nat)
    requires AllListsFull(s, longest) && CanRun(s, steps)
    requires EntriesFit(steps, longest)
    ensures AllListsFull(Run(s, steps), longest)
    decreases |steps|
  {
    hide AllListsFull, EntryFits, Enabled, Next;
    if steps == [] {
    } else {
      assert forall i :: 0 <= i < |steps[1..]| ==> steps[1..][i] == steps[i + 1];
      StepKeepsListsFull(s, steps[0], longest);
      RunKeepsListsFull(Next(s, steps[0]), steps[1..], longest);
    }
  }

  lemma {:induction false} OverlaySizes(lists: seq<List>, longest: nat)
    requires forall l :: l in lists ==> |l| == MAX_ACTIVE_LIST_SIZE && ListFits(l, longest)
    ensures |Overlay(lists)| <= MAX_ACTIVE_LIST_SIZE * |lists| && ListFits(Overlay(lists), longest)
    ensures lists != [] ==> |Overlay(lists)| >= MAX_ACTIVE_LIST_SIZE
  {
    hide EntryFits;
    if lists == [] {
    } else {
      var front, last := lists[..|lists| - 1], lists[|lists| - 1];
      OverlaySizes(front, longest);
      assert last in lists;
      SumSizes(Overlay(front), last);
      SumFits(Overlay(front), last, longest);
    }
  }

  lemma SumSizes(a: List, b: List)
    ensures |b| <= |a + b| <= |a| + |b|
    ensures |a| <= |a + b|
  {
    assert (a + b).Keys == a.Keys + b.Keys;
    assert |a.Keys + b.Keys| == |a.Keys| + |b.Keys - a.Keys|;
    assert |b.Keys - a.Keys| + |b.Keys * a.Keys| == |b.Keys|;
    assert a.Keys + b.Keys == b.Keys + (a.Keys - b.Keys);
  }

  lemma SumFits(a: List, b: List, longest: nat)
    requires ListFits(a, longest) && ListFits(b, longest)
    ensures ListFits(a + b, longest)
  {
  }

  lemma NothingFits(longest: nat)
    ensures ListFits(map[], longest)
  {
  }

  lemma {:induction false} MergeSizes(ws: seq<Writer>, longest: nat)
    requires forall w :: 0 <= w < |ws| ==> ListsFull(ws[w], longest)
    ensures |MergeAll(ws)| <= MAX_ACTIVE_LIST_SIZE * ListCount(ws) && ListFits(MergeAll(ws), longest)
    ensures ListCount(ws) > 0 ==> |MergeAll(ws)| >= MAX_ACTIVE_LIST_SIZE
  {
    hide ListFits, Overlay;
    if ws == [] {
      assert ListFits(map[], longest) by { NothingFits(longest); }
    } else {
      var front, last := ws[..|ws| - 1], ws[|ws| - 1];
      MergeSizes(front, longest);
      OverlaySizes(last.frozen, longest);
      SumSizes(MergeAll(front), Overlay(last.frozen));
      SumFits(MergeAll(front), Overlay(last.frozen), longest);
    }
  }

  /** Whenever a run that logs only entries of record size leaves the version full, the merge has at least
      ten and at most 130 keys, so the first and last bindings that BuildTable reads are there, and every
      row fits. */
  lemma FullVersionMerges(steps: seq<Step>, longest: nat)
    requires CanRun(Init(), steps) && IsFull(Run(Init(), steps))
    requires EntriesFit(steps, longest)
    ensures var merged := MergeAll(Run(Init(), steps).writers);
            && MAX_ACTIVE_LIST_SIZE <= |merged| <= MAX_ACTIVE_LIST_SIZE * (MAX_FROZEN_LIST + MAX_WRITER - 1)
            && forall key :: key in merged ==>
                 |key| <= longest && |key| + |merged[key].value| <= LogFile.MAX_RECORD_SIZE
  {
    hide ListCount, MergeAll, Run, CanRun, ListsFull;
    assert ListsFull(NewWriter(), longest) by { NewWriterIsFull(longest); }
    RunKeepsListsFull(Init(), steps, longest);
    ListBound(steps);
    MergeSizes(Run(Init(), steps).writers, longest);
  }

  lemma NewWriterIsFull(longest: nat)
    ensures ListsFull(NewWriter(), longest)
  {
  }

  ghost predicate TableSized(t: List) {
    MAX_ACTIVE_LIST_SIZE <= |t| <= MAX_ACTIVE_LIST_SIZE * (MAX_FROZEN_LIST + MAX_WRITER - 1)
  }

  /** Compaction starts on a full version only: every table has between 10 and 130 keys. */
  ghost predicate TablesSized(s: State) {
    && (forall t :: t in s.tables ==> TableSized(t))
    && (s.merge.Some? ==> TableSized(s.merge.value.table))
  }

  lemma StepKeepsTablesSized(s: State, step: Step, longest: nat)
    requires TablesSized(s) && AllListsFull(s, longest) && Bounded(s) && Enabled(s, step)
    ensures TablesSized(Next(s, step))
  {
    hide ListsFull, ListCount, MergeAll, Owner, Flatten, TableSized;
    if step.MergeLists? {
      MergeSizes(s.writers, longest);
      assert TableSized(MergeAll(s.writers)) by { SizedByCount(MergeAll(s.writers), ListCount(s.writers)); }
    }
  }

  lemma SizedByCount(t: List, count: nat)
    requires MAX_FROZEN_LIST <= count <= MAX_FROZEN_LIST + MAX_WRITER - 1
    requires MAX_ACTIVE_LIST_SIZE <= |t| <= MAX_ACTIVE_LIST_SIZE * count
    ensures TableSized(t)
  {
  }

  lemma {:induction false} RunKeepsTablesSized(s: State, steps: seq<Step>, longest: nat)
    requires TablesSized(s) && AllListsFull(s, longest) && Bounded(s) && CanRun(s, steps)
    requires EntriesFit(steps, longest)
    ensures TablesSized(Run(s, steps))
    decreases |steps|
  {
    hide TablesSized, AllListsFull, Bounded, EntryFits, Enabled, Next;
    if steps == [] {
    } else {
      assert forall i :: 0 <= i < |steps[1..]| ==> steps[1..][i] == steps[i + 1];
      StepKeepsTablesSized(s, steps[0], longest);
      StepKeepsListsFull(s, steps[0], longest);
      StepKeepsBound(s, steps[0]);
      RunKeepsTablesSized(Next(s, steps[0]), steps[1..], longest);
    }
  }

  /** In every reachable state every level-0 table has between 10 and 130 keys. */
  lemma TableSizes(steps: seq<Step>, longest: nat)
    requires CanRun(Init(), steps) && EntriesFit(steps, longest)
    ensures forall t :: t in Run(Init(), steps).tables ==>
              MAX_ACTIVE_LIST_SIZE <= |t| <= MAX_ACTIVE_LIST_SIZE * (MAX_FROZEN_LIST + MAX_WRITER - 1)
  {
    hide ListCount, WokenCount, Run, CanRun, ListsFull, EntriesFit;
    NewWriterIsFull(longest);
    NoLists(Init().writers);
    NoneWoken(Init().writers);
    RunKeepsTablesSized(Init(), steps, longest);
  }
}
