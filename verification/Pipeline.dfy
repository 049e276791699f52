/** The write pipeline: an entry is logged, queued, inserted into its writer's active list, frozen
    with it, merged into a level-0 table. The steps of all threads interleave freely; each is one
    locked region. History fields record which entries went into which list. */
module Pipeline {
  import opened Bytes
  import opened Coding
  import opened Sequences

  const MAX_WRITER := 4
  const MAX_FROZEN_LIST := 10
  const MAX_ACTIVE_LIST_SIZE := 10
  const QUEUE_SIZE := 40
  const SEED_FOR_WRITER := 37

  type List = map<bytes, MemEntry>

  // ---------- routing ----------

  /** `strHash`: `char` is signed, arithmetic is modulo 2^64. */
  function StrHash(key: bytes, seed: nat): nat {
    if key == [] then 1
    else
      var ch: int := key[|key| - 1];
      var signed := if ch < 128 then ch else ch - 256;
      ((StrHash(key[..|key| - 1], seed) + signed) * seed) % UINT64_LIMIT
  }

  /** The writer that `setKey` hands a key to. */
  function Owner(key: bytes): (w: nat)
    ensures w < MAX_WRITER
  {
    StrHash(key, SEED_FOR_WRITER) % MAX_WRITER
  }

  // ---------- what a run of entries means ----------

  /** The last entry for each key wins. */
  function Fold(es: seq<MemEntry>): List {
    if es == [] then map[] else Fold(es[..|es| - 1])[es[|es| - 1].key := es[|es| - 1]]
  }

  function Get(m: List, key: bytes): Option<MemEntry> {
    if key in m then Some(m[key]) else None
  }

  /** Newest wins between two lookups. */
  function OrElse(newer: Option<MemEntry>, older: Option<MemEntry>): Option<MemEntry> {
    if newer.Some? then newer else older
  }

  lemma FoldPush(es: seq<MemEntry>, e: MemEntry)
    ensures Fold(es + [e]) == Fold(es)[e.key := e]
  {
    assert (es + [e])[..|es|] == es;
  }

  lemma {:induction false} FoldConcat(es: seq<MemEntry>, fs: seq<MemEntry>)
    ensures Fold(es + fs) == Fold(es) + Fold(fs)
    decreases |fs|
  {
    if fs == [] {
      assert es + fs == es;
    } else {
      var last := |fs| - 1;
      FoldConcat(es, fs[..last]);
      assert es + fs == (es + fs[..last]) + [fs[last]];
      FoldPush(es + fs[..last], fs[last]);
    }
  }

  /** What a fold holds for a key was pushed under that key. */
  lemma {:induction false} FoldMember(es: seq<MemEntry>, key: bytes)
    ensures key in Fold(es) <==> exists i :: 0 <= i < |es| && es[i].key == key
    ensures key in Fold(es) ==> Fold(es)[key] in es && Fold(es)[key].key == key
  {
    if es == [] {
    } else {
      var last := |es| - 1;
      FoldMember(es[..last], key);
      if key in Fold(es[..last]) {
        var i :| 0 <= i < last && es[..last][i].key == key;
        assert es[i].key == key;
      }
      if i :| 0 <= i < |es| && es[i].key == key && i < last {
        assert es[..last][i].key == key;
      }
    }
  }

  // ---------- state ----------

  /** A writer inside AppendFrozenList: not there, waiting, or woken and about to append. */
  datatype Gate = Free | Waiting | Woken

  datatype Writer = Writer(
    log: seq<MemEntry>,            // records in the log file
    inflight: Option<MemEntry>,    // logged, still holding the queue lock
    queue: seq<MemEntry>,
    active: List,
    frozen: seq<List>,             // this writer's lists in the current version, oldest first
    gate: Gate,
    tabled: seq<MemEntry>,         // history: entries whose lists became tables
    frozenRuns: seq<seq<MemEntry>>, // history: the entries inserted into each frozen list
    activeRun: seq<MemEntry>)      // history: those inserted into the active list

  /** A compaction between building its table and installing the new version. */
  datatype Merge = Merge(table: List, counts: seq<nat>)

  /** `tables` holds, for each row of a level-0 table, the entry it was written from. */
  datatype State = State(writers: seq<Writer>, tables: seq<List>, merge: Option<Merge>)

  datatype Step =
    | LogRecord(w: nat, e: MemEntry)   // push, before the record is queued
    | Enqueue(w: nat)                  // push, the ring write
    | Insert(w: nat)                   // insert the front into the active list and pop it
    | Freeze(w: nat)                   // append a full active list to the version, start a new one
    | Block(w: nat)                    // the version is full: wait
    | MergeLists                       // the compacter builds a table from the current lists
    | Swap                             // it installs the new version and wakes the waiters

  function NewWriter(): Writer {
    Writer([], None, [], map[], [], Free, [], [], [])
  }

  function Init(): State {
    State(seq(MAX_WRITER, i => NewWriter()), [], None)
  }

  /** `list_count_` of the current version. */
  function ListCount(ws: seq<Writer>): nat {
    if ws == [] then 0 else ListCount(ws[..|ws| - 1]) + |ws[|ws| - 1].frozen|
  }

  function WokenCount(ws: seq<Writer>): nat {
    if ws == [] then 0 else WokenCount(ws[..|ws| - 1]) + if ws[|ws| - 1].gate == Woken then 1 else 0
  }

  predicate IsFull(s: State) {
    ListCount(s.writers) >= MAX_FROZEN_LIST
  }

  /** Lists overlaid oldest first: what a map that is overwritten list by list ends up holding. */
  function Overlay(lists: seq<List>): List {
    if lists == [] then map[] else Overlay(lists[..|lists| - 1]) + lists[|lists| - 1]
  }

  /** `MergeIterator`: writer by writer, list by list. */
  function MergeAll(ws: seq<Writer>): List {
    if ws == [] then map[] else MergeAll(ws[..|ws| - 1]) + Overlay(ws[|ws| - 1].frozen)
  }

  predicate Enabled(s: State, step: Step) {
    match step
    case LogRecord(w, e) =>
      && w < |s.writers| && s.writers[w].inflight == None && Owner(e.key) == w
      && forall x :: x in s.writers[w].log ==> x.seqNum != e.seqNum
    case Enqueue(w) => w < |s.writers| && s.writers[w].inflight.Some? && |s.writers[w].queue| < QUEUE_SIZE
    case Insert(w) =>
      w < |s.writers| && s.writers[w].queue != [] && |s.writers[w].active| < MAX_ACTIVE_LIST_SIZE
    case Freeze(w) =>
      && w < |s.writers| && |s.writers[w].active| >= MAX_ACTIVE_LIST_SIZE
      && (s.writers[w].gate == Woken || (s.writers[w].gate == Free && !IsFull(s)))
    case Block(w) =>
      w < |s.writers| && |s.writers[w].active| >= MAX_ACTIVE_LIST_SIZE && s.writers[w].gate == Free && IsFull(s)
    case MergeLists => s.merge == None && IsFull(s)
    case Swap => s.merge.Some? && |s.merge.value.counts| == |s.writers|
  }

  function InsertFront(x: Writer): Writer
    requires x.queue != []
  {
    var e := x.queue[0];
    x.(active := x.active[e.key := e], queue := x.queue[1..], activeRun := x.activeRun + [e])
  }

  function FreezeActive(x: Writer): Writer {
    x.(frozen := x.frozen + [x.active], frozenRuns := x.frozenRuns + [x.activeRun], active := map[],
       activeRun := [], gate := Free)
  }

  /** The new version starts with no lists; its waiters are woken. The first `count` lists are in
      the table, any later one is gone. */
  function DropLists(x: Writer, count: nat): Writer {
    x.(frozen := [], frozenRuns := [], gate := if x.gate == Waiting then Woken else x.gate,
       tabled := x.tabled + Flatten(if count <= |x.frozenRuns| then x.frozenRuns[..count] else x.frozenRuns))
  }

  function Next(s: State, step: Step): State
    requires Enabled(s, step)
  {
    match step
    case LogRecord(w, e) =>
      var x := s.writers[w];
      s.(writers := s.writers[w := x.(log := x.log + [e], inflight := Some(e))])
    case Enqueue(w) =>
      var x := s.writers[w];
      s.(writers := s.writers[w := x.(queue := x.queue + [x.inflight.value], inflight := None)])
    case Insert(w) => s.(writers := s.writers[w := InsertFront(s.writers[w])])
    case Freeze(w) => s.(writers := s.writers[w := FreezeActive(s.writers[w])])
    case Block(w) => s.(writers := s.writers[w := s.writers[w].(gate := Waiting)])
    case MergeLists =>
      s.(merge := Some(Merge(MergeAll(s.writers),
                             seq(|s.writers|, i requires 0 <= i < |s.writers| => |s.writers[i].frozen|))))
    case Swap =>
      State(seq(|s.writers|, i requires 0 <= i < |s.writers| => DropLists(s.writers[i], s.merge.value.counts[i])),
            s.tables + [s.merge.value.table], None)
  }

  // ---------- lookups ----------

  /** Newest first, as the readers scan. */
  function ScanQueue(es: seq<MemEntry>, key: bytes): Option<MemEntry> {
    if es == [] then None
    else if es[|es| - 1].key == key then Some(es[|es| - 1])
    else ScanQueue(es[..|es| - 1], key)
  }

  function ScanLists(lists: seq<List>, key: bytes): Option<MemEntry> {
    if lists == [] then None
    else if key in lists[|lists| - 1] then Some(lists[|lists| - 1][key])
    else ScanLists(lists[..|lists| - 1], key)
  }

  /** Queue, active list, frozen lists newest first. */
  function FindInMemory(x: Writer, key: bytes): Option<MemEntry> {
    OrElse(ScanQueue(x.queue, key), OrElse(Get(x.active, key), ScanLists(x.frozen, key)))
  }

  /** Memory of the owning writer, then the tables newest first. */
  function Find(s: State, key: bytes): Option<MemEntry>
    requires |s.writers| == MAX_WRITER
  {
    OrElse(FindInMemory(s.writers[Owner(key)], key), ScanLists(s.tables, key))
  }

  /** Everything pushed to a writer that no swap has dropped, in push order. */
  function Pushed(x: Writer): seq<MemEntry> {
    x.tabled + Flatten(x.frozenRuns) + x.activeRun + x.queue
  }

  /** With the entry still being pushed. */
  function Kept(x: Writer): seq<MemEntry> {
    Pushed(x) + if x.inflight.Some? then [x.inflight.value] else []
  }

  /** `MessageQueue::search` at a sequence number: the newest entry of the key numbered at least that. */
  function SearchQueue(es: seq<MemEntry>, key: bytes, seqNum: nat): (r: Option<MemEntry>)
    ensures r.Some? ==> r.value in es && r.value.key == key && seqNum <= r.value.seqNum
  {
    if es == [] then None
    else if es[|es| - 1].key == key && seqNum <= es[|es| - 1].seqNum then Some(es[|es| - 1])
    else SearchQueue(es[..|es| - 1], key, seqNum)
  }

  /** The search finds the newest entry of the key if and only if that entry is numbered at least the
      number asked for. */
  lemma {:induction false} SearchQueueExactly(es: seq<MemEntry>, key: bytes, seqNum: nat)
    ensures SearchQueue(es, key, seqNum) == ScanQueue(es, key) <==>
            (ScanQueue(es, key).Some? ==> seqNum <= ScanQueue(es, key).value.seqNum)
  {
    if es == [] {
    } else {
      SearchQueueExactly(es[..|es| - 1], key, seqNum);
    }
  }

  /** The search result is the newest entry of the key numbered at least the number asked for: nothing that
      qualifies comes after it, and None means that nothing qualifies. */
  lemma {:induction false} SearchQueueIsNewest(es: seq<MemEntry>, key: bytes, seqNum: nat)
    ensures match SearchQueue(es, key, seqNum)
            case None => forall e :: e in es && e.key == key ==> e.seqNum < seqNum
            case Some(e) =>
              exists i :: 0 <= i < |es| && es[i] == e && e.key == key && seqNum <= e.seqNum
                          && forall j :: i < j < |es| && es[j].key == key ==> es[j].seqNum < seqNum
  {
    if es == [] {
    } else {
      var last := |es| - 1;
      assert es == es[..last] + [es[last]];
      if es[last].key == key && seqNum <= es[last].seqNum {
      } else {
        SearchQueueIsNewest(es[..last], key, seqNum);
        if SearchQueue(es[..last], key, seqNum).Some? {
          var e := SearchQueue(es[..last], key, seqNum).value;
          var i :| 0 <= i < last && es[..last][i] == e
                   && forall j :: i < j < last && es[..last][j].key == key ==> es[..last][j].seqNum < seqNum;
          forall j | i < j < |es| && es[j].key == key
            ensures es[j].seqNum < seqNum
          {
            if j < last {
              assert es[..last][j] == es[j];
            }
          }
          assert es[i] == e;
        }
      }
    }
  }

  /** A reader asks with the next number to be given out, which no queued entry has reached: the search
      never finds anything. */
  lemma QueuedEntriesAreHidden(es: seq<MemEntry>, key: bytes, seqNum: nat)
    requires forall e :: e in es ==> e.seqNum < seqNum
    ensures SearchQueue(es, key, seqNum) == None
  {
  }

  lemma {:induction false} ScanQueueIsFold(es: seq<MemEntry>, key: bytes)
    ensures ScanQueue(es, key) == Get(Fold(es), key)
  {
    if es == [] {
    } else {
      ScanQueueIsFold(es[..|es| - 1], key);
    }
  }

  /** Scanning newest first finds what overwriting oldest first leaves. */
  lemma {:induction false} ScanListsIsOverlay(lists: seq<List>, key: bytes)
    ensures ScanLists(lists, key) == Get(Overlay(lists), key)
  {
    if lists == [] {
    } else {
      ScanListsIsOverlay(lists[..|lists| - 1], key);
    }
  }

  // ---------- the invariant ----------

  ghost predicate ListsAreRuns(lists: seq<List>, runs: seq<seq<MemEntry>>) {
    |lists| == |runs| && forall j :: 0 <= j < |lists| ==> lists[j] == Fold(runs[j])
  }

  ghost predicate Distinct(es: seq<MemEntry>) {
    forall i, j :: 0 <= i < j < |es| ==> es[i].seqNum != es[j].seqNum
  }

  ghost predicate Owned(es: seq<MemEntry>, w: nat) {
    forall e :: e in es ==> Owner(e.key) == w
  }

  /** One writer: what is kept was logged, in this order; each list is the fold of its own stretch of that
      history, and nothing strays to another writer. */
  ghost predicate WriterInv(x: Writer, w: nat) {
    && Subsequence(Kept(x), x.log)
    && Distinct(x.log) && Owned(x.log, w)
    && x.active == Fold(x.activeRun)
    && ListsAreRuns(x.frozen, x.frozenRuns)
    && |x.queue| <= QUEUE_SIZE
  }

  /** The tables hold, of a writer's keys, the fold of what it had when they were built. */
  ghost predicate TablesInv(tables: seq<List>, x: Writer, w: nat) {
    forall key :: Owner(key) == w ==> Get(Overlay(tables), key) == Get(Fold(x.tabled), key)
  }

  ghost predicate MergeInv(m: Merge, x: Writer, w: nat) {
    && |m.counts| == MAX_WRITER && w < MAX_WRITER && m.counts[w] <= |x.frozenRuns|
    && forall key :: Owner(key) == w ==> Get(m.table, key) == Get(Fold(Flatten(x.frozenRuns[..m.counts[w]])), key)
  }

  ghost predicate Inv(s: State) {
    && |s.writers| == MAX_WRITER
    && (forall w :: 0 <= w < MAX_WRITER ==> WriterInv(s.writers[w], w) && TablesInv(s.tables, s.writers[w], w))
    && (s.merge.Some? ==> forall w :: 0 <= w < MAX_WRITER ==> MergeInv(s.merge.value, s.writers[w], w))
  }

  /** A swap loses the lists frozen after its table was built. */
  predicate Lossy(s: State, step: Step)
    requires Enabled(s, step)
  {
    step.Swap? && exists w :: 0 <= w < |s.writers| && s.merge.value.counts[w] < |s.writers[w].frozen|
  }
}
