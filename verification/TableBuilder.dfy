/** What a table builder has done so far, on values: the steps of its state machine. */
module TableProgress {
  import opened Bytes
  import opened Comparator
  import opened BlockFormat
  import opened Format
  import opened SortedMap
  import opened Sequences
  import opened TableReader

  datatype Progress = Progress(
    file: bytes,                  // everything appended to the file
    handles: seq<BlockHandle>,    // of the data blocks written
    blocks: seq<seq<Entry>>,      // and their entries
    data: seq<Entry>,             // entries of the open data block
    index: seq<Entry>,            // entries of the index block
    pending: bool)                // the last block's index entry is still owed

  /** The written blocks and the open one. */
  function AllBlocks(p: Progress): seq<seq<Entry>> {
    if p.data == [] then p.blocks else p.blocks + [p.data]
  }

  /** All pairs added so far. */
  function Added(p: Progress): seq<Entry> {
    Flatten(p.blocks) + p.data
  }

  /** The state machine's invariant. An index entry is owed only while the open block is empty, and
      it is owed for the last block written. */
  ghost predicate Consistent(p: Progress) {
    && Tiles(p.file, p.handles, p.blocks, |p.file|)
    && Sorted(Added(p))
    && Lists(p.index, p.handles)
    && Separates(p.index, AllBlocks(p))
    && (if p.pending then p.data == [] && p.blocks != [] && |p.index| == |p.blocks| - 1
        else |p.index| == |p.blocks| && (p.data == [] ==> p.blocks == []))
  }

  lemma OwedOnlyWhenEmpty(p: Progress)
    requires Consistent(p) && p.data != []
    ensures !p.pending
  {
  }

  lemma LastAdded(p: Progress)
    requires Consistent(p) && AllBlocks(p) != []
    ensures Added(p) != [] && LastKey(Added(p)) == LastKey(AllBlocks(p)[|AllBlocks(p)| - 1])
  {
    if p.data == [] {
      var last := p.blocks[|p.blocks| - 1];
      assert Flatten(p.blocks) == Flatten(p.blocks[..|p.blocks| - 1]) + last;
    }
  }

  function AddEntry(p: Progress, e: Entry): Progress {
    p.(data := p.data + [e])
  }

  /** Adding to an open block, or to the very first one. */
  lemma AddPlain(p: Progress, e: Entry)
    requires Consistent(p) && !p.pending
    requires Added(p) == [] || Less(LastKey(Added(p)), e.key)
    ensures Consistent(AddEntry(p, e)) && Added(AddEntry(p, e)) == Added(p) + [e]
  {
    hide Less, Flatten, Tile, HandleBytes, Sorted;
    var p' := AddEntry(p, e);
    assert Added(p') == Added(p) + [e];
    SortedAppend(Added(p), e);
    SortedSuffix(Flatten(p.blocks), p'.data);
    if p.data == [] {
      SeparatesNext(p.index, p.blocks, p'.data);
    } else {
      SeparatesGrown(p.index, p.blocks, p.data, e);
    }
  }

  lemma SeparatesGrown(index: seq<Entry>, blocks: seq<seq<Entry>>, es: seq<Entry>, e: Entry)
    requires Separates(index, blocks + [es]) && |index| <= |blocks| && es != [] && Sorted(es + [e])
    ensures Separates(index, blocks + [es + [e]])
  {
    var before, after := blocks + [es], blocks + [es + [e]];
    assert forall i :: 0 <= i < |blocks| ==> before[i] == blocks[i] == after[i];
    assert before[|blocks|] == es && after[|blocks|][0] == es[0];
  }

  lemma SortedSuffix(es: seq<Entry>, fs: seq<Entry>)
    requires Sorted(es + fs)
    ensures Sorted(fs)
  {
    forall i, j | 0 <= i < j < |fs|
      ensures Less(fs[i].key, fs[j].key)
    {
      assert (es + fs)[|es| + i] == fs[i] && (es + fs)[|es| + j] == fs[j];
    }
  }

  /** The index entry for the last block, under a key that covers it. */
  function Settle(p: Progress, separator: bytes): Progress
    requires p.handles != []
  {
    p.(index := p.index + [Entry(separator, HandleBytes(p.handles[|p.handles| - 1]))], pending := false)
  }

  lemma SeparatesSettled(index: seq<Entry>, blocks: seq<seq<Entry>>, separator: bytes, entry: Entry)
    requires Separates(index, blocks) && |index| + 1 == |blocks| && entry.key == separator
    requires AtMost(LastKey(blocks[|index|]), separator)
    ensures Separates(index + [entry], blocks)
  {
  }

  lemma SeparatesNext(index: seq<Entry>, blocks: seq<seq<Entry>>, es: seq<Entry>)
    requires Separates(index, blocks) && |index| == |blocks| && es != [] && Sorted(es)
    requires index != [] ==> Less(LastKey(index), es[0].key)
    ensures Separates(index, blocks + [es])
  {
    hide Less, AtMost, Sorted, LastKey;
    LastKeyOf(index);
  }

  lemma LastKeyOf(es: seq<Entry>)
    ensures es != [] ==> LastKey(es) == es[|es| - 1].key
  {
  }

  /** The owed entry may be settled with any key covering the last block. */
  lemma SettleLast(p: Progress, separator: bytes)
    requires Consistent(p) && p.pending
    requires AtMost(LastKey(Added(p)), separator)
    ensures var p' := Settle(p, separator);
            && |p'.index| == |p'.blocks| && Lists(p'.index, p'.handles) && Separates(p'.index, p'.blocks)
            && Added(p') == Added(p)
  {
    LastAdded(p);
    var p' := Settle(p, separator);
    hide Less, Flatten, Tile, HandleBytes, Sorted, Separates, Lists, LastKey, AtMost;
    SeparatesSettled(p.index, p.blocks, separator, p'.index[|p.index|]);
    ListsSettled(p.index, p.handles, p'.index[|p.index|]);
  }

  lemma ListsSettled(index: seq<Entry>, handles: seq<BlockHandle>, entry: Entry)
    requires Lists(index, handles) && |index| < |handles| && entry.value == HandleBytes(handles[|index|])
    ensures Lists(index + [entry], handles)
  {
    hide HandleBytes;
  }

  /** The first key after a block boundary settles the owed index entry and opens the next block. */
  lemma SettleAndAdd(p: Progress, separator: bytes, e: Entry)
    requires Consistent(p) && p.pending
    requires AtMost(LastKey(Added(p)), separator) && Less(separator, e.key)
    ensures Consistent(AddEntry(Settle(p, separator), e))
    ensures Added(AddEntry(Settle(p, separator), e)) == Added(p) + [e]
  {
    hide Less, Flatten, HandleBytes, Sorted, Separates, Lists;
    SettleLast(p, separator);
    var q := Settle(p, separator);
    AtMostThenLess(LastKey(Added(p)), separator, e.key);
    assert Added(AddEntry(q, e)) == Added(p) + [e];
    SortedAppend(Added(p), e);
    SortedSuffix(Added(p), [e]);
    assert q.data + [e] == [e];
    SeparatesNext(q.index, q.blocks, [e]);
  }

  /** A settled index entry keeps the index block's keys strictly increasing. */
  lemma SeparatorIncreases(p: Progress, separator: bytes)
    requires Consistent(p) && p.pending
    requires AtMost(LastKey(Added(p)), separator)
    ensures p.index == [] || Less(LastKey(p.index), separator)
  {
    hide Less, Flatten, Tile, HandleBytes, Sorted, Lists;
    LastAdded(p);
    if p.index != [] {
      var last := p.blocks[|p.blocks| - 1];
      SeparatorBelow(p.index, p.blocks, |p.index| - 1, |p.blocks| - 1, last[|last| - 1]);
      LessThenAtMost(LastKey(p.index), LastKey(last), separator);
    }
  }

  /** Writing the open block out. */
  function WriteOut(p: Progress, contents: bytes): Progress {
    Progress(p.file + RawBlock(contents), p.handles + [BlockHandle(|p.file|, |contents|)], p.blocks + [p.data],
             [], p.index, true)
  }

  lemma AddedAfterWriteOut(p: Progress, contents: bytes)
    ensures Added(WriteOut(p, contents)) == Added(p)
  {
    FlattenPush(p.blocks, p.data);
  }

  lemma FlushBlock(p: Progress, contents: bytes)
    requires Consistent(p) && p.data != []
    requires DecodeBlock(contents) == Some(p.data) && IsSet(BlockHandle(|p.file|, |contents|))
    ensures Consistent(WriteOut(p, contents)) && Added(WriteOut(p, contents)) == Added(p)
  {
    hide DecodeBlock, RawBlock;
    TilesAppend(p.file, p.handles, p.blocks, contents, p.data);
    AddedAfterWriteOut(p, contents);
  }

  // ---------- sizes ----------

  function Max(a: int, b: int): int {
    if a > b then a else b
  }

  /** What an index entry for this key can cost: the key, a handle, three varints, a restart. */
  function IndexCost(key: bytes): nat {
    |key| + MAX_HANDLE_LENGTH + 19
  }

  function TotalIndexCost(es: seq<Entry>): nat {
    if es == [] then 0 else TotalIndexCost(es[..|es| - 1]) + IndexCost(es[|es| - 1].key)
  }

  /** The largest block that can hold `es` when blocks close at `blockSize`: only the last entry
      may cross the limit. */
  function BlockBound(blockSize: nat, es: seq<Entry>): nat {
    Max(blockSize - 1, 8) + 19 + if es == [] then 0 else |es[|es| - 1].key| + |es[|es| - 1].value|
  }

  /** Size bookkeeping: each block respects its bound, the index has room for the entry it may
      owe, and the index block caps the size of the file. */
  ghost predicate Sized(p: Progress, blockSize: nat, dataSize: nat, indexSize: nat) {
    && |p.handles| == |p.blocks| <= |p.index| + 1
    && (forall i {:trigger p.blocks[i]} :: 0 <= i < |p.blocks| ==>
          p.handles[i].size <= BlockBound(blockSize, p.blocks[i]))
    && (if p.data == [] then dataSize == 8 else dataSize <= BlockBound(blockSize, p.data))
    && indexSize + IndexCost(LastKey(Added(p))) < UINT32_LIMIT
    && indexSize + (if Added(p) == [] then 0 else IndexCost(LastKey(Added(p)))) <= 8 + TotalIndexCost(Added(p))
    && 3 * |p.index| <= indexSize
    && |p.file| <= |p.blocks| * (UINT32_LIMIT + BLOCK_TRAILER_SIZE)
  }

  /** So the next block, the metaindex, the index and the footer all have representable handles. */
  lemma OffsetsFit(p: Progress, blockSize: nat, dataSize: nat, indexSize: nat)
    requires Sized(p, blockSize, dataSize, indexSize)
    ensures |p.file| + 4 * UINT32_LIMIT < UINT64_LIMIT
  {
  }

  lemma FlushSized(p: Progress, contents: bytes, blockSize: nat, dataSize: nat, indexSize: nat)
    requires Consistent(p) && p.data != [] && Sized(p, blockSize, dataSize, indexSize)
    requires |contents| == dataSize < UINT32_LIMIT
    ensures Sized(WriteOut(p, contents), blockSize, 8, indexSize)
  {
    hide Added, RawBlock, LastKey, IndexCost, TotalIndexCost, BlockBound, Tiles, Sorted, Lists, Separates;
    AddedAfterWriteOut(p, contents);
  }

  /** The invariant together with its sizes. */
  ghost predicate Sound(p: Progress, blockSize: nat, dataSize: nat, indexSize: nat) {
    Consistent(p) && Sized(p, blockSize, dataSize, indexSize)
  }

  lemma SoundOwes(p: Progress, blockSize: nat, dataSize: nat, indexSize: nat)
    requires Sound(p, blockSize, dataSize, indexSize) && p.data != []
    ensures !p.pending
  {
  }

  /** Writing the open block out keeps the invariant and the pairs added. */
  lemma FlushStep(p: Progress, contents: bytes, blockSize: nat, indexSize: nat)
    requires Sound(p, blockSize, |contents|, indexSize) && p.data != [] && |contents| < UINT32_LIMIT
    requires DecodeBlock(contents) == Some(p.data)
    ensures Sound(WriteOut(p, contents), blockSize, 8, indexSize)
    ensures Added(WriteOut(p, contents)) == Added(p)
  {
    hide Consistent, Sized, Added, DecodeBlock;
    OwedOnlyWhenEmpty(p);
    OffsetsFit(p, blockSize, |contents|, indexSize);
    FlushBlock(p, contents);
    FlushSized(p, contents, blockSize, |contents|, indexSize);
  }

  lemma OpenBlockOrder(p: Progress, blockSize: nat, dataSize: nat, indexSize: nat)
    requires Sound(p, blockSize, dataSize, indexSize)
    ensures if p.data == [] then dataSize == 8 else Added(p) != [] && LastKey(p.data) == LastKey(Added(p))
    ensures p.pending ==> Added(p) != [] && p.data == [] && p.handles != []
    ensures |p.file| + 4 * UINT32_LIMIT < UINT64_LIMIT
  {
  }

  /** With nothing in the open block the data blocks end where the file does, and there is one if there
      is a pair. */
  lemma DataEnds(p: Progress, blockSize: nat, dataSize: nat, indexSize: nat)
    requires Sound(p, blockSize, dataSize, indexSize)
    ensures EndOf(p.handles, |p.handles|) == |p.file|
    ensures p.data == [] && Added(p) != [] ==> p.handles != []
  {
  }

  lemma FinishedStart(data: bytes, metaindex: bytes, index: bytes)
    ensures |data| <= |FinishedFile(data, metaindex, index)|
    ensures FinishedFile(data, metaindex, index)[..|data|] == data
  {
    hide RawBlock, FooterBytes;
  }

  lemma TailFits(p: Progress, blockSize: nat, dataSize: nat, indexSize: nat)
    requires Sound(p, blockSize, dataSize, indexSize)
    ensures indexSize + IndexCost(LastKey(Added(p))) <= 50 + TotalIndexCost(Added(p))
  {
  }

  /** An owed entry has a representable handle and may be added to the index block. */
  lemma OwedEntry(p: Progress, blockSize: nat, dataSize: nat, indexSize: nat, separator: bytes)
    requires Sound(p, blockSize, dataSize, indexSize) && p.pending
    requires AtMost(LastKey(Added(p)), separator)
    ensures p.data == [] && p.handles != [] && IsSet(p.handles[|p.handles| - 1])
    ensures p.index == [] || Less(LastKey(p.index), separator)
    ensures indexSize + IndexCost(LastKey(Added(p))) < UINT32_LIMIT
  {
    hide Less, Flatten, Sorted, Separates, Lists;
    SeparatorIncreases(p, separator);
    var last := |p.blocks| - 1;
    assert p.blocks[last] == p.blocks[last] && Tile(p.file, p.handles[last], EndOf(p.handles, last), p.blocks[last]);
  }

  lemma LastKeyPush(es: seq<Entry>, e: Entry)
    ensures LastKey(es + [e]) == e.key
  {
  }

  lemma {:induction false} CostMonotone(rows: seq<Entry>, n: nat)
    requires n <= |rows|
    ensures TotalIndexCost(rows[..n]) <= TotalIndexCost(rows)
    decreases |rows| - n
  {
    if n < |rows| {
      CostMonotone(rows, n + 1);
      assert rows[..n + 1][..n] == rows[..n];
    } else {
      assert rows[..n] == rows;
    }
  }

  lemma TotalIndexCostPush(es: seq<Entry>, e: Entry)
    ensures TotalIndexCost(es + [e]) == TotalIndexCost(es) + IndexCost(e.key)
  {
    assert (es + [e])[..|es|] == es;
  }

  lemma RoomInIndex(p: Progress, rows: seq<Entry>, n: nat, blockSize: nat, dataSize: nat, indexSize: nat)
    requires Sound(p, blockSize, dataSize, indexSize) && n < |rows| && Added(p) == rows[..n]
    requires 100 + TotalIndexCost(rows) < UINT32_LIMIT
    ensures indexSize + IndexCost(LastKey(rows[..n])) + IndexCost(rows[n].key) < UINT32_LIMIT
  {
    hide Added, Consistent;
    assert rows[..n + 1] == rows[..n] + [rows[n]];
    TotalIndexCostPush(rows[..n], rows[n]);
    CostMonotone(rows, n + 1);
    hide TotalIndexCost;
  }

  /** Adding a pair to the open block, or to the first one. */
  lemma AddStep(p: Progress, e: Entry, blockSize: nat, dataSize: nat, dataSize': nat, indexSize: nat)
    requires Sound(p, blockSize, dataSize, indexSize) && !p.pending
    requires Added(p) == [] || Less(LastKey(Added(p)), e.key)
    requires dataSize <= Max(blockSize - 1, 8)
    requires dataSize' <= dataSize + |e.key| + |e.value| + 19
    requires indexSize + IndexCost(e.key) < UINT32_LIMIT
    ensures Sound(AddEntry(p, e), blockSize, dataSize', indexSize)
    ensures Added(AddEntry(p, e)) == Added(p) + [e]
  {
    hide Less, Added, Separates, Lists, Sorted, Tiles, Sized;
    AddPlain(p, e);
    AddSized(p, e, blockSize, dataSize, dataSize', indexSize);
  }

  lemma AddSized(p: Progress, e: Entry, blockSize: nat, dataSize: nat, dataSize': nat, indexSize: nat)
    requires Sized(p, blockSize, dataSize, indexSize) && Added(AddEntry(p, e)) == Added(p) + [e]
    requires dataSize <= Max(blockSize - 1, 8)
    requires dataSize' <= dataSize + |e.key| + |e.value| + 19
    requires indexSize + IndexCost(e.key) < UINT32_LIMIT
    ensures Sized(AddEntry(p, e), blockSize, dataSize', indexSize)
  {
    hide Added, TotalIndexCost;
    TotalIndexCostPush(Added(p), e);
  }

  /** Settling the owed index entry and adding the pair that opens the next block. */
  lemma SettleStep(p: Progress, separator: bytes, e: Entry, blockSize: nat, dataSize: nat, indexSize: nat,
                   indexSize': nat)
    requires Sound(p, blockSize, 8, indexSize) && p.pending && p.handles != []
    requires AtMost(LastKey(Added(p)), separator) && Less(separator, e.key)
    requires |separator| <= |LastKey(Added(p))|
    requires dataSize <= 8 + |e.key| + |e.value| + 19
    requires indexSize + 3 <= indexSize' <= indexSize + IndexCost(separator)
    requires indexSize + IndexCost(LastKey(Added(p))) + IndexCost(e.key) < UINT32_LIMIT
    ensures Sound(AddEntry(Settle(p, separator), e), blockSize, dataSize, indexSize')
    ensures Added(AddEntry(Settle(p, separator), e)) == Added(p) + [e]
  {
    hide Less, Added, Separates, Lists, Sorted, Tiles, Sized;
    LastAdded(p);
    SettleAndAdd(p, separator, e);
    SettleSized(p, separator, e, blockSize, dataSize, indexSize, indexSize');
  }

  lemma SettleSized(p: Progress, separator: bytes, e: Entry, blockSize: nat, dataSize: nat, indexSize: nat,
                    indexSize': nat)
    requires Sized(p, blockSize, 8, indexSize) && p.handles != [] && p.data == [] && |p.blocks| == |p.index| + 1
    requires Added(p) != [] && |separator| <= |LastKey(Added(p))|
    requires dataSize <= 8 + |e.key| + |e.value| + 19
    requires indexSize + 3 <= indexSize' <= indexSize + IndexCost(separator)
    requires indexSize + IndexCost(LastKey(Added(p))) + IndexCost(e.key) < UINT32_LIMIT
    requires Added(AddEntry(Settle(p, separator), e)) == Added(p) + [e]
    ensures Sized(AddEntry(Settle(p, separator), e), blockSize, dataSize, indexSize')
  {
    hide Added, TotalIndexCost, HandleBytes;
    TotalIndexCostPush(Added(p), e);
  }

  // ---------- the shape of what is written ----------

  /** Each index key but the last is the shortest separator of the blocks on its two sides. */
  ghost predicate Shortened(index: seq<Entry>, blocks: seq<seq<Entry>>) {
    forall i :: 0 <= i < |index| && i + 1 < |blocks| && blocks[i + 1] != [] ==>
      index[i].key == ShortestSeparator(LastKey(blocks[i]), blocks[i + 1][0].key)
  }

  /** The bytes under the handle are a block of these entries with restarts at this interval. */
  ghost predicate BlockShape(file: bytes, h: BlockHandle, interval: nat, es: seq<Entry>) {
    ReadBlock(file, h).Some? && WellRestarted(ReadBlock(file, h).value, interval, es)
  }

  ghost predicate Shapes(file: bytes, handles: seq<BlockHandle>, blocks: seq<seq<Entry>>, interval: nat) {
    && |handles| == |blocks|
    && forall i {:trigger blocks[i]} :: 0 <= i < |blocks| ==> BlockShape(file, handles[i], interval, blocks[i])
  }

  lemma ShapesExtend(file: bytes, t: bytes, handles: seq<BlockHandle>, blocks: seq<seq<Entry>>, interval: nat)
    requires Shapes(file, handles, blocks, interval)
    ensures Shapes(file + t, handles, blocks, interval)
  {
    hide ReadBlock, WellRestarted;
    forall i {:trigger blocks[i]} | 0 <= i < |blocks|
      ensures BlockShape(file + t, handles[i], interval, blocks[i])
    {
      assert BlockShape(file, handles[i], interval, blocks[i]);
      ReadBlockExtends(file, t, handles[i]);
    }
  }

  /** Separators and blocks so far have the right shape. */
  ghost predicate Shaped(p: Progress, interval: nat) {
    Shortened(p.index, AllBlocks(p)) && Shapes(p.file, p.handles, p.blocks, interval)
  }

  lemma ShapedAdd(p: Progress, e: Entry, interval: nat, blockSize: nat, dataSize: nat, indexSize: nat)
    requires Sound(p, blockSize, dataSize, indexSize) && !p.pending && Shaped(p, interval)
    ensures Shaped(AddEntry(p, e), interval)
  {
    hide ShortestSeparator, Sorted, Separates, Tiles, Lists, Sized, Shapes, LastKey;
    var before, after := AllBlocks(p), AllBlocks(AddEntry(p, e));
    assert forall i :: 0 <= i < |p.blocks| ==> after[i] == p.blocks[i] == before[i];
    if p.data != [] {
      assert before[|p.blocks|] == p.data && after[|p.blocks|] == p.data + [e];
    }
  }

  lemma ShapedSettle(p: Progress, e: Entry, interval: nat, blockSize: nat, dataSize: nat, indexSize: nat)
    requires Sound(p, blockSize, dataSize, indexSize) && p.pending && p.handles != [] && Shaped(p, interval)
    ensures Shaped(AddEntry(Settle(p, ShortestSeparator(LastKey(Added(p)), e.key)), e), interval)
  {
    hide ShortestSeparator, Sorted, Separates, Tiles, Lists, Sized, Shapes, HandleBytes, Shortened, LastKey;
    LastAdded(p);
    hide Added;
    var separator := ShortestSeparator(LastKey(Added(p)), e.key);
    var q := AddEntry(Settle(p, separator), e);
    assert p.data == [] && q.data == [e];
    ShortenedPush(p.index, p.blocks, q.index[|p.index|], e);
  }

  lemma ShortenedPush(index: seq<Entry>, blocks: seq<seq<Entry>>, entry: Entry, e: Entry)
    requires Shortened(index, blocks) && |index| + 1 == |blocks|
    requires entry.key == ShortestSeparator(LastKey(blocks[|index|]), e.key)
    ensures Shortened(index + [entry], blocks + [[e]])
  {
    hide ShortestSeparator, LastKey;
    var all := blocks + [[e]];
    assert forall i :: 0 <= i < |blocks| ==> all[i] == blocks[i];
  }

  lemma ShapedFlush(p: Progress, contents: bytes, interval: nat)
    requires p.data != [] && Shaped(p, interval) && WellRestarted(contents, interval, p.data)
    ensures Shaped(WriteOut(p, contents), interval)
  {
    hide ShortestSeparator, LastKey, WellRestarted, ReadBlock, RawBlock;
    var q := WriteOut(p, contents);
    ShapesExtend(p.file, RawBlock(contents), p.handles, p.blocks, interval);
    ReadBlockOfRaw(p.file, contents, []);
    assert q.file + [] == q.file;
    assert BlockShape(q.file, q.handles[|p.handles|], interval, p.data);
    forall i {:trigger q.blocks[i]} | 0 <= i < |q.blocks|
      ensures BlockShape(q.file, q.handles[i], interval, q.blocks[i])
    {
      if i < |p.blocks| {
        assert BlockShape(q.file, p.handles[i], interval, p.blocks[i]);
      }
    }
    assert AllBlocks(q) == AllBlocks(p);
  }

  /** Separators between the blocks, and a short successor after the last. */
  ghost predicate ShortKeys(index: seq<Entry>, blocks: seq<seq<Entry>>) {
    && |index| == |blocks| && Shortened(index, blocks)
    && (blocks != [] ==> LastKey(index) == ShortSuccessor(LastKey(blocks[|blocks| - 1])))
  }

  /** How a finished table is laid out: the footer leads to an empty metaindex block and to an index block
      with a restart for every entry, whose keys are as short as they can be; each data block has a restart
      for every run of `interval` entries. */
  ghost predicate Laid(file: bytes, handles: seq<BlockHandle>, blocks: seq<seq<Entry>>, interval: nat) {
    && FooterOf(file).Some? && ReadIndex(file).Some?
    && BlockShape(file, FooterOf(file).value.metaindexHandle, interval, [])
    && BlockShape(file, FooterOf(file).value.indexHandle, 1, ReadIndex(file).value)
    && ShortKeys(ReadIndex(file).value, blocks)
    && Shapes(file, handles, blocks, interval)
  }

  lemma FinishLaid(p: Progress, separator: bytes, metaindex: bytes, index: bytes, interval: nat, blockSize: nat,
                   indexSize: nat)
    requires Sound(p, blockSize, 8, indexSize) && p.data == [] && Shaped(p, interval)
    requires p.pending ==> p.handles != [] && separator == ShortSuccessor(LastKey(Added(p)))
    requires var entries := if p.pending then Settle(p, separator).index else p.index;
             DecodeBlock(index) == Some(entries) && WellRestarted(index, 1, entries)
    requires |metaindex| == 8 && |index| < UINT32_LIMIT && WellRestarted(metaindex, interval, [])
    ensures Laid(FinishedFile(p.file, metaindex, index), p.handles, p.blocks, interval)
  {
    hide Consistent, Sized, Shortened, ShortKeys, Settle, WellRestarted, DecodeBlock, Shapes, FinishedFile, Laid;
    OffsetsFit(p, blockSize, 8, indexSize);
    FinishKeys(p, separator, blockSize, indexSize);
    LaidOut(p.file, p.handles, p.blocks, metaindex, index,
            if p.pending then Settle(p, separator).index else p.index, interval);
  }

  lemma LaidOut(data: bytes, handles: seq<BlockHandle>, blocks: seq<seq<Entry>>, metaindex: bytes, index: bytes,
                entries: seq<Entry>, interval: nat)
    requires |data| + |metaindex| + |index| + 2 * BLOCK_TRAILER_SIZE < UINT64_LIMIT - 1
    requires DecodeBlock(index) == Some(entries) && WellRestarted(index, 1, entries)
    requires WellRestarted(metaindex, interval, []) && ShortKeys(entries, blocks)
    requires Shapes(data, handles, blocks, interval)
    ensures Laid(FinishedFile(data, metaindex, index), handles, blocks, interval)
  {
    hide ShortKeys, WellRestarted, DecodeBlock, ReadBlock, FooterOf, ReadIndex, Shapes, BlockShape, FinishedFile;
    var file := FinishedFile(data, metaindex, index);
    FooterFinds(data, metaindex, index);
    FooterFindsIndex(data, metaindex, index, entries);
    FinishedStart(data, metaindex, index);
    ShapesExtend(data, file[|data|..], handles, blocks, interval);
    assert file == data + file[|data|..];
    ShapeOf(file, FooterOf(file).value.metaindexHandle, metaindex, interval, []);
    ShapeOf(file, FooterOf(file).value.indexHandle, index, 1, entries);
  }

  lemma ShapeOf(file: bytes, h: BlockHandle, contents: bytes, interval: nat, es: seq<Entry>)
    requires ReadBlock(file, h) == Some(contents) && WellRestarted(contents, interval, es)
    ensures BlockShape(file, h, interval, es)
  {
    hide ReadBlock, WellRestarted;
  }

  lemma FinishKeys(p: Progress, separator: bytes, blockSize: nat, indexSize: nat)
    requires Sound(p, blockSize, 8, indexSize) && p.data == [] && Shortened(p.index, AllBlocks(p))
    requires p.pending ==> p.handles != [] && separator == ShortSuccessor(LastKey(Added(p)))
    ensures ShortKeys(if p.pending then Settle(p, separator).index else p.index, p.blocks)
  {
    hide ShortSuccessor, Sorted, Separates, Tiles, Lists, Sized, HandleBytes, Shortened, ShortKeys, LastKey;
    if p.pending {
      LastAdded(p);
      hide Added;
      KeysWithLast(p.index, p.blocks, Settle(p, separator).index[|p.index|]);
    } else {
      NoKeys(p.index);
    }
  }

  lemma KeysWithLast(index: seq<Entry>, blocks: seq<seq<Entry>>, entry: Entry)
    requires Shortened(index, blocks) && |index| + 1 == |blocks|
    requires entry.key == ShortSuccessor(LastKey(blocks[|index|]))
    ensures ShortKeys(index + [entry], blocks)
  {
    hide ShortestSeparator, ShortSuccessor;
  }

  lemma NoKeys(index: seq<Entry>)
    ensures index == [] ==> ShortKeys(index, [])
  {
  }

  /** The finished file: data blocks, an empty metaindex block, the index block, the footer. */
  function FinishedFile(data: bytes, metaindex: bytes, index: bytes): bytes {
    var withMeta := data + RawBlock(metaindex);
    withMeta + RawBlock(index)
    + FooterBytes(Footer(BlockHandle(|data|, |metaindex|), BlockHandle(|withMeta|, |index|)))
  }

  /** The last 48 bytes are the footer, and its handles lead to the two blocks written before it. */
  lemma FooterFinds(data: bytes, metaindex: bytes, index: bytes)
    requires |data| + |metaindex| + |index| + 2 * BLOCK_TRAILER_SIZE < UINT64_LIMIT - 1
    ensures var file := FinishedFile(data, metaindex, index);
            && FooterOf(file).Some?
            && ReadBlock(file, FooterOf(file).value.metaindexHandle) == Some(metaindex)
            && ReadBlock(file, FooterOf(file).value.indexHandle) == Some(index)
  {
    hide RawBlock, FooterBytes, DecodeFooter, ReadBlock;
    var withMeta := data + RawBlock(metaindex);
    var footer := Footer(BlockHandle(|data|, |metaindex|), BlockHandle(|withMeta|, |index|));
    var file := FinishedFile(data, metaindex, index);
    FooterRoundTrip(footer, []);
    assert file[|file| - FOOTER_LENGTH..] == FooterBytes(footer) + [];
    ReadBlockOfRaw(withMeta, index, FooterBytes(footer));
    var rest := RawBlock(index) + FooterBytes(footer);
    assert file == data + RawBlock(metaindex) + rest;
    ReadBlockOfRaw(data, metaindex, rest);
  }

  lemma FooterFindsIndex(data: bytes, metaindex: bytes, index: bytes, entries: seq<Entry>)
    requires |data| + |metaindex| + |index| + 2 * BLOCK_TRAILER_SIZE < UINT64_LIMIT - 1
    requires DecodeBlock(index) == Some(entries)
    ensures ReadIndex(FinishedFile(data, metaindex, index)) == Some(entries)
  {
    hide DecodeBlock, FooterOf, ReadBlock, FinishedFile;
    FooterFinds(data, metaindex, index);
  }

  /** The whole-table round trip, given what the builder leaves behind. */
  lemma FinishedTable(p: Progress, metaindex: bytes, index: bytes)
    requires Tiles(p.file, p.handles, p.blocks, |p.file|) && Sorted(Flatten(p.blocks))
    requires |p.index| == |p.blocks| && Lists(p.index, p.handles) && Separates(p.index, p.blocks)
    requires |p.file| + |metaindex| + |index| + 2 * BLOCK_TRAILER_SIZE < UINT64_LIMIT - 1
    requires DecodeBlock(index) == Some(p.index)
    ensures var file := FinishedFile(p.file, metaindex, index);
            && ReadTable(file) == Some(Flatten(p.blocks))
            && (forall key :: Search(file, key) == Some(Lookup(Flatten(p.blocks), key)))
            && Tiles(file, p.handles, p.blocks, |p.file|)
  {
    hide DecodeBlock, RawBlock, FooterBytes, Tiles, Flatten, Separates, Lists, ReadIndex, ReadTable, Search;
    FooterFindsIndex(p.file, metaindex, index, p.index);
    var file := FinishedFile(p.file, metaindex, index);
    assert file == p.file + file[|p.file|..];
    TilesExtend(p.file, p.handles, p.blocks, |p.file|, file[|p.file|..]);
    ReadsBack(file, p.index, p.handles, p.blocks, |p.file|);
  }

  /** What reading a finished table gives: all pairs by scan, each pair by search, and the data
      blocks end to end from the start of the file. */
  ghost predicate ReadsAs(file: bytes, es: seq<Entry>, handles: seq<BlockHandle>, blocks: seq<seq<Entry>>) {
    && ReadTable(file) == Some(es)
    && (forall key :: Search(file, key) == Some(Lookup(es, key)))
    && Tiles(file, handles, blocks, EndOf(handles, |handles|))
    && es == Flatten(blocks)
  }

  lemma BlockBounds(p: Progress, blockSize: nat, dataSize: nat, indexSize: nat)
    requires Sound(p, blockSize, dataSize, indexSize)
    ensures |p.handles| == |p.blocks|
    ensures forall i {:trigger p.blocks[i]} :: 0 <= i < |p.blocks| ==>
              p.handles[i].size <= BlockBound(blockSize, p.blocks[i])
  {
  }

  lemma FinishStep(p: Progress, separator: bytes, metaindex: bytes, index: bytes, blockSize: nat, indexSize: nat)
    requires Sound(p, blockSize, 8, indexSize) && p.data == []
    requires p.pending ==> p.handles != [] && AtMost(LastKey(Added(p)), separator)
    requires DecodeBlock(index) == Some(if p.pending then Settle(p, separator).index else p.index)
    requires |metaindex| == 8 && |index| < UINT32_LIMIT
    ensures ReadsAs(FinishedFile(p.file, metaindex, index), Added(p), p.handles, p.blocks)
  {
    hide Less, DecodeBlock, RawBlock, Flatten, Sorted, FinishedFile, ReadTable, Search, HandleBytes;
    OffsetsFit(p, blockSize, 8, indexSize);
    assert Flatten(p.blocks) + [] == Flatten(p.blocks);
    if p.pending {
      SettleLast(p, separator);
      FinishedTable(Settle(p, separator), metaindex, index);
    } else {
      FinishedTable(p, metaindex, index);
    }
  }
}

/** `TableBuilder`. */
module TableBuilding {
  import opened Bytes
  import opened Coding
  import opened Comparator
  import opened BlockFormat
  import opened BlockBuilding
  import opened Env
  import opened Format
  import opened Sequences
  import opened TableReader
  import opened TableProgress

  class TableBuilder {
    const file: WritableFile
    const blockSize: nat
    const interval: Interval
    const dataBlock: BlockBuilder
    const indexBlock: BlockBuilder
    var offset: nat
    var status: Status
    var lastKey: bytes
    var numEntries: nat
    var closed: bool
    var pendingIndexEntry: bool
    var pendingHandle: BlockHandle
    ghost var handles: seq<BlockHandle>
    ghost var blocks: seq<seq<Entry>>

    /** The parts are in order whatever the status. */
    ghost predicate Shape()
      reads this, file, dataBlock, indexBlock
    {
      && dataBlock != indexBlock
      && file.Valid() && dataBlock.Valid() && indexBlock.Valid()
      && dataBlock.interval == interval && indexBlock.interval == 1
      && (status == OK || status == Error)
    }

    ghost function State(): Progress
      requires Shape()
      reads this, file, file.buf, dataBlock, indexBlock
    {
      Progress(file.Contents(), handles, blocks, dataBlock.entries, indexBlock.entries, pendingIndexEntry)
    }

    /** The pairs added so far. */
    ghost function Contents(): seq<Entry>
      requires Shape()
      reads this, file, file.buf, dataBlock, indexBlock
    {
      Added(State())
    }

    /** While nothing has failed. */
    ghost predicate Building()
      requires Shape()
      reads this, file, file.buf, dataBlock, indexBlock
    {
      && offset == |file.Contents()| && file.pos == 0
      && (handles != [] ==> EndsInTrailer(file.Contents()))
      && Shaped(State(), interval)
      && lastKey == LastKey(Contents()) && numEntries == |Contents()|
      && (pendingIndexEntry ==> handles != [] && pendingHandle == handles[|handles| - 1])
      && Sound(State(), blockSize, dataBlock.CurrentSizeEstimate(), indexBlock.CurrentSizeEstimate())
    }

    ghost predicate Valid()
      reads this, file, file.buf, dataBlock, indexBlock
    {
      && Ready()
      && (status == OK && !closed && !dataBlock.Empty() ==> dataBlock.CurrentSizeEstimate() < blockSize)
    }

    /** Also holds inside Add, where the open block may have reached the limit. */
    ghost predicate Ready()
      reads this, file, file.buf, dataBlock, indexBlock
    {
      Shape() && (!closed ==> if status == OK then Building() else file.pos == 0)
    }

    constructor (file: WritableFile, blockSize: nat, interval: Interval)
      requires file.Valid() && file.Contents() == []
      ensures Valid() && fresh(dataBlock) && fresh(indexBlock)
      ensures this.file == file && this.blockSize == blockSize && this.interval == interval
      ensures status == OK && !closed && Contents() == [] && numEntries == 0 && handles == []
    {
      this.file, this.blockSize, this.interval := file, blockSize, interval;
      dataBlock := new BlockBuilder(interval);
      indexBlock := new BlockBuilder(1);
      offset, status, lastKey, numEntries, closed := 0, OK, [], 0, false;
      pendingIndexEntry, pendingHandle := false, BlockHandle(0, 0);
      handles, blocks := [], [];
    }

    /** Block and index sizes stay below 2^32 with this pair added. */
    ghost predicate Room(key: bytes, value: bytes)
      reads this, dataBlock, indexBlock
    {
      && Max(blockSize, 9) + |key| + |value| + 19 < UINT32_LIMIT
      && indexBlock.CurrentSizeEstimate() + IndexCost(lastKey) + IndexCost(key) < UINT32_LIMIT
    }

    /** Adding the rows of a sorted run in order: the next key is in order and there is room for it
        when all rows together cost less than 2^32 in the index. */
    lemma RoomFor(rows: seq<Entry>, n: nat)
      requires Valid() && !closed && n < |rows| && Sorted(rows)
      requires status == OK ==> Contents() == rows[..n]
      requires 100 + TotalIndexCost(rows) < UINT32_LIMIT
      requires Max(blockSize, 9) + |rows[n].key| + |rows[n].value| + 19 < UINT32_LIMIT
      ensures status == OK ==> Room(rows[n].key, rows[n].value)
      ensures status == OK && numEntries > 0 ==> Less(lastKey, rows[n].key)
    {
      hide Less, Sound, Added, TotalIndexCost, BlockBuilder.Valid, WritableFile.Valid, WritableFile.Contents;
      if status == OK {
        RoomInIndex(State(), rows, n, blockSize, dataBlock.CurrentSizeEstimate(), indexBlock.CurrentSizeEstimate());
      }
    }

    /** Contents, trailer, then the offset advances only if both appends succeeded. */
    method WriteRawBlock(contents: bytes) returns (handle: BlockHandle)
      requires file.Valid() && status == OK
      modifies this`status, this`offset, file, file.buf
      ensures file.Valid() && (status == OK || status == Error)
      ensures handle == BlockHandle(old(offset), |contents|)
      ensures status == OK ==> file.Contents() == old(file.Contents()) + RawBlock(contents)
      ensures offset == old(offset) + if status == OK then |contents| + BLOCK_TRAILER_SIZE else 0
      ensures old(file.pos) + |contents| + BLOCK_TRAILER_SIZE <= WRITABLE_FILE_BUFFER_SIZE ==>
                && status == OK && file.disk == old(file.disk)
                && file.pos == old(file.pos) + |contents| + BLOCK_TRAILER_SIZE
      ensures NoFailure(old(file.script)) ==> status == OK && NoFailure(file.script)
      ensures status != OK ==> file.pos == 0
      ensures old(file.Failing()) ==>
                && file.disk == old(file.disk)
                && (status == OK ==> file.Failing() && file.pos == old(file.pos) + |contents| + BLOCK_TRAILER_SIZE)
    {
      handle := BlockHandle(offset, |contents|);
      status := file.Append(contents);
      if status == OK {
        status := file.Append([NO_COMPRESSION] + Fixed32(0));
        if status == OK {
          assert file.Contents() == old(file.Contents()) + RawBlock(contents);
          offset := offset + |contents| + BLOCK_TRAILER_SIZE;
        }
      }
    }

    method WriteBlock(block: BlockBuilder) returns (handle: BlockHandle, ghost contents: bytes)
      requires Shape() && status == OK && block.Valid()
      modifies this`status, this`offset, file, file.buf, block
      ensures Shape() && block.Valid()
      ensures DecodeBlock(contents) == Some(old(block.entries))
      ensures WellRestarted(contents, block.interval, old(block.entries))
      ensures |contents| == old(block.CurrentSizeEstimate())
      ensures block.entries == [] && block.CurrentSizeEstimate() == 8
      ensures handle == BlockHandle(old(offset), |contents|)
      ensures status == OK ==> file.Contents() == old(file.Contents()) + RawBlock(contents)
      ensures offset == old(offset) + if status == OK then |contents| + BLOCK_TRAILER_SIZE else 0
      ensures old(file.pos) + |contents| + BLOCK_TRAILER_SIZE <= WRITABLE_FILE_BUFFER_SIZE ==>
                && status == OK && file.disk == old(file.disk)
                && file.pos == old(file.pos) + |contents| + BLOCK_TRAILER_SIZE
      ensures NoFailure(old(file.script)) ==> status == OK && NoFailure(file.script)
      ensures status != OK ==> file.pos == 0
      ensures old(file.Failing()) ==>
                && file.disk == old(file.disk)
                && (status == OK ==> file.Failing() && file.pos == old(file.pos) + |contents| + BLOCK_TRAILER_SIZE)
    {
      var raw := block.Finish();
      contents := raw;
      handle := WriteRawBlock(raw);
      block.Reset();
    }

    /** The writing half of Flush: block, trailer, handle, then the file's own flush. */
    method WriteOpenBlock() returns (ghost contents: bytes)
      requires Shape() && status == OK && offset == |file.Contents()|
      modifies this`status, this`offset, this`pendingHandle, this`pendingIndexEntry, this`handles, this`blocks,
               file, file.buf, dataBlock
      ensures Shape() && dataBlock.CurrentSizeEstimate() == 8
      ensures DecodeBlock(contents) == Some(old(dataBlock.entries))
      ensures WellRestarted(contents, interval, old(dataBlock.entries))
      ensures |contents| == old(dataBlock.CurrentSizeEstimate())
      ensures status == OK ==>
                && State() == WriteOut(old(State()), contents) && offset == |file.Contents()| && file.pos == 0
                && handles != [] && pendingHandle == handles[|handles| - 1]
      ensures NoFailure(old(file.script)) ==> status == OK && NoFailure(file.script)
      ensures status != OK ==> file.pos == 0
      ensures status == OK ==> EndsInTrailer(file.Contents())
      ensures old(file.Failing()) ==> status != OK && file.disk == old(file.disk)
    {
      hide DecodeBlock, RawBlock, EndsInTrailer, WellRestarted, BlockBuilder.Valid;
      handles, blocks := handles + [BlockHandle(offset, dataBlock.CurrentSizeEstimate())], blocks + [dataBlock.entries];
      pendingHandle, contents := WriteBlock(dataBlock);
      if status == OK {
        RawBlockEnds(old(file.Contents()), contents);
        pendingIndexEntry := true;
        status := file.Flush();
      }
    }

    /** Writes the open block out; its index entry is owed until the next key or the end. */
    method Flush()
      requires Ready() && !closed
      modifies this, file, file.buf, dataBlock
      ensures Valid() && !closed && numEntries == old(numEntries) && lastKey == old(lastKey)
      ensures old(status) == OK && status == OK ==> Contents() == old(Contents()) && dataBlock.Empty()
      ensures old(status) == OK && old(dataBlock.Empty()) ==> status == OK && State() == old(State())
      ensures old(status) == OK && status == OK && !old(dataBlock.Empty()) ==>
                handles == old(handles) + [BlockHandle(old(offset), old(dataBlock.CurrentSizeEstimate()))]
      ensures old(status) != OK ==> status == old(status) && State() == old(State())
      ensures old(status) == OK && NoFailure(old(file.script)) ==> status == OK && NoFailure(file.script)
      ensures old(status) != OK ==> file.disk == old(file.disk)
      ensures old(file.Failing()) ==> file.disk == old(file.disk) && (status == OK ==> file.Failing())
      ensures old(file.Failing()) && old(status) == OK && !old(dataBlock.Empty()) ==> status != OK
    {
      hide Added, Sound, DecodeBlock, RawBlock, LastKey, Shaped, WellRestarted, EndsInTrailer;
      if status != OK {
        return;
      }
      if dataBlock.Empty() {
        return;
      }
      dataBlock.EntriesAreKept();
      dataBlock.EntriesCost();
      hide BlockBuilder.Valid, WritableFile.Valid, WritableFile.Contents;
      ghost var before, size := State(), indexBlock.CurrentSizeEstimate();
      SoundOwes(before, blockSize, dataBlock.CurrentSizeEstimate(), size);
      assert !pendingIndexEntry;
      ghost var contents := WriteOpenBlock();
      FlushStep(before, contents, blockSize, size);
      ShapedFlush(before, contents, interval);
      dataBlock.EntriesAreKept();
    }

    /** Adds a pair; the original asserts that keys strictly increase. Once a write has failed the
        call does nothing. */
    method Add(key: bytes, value: bytes)
      requires Valid() && !closed
      requires status == OK && numEntries > 0 ==> Less(lastKey, key)
      requires status == OK ==> Room(key, value)
      modifies this, file, file.buf, dataBlock, indexBlock
      ensures Valid() && !closed
      ensures old(status) == OK && status == OK ==> Contents() == old(Contents()) + [Entry(key, value)]
      ensures old(status) == OK && status == OK ==>
                if dataBlock.Empty()
                then exists size :: size >= blockSize && handles == old(handles) + [BlockHandle(old(offset), size)]
                else handles == old(handles)
      ensures old(status) != OK ==> status == old(status) && State() == old(State())
      ensures old(status) == OK && NoFailure(old(file.script)) ==> status == OK && NoFailure(file.script)
      ensures old(status) != OK ==> file.disk == old(file.disk)
      ensures old(file.Failing()) ==>
                file.disk == old(file.disk) && (status == OK ==> file.Failing() && handles == old(handles))
    {
      hide Added, Sound, LastKey, Less, Shaped, BlockBuilder.Valid, WritableFile.Valid, WritableFile.Contents;
      if status != OK {
        return;
      }
      AddToBlocks(key, value);
      var estimatedBlockSize := dataBlock.CurrentSizeEstimate();
      if estimatedBlockSize >= blockSize {
        Flush();
        assert status == OK ==> handles == old(handles) + [BlockHandle(old(offset), estimatedBlockSize)];
      }
    }

    /** Add up to the size check. */
    method AddToBlocks(key: bytes, value: bytes)
      requires Valid() && !closed && status == OK
      requires numEntries > 0 ==> Less(lastKey, key)
      requires Room(key, value)
      modifies this`lastKey, this`numEntries, this`pendingIndexEntry, dataBlock, indexBlock
      ensures Ready() && !dataBlock.Empty() && Contents() == old(Contents()) + [Entry(key, value)]
    {
      hide Added, Sound, LastKey, Less, Shaped, ShortestSeparator;
      hide BlockBuilder.Valid, WritableFile.Valid, WritableFile.Contents;
      ghost var before, dataSize, indexSize, e :=
        State(), dataBlock.CurrentSizeEstimate(), indexBlock.CurrentSizeEstimate(), Entry(key, value);
      dataBlock.EntriesAreKept();
      OpenBlockOrder(before, blockSize, dataSize, indexSize);
      ghost var separator := PutPair(key, value);
      LastKeyPush(Added(before), e);
      dataBlock.EntriesAreKept();
      if before.pending {
        assert State() == AddEntry(Settle(before, separator), e);
        SettleStep(before, separator, e, blockSize, dataBlock.CurrentSizeEstimate(), indexSize,
                   indexBlock.CurrentSizeEstimate());
        ShapedSettle(before, e, interval, blockSize, dataSize, indexSize);
      } else {
        assert State() == AddEntry(before, e);
        AddStep(before, e, blockSize, dataSize, dataBlock.CurrentSizeEstimate(), indexSize);
        ShapedAdd(before, e, interval, blockSize, dataSize, indexSize);
      }
    }

    /** The writes Add makes to the two blocks: first the owed index entry, then the pair. */
    method PutPair(key: bytes, value: bytes) returns (ghost separator: bytes)
      requires Ready() && !closed && status == OK
      requires pendingIndexEntry ==> Less(lastKey, key)
      requires dataBlock.Empty() || Less(dataBlock.lastKey, key)
      requires dataBlock.CurrentSizeEstimate() + |key| + |value| + 19 < UINT32_LIMIT
      modifies this`lastKey, this`numEntries, this`pendingIndexEntry, dataBlock, indexBlock
      ensures Shape() && lastKey == key && numEntries == old(numEntries) + 1 && !pendingIndexEntry
      ensures dataBlock.entries == old(dataBlock.entries) + [Entry(key, value)]
      ensures dataBlock.CurrentSizeEstimate() <= old(dataBlock.CurrentSizeEstimate()) + |key| + |value| + 19
      ensures if old(pendingIndexEntry) then
                && separator == ShortestSeparator(old(lastKey), key)
                && AtMost(old(lastKey), separator) && Less(separator, key) && |separator| <= |old(lastKey)|
                && indexBlock.entries == old(indexBlock.entries) + [Entry(separator, HandleBytes(pendingHandle))]
                && old(indexBlock.CurrentSizeEstimate()) + 3 <= indexBlock.CurrentSizeEstimate()
                     <= old(indexBlock.CurrentSizeEstimate()) + IndexCost(separator)
              else
                && indexBlock.entries == old(indexBlock.entries)
                && indexBlock.CurrentSizeEstimate() == old(indexBlock.CurrentSizeEstimate())
    {
      hide Added, Sound, LastKey, Less, HandleBytes;
      hide BlockBuilder.Valid, WritableFile.Valid, WritableFile.Contents;
      separator := key;
      if pendingIndexEntry {
        separator := SettleBefore(key);
      }
      lastKey := key;
      numEntries := numEntries + 1;
      dataBlock.Add(key, value);
    }

    /** Shortens the last key toward the coming one and stores the owed entry under it. */
    method SettleBefore(key: bytes) returns (separator: bytes)
      requires Ready() && !closed && status == OK && pendingIndexEntry && Less(lastKey, key)
      modifies this`lastKey, this`pendingIndexEntry, indexBlock
      ensures indexBlock.Valid() && !pendingIndexEntry && lastKey == separator
      ensures separator == ShortestSeparator(old(lastKey), key)
      ensures AtMost(old(lastKey), separator) && Less(separator, key) && |separator| <= |old(lastKey)|
      ensures indexBlock.entries == old(indexBlock.entries) + [Entry(separator, HandleBytes(pendingHandle))]
      ensures old(indexBlock.CurrentSizeEstimate()) + 3 <= indexBlock.CurrentSizeEstimate()
                <= old(indexBlock.CurrentSizeEstimate()) + IndexCost(separator)
    {
      hide Added, Sound, LastKey, Less, HandleBytes;
      hide BlockBuilder.Valid, WritableFile.Valid, WritableFile.Contents;
      separator := FindShortestSeparator(lastKey, key);
      OwedEntry(State(), blockSize, dataBlock.CurrentSizeEstimate(), indexBlock.CurrentSizeEstimate(), separator);
      lastKey := separator;
      SettleIndexEntry(lastKey);
    }

    /** Encodes the owed handle and stores it under the given key. */
    method SettleIndexEntry(separator: bytes)
      requires indexBlock.Valid() && IsSet(pendingHandle)
      requires indexBlock.entries == [] || Less(LastKey(indexBlock.entries), separator)
      requires indexBlock.CurrentSizeEstimate() + IndexCost(separator) < UINT32_LIMIT
      modifies this`pendingIndexEntry, indexBlock
      ensures indexBlock.Valid() && !pendingIndexEntry
      ensures indexBlock.entries == old(indexBlock.entries) + [Entry(separator, HandleBytes(pendingHandle))]
      ensures old(indexBlock.CurrentSizeEstimate()) + 3 <= indexBlock.CurrentSizeEstimate()
                <= old(indexBlock.CurrentSizeEstimate()) + IndexCost(separator)
    {
      hide HandleBytes, Less, LastKey, DecodeHandle;
      indexBlock.EntriesAreKept();
      hide BlockBuilder.Valid;
      HandleRoundTrip(pendingHandle, []);
      var handleEncoding := EncodeHandle([], pendingHandle);
      assert [] + HandleBytes(pendingHandle) == HandleBytes(pendingHandle);
      indexBlock.Add(separator, handleEncoding);
      pendingIndexEntry := false;
    }

    /** Stores the last owed entry under a short key at or above every key. */
    method SettleAtEnd(ghost before: Progress, ghost dataSize: nat, ghost indexSize: nat) returns (separator: bytes)
      requires Sound(before, blockSize, dataSize, indexSize) && before.pending && before.handles != []
      requires lastKey == LastKey(Added(before)) && pendingHandle == before.handles[|before.handles| - 1]
      requires indexBlock.Valid() && indexBlock.entries == before.index
      requires indexBlock.CurrentSizeEstimate() == indexSize
      modifies this`lastKey, this`pendingIndexEntry, indexBlock
      ensures indexBlock.Valid() && !pendingIndexEntry
      ensures separator == ShortSuccessor(old(lastKey)) && AtMost(old(lastKey), separator)
      ensures indexBlock.entries == old(indexBlock.entries) + [Entry(separator, HandleBytes(pendingHandle))]
      ensures indexBlock.CurrentSizeEstimate() <= indexSize + IndexCost(old(lastKey))
    {
      hide Added, Sound, LastKey, Less, HandleBytes;
      hide BlockBuilder.Valid, WritableFile.Valid, WritableFile.Contents;
      separator := FindShortSuccessor(lastKey);
      OwedEntry(before, blockSize, dataSize, indexSize, separator);
      lastKey := separator;
      SettleIndexEntry(lastKey);
    }

    /** Footer last; the handles are those of the metaindex and index blocks. */
    method WriteFooter(metaindexHandle: BlockHandle, indexHandle: BlockHandle)
      requires file.Valid() && IsSet(metaindexHandle) && IsSet(indexHandle) && offset == |file.Contents()|
      modifies this`status, this`offset, file, file.buf
      ensures file.Valid() && (status == OK || status == Error)
      ensures status == OK ==>
                && file.Contents() == old(file.Contents()) + FooterBytes(Footer(metaindexHandle, indexHandle))
                && offset == |file.Contents()| && file.pos > 0
      ensures old(file.pos) + FOOTER_LENGTH <= WRITABLE_FILE_BUFFER_SIZE ==> status == OK && file.disk == old(file.disk)
      ensures NoFailure(old(file.script)) ==> status == OK && NoFailure(file.script)
      ensures status != OK ==> file.pos == 0
    {
      hide FooterBytes;
      var footerEncoding := EncodeFooter([], Footer(metaindexHandle, indexHandle));
      status := file.Append(footerEncoding);
      if status == OK {
        offset := offset + |footerEncoding|;
      }
    }

    /** Flushes, then writes the metaindex block, the index block with its last owed entry, and the
        footer. If every write succeeded the file reads back as exactly the pairs added. */
    method Finish() returns (s: Status)
      requires Valid() && !closed
      modifies this, file, file.buf, dataBlock, indexBlock
      ensures closed && s == status && file.Valid()
      ensures s == OK ==> offset == |file.Contents()| && file.pos > 0
      ensures s == OK && 200 + TotalIndexCost(old(Contents())) <= WRITABLE_FILE_BUFFER_SIZE ==>
                && EndOf(handles, |handles|) <= |file.Contents()|
                && file.disk == file.Contents()[..EndOf(handles, |handles|)]
                && (old(Contents()) != [] ==> EndsInTrailer(file.disk))
      ensures s != OK ==> file.pos == 0
      ensures old(status) != OK ==> file.disk == old(file.disk)
      ensures old(status == OK && file.Failing() && handles == [] && Contents() != []) ==>
                s != OK && file.disk == old(file.disk)
      ensures s == OK ==> ReadsAs(file.Contents(), old(Contents()), handles, blocks)
      ensures s == OK ==> Laid(file.Contents(), handles, blocks, interval)
      ensures s == OK ==> old(handles) <= handles && |handles| <= |old(handles)| + 1
      ensures s == OK ==> forall i {:trigger blocks[i]} :: 0 <= i < |blocks| ==>
                            handles[i].size <= BlockBound(blockSize, blocks[i])
      ensures old(status == OK && NoFailure(file.script)) ==> s == OK && NoFailure(file.script)
      ensures old(status) != OK ==> s == old(status)
    {
      hide Added, Sound, LastKey, Less, DecodeBlock, ReadsAs, FinishedFile, Flatten, Laid, Shaped, WellRestarted;
      hide BlockBuilder.Valid, WritableFile.Valid, WritableFile.Contents;
      Flush();
      closed := true;
      if status == OK {
        ghost var before, dataSize, indexSize :=
          State(), dataBlock.CurrentSizeEstimate(), indexBlock.CurrentSizeEstimate();
        dataBlock.EntriesAreKept();
        OpenBlockOrder(before, blockSize, dataSize, indexSize);
        TailFits(before, blockSize, dataSize, indexSize);
        file.NothingBuffered();
        ghost var data := file.disk;
        DataEnds(before, blockSize, dataSize, indexSize);
        ghost var separator, metaindex, index := WriteTail(before, dataSize, indexSize);
        if status == OK {
          FinishStep(before, separator, metaindex, index, blockSize, indexSize);
          assert ReadsAs(file.Contents(), old(Contents()), handles, blocks);
          FinishedStart(data, metaindex, index);
          FinishLaid(before, separator, metaindex, index, interval, blockSize, indexSize);
        }
        BlockBounds(before, blockSize, dataSize, indexSize);
      }
      s := status;
    }

    /** Metaindex block, index block, footer. */
    method WriteTail(ghost before: Progress, ghost dataSize: nat, ghost indexSize: nat)
      returns (ghost separator: bytes, ghost metaindex: bytes, ghost index: bytes)
      requires Shape() && status == OK && Building() && offset + 4 * UINT32_LIMIT < UINT64_LIMIT
      requires before == State() && indexSize == indexBlock.CurrentSizeEstimate()
      requires Sound(before, blockSize, dataSize, indexSize)
      modifies this`lastKey, this`pendingIndexEntry, this`offset, this`status, file, file.buf, indexBlock
      ensures file.Valid() && (status == OK || status == Error)
      ensures status == OK ==>
                && file.Contents() == FinishedFile(old(file.Contents()), metaindex, index)
                && offset == |file.Contents()| && file.pos > 0
                && |metaindex| == 8 && |index| < UINT32_LIMIT
                && (before.pending ==> separator == ShortSuccessor(old(lastKey)) && AtMost(old(lastKey), separator))
                && WellRestarted(metaindex, interval, [])
                && WellRestarted(index, 1, if before.pending then Settle(before, separator).index else before.index)
                && DecodeBlock(index) == Some(if before.pending then Settle(before, separator).index else before.index)
      ensures indexSize + IndexCost(old(lastKey)) + 100 <= WRITABLE_FILE_BUFFER_SIZE ==>
                status == OK && file.disk == old(file.disk)
      ensures NoFailure(old(file.script)) ==> status == OK && NoFailure(file.script)
      ensures status != OK ==> file.pos == 0
    {
      hide Added, Sound, LastKey, Less, HandleBytes, DecodeBlock, RawBlock, FooterBytes, WellRestarted, Shaped;
      hide BlockBuilder.Valid, WritableFile.Valid, WritableFile.Contents;
      separator, index := lastKey, [];
      var metaindexBlock := new BlockBuilder(interval);
      var metaindexHandle;
      metaindexHandle, metaindex := WriteBlock(metaindexBlock);
      if status == OK {
        if pendingIndexEntry {
          separator := SettleAtEnd(before, dataSize, indexSize);
        }
        indexBlock.EntriesCost();
        var indexHandle;
        indexHandle, index := WriteBlock(indexBlock);
        if status == OK {
          WriteFooter(metaindexHandle, indexHandle);
        }
      }
    }

    method Abandon()
      requires Valid() && !closed
      modifies this`closed
      ensures Valid() && closed
    {
      closed := true;
    }
  }
}
