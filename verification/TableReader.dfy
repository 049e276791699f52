/** How a finished table file is read: footer, index block, data blocks. The repository stops at
    `ReadBlock` and the `Block` constructor; the rest is the reader its format calls for. */
module TableReader {
  import opened Bytes
  import opened BlockFormat
  import opened Format
  import opened SortedMap
  import opened Sequences

  // ---------- reading ----------

  /** The handle an index entry carries. */
  function HandleOf(e: Entry): Option<BlockHandle> {
    match DecodeHandle(e.value)
    case Bad => None
    case Good(h, rest) => Some(h)
  }

  function DataBlock(file: bytes, indexEntry: Entry): Option<seq<Entry>> {
    match HandleOf(indexEntry)
    case None => None
    case Some(h) => BlockAt(file, h)
  }

  /** The entries of all listed data blocks, in index order. */
  function DataBlocks(file: bytes, index: seq<Entry>): Option<seq<Entry>> {
    if index == [] then Some([]) else
    match DataBlocks(file, index[..|index| - 1])
    case None => None
    case Some(es) =>
      match DataBlock(file, index[|index| - 1])
      case None => None
      case Some(fs) => Some(es + fs)
  }

  function FooterOf(file: bytes): Option<Footer> {
    if |file| < FOOTER_LENGTH then None else
    match DecodeFooter(file[|file| - FOOTER_LENGTH..])
    case Bad => None
    case Good(footer, rest) => Some(footer)
  }

  function ReadIndex(file: bytes): Option<seq<Entry>> {
    match FooterOf(file)
    case None => None
    case Some(footer) => BlockAt(file, footer.indexHandle)
  }

  /** Scans a whole table. */
  function ReadTable(file: bytes): Option<seq<Entry>> {
    match ReadIndex(file)
    case None => None
    case Some(index) => DataBlocks(file, index)
  }

  lemma TrailerIsNoTable(file: bytes)
    requires EndsInTrailer(file)
    ensures ReadTable(file) == None
  {
    hide DecodeFooter, EndsInTrailer;
    if |file| >= FOOTER_LENGTH {
      TrailerIsNoFooter(file);
    }
  }

  /** Position of the first index key that is at least `key`. */
  function FirstAtLeast(index: seq<Entry>, key: bytes): (i: nat)
    ensures i <= |index|
    ensures i < |index| ==> AtMost(key, index[i].key)
    ensures forall j :: 0 <= j < i ==> !AtMost(key, index[j].key)
  {
    if index == [] then 0
    else
      var i := FirstAtLeast(index[..|index| - 1], key);
      if i < |index| - 1 || AtMost(key, index[|index| - 1].key) then i else |index|
  }

  /** Looks a key up through the index: one data block is read. Bad files give an outer None. */
  function Search(file: bytes, key: bytes): Option<Option<bytes>> {
    match ReadIndex(file)
    case None => None
    case Some(index) =>
      var i := FirstAtLeast(index, key);
      if i == |index| then Some(None) else
      match DataBlock(file, index[i])
      case None => None
      case Some(es) => Some(Lookup(es, key))
  }

  /** In a sorted run a lookup finds exactly the entries that are there. */
  lemma {:induction false} LookupMember(es: seq<Entry>, key: bytes, value: bytes)
    requires Sorted(es)
    ensures Lookup(es, key) == Some(value) <==> Entry(key, value) in es
  {
    if es == [] {
    } else {
      var last := |es| - 1;
      LookupMember(es[..last], key, value);
      assert es == es[..last] + [es[last]];
      if es[last].key == key && Entry(key, value) in es[..last] {
        var i :| 0 <= i < last && es[i] == Entry(key, value);
        LessIrreflexive(key);
      }
    }
  }

  lemma LookupAgrees(es: seq<Entry>, fs: seq<Entry>, key: bytes)
    requires Sorted(es) && Sorted(fs)
    requires forall v :: Entry(key, v) in es <==> Entry(key, v) in fs
    ensures Lookup(es, key) == Lookup(fs, key)
  {
    match Lookup(es, key) {
      case Some(v) =>
        LookupMember(es, key, v);
        LookupMember(fs, key, v);
      case None =>
        match Lookup(fs, key) {
          case Some(v) =>
            LookupMember(fs, key, v);
            LookupMember(es, key, v);
          case None =>
        }
    }
  }

  // ---------- the index separates the blocks ----------

  /** Each index key is at least every key of its block and below every key of the next one. */
  ghost predicate Separates(index: seq<Entry>, blocks: seq<seq<Entry>>) {
    && |index| <= |blocks|
    && (forall i :: 0 <= i < |blocks| ==> blocks[i] != [] && Sorted(blocks[i]))
    && (forall i :: 0 <= i < |index| ==> AtMost(LastKey(blocks[i]), index[i].key))
    && (forall i :: 0 <= i < |index| && i + 1 < |blocks| ==> Less(index[i].key, blocks[i + 1][0].key))
  }

  lemma WithinBlock(es: seq<Entry>, e: Entry)
    requires Sorted(es) && e in es
    ensures AtMost(es[0].key, e.key) && AtMost(e.key, LastKey(es))
  {
  }

  /** An index key is below every key of every later block. */
  lemma {:induction false} SeparatorBelow(index: seq<Entry>, blocks: seq<seq<Entry>>, i: nat, j: nat, e: Entry)
    requires Separates(index, blocks) && i < j < |blocks| && j <= |index|
    requires e in blocks[j]
    ensures Less(index[i].key, e.key)
    decreases j
  {
    WithinBlock(blocks[j], e);
    LessThenAtMost(index[j - 1].key, blocks[j][0].key, e.key);
    if i == j - 1 {
    } else {
      var f := blocks[j - 1][|blocks[j - 1]| - 1];
      SeparatorBelow(index, blocks, i, j - 1, f);
      LessThenAtMost(index[i].key, f.key, index[j - 1].key);
      LessTransitive(index[i].key, index[j - 1].key, e.key);
    }
  }

  /** Separators strictly increase, so the index block's own ordering assertion never fails. */
  lemma SeparatorsIncrease(index: seq<Entry>, blocks: seq<seq<Entry>>, i: nat, j: nat)
    requires Separates(index, blocks) && i < j < |index|
    ensures Less(index[i].key, index[j].key)
  {
    var f := blocks[j][|blocks[j]| - 1];
    SeparatorBelow(index, blocks, i, j, f);
    LessThenAtMost(index[i].key, f.key, index[j].key);
  }

  /** Only the block under the first separator at or above a key can hold the key. */
  lemma BlockOfKey(index: seq<Entry>, blocks: seq<seq<Entry>>, j: nat, e: Entry)
    requires Separates(index, blocks) && |index| == |blocks|
    requires j < |blocks| && e in blocks[j]
    ensures j == FirstAtLeast(index, e.key)
  {
    var i := FirstAtLeast(index, e.key);
    WithinBlock(blocks[j], e);
    AtMostTransitive(e.key, LastKey(blocks[j]), index[j].key);
    if i < j {
      SeparatorBelow(index, blocks, i, j, e);
      AtMostThenLess(e.key, index[i].key, e.key);
      LessIrreflexive(e.key);
    }
  }

  lemma AtMostTransitive(a: bytes, b: bytes, c: bytes)
    requires AtMost(a, b) && AtMost(b, c)
    ensures AtMost(a, c)
  {
    if a != b && b != c {
      LessTransitive(a, b, c);
    }
  }

  /** Searching the one block the index selects is searching everything. */
  lemma SearchOneBlock(index: seq<Entry>, blocks: seq<seq<Entry>>, key: bytes)
    requires Separates(index, blocks) && |index| == |blocks| && Sorted(Flatten(blocks))
    ensures var i := FirstAtLeast(index, key);
            Lookup(Flatten(blocks), key) == if i == |index| then None else Lookup(blocks[i], key)
  {
    var i := FirstAtLeast(index, key);
    var es := if i == |index| then [] else blocks[i];
    forall v
      ensures Entry(key, v) in es <==> Entry(key, v) in Flatten(blocks)
    {
      var e := Entry(key, v);
      FlattenMember(blocks, e);
      if e in Flatten(blocks) {
        var j :| 0 <= j < |blocks| && e in blocks[j];
        BlockOfKey(index, blocks, j, e);
      }
    }
    LookupAgrees(Flatten(blocks), es, key);
  }

  // ---------- blocks laid end to end ----------

  /** The first byte after block i and its trailer. */
  function EndOf(handles: seq<BlockHandle>, i: nat): nat
    requires i <= |handles|
  {
    if i == 0 then 0 else handles[i - 1].offset + handles[i - 1].size + BLOCK_TRAILER_SIZE
  }

  /** The block at `h` begins at `start` and decodes to `es`. */
  ghost predicate Tile(file: bytes, h: BlockHandle, start: nat, es: seq<Entry>) {
    h.offset == start && IsSet(h) && BlockAt(file, h) == Some(es)
  }

  /** The data blocks tile the file from its start: each begins where the previous trailer ends,
      the last ends at `end`, and each decodes to its entries. */
  ghost predicate Tiles(file: bytes, handles: seq<BlockHandle>, blocks: seq<seq<Entry>>, end: nat) {
    && |handles| == |blocks|
    && (forall i {:trigger blocks[i]} :: 0 <= i < |blocks| ==> Tile(file, handles[i], EndOf(handles, i), blocks[i]))
    && end == EndOf(handles, |handles|)
    && end <= |file|
  }

  lemma TilesExtend(file: bytes, handles: seq<BlockHandle>, blocks: seq<seq<Entry>>, end: nat, t: bytes)
    requires Tiles(file, handles, blocks, end)
    ensures Tiles(file + t, handles, blocks, end)
  {
    hide BlockAt, EndOf;
    forall i {:trigger blocks[i]} | 0 <= i < |blocks|
      ensures Tile(file + t, handles[i], EndOf(handles, i), blocks[i])
    {
      assert Tile(file, handles[i], EndOf(handles, i), blocks[i]);
      BlockAtExtends(file, t, handles[i]);
    }
  }

  lemma TilesAppend(file: bytes, handles: seq<BlockHandle>, blocks: seq<seq<Entry>>, contents: bytes, es: seq<Entry>)
    requires Tiles(file, handles, blocks, |file|)
    requires DecodeBlock(contents) == Some(es)
    requires IsSet(BlockHandle(|file|, |contents|))
    ensures var grown := file + RawBlock(contents);
            Tiles(grown, handles + [BlockHandle(|file|, |contents|)], blocks + [es], |grown|)
  {
    hide BlockAt, DecodeBlock, RawBlock;
    var h, grown := BlockHandle(|file|, |contents|), file + RawBlock(contents);
    TilesExtend(file, handles, blocks, |file|, RawBlock(contents));
    BlockAtRawBlock(file, contents, []);
    assert grown + [] == grown;
    TilesOneMore(grown, handles, blocks, |file|, h, es);
  }

  lemma TilesOneMore(file: bytes, handles: seq<BlockHandle>, blocks: seq<seq<Entry>>, end: nat, h: BlockHandle,
                     es: seq<Entry>)
    requires Tiles(file, handles, blocks, end)
    requires h.offset == end && IsSet(h) && BlockAt(file, h) == Some(es)
    requires end + h.size + BLOCK_TRAILER_SIZE <= |file|
    ensures Tiles(file, handles + [h], blocks + [es], end + h.size + BLOCK_TRAILER_SIZE)
  {
    assert Tile(file, h, end, es);
    hide Tile;
    var handles', blocks' := handles + [h], blocks + [es];
    forall i {:trigger blocks'[i]} | 0 <= i < |blocks'|
      ensures Tile(file, handles'[i], EndOf(handles', i), blocks'[i])
    {
      assert EndOf(handles', i) == EndOf(handles, i);
      if i < |handles| {
        assert Tile(file, handles[i], EndOf(handles, i), blocks[i]);
      }
    }
  }

  /** The index lists the blocks' handles in order. */
  ghost predicate Lists(index: seq<Entry>, handles: seq<BlockHandle>) {
    |index| <= |handles| && forall i :: 0 <= i < |index| ==> index[i].value == HandleBytes(handles[i])
  }

  lemma DataBlockAt(file: bytes, e: Entry, h: BlockHandle)
    requires IsSet(h) && e.value == HandleBytes(h)
    ensures DataBlock(file, e) == BlockAt(file, h)
  {
    hide BlockAt, DecodeHandle, HandleBytes;
    HandleRoundTrip(h, []);
    assert HandleBytes(h) + [] == HandleBytes(h);
  }

  lemma {:induction false} DataBlocksFlatten(file: bytes, index: seq<Entry>, handles: seq<BlockHandle>,
                                             blocks: seq<seq<Entry>>, n: nat)
    requires n <= |index| == |handles| == |blocks| && Lists(index, handles)
    requires forall i {:trigger blocks[i]} :: 0 <= i < n ==> Tile(file, handles[i], EndOf(handles, i), blocks[i])
    ensures DataBlocks(file, index[..n]) == Some(Flatten(blocks[..n]))
  {
    hide BlockAt, DataBlock, HandleBytes;
    if n == 0 {
    } else {
      DataBlocksFlatten(file, index, handles, blocks, n - 1);
      assert index[..n][..n - 1] == index[..n - 1] && blocks[..n][..n - 1] == blocks[..n - 1];
      assert Tile(file, handles[n - 1], EndOf(handles, n - 1), blocks[n - 1]);
      DataBlockAt(file, index[n - 1], handles[n - 1]);
    }
  }

  /** A file whose footer leads to an index that lists and separates its data blocks reads back as
      their concatenation, by scan and by search. */
  lemma ReadsBack(file: bytes, index: seq<Entry>, handles: seq<BlockHandle>, blocks: seq<seq<Entry>>, end: nat)
    requires Tiles(file, handles, blocks, end)
    requires |index| == |blocks| && Lists(index, handles) && Separates(index, blocks)
    requires ReadIndex(file) == Some(index) && Sorted(Flatten(blocks))
    ensures ReadTable(file) == Some(Flatten(blocks))
    ensures forall key :: Search(file, key) == Some(Lookup(Flatten(blocks), key))
  {
    hide BlockAt, DataBlock, ReadIndex, Flatten, Lookup, HandleBytes;
    assert index[..|index|] == index && blocks[..|blocks|] == blocks;
    DataBlocksFlatten(file, index, handles, blocks, |index|);
    forall key
      ensures Search(file, key) == Some(Lookup(Flatten(blocks), key))
    {
      SearchOneBlock(index, blocks, key);
      var i := FirstAtLeast(index, key);
      if i < |index| {
        assert Tile(file, handles[i], EndOf(handles, i), blocks[i]);
        DataBlockAt(file, index[i], handles[i]);
      }
    }
  }
}
