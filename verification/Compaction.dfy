/** A table file's metadata. */
module Files {
  import opened Bytes
  import opened Coding

  datatype FileMetaData = FileMetaData(number: nat, fileSize: nat, smallest: MemEntry, largest: MemEntry)

  /** `mayInFile`: the key lies in the recorded range. */
  predicate MayInFile(f: FileMetaData, key: bytes) {
    AtMost(f.smallest.key, key) && AtMost(key, f.largest.key)
  }
}

/** Merging all frozen lists and writing the result out as one table. */
module Compaction {
  import opened Bytes
  import opened Coding
  import opened BlockFormat
  import opened SortedMap
  import opened SkipLists
  import opened Env
  import opened Files
  import opened Format
  import opened LogFile
  import opened TableReader
  import opened TableProgress
  import opened TableBuilding
  import P = Pipeline
  import opened PipelineTheorems
  import opened PipelineRuns

  const BLOCK_SIZE := 4096         // Options' defaults
  const RESTART_INTERVAL := 16

  /** The lists hold what the abstract writers' frozen layers say. */
  ghost predicate Shows(frozen: seq<seq<SkipList>>, ws: seq<P.Writer>)
    reads set i, j | 0 <= i < |frozen| && 0 <= j < |frozen[i]| :: frozen[i][j]
  {
    |frozen| == |ws| && forall i :: 0 <= i < |frozen| ==> ShowsOne(frozen[i], ws[i].frozen)
  }

  ghost predicate ShowsOne(lists: seq<SkipList>, frozen: seq<P.List>)
    reads set j | 0 <= j < |lists| :: lists[j]
  {
    |lists| == |frozen| && forall j :: 0 <= j < |lists| ==> lists[j].Valid() && lists[j].Contents() == frozen[j]
  }

  lemma DecodedPush(list: seq<Entry>, n: nat)
    requires WellFiled(list) && n < |list|
    ensures WellFiled(list[..n]) && WellFiled(list[..n + 1])
    ensures Decoded(list[..n + 1]) == Decoded(list[..n])[list[n].key := DecodeMemEntry(list[n].value).value]
  {
    hide DecodeMemEntry;
    assert list[..n + 1][..n] == list[..n];
    assert AsMap(list[..n + 1]) == AsMap(list[..n])[list[n].key := list[n].value];
  }

  class MergeIterator {
    var mp: seq<Entry>
    var next: nat         // position of mg_it

    /** Writer by writer and list by list, each binding overwriting the one before. */
    constructor (frozen: seq<seq<SkipList>>, ghost ws: seq<P.Writer>)
      requires Shows(frozen, ws)
      ensures WellFiled(mp) && Decoded(mp) == P.MergeAll(ws) && next == 0
    {
      mp, next := [], 0;
      new;
      assert ws[..0] == [];
      for i := 0 to |frozen|
        invariant WellFiled(mp) && Decoded(mp) == P.MergeAll(ws[..i]) && next == 0
      {
        assert ShowsOne(frozen[i], ws[i].frozen);
        mp := MergeLists(mp, frozen[i], ws[i].frozen);
        assert ws[..i + 1][..i] == ws[..i];
      }
      assert ws[..|ws|] == ws;
    }

    predicate End()
      reads this
    {
      next >= |mp|
    }

    method GetNext() returns (x: bytes)
      requires !End()
      modifies this`next
      ensures x == mp[old(next)].value && next == old(next) + 1
    {
      x := mp[next].value;
      next := next + 1;
    }

    /** The first and last bindings bound every key. */
    method SetMetaData(meta: FileMetaData) returns (r: FileMetaData)
      requires WellFiled(mp) && mp != []
      ensures r.number == meta.number && r.fileSize == meta.fileSize
      ensures r.smallest == DecodeMemEntry(mp[0].value).value
      ensures r.largest == DecodeMemEntry(mp[|mp| - 1].value).value
      ensures forall e :: e in mp ==> MayInFile(r, e.key)
    {
      hide DecodeMemEntry, Less;
      r := meta.(smallest := DecodeMemEntry(mp[0].value).value, largest := DecodeMemEntry(mp[|mp| - 1].value).value);
      WellFiledEnds(mp);
    }
  }

  lemma WellFiledEnds(mp: seq<Entry>)
    requires WellFiled(mp) && mp != []
    ensures DecodeMemEntry(mp[0].value).value.key == mp[0].key
    ensures DecodeMemEntry(mp[|mp| - 1].value).value.key == mp[|mp| - 1].key
    ensures forall e :: e in mp ==> AtMost(mp[0].key, e.key) && AtMost(e.key, mp[|mp| - 1].key)
  {
    hide DecodeMemEntry, Less;
  }

  method MergeLists(mp: seq<Entry>, lists: seq<SkipList>, ghost frozen: seq<P.List>) returns (r: seq<Entry>)
    requires WellFiled(mp) && ShowsOne(lists, frozen)
    ensures WellFiled(r) && Decoded(r) == Decoded(mp) + P.Overlay(frozen)
  {
    hide WellFiled, Decoded;
    r := mp;
    for j := 0 to |lists|
      invariant WellFiled(r) && Decoded(r) == Decoded(mp) + P.Overlay(frozen[..j])
    {
      assert lists[j].Valid() && lists[j].Contents() == frozen[j];
      r := MergeList(r, lists[j].list);
      assert frozen[..j + 1][..j] == frozen[..j];
    }
    assert frozen[..|frozen|] == frozen;
  }

  /** `for (auto it: *list_) mp_[it.first] = it.second;` */
  method MergeList(mp: seq<Entry>, list: seq<Entry>) returns (r: seq<Entry>)
    requires WellFiled(mp) && WellFiled(list)
    ensures WellFiled(r) && Decoded(r) == Decoded(mp) + Decoded(list)
  {
    hide Decoded, Put, DecodeMemEntry, Less;
    r := mp;
    EmptyDecodes();
    assert list[..0] == [];
    for n := 0 to |list|
      invariant WellFiled(list[..n]) && WellFiled(r)
      invariant Decoded(r) == Decoded(mp) + Decoded(list[..n])
    {
      assert list[n] in list;
      PutDecodes(r, DecodeMemEntry(list[n].value).value, list[n].value);
      DecodedPush(list, n);
      r := Put(r, list[n].key, list[n].value);
    }
    assert list[..|list|] == list;
  }

  lemma EmptyDecodes()
    ensures WellFiled([]) && Decoded([]) == map[]
  {
  }

  // ---------- the table ----------

  function ValueOf(slice: bytes): bytes {
    match DecodeMemEntry(slice)
    case None => []
    case Some(e) => e.value
  }

  /** The rows written: the sequence number and the deletion flag are not among them. */
  function Rows(mp: seq<Entry>): (r: seq<Entry>)
    ensures |r| == |mp| && forall i :: 0 <= i < |mp| ==> r[i] == Entry(mp[i].key, ValueOf(mp[i].value))
  {
    seq(|mp|, i requires 0 <= i < |mp| => Entry(mp[i].key, ValueOf(mp[i].value)))
  }

  /** A table's rows are the merged lists with everything but key and value dropped. */
  ghost predicate RowsOf(rows: seq<Entry>, merged: P.List) {
    && Sorted(rows)
    && (forall key :: key in merged <==> Lookup(rows, key).Some?)
    && (forall key :: key in merged ==> Lookup(rows, key) == Some(merged[key].value))
  }

  lemma RowsOfMerge(mp: seq<Entry>)
    requires WellFiled(mp)
    ensures RowsOf(Rows(mp), Decoded(mp))
  {
    hide DecodeMemEntry, Less, Lookup;
    DecodedFacts(mp);
    forall key
      ensures Lookup(Rows(mp), key) == match Lookup(mp, key) case None => None case Some(v) => Some(ValueOf(v))
    {
      LookupRows(mp, key, |mp|);
      assert mp[..|mp|] == mp && Rows(mp)[..|mp|] == Rows(mp);
    }
  }

  lemma {:induction false} LookupRows(mp: seq<Entry>, key: bytes, n: nat)
    requires n <= |mp|
    ensures Lookup(Rows(mp)[..n], key) ==
            match Lookup(mp[..n], key) case None => None case Some(v) => Some(ValueOf(v))
  {
    hide ValueOf, Less;
    if n == 0 {
    } else {
      LookupRows(mp, key, n - 1);
      assert mp[..n][..n - 1] == mp[..n - 1] && Rows(mp)[..n][..n - 1] == Rows(mp)[..n - 1];
    }
  }

  /** Every entry came through the log, so it is at most a log record long. */
  ghost predicate LoggedSizes(mp: seq<Entry>) {
    forall i :: 0 <= i < |mp| ==> |mp[i].key| + |ValueOf(mp[i].value)| <= MAX_RECORD_SIZE
  }

  lemma {:induction false} CostBound(rows: seq<Entry>, longest: nat)
    requires forall i :: 0 <= i < |rows| ==> |rows[i].key| <= longest
    ensures TotalIndexCost(rows) <= |rows| * (longest + 39)
  {
    if rows == [] {
    } else {
      CostBound(rows[..|rows| - 1], longest);
      assert |rows| * (longest + 39) == (|rows| - 1) * (longest + 39) + (longest + 39);
    }
  }

  /** At most 2^15 merged entries of log-record size: the index block is far below 2^32 bytes. */
  const MAX_MERGED := 0x8000

  /** The loop of BuildTable: every row in key order. */
  method AddRows(builder: TableBuilder, iter: MergeIterator)
    requires WellFiled(iter.mp) && iter.next == 0 && LoggedSizes(iter.mp) && |iter.mp| <= MAX_MERGED
    requires builder.Valid() && !builder.closed && builder.status == OK && builder.Contents() == []
    requires builder.blockSize == BLOCK_SIZE && builder.numEntries == 0 && builder.handles == []
    modifies iter`next, builder, builder.file, builder.file.buf, builder.dataBlock, builder.indexBlock
    ensures builder.Valid() && !builder.closed
    ensures builder.status == OK ==> builder.Contents() == Rows(iter.mp)
    ensures builder.status == OK ==>
              forall i {:trigger builder.handles[i]} :: 0 <= i < |builder.handles| ==>
                builder.handles[i].size >= BLOCK_SIZE
    ensures old(NoFailure(builder.file.script)) ==> builder.status == OK && NoFailure(builder.file.script)
    ensures old(builder.file.Failing()) ==>
              && builder.file.disk == old(builder.file.disk)
              && (builder.status == OK ==> builder.file.Failing() && builder.handles == [])
  {
    hide DecodeMemEntry, Less, TotalIndexCost, Sound, TableBuilder.Building, TableBuilder.Shape;
    ghost var rows := Rows(iter.mp);
    CostBound(rows, MAX_RECORD_SIZE);
    while !iter.End()
      invariant iter.next <= |rows| && builder.Valid() && !builder.closed
      invariant builder.status == OK ==> builder.Contents() == rows[..iter.next]
      invariant builder.status == OK ==>
                  forall i {:trigger builder.handles[i]} :: 0 <= i < |builder.handles| ==>
                builder.handles[i].size >= BLOCK_SIZE
      invariant old(NoFailure(builder.file.script)) ==> builder.status == OK && NoFailure(builder.file.script)
      invariant old(builder.file.Failing()) ==>
                  && builder.file.disk == old(builder.file.disk)
                  && (builder.status == OK ==> builder.file.Failing() && builder.handles == [])
      decreases |rows| - iter.next
    {
      ghost var n := iter.next;
      var x := iter.GetNext();
      assert iter.mp[n] in iter.mp;
      var entry := DecodeMemEntry(x).value;
      builder.RoomFor(rows, n);
      builder.Add(entry.key, entry.value);
    }
  }

  /** The recorded range covers every row. */
  ghost predicate Covers(meta: FileMetaData, rows: seq<Entry>) {
    forall e :: e in rows ==> MayInFile(meta, e.key)
  }

  /** A file that reads as these rows, by scan and by search. */
  ghost predicate Holds(file: bytes, rows: seq<Entry>) {
    ReadTable(file) == Some(rows) && forall key :: Search(file, key) == Some(Lookup(rows, key))
  }

  /** The range runs from the merged entry of one key to that of another. */
  ghost predicate RecordsEnds(meta: FileMetaData, merged: P.List) {
    && meta.smallest.key in merged && meta.smallest == merged[meta.smallest.key]
    && meta.largest.key in merged && meta.largest == merged[meta.largest.key]
  }

  lemma EndsDecoded(mp: seq<Entry>)
    requires WellFiled(mp) && mp != []
    ensures mp[0].key in Decoded(mp) && mp[|mp| - 1].key in Decoded(mp)
    ensures DecodeMemEntry(mp[0].value) == Some(Decoded(mp)[mp[0].key])
    ensures DecodeMemEntry(mp[|mp| - 1].value) == Some(Decoded(mp)[mp[|mp| - 1].key])
  {
    hide DecodeMemEntry, Less, Lookup;
    DecodedFacts(mp);
    LookupMember(mp, mp[0].key, mp[0].value);
    LookupMember(mp, mp[|mp| - 1].key, mp[|mp| - 1].value);
  }

  lemma CoversRows(meta: FileMetaData, mp: seq<Entry>)
    requires forall e :: e in mp ==> MayInFile(meta, e.key)
    ensures Covers(meta, Rows(mp))
  {
    hide MayInFile;
    forall e | e in Rows(mp)
      ensures MayInFile(meta, e.key)
    {
      var i :| 0 <= i < |mp| && Rows(mp)[i] == e;
      assert mp[i] in mp;
    }
  }

  /** `MergeIterator iter(frozenlists); iter.setMetaData(meta);` */
  method MergeFrozen(frozen: seq<seq<SkipList>>, ghost ws: seq<P.Writer>, meta0: FileMetaData)
    returns (iter: MergeIterator, meta: FileMetaData)
    requires Shows(frozen, ws) && P.MergeAll(ws) != map[] && |P.MergeAll(ws)| <= MAX_MERGED
    requires forall key :: key in P.MergeAll(ws) ==> |key| + |P.MergeAll(ws)[key].value| <= MAX_RECORD_SIZE
    ensures fresh(iter) && iter.next == 0 && WellFiled(iter.mp) && LoggedSizes(iter.mp) && |iter.mp| <= MAX_MERGED
    ensures RowsOf(Rows(iter.mp), P.MergeAll(ws)) && |iter.mp| == |P.MergeAll(ws)| && Covers(meta, Rows(iter.mp))
    ensures RecordsEnds(meta, P.MergeAll(ws))
    ensures meta.number == meta0.number && meta.fileSize == meta0.fileSize
  {
    hide DecodeMemEntry, Less, Decoded, MayInFile, LoggedSizes, RowsOf;
    iter := new MergeIterator(frozen, ws);
    MergedSizes(iter.mp);
    EmptyDecodes();
    RowsOfMerge(iter.mp);
    meta := iter.SetMetaData(meta0);
    WellFiledEnds(iter.mp);
    EndsDecoded(iter.mp);
    CoversRows(meta, iter.mp);
  }

  /** The layout that the default options ask for: restarts every 16 entries; a block closes with the entry
      that takes it to 4096 bytes, so all but the last reach that size and none passes it by more than that
      entry. */
  ghost predicate Compacted(table: bytes, rows: seq<Entry>, handles: seq<BlockHandle>, blocks: seq<seq<Entry>>) {
    && ReadsAs(table, rows, handles, blocks) && Laid(table, handles, blocks, 16)
    && |handles| == |blocks|
    && forall i {:trigger handles[i]} :: 0 <= i < |handles| ==>
         && handles[i].size <= BlockBound(4096, blocks[i])
         && (i < |handles| - 1 ==> handles[i].size >= 4096)
  }

  ghost predicate HasLayout(table: bytes, rows: seq<Entry>) {
    exists handles, blocks :: Compacted(table, rows, handles, blocks)
  }

  /** The builder's part: add every row, finish. The footer is never all on disk yet, and before a small
      index nothing but the data blocks is. If the very first write(2) call fails nothing reaches the file. */
  method WriteTable(file: WritableFile, iter: MergeIterator) returns (s: Status, size: nat)
    requires WellFiled(iter.mp) && iter.next == 0 && LoggedSizes(iter.mp) && |iter.mp| <= MAX_MERGED
    requires file.Valid() && file.Contents() == []
    modifies iter`next, file, file.buf
    ensures file.Valid()
    ensures old(NoFailure(file.script)) ==> s == OK
    ensures s == OK ==> size == |file.Contents()| && file.pos > 0 && Holds(file.Contents(), Rows(iter.mp))
    ensures s == OK ==> HasLayout(file.Contents(), Rows(iter.mp))
    ensures s == OK && iter.mp != [] && 200 + TotalIndexCost(Rows(iter.mp)) <= WRITABLE_FILE_BUFFER_SIZE ==>
              EndsInTrailer(file.disk)
    ensures s != OK ==> file.pos == 0
    ensures old(file.Failing()) && iter.mp != [] ==> s != OK && file.disk == old(file.disk)
  {
    hide WellFiled, LoggedSizes, ReadTable, Search, Lookup, Rows, Sound, Added, WritableFile.Contents, Tiles;
    hide TotalIndexCost, EndsInTrailer, Laid, BlockBound, ReadsAs, Holds, HasLayout;
    assert |Rows(iter.mp)| == |iter.mp|;
    var builder := new TableBuilder(file, BLOCK_SIZE, RESTART_INTERVAL);
    AddRows(builder, iter);
    s := builder.Finish();
    size := builder.offset;
    if s == OK {
      var table, rows, handles, blocks := file.Contents(), Rows(iter.mp), builder.handles, builder.blocks;
      LayoutOf(table, rows, handles, blocks);
    }
  }

  /** `BuildTable`: always returns OK. The size is recorded before Sync writes the rest of the buffer;
      `atSync` is what the write(2) calls from there on do. Whatever of the buffer a failing call leaves
      out is gone: the file on disk is then a proper prefix of the table, under the table's full size. So it is
      the table exactly when those calls get the buffer out, which is when its length is the recorded
      size. If the very first write(2) call fails the size stays 0 and the file empty. */
  method BuildTable(frozen: seq<seq<SkipList>>, ghost ws: seq<P.Writer>, file: WritableFile, meta0: FileMetaData,
                    atSync: seq<SysResult>, datasyncOk: bool, closeOk: bool)
    returns (s: Status, meta: FileMetaData, ghost rows: seq<Entry>, ghost table: bytes, ghost buffered: nat)
    requires Shows(frozen, ws) && P.MergeAll(ws) != map[] && |P.MergeAll(ws)| <= MAX_MERGED
    requires forall key :: key in P.MergeAll(ws) ==> |key| + |P.MergeAll(ws)[key].value| <= MAX_RECORD_SIZE
    requires file.Valid() && file.Contents() == []
    modifies file, file.buf
    ensures s == OK && meta.number == meta0.number && file.Valid()
    ensures RowsOf(rows, P.MergeAll(ws)) && |rows| == |P.MergeAll(ws)|
    ensures Covers(meta, rows) && RecordsEnds(meta, P.MergeAll(ws))
    ensures old(NoFailure(file.script)) ==> meta.fileSize > 0
    ensures meta.fileSize > 0 ==>
              && meta.fileSize == |table| && 0 < buffered <= WRITABLE_FILE_BUFFER_SIZE
              && Holds(table, rows) && HasLayout(table, rows)
              && file.disk <= table
              && (|file.disk| == meta.fileSize <==> Drains(buffered, atSync))
              && (|file.disk| == meta.fileSize ==> Holds(file.disk, rows))
    ensures (&& meta.fileSize > 0 && atSync != [] && atSync[0] == Failed
             && 200 + TotalIndexCost(rows) <= WRITABLE_FILE_BUFFER_SIZE) ==> ReadTable(file.disk) == None
    ensures old(file.Failing()) ==> meta.fileSize == 0 && file.disk == [] && ReadTable(file.disk) == None
  {
    hide WellFiled, LoggedSizes, RowsOf, Covers, Holds, Rows, WritableFile.Contents, WritableFile.Valid, Drains;
    hide TotalIndexCost, Shows, ReadTable, HasLayout;
    NothingIsNoTable();
    file.EmptyDisk();
    var iter;
    iter, meta := MergeFrozen(frozen, ws, meta0.(fileSize := 0));
    rows := Rows(iter.mp);
    var size;
    size, table, buffered := WriteAndClose(file, iter, atSync, datasyncOk, closeOk);
    SizeIsNotRange(meta, rows, size);
    meta := meta.(fileSize := size);
    s := OK;
  }

  /** Builds the table and closes the file; the size stays 0 if the builder failed. */
  method WriteAndClose(file: WritableFile, iter: MergeIterator, atSync: seq<SysResult>, datasyncOk: bool,
                       closeOk: bool)
    returns (size: nat, ghost table: bytes, ghost buffered: nat)
    requires WellFiled(iter.mp) && iter.next == 0 && LoggedSizes(iter.mp) && |iter.mp| <= MAX_MERGED
    requires file.Valid() && file.Contents() == []
    modifies iter`next, file, file.buf
    ensures file.Valid()
    ensures old(NoFailure(file.script)) ==> size > 0
    ensures size > 0 ==>
              && size == |table| && 0 < buffered <= WRITABLE_FILE_BUFFER_SIZE
              && Holds(table, Rows(iter.mp)) && HasLayout(table, Rows(iter.mp))
              && (if Drains(buffered, atSync) then file.disk == table else file.disk < table)
    ensures (&& size > 0 && iter.mp != [] && atSync != [] && atSync[0] == Failed
             && 200 + TotalIndexCost(Rows(iter.mp)) <= WRITABLE_FILE_BUFFER_SIZE) ==> ReadTable(file.disk) == None
    ensures old(file.Failing()) && iter.mp != [] ==> size == 0 && file.disk == old(file.disk)
  {
    hide WellFiled, LoggedSizes, Holds, Rows, WritableFile.Contents, Drains, TotalIndexCost, EndsInTrailer, ReadTable;
    hide HasLayout;
    size := 0;
    var t, built := WriteTable(file, iter);
    table, buffered := file.Contents(), file.pos;
    if t == OK {
      TableHasBytes(table, Rows(iter.mp));
      size := built;
      if EndsInTrailer(file.disk) {
        TrailerIsNoTable(file.disk);
      }
    }
    var closed := CloseTable(file, t, atSync, datasyncOk, closeOk);
  }

  /** The end of BuildTable: Sync, Close, and the destructor, which closes what is still open. */
  method CloseTable(file: WritableFile, finished: Status, atSync: seq<SysResult>, datasyncOk: bool, closeOk: bool)
    returns (s: Status)
    requires file.Valid()
    modifies file
    ensures file.Valid()
    ensures finished == OK ==>
              if Drains(old(file.pos), atSync) then file.disk == old(file.Contents())
              else old(file.disk) <= file.disk < old(file.Contents())
    ensures finished == OK && old(file.pos) > 0 && atSync != [] && atSync[0] == Failed ==> file.disk == old(file.disk)
    ensures finished != OK && old(file.pos) == 0 ==> file.disk == old(file.disk)
  {
    hide Drains;
    s := finished;
    var open := true;
    if s == OK {
      s := file.Sync(atSync, datasyncOk);
      file.NothingBuffered();
    }
    if s == OK {
      s := file.Close(closeOk);
      open := false;
    }
    if open {
      file.NothingToDrain();
      var ignored := file.Close(closeOk);
    }
  }

  /** Compaction at any state a run can reach with the version full: every write of the builder succeeds,
      the first of Sync fails. BuildTable says OK and records the full size, and what is left on disk is
      shorter; if no key set is longer than 400 bytes it is no table at all. */
  method SyncFailureIsSilent(frozen: seq<seq<SkipList>>, ghost steps: seq<P.Step>, ghost longest: nat,
                             file: WritableFile, meta0: FileMetaData)
    returns (s: Status, meta: FileMetaData)
    requires CanRun(P.Init(), steps) && P.IsFull(Run(P.Init(), steps))
    requires EntriesFit(steps, longest)
    requires Shows(frozen, Run(P.Init(), steps).writers)
    requires file.Valid() && file.Contents() == [] && NoFailure(file.script)
    modifies file, file.buf
    ensures s == OK && |file.disk| < meta.fileSize
    ensures longest <= 400 ==> ReadTable(file.disk) == None
  {
    hide Holds, Covers, WritableFile.Contents, WritableFile.Valid, NoFailure, TotalIndexCost, ReadTable, RowsOf;
    hide Shows, P.MergeAll, Run, CanRun, P.ListCount, HasLayout, RecordsEnds;
    ghost var merged := P.MergeAll(Run(P.Init(), steps).writers);
    FullVersionMerges(steps, longest);
    ghost var rows, table, buffered;
    s, meta, rows, table, buffered :=
      BuildTable(frozen, Run(P.Init(), steps).writers, file, meta0, [Failed], true, true);
    if longest <= 400 {
      ShortRows(rows, merged, 400);
      CostBound(rows, 400);
    }
  }

  lemma ShortRows(rows: seq<Entry>, merged: P.List, longest: nat)
    requires RowsOf(rows, merged) && forall key :: key in merged ==> |key| <= longest
    ensures forall i :: 0 <= i < |rows| ==> |rows[i].key| <= longest
  {
    hide Lookup;
    forall i | 0 <= i < |rows|
      ensures rows[i].key in merged
    {
      LookupMember(rows, rows[i].key, rows[i].value);
    }
  }

  lemma NothingIsNoTable()
    ensures ReadTable([]) == None
  {
  }

  lemma LayoutOf(table: bytes, rows: seq<Entry>, handles: seq<BlockHandle>, blocks: seq<seq<Entry>>)
    requires ReadsAs(table, rows, handles, blocks) && Laid(table, handles, blocks, RESTART_INTERVAL)
    requires |handles| == |blocks| ==>
               && (forall i {:trigger blocks[i]} :: 0 <= i < |blocks| ==>
                     handles[i].size <= BlockBound(BLOCK_SIZE, blocks[i]))
               && (forall i {:trigger handles[i]} :: 0 <= i < |handles| - 1 ==> handles[i].size >= BLOCK_SIZE)
    ensures Holds(table, rows) && HasLayout(table, rows)
  {
    LaidSizes(table, handles, blocks, RESTART_INTERVAL);
    hide BlockBound, ReadTable, Search, Lookup, Tiles, Laid;
    forall i {:trigger handles[i]} | 0 <= i < |handles|
      ensures handles[i].size <= BlockBound(BLOCK_SIZE, blocks[i])
    {
      assert blocks[i] == blocks[i];
    }
    assert Compacted(table, rows, handles, blocks);
  }

  lemma LaidSizes(table: bytes, handles: seq<BlockHandle>, blocks: seq<seq<Entry>>, interval: nat)
    requires Laid(table, handles, blocks, interval)
    ensures |handles| == |blocks|
  {
  }

  lemma SizeIsNotRange(meta: FileMetaData, rows: seq<Entry>, size: nat)
    requires Covers(meta, rows)
    ensures Covers(meta.(fileSize := size), rows)
  {
  }

  lemma TableHasBytes(file: bytes, rows: seq<Entry>)
    requires Holds(file, rows)
    ensures |file| > 0
  {
  }

  lemma MergedSizes(mp: seq<Entry>)
    requires WellFiled(mp)
    requires forall key :: key in Decoded(mp) ==> |key| + |Decoded(mp)[key].value| <= MAX_RECORD_SIZE
    ensures LoggedSizes(mp) && |mp| == |Decoded(mp)|
  {
    hide DecodeMemEntry, Less, Lookup;
    DecodedFacts(mp);
    forall i | 0 <= i < |mp|
      ensures |mp[i].key| + |ValueOf(mp[i].value)| <= MAX_RECORD_SIZE
    {
      LookupMember(mp, mp[i].key, mp[i].value);
    }
  }
}
