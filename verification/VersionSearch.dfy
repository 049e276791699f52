/** Looking a key up in one version: `Version::Get`. */
module VersionSearch {
  import opened Bytes
  import opened Coding
  import opened Sequences
  import opened BlockFormat
  import opened SortedMap
  import opened SkipLists
  import opened Files
  import opened Compaction
  import opened TableReader
  import opened VersionBuilding
  import P = Pipeline
  import PP = PipelineProofs
  import PT = PipelineTheorems
  import E = VersionEdits

  // ---------- the frozen lists ----------

  datatype Answer = Found(value: bytes) | Deleted | NotHere

  function AnswerOf(e: Option<MemEntry>): Answer {
    match e
    case None => NotHere
    case Some(entry) => if entry.deleted then Deleted else Found(entry.value)
  }

  /** The newest list that holds the key answers for it. */
  method GetFromLists(lists: seq<SkipList>, ghost frozen: seq<P.List>, key: bytes) returns (answer: Answer)
    requires ShowsOne(lists, frozen)
    ensures answer == AnswerOf(P.ScanLists(frozen, key))
    ensures answer == NotHere <==> P.ScanLists(frozen, key) == None
    ensures answer == Deleted <==> P.ScanLists(frozen, key).Some? && P.ScanLists(frozen, key).value.deleted
    ensures forall v :: answer == Found(v) <==>
                        (var e := P.ScanLists(frozen, key); e.Some? && !e.value.deleted && e.value.value == v)
  {
    hide DecodeMemEntry;
    var i: nat := |lists|;
    assert frozen[..|frozen|] == frozen;
    while i > 0
      invariant i <= |lists| == |frozen|
      invariant P.ScanLists(frozen, key) == P.ScanLists(frozen[..i], key)
    {
      i := i - 1;
      assert lists[i].Valid() && lists[i].Contents() == frozen[i];
      assert frozen[..i + 1][..i] == frozen[..i];
      var slice := lists[i].Get(key);
      if slice.Some? {
        var entry := DecodeMemEntry(slice.value).value;
        return if entry.deleted then Deleted else Found(entry.value);
      }
    }
    assert frozen[..0] == [];
    answer := NotHere;
  }

  /** For lists filled by these runs of entries, the answer is what the runs say: a value exactly if the
      last entry of the key is live, Deleted exactly if it is a deletion, NotHere exactly if there is none. */
  lemma AnswerIsLive(lists: seq<P.List>, runs: seq<seq<MemEntry>>, key: bytes)
    requires P.ListsAreRuns(lists, runs)
    ensures var answer, es := AnswerOf(P.ScanLists(lists, key)), Flatten(runs);
            && (forall v :: answer == Found(v) <==> PT.Live(es, key) == Some(v))
            && (answer == Deleted <==> key in P.Fold(es) && P.Fold(es)[key].deleted)
            && (answer == NotHere <==> forall e :: e in es ==> e.key != key)
  {
    P.ScanListsIsOverlay(lists, key);
    PP.OverlayOfRuns(lists, runs);
    P.FoldMember(Flatten(runs), key);
  }

  /** The scan of the owner's lists and the table built from all writers' lists agree: what the scan
      answers for a live entry is the value in the table's row. */
  lemma TableAgreesWithScan(ws: seq<P.Writer>, rows: seq<Entry>, key: bytes)
    requires |ws| == P.MAX_WRITER && forall w :: 0 <= w < |ws| ==> PP.ListsOwned(ws[w].frozen, w)
    requires RowsOf(rows, P.MergeAll(ws))
    ensures var e := P.ScanLists(ws[P.Owner(key)].frozen, key);
            Lookup(rows, key) == if e.Some? then Some(e.value.value) else None
  {
    PP.MergeAgreesWithScan(ws, |ws|, key);
    assert ws[..|ws|] == ws;
  }

  /** End to end: searching the bytes of the table file that compaction wrote gives, for every key,
      the value that the scan of the frozen lists gave before. */
  lemma TableFileAgreesWithScan(ws: seq<P.Writer>, file: bytes, rows: seq<Entry>, key: bytes)
    requires |ws| == P.MAX_WRITER && forall w :: 0 <= w < |ws| ==> PP.ListsOwned(ws[w].frozen, w)
    requires RowsOf(rows, P.MergeAll(ws)) && Holds(file, rows)
    ensures var e := P.ScanLists(ws[P.Owner(key)].frozen, key);
            Search(file, key) == Some(if e.Some? then Some(e.value.value) else None)
  {
    hide RowsOf, PP.ListsOwned, ReadTable, Search, P.Owner;
    TableAgreesWithScan(ws, rows, key);
  }

  // ---------- the level-0 files ----------

  ghost predicate IsTable(file: bytes, table: P.List) {
    exists rows :: RowsOf(rows, table) && Holds(file, rows)
  }

  /** Each level-0 file is the table that the abstract state says it is. */
  ghost predicate FilesHold(files: seq<bytes>, tables: seq<P.List>) {
    |files| == |tables| && forall i :: 0 <= i < |files| ==> IsTable(files[i], tables[i])
  }

  /** Searches the files newest first; a file that is no table gives None. */
  function SearchFiles(files: seq<bytes>, key: bytes): Option<Option<bytes>> {
    if files == [] then Some(None)
    else match Search(files[|files| - 1], key)
      case None => None
      case Some(Some(value)) => Some(Some(value))
      case Some(None) => SearchFiles(files[..|files| - 1], key)
  }

  /** The bytes of the level-0 files give, for every key, the value the abstract tables hold. */
  lemma {:induction false} FilesAgreeWithTables(files: seq<bytes>, tables: seq<P.List>, key: bytes)
    requires FilesHold(files, tables)
    ensures var e := P.ScanLists(tables, key);
            SearchFiles(files, key) == Some(if e.Some? then Some(e.value.value) else None)
  {
    hide Search, ReadTable, Lookup;
    if files == [] {
    } else {
      var last := |files| - 1;
      assert IsTable(files[last], tables[last]);
      assert FilesHold(files[..last], tables[..last]);
      FilesAgreeWithTables(files[..last], tables[..last], key);
    }
  }

  /** So memory and the bytes of the files together give what the pipeline says is visible. */
  lemma VisibleFromFiles(s: P.State, files: seq<bytes>, key: bytes)
    requires |s.writers| == P.MAX_WRITER && FilesHold(files, s.tables)
    ensures SearchFiles(files, key).Some?
    ensures PT.Visible(s, key) ==
            match P.FindInMemory(s.writers[P.Owner(key)], key)
            case Some(e) => if e.deleted then None else Some(e.value)
            case None => SearchFiles(files, key).value
  {
    hide P.FindInMemory, SearchFiles, FilesHold, P.Owner, P.ScanLists;
    FilesAgreeWithTables(files, s.tables, key);
  }

  /** A swap that installs the file built from the merge keeps the files right. */
  lemma SwapKeepsFiles(s: P.State, files: seq<bytes>, file: bytes, rows: seq<Entry>)
    requires P.Enabled(s, P.Swap) && FilesHold(files, s.tables)
    requires RowsOf(rows, s.merge.value.table) && Holds(file, rows)
    ensures FilesHold(files + [file], P.Next(s, P.Swap).tables)
  {
    hide P.Enabled, P.Next, RowsOf, Holds, FilesHold, IsTable;
    SwapTables(s);
    TableFile(file, s.merge.value.table, rows);
    FilesPush(files, s.tables, file, s.merge.value.table);
  }

  lemma TableFile(file: bytes, table: P.List, rows: seq<Entry>)
    requires RowsOf(rows, table) && Holds(file, rows)
    ensures IsTable(file, table)
  {
    hide RowsOf, Holds;
  }

  lemma FilesPush(files: seq<bytes>, tables: seq<P.List>, file: bytes, table: P.List)
    requires FilesHold(files, tables) && IsTable(file, table)
    ensures FilesHold(files + [file], tables + [table])
  {
    hide IsTable;
  }

  lemma SwapTables(s: P.State)
    requires P.Enabled(s, P.Swap)
    ensures s.merge.Some? && P.Next(s, P.Swap).tables == s.tables + [s.merge.value.table]
  {
    hide P.DropLists;
  }

  // ---------- the candidate files ----------

  /** What one level contributes: all matches, or the first only. */
  function LevelMatches(fs: seq<Meta>, all: bool, key: bytes): seq<Meta> {
    if fs == [] then []
    else if MayInFile(fs[0], key) then [fs[0]] + (if all then LevelMatches(fs[1..], all, key) else [])
    else LevelMatches(fs[1..], all, key)
  }

  function Matches(files: seq<seq<Meta>>, key: bytes): seq<Meta> {
    if files == [] then []
    else Matches(files[..|files| - 1], key) + LevelMatches(files[|files| - 1], |files| == 1, key)
  }

  method SearchList(files: seq<seq<Meta>>, key: bytes) returns (searchList: seq<Meta>)
    requires |files| == E.MAX_LEVEL
    ensures searchList == Matches(files, key)
    ensures Subsequence(searchList, Flatten(files))
  {
    hide MayInFile;
    searchList := [];
    for lv := 0 to E.MAX_LEVEL
      invariant searchList == Matches(files[..lv], key)
    {
      ghost var before := searchList;
      var i := 0;
      while i < |files[lv]|
        invariant i <= |files[lv]|
        invariant before + LevelMatches(files[lv], lv == 0, key) ==
                  searchList + LevelMatches(files[lv][i..], lv == 0, key)
      {
        var file := files[lv][i];
        assert files[lv][i..][0] == file && files[lv][i..][1..] == files[lv][i + 1..];
        if MayInFile(file, key) {
          searchList := searchList + [file];
          if lv != 0 {
            break;
          }
        }
        i := i + 1;
      }
      assert searchList == before + LevelMatches(files[lv], lv == 0, key);
      assert files[..lv + 1][..lv] == files[..lv];
    }
    assert files[..E.MAX_LEVEL] == files;
    MatchesOrder(files, key);
  }

  /** Every file taken is a match, and every match is taken unless an earlier file of its level,
      above level 0, was. */
  lemma {:induction false} LevelMatchesMember(fs: seq<Meta>, all: bool, key: bytes, f: Meta)
    ensures f in LevelMatches(fs, all, key) <==>
            exists i :: 0 <= i < |fs| && fs[i] == f && MayInFile(f, key)
                        && (all || forall j :: 0 <= j < i ==> !MayInFile(fs[j], key))
  {
    hide MayInFile;
    if fs == [] {
    } else {
      var rest := fs[1..];
      LevelMatchesMember(rest, all, key, f);
      assert forall i :: 0 <= i < |rest| ==> rest[i] == fs[i + 1];
      if f in LevelMatches(fs, all, key) {
        if MayInFile(fs[0], key) && f == fs[0] {
        } else {
          var i :| 0 <= i < |rest| && rest[i] == f && MayInFile(f, key)
                   && (all || forall j :: 0 <= j < i ==> !MayInFile(rest[j], key));
          assert fs[i + 1] == f;
          assert all || forall j :: 0 <= j < i + 1 ==> !MayInFile(fs[j], key) by {
            if !all {
              forall j | 0 <= j < i + 1
                ensures !MayInFile(fs[j], key)
              {
                assert j > 0 ==> !MayInFile(rest[j - 1], key);
              }
            }
          }
        }
      }
      if i :| 0 <= i < |fs| && fs[i] == f && MayInFile(f, key)
              && (all || forall j :: 0 <= j < i ==> !MayInFile(fs[j], key)) {
        if i > 0 {
          assert rest[i - 1] == f;
          if !all {
            assert !MayInFile(fs[0], key);
            forall j | 0 <= j < i - 1
              ensures !MayInFile(rest[j], key)
            {
              assert !MayInFile(fs[j + 1], key);
            }
          }
        }
      }
    }
  }

  /** A level's files are taken in the level's order: all that match, each as often as it is listed, or at
      most one. */
  lemma {:induction false} LevelMatchesOrder(fs: seq<Meta>, all: bool, key: bytes)
    ensures Subsequence(LevelMatches(fs, all, key), fs)
    ensures all ==> forall f :: multiset(LevelMatches(fs, all, key))[f] ==
                                if MayInFile(f, key) then multiset(fs)[f] else 0
    ensures !all ==> |LevelMatches(fs, all, key)| <= 1
  {
    hide MayInFile, Subsequence;
    if fs == [] {
      SubsequenceOfAny<Meta>([]);
    } else {
      var rest := fs[1..];
      LevelMatchesOrder(rest, all, key);
      assert fs == [fs[0]] + rest;
      SubsequenceOfAny(rest);
      SubsequenceCons(LevelMatches(rest, all, key), rest, fs[0]);
      SubsequenceCons([], rest, fs[0]);
    }
  }

  /** The whole list keeps the files' order: level by level, each in its own order. */
  lemma {:induction false} MatchesOrder(files: seq<seq<Meta>>, key: bytes)
    ensures Subsequence(Matches(files, key), Flatten(files))
  {
    hide MayInFile, Subsequence, LevelMatches;
    if files == [] {
      SubsequenceOfAny<Meta>([]);
    } else {
      var last := |files| - 1;
      MatchesOrder(files[..last], key);
      LevelMatchesOrder(files[last], last == 0, key);
      SubsequenceJoin(Matches(files[..last], key), Flatten(files[..last]),
                      LevelMatches(files[last], last == 0, key), files[last]);
    }
  }

  lemma {:induction false} MatchesMember(files: seq<seq<Meta>>, key: bytes, f: Meta)
    ensures f in Matches(files, key) <==>
            exists lv :: 0 <= lv < |files| && f in LevelMatches(files[lv], lv == 0, key)
  {
    hide LevelMatches;
    if files == [] {
    } else {
      var last := |files| - 1;
      MatchesMember(files[..last], key, f);
      if f in Matches(files[..last], key) {
        var lv :| 0 <= lv < last && f in LevelMatches(files[..last][lv], lv == 0, key);
        assert f in LevelMatches(files[lv], lv == 0, key);
      }
      if lv :| 0 <= lv < |files| && f in LevelMatches(files[lv], lv == 0, key) {
        assert lv < last ==> f in LevelMatches(files[..last][lv], lv == 0, key);
      }
    }
  }

  /** For every key, each level's contribution holds every file of the level that may contain it. */
  ghost predicate AlwaysComplete(fs: seq<Meta>, all: bool) {
    forall key, f :: f in fs && MayInFile(f, key) ==> f in LevelMatches(fs, all, key)
  }

  ghost predicate Sensible(fs: seq<Meta>) {
    forall f :: f in fs ==> AtMost(f.smallest.key, f.largest.key)
  }

  lemma ApartFilesShareNoKey(f: Meta, g: Meta, key: bytes)
    requires Apart(f, g)
    ensures !(MayInFile(f, key) && MayInFile(g, key))
  {
    if MayInFile(f, key) && MayInFile(g, key) {
      if Less(f.largest.key, g.smallest.key) {
        LessThenAtMost(f.largest.key, g.smallest.key, key);
        AtMostThenLess(key, f.largest.key, key);
      } else {
        LessThenAtMost(g.largest.key, f.smallest.key, key);
        AtMostThenLess(key, g.largest.key, key);
      }
      LessIrreflexive(key);
    }
  }

  /** Ranges that meet share a key. */
  lemma SharedKey(f: Meta, g: Meta) returns (key: bytes)
    requires !Apart(f, g)
    requires AtMost(f.smallest.key, f.largest.key) && AtMost(g.smallest.key, g.largest.key)
    ensures MayInFile(f, key) && MayInFile(g, key)
  {
    LessTotal(f.smallest.key, g.smallest.key);
    LessTotal(f.largest.key, g.smallest.key);
    LessTotal(g.largest.key, f.smallest.key);
    key := if Less(f.smallest.key, g.smallest.key) then g.smallest.key else f.smallest.key;
  }

  /** Level 0 is always complete; stopping at the first match is complete exactly when no two files
      of the level overlap. */
  lemma CompleteExactly(fs: seq<Meta>)
    requires Sensible(fs)
    ensures AlwaysComplete(fs, true)
    ensures AlwaysComplete(fs, false) <==> AllApart(Elements(fs))
  {
    hide MayInFile, Apart, LevelMatches;
    forall key, f | f in fs && MayInFile(f, key)
      ensures f in LevelMatches(fs, true, key)
    {
      LevelMatchesMember(fs, true, key, f);
    }
    if AllApart(Elements(fs)) {
      forall key, f | f in fs && MayInFile(f, key)
        ensures f in LevelMatches(fs, false, key)
      {
        FirstIsOnly(fs, key, f);
      }
    }
    if AlwaysComplete(fs, false) {
      forall f, g | f in Elements(fs) && g in Elements(fs) && f != g
        ensures Apart(f, g)
      {
        if !Apart(f, g) {
          var key := SharedKey(f, g);
          OnlyFirst(fs, key, f, g);
        }
      }
    }
  }

  lemma FirstIsOnly(fs: seq<Meta>, key: bytes, f: Meta)
    requires AllApart(Elements(fs)) && f in fs && MayInFile(f, key)
    ensures f in LevelMatches(fs, false, key)
  {
    hide MayInFile, Apart, LevelMatches;
    LevelMatchesMember(fs, false, key, f);
    var i := FirstAt(fs, f);
    forall j | 0 <= j < i
      ensures !MayInFile(fs[j], key)
    {
      assert fs[j] in Elements(fs) && f in Elements(fs);
      ApartFilesShareNoKey(fs[j], f, key);
    }
  }

  lemma FirstAt(fs: seq<Meta>, f: Meta) returns (i: nat)
    requires f in fs
    ensures i < |fs| && fs[i] == f && forall j :: 0 <= j < i ==> fs[j] != f
  {
    i := 0;
    while fs[i] != f
      invariant i < |fs| && f in fs[i..] && forall j :: 0 <= j < i ==> fs[j] != f
      decreases |fs| - i
    {
      assert fs[i..] == [fs[i]] + fs[i + 1..];
      i := i + 1;
    }
  }

  lemma OnlyFirst(fs: seq<Meta>, key: bytes, f: Meta, g: Meta)
    requires f in LevelMatches(fs, false, key) && g in LevelMatches(fs, false, key)
    ensures f == g
  {
    hide MayInFile;
    LevelMatchesMember(fs, false, key, f);
    LevelMatchesMember(fs, false, key, g);
    var i :| 0 <= i < |fs| && fs[i] == f && MayInFile(f, key) && forall j :: 0 <= j < i ==> !MayInFile(fs[j], key);
    var j :| 0 <= j < |fs| && fs[j] == g && MayInFile(g, key) && forall k :: 0 <= k < j ==> !MayInFile(fs[k], key);
  }

  /** A table that holds the key is searched: its recorded range covers its rows and no two files
      above level 0 overlap. */
  lemma HolderIsSearched(files: seq<seq<Meta>>, lv: nat, f: Meta, rows: seq<Entry>, key: bytes)
    requires lv < |files| && f in files[lv]
    requires forall k :: 1 <= k < |files| ==> AllApart(Elements(files[k]))
    requires Covers(f, rows) && Lookup(rows, key).Some?
    ensures f in Matches(files, key)
  {
    hide MayInFile, LevelMatches, AllApart;
    HasRow(rows, key);
    var e :| e in rows && e.key == key;
    if lv > 0 {
      FirstIsOnly(files[lv], key, f);
    } else {
      LevelMatchesMember(files[0], true, key, f);
    }
    MatchesMember(files, key, f);
  }

  lemma {:induction false} HasRow(rows: seq<Entry>, key: bytes)
    requires Lookup(rows, key).Some?
    ensures exists e :: e in rows && e.key == key
  {
    if rows[|rows| - 1].key == key {
    } else {
      HasRow(rows[..|rows| - 1], key);
      var e :| e in rows[..|rows| - 1] && e.key == key;
      assert e in rows;
    }
  }
}
