/** `VersionEdit`: one change to the set of files, and its byte form. */
module VersionEdits {
  import opened Bytes
  import opened Coding
  import opened Files

  const MAX_LEVEL: nat := 7

  const NEXT_FILE_NUMBER: nat := 3
  const LAST_SEQUENCE: nat := 4
  const DELETED_FILE: nat := 6
  const NEW_FILE: nat := 7
  const PREV_LOG_NUMBER: nat := 9

  type Pair = (nat, nat)        // level, file number

  /** What is encoded. `deletedFiles` is a `std::set`, listed in its order. */
  datatype Edit = Edit(prevLogNumber: Option<nat>, nextFileNumber: Option<nat>, lastSequence: Option<nat>,
                       deletedFiles: seq<Pair>, newFiles: seq<(nat, FileMetaData)>)

  // ---------- the set of deleted files ----------

  predicate PairBefore(p: Pair, q: Pair) {
    p.0 < q.0 || (p.0 == q.0 && p.1 < q.1)
  }

  ghost predicate PairsInOrder(ps: seq<Pair>) {
    forall i, j :: 0 <= i < j < |ps| ==> PairBefore(ps[i], ps[j])
  }

  function InsertPair(ps: seq<Pair>, p: Pair): seq<Pair> {
    if ps == [] || PairBefore(p, ps[0]) then [p] + ps
    else if p == ps[0] then ps
    else [ps[0]] + InsertPair(ps[1..], p)
  }

  lemma {:induction false} InsertPairKeepsOrder(ps: seq<Pair>, p: Pair)
    requires PairsInOrder(ps)
    ensures PairsInOrder(InsertPair(ps, p))
    ensures forall q :: q in InsertPair(ps, p) <==> q in ps || q == p
  {
    if ps == [] || PairBefore(p, ps[0]) || p == ps[0] {
    } else {
      InsertPairKeepsOrder(ps[1..], p);
      assert ps == [ps[0]] + ps[1..];
      var rest := InsertPair(ps[1..], p);
      forall j | 0 <= j < |rest|
        ensures PairBefore(ps[0], rest[j])
      {
        assert rest[j] in rest;
      }
    }
  }

  lemma {:induction false} InsertGreatest(ps: seq<Pair>, p: Pair)
    requires PairsInOrder(ps + [p])
    ensures InsertPair(ps, p) == ps + [p]
  {
    if ps == [] {
    } else {
      var all := ps + [p];
      assert PairBefore(all[0], all[|ps|]);
      assert all[1..] == ps[1..] + [p];
      forall i, j | 0 <= i < j < |all[1..]|
        ensures PairBefore(all[1..][i], all[1..][j])
      {
        assert PairBefore(all[i + 1], all[j + 1]);
      }
      InsertGreatest(ps[1..], p);
    }
  }

  // ---------- encoding ----------

  /** The bytes past each of the four slices that the entry encoder copies. */
  datatype Pads = Pads(smallestKey: byte, smallestValue: byte, largestKey: byte, largestValue: byte)

  /** One tag and what follows it. */
  datatype Item =
    | PrevLogNumber(n: nat)
    | NextFileNumber(n: nat)
    | LastSequence(n: nat)
    | DeletedFile(level: nat, number: nat)
    | NewFile(level: nat, file: FileMetaData, pads: Pads)

  predicate EntryFits(e: MemEntry) {
    InRange(e) && |e.key| + |e.value| + 20 < UINT32_LIMIT
  }

  /** The numbers fit the fields that hold them. */
  predicate ItemFits(x: Item) {
    match x
    case PrevLogNumber(n) => n < UINT64_LIMIT
    case NextFileNumber(n) => n < UINT64_LIMIT
    case LastSequence(n) => n < UINT64_LIMIT
    case DeletedFile(level, number) => level < UINT32_LIMIT && number < UINT64_LIMIT
    case NewFile(level, file, _) =>
      && level < UINT32_LIMIT && file.number < UINT64_LIMIT && file.fileSize < UINT64_LIMIT
      && EntryFits(file.smallest) && EntryFits(file.largest)
  }

  function PrefixedEntry(e: MemEntry, keyPad: byte, valuePad: byte): bytes
    requires EntryFits(e)
  {
    LengthPrefixed(MemEntryBytes(e, keyPad, valuePad))
  }

  function ItemBytes(x: Item): bytes
    requires ItemFits(x)
  {
    match x
    case PrevLogNumber(n) => Varint(PREV_LOG_NUMBER) + Varint(n)
    case NextFileNumber(n) => Varint(NEXT_FILE_NUMBER) + Varint(n)
    case LastSequence(n) => Varint(LAST_SEQUENCE) + Varint(n)
    case DeletedFile(level, number) => Varint(DELETED_FILE) + Varint(level) + Varint(number)
    case NewFile(level, file, pads) =>
      Varint(NEW_FILE) + Varint(level) + Varint(file.number) + Varint(file.fileSize)
      + PrefixedEntry(file.smallest, pads.smallestKey, pads.smallestValue)
      + PrefixedEntry(file.largest, pads.largestKey, pads.largestValue)
  }

  function ItemsBytes(xs: seq<Item>): bytes
    requires forall x :: x in xs ==> ItemFits(x)
  {
    if xs == [] then [] else ItemsBytes(xs[..|xs| - 1]) + ItemBytes(xs[|xs| - 1])
  }

  lemma {:induction false} ItemsBytesFirst(xs: seq<Item>)
    requires xs != [] && forall x :: x in xs ==> ItemFits(x)
    ensures ItemsBytes(xs) == ItemBytes(xs[0]) + ItemsBytes(xs[1..])
  {
    hide ItemBytes, ItemFits;
    var last := |xs| - 1;
    if last > 0 {
      ItemsBytesFirst(xs[..last]);
      assert xs[1..][..last - 1] == xs[..last][1..];
    } else {
      assert xs[..0] == [] && xs[1..] == [];
    }
  }

  function Numbers(e: Edit): seq<Item> {
    (if e.prevLogNumber.Some? then [PrevLogNumber(e.prevLogNumber.value)] else [])
    + (if e.nextFileNumber.Some? then [NextFileNumber(e.nextFileNumber.value)] else [])
    + (if e.lastSequence.Some? then [LastSequence(e.lastSequence.value)] else [])
  }

  function Deletions(ps: seq<Pair>): seq<Item> {
    seq(|ps|, i requires 0 <= i < |ps| => DeletedFile(ps[i].0, ps[i].1))
  }

  function Additions(fs: seq<(nat, FileMetaData)>, pads: seq<Pads>): seq<Item>
    requires |pads| == |fs|
  {
    seq(|fs|, i requires 0 <= i < |fs| => NewFile(fs[i].0, fs[i].1, pads[i]))
  }

  function Items(e: Edit, pads: seq<Pads>): seq<Item>
    requires |pads| == |e.newFiles|
  {
    Numbers(e) + Deletions(e.deletedFiles) + Additions(e.newFiles, pads)
  }

  /** What the fields of an edit can hold. */
  ghost predicate Encodable(e: Edit, pads: seq<Pads>) {
    && |pads| == |e.newFiles|
    && PairsInOrder(e.deletedFiles)
    && forall x :: x in Items(e, pads) ==> ItemFits(x)
  }

  ghost function EditBytes(e: Edit, pads: seq<Pads>): bytes
    requires Encodable(e, pads)
  {
    ItemsBytes(Items(e, pads))
  }

  // ---------- decoding ----------

  function GetLevel(s: bytes): (r: Parse<nat>)
    ensures r.Good? ==> r.value < MAX_LEVEL && |r.rest| < |s|
  {
    match GetVarint32(s)
    case Bad => Bad
    case Good(v, rest) => if v < MAX_LEVEL then Good(v, rest) else Bad
  }

  /** `GetMemEntry`: the value is None where the entry decoder reads outside its slice. */
  function GetMemEntry(s: bytes): (r: Parse<Option<MemEntry>>)
    ensures r.Good? ==> |r.rest| < |s|
  {
    match GetLengthPrefixedSlice(s)
    case Bad => Bad
    case Good(str, rest) => Good(DecodeMemEntry(str), rest)
  }

  /** The decoder's fields: of a new file only the level is its own, while one metadata record, the
      last one read, stands for all of them. */
  datatype Fields = Fields(edit: Edit, levels: seq<nat>, shared: FileMetaData)

  datatype Step = Again(fields: Fields, rest: bytes) | Failed(fields: Fields) | Outside

  const BLANK_ENTRY := MemEntry([], [], 0, false)
  const BLANK_FILE := FileMetaData(0, 0, BLANK_ENTRY, BLANK_ENTRY)
  const BLANK_EDIT := Edit(None, None, None, [], [])

  /** The chain of getters of a new-file entry; each stores into the shared record as it goes. */
  function ReadNewFile(f: Fields, s: bytes): (r: Step)
    ensures r.Again? ==> |r.rest| < |s|
  {
    match GetLevel(s)
    case Bad => Failed(f)
    case Good(level, s1) =>
      match GetVarint64(s1)
      case Bad => Failed(f)
      case Good(number, s2) =>
        var f2 := f.(shared := f.shared.(number := number));
        match GetVarint64(s2)
        case Bad => Failed(f2)
        case Good(size, s3) =>
          var f3 := f2.(shared := f2.shared.(fileSize := size));
          match GetMemEntry(s3)
          case Bad => Failed(f3)
          case Good(None, _) => Outside
          case Good(Some(smallest), s4) =>
            var f4 := f3.(shared := f3.shared.(smallest := smallest));
            match GetMemEntry(s4)
            case Bad => Failed(f4)
            case Good(None, _) => Outside
            case Good(Some(largest), s5) =>
              Again(f4.(shared := f4.shared.(largest := largest), levels := f4.levels + [level]), s5)
  }

  function ReadDeletedFile(f: Fields, s: bytes): (r: Step)
    ensures r.Again? ==> |r.rest| < |s|
  {
    match GetLevel(s)
    case Bad => Failed(f)
    case Good(level, s1) =>
      match GetVarint64(s1)
      case Bad => Failed(f)
      case Good(number, s2) =>
        Again(f.(edit := f.edit.(deletedFiles := InsertPair(f.edit.deletedFiles, (level, number)))), s2)
  }

  /** The `switch` on the tag. */
  function ReadField(tag: nat, f: Fields, s: bytes): (r: Step)
    ensures r.Again? ==> |r.rest| < |s|
  {
    if tag == PREV_LOG_NUMBER then
      match GetVarint64(s)
      case Bad => Failed(f)
      case Good(n, rest) => Again(f.(edit := f.edit.(prevLogNumber := Some(n))), rest)
    else if tag == NEXT_FILE_NUMBER then
      match GetVarint64(s)
      case Bad => Failed(f)
      case Good(n, rest) => Again(f.(edit := f.edit.(nextFileNumber := Some(n))), rest)
    else if tag == LAST_SEQUENCE then
      match GetVarint64(s)
      case Bad => Failed(f)
      case Good(n, rest) => Again(f.(edit := f.edit.(lastSequence := Some(n))), rest)
    else if tag == DELETED_FILE then ReadDeletedFile(f, s)
    else if tag == NEW_FILE then ReadNewFile(f, s)
    else Failed(f)
  }

  datatype Outcome = Decoded(status: Status, fields: Fields) | OutOfBounds

  /** The tag loop. */
  function DecodeLoop(f: Fields, s: bytes): Outcome
    decreases |s|
  {
    match GetVarint32(s)
    case Bad => Decoded(if s == [] then OK else Corruption, f)
    case Good(tag, rest) =>
      match ReadField(tag, f, rest)
      case Outside => OutOfBounds
      case Failed(f') => Decoded(Corruption, f')
      case Again(f', rest') => DecodeLoop(f', rest')
  }

  function DecodeEdit(src: bytes): Outcome {
    DecodeLoop(Fields(BLANK_EDIT, [], BLANK_FILE), src)
  }

  /** The edit that the fields amount to: every new file is the shared record. */
  function EditOf(f: Fields): Edit {
    f.edit.(newFiles := Sharing(f.levels, f.shared))
  }

  function Sharing(levels: seq<nat>, shared: FileMetaData): seq<(nat, FileMetaData)> {
    seq(|levels|, i requires 0 <= i < |levels| => (levels[i], shared))
  }

  // ---------- round trip ----------

  function Store(f: Fields, x: Item): Fields {
    match x
    case PrevLogNumber(n) => f.(edit := f.edit.(prevLogNumber := Some(n)))
    case NextFileNumber(n) => f.(edit := f.edit.(nextFileNumber := Some(n)))
    case LastSequence(n) => f.(edit := f.edit.(lastSequence := Some(n)))
    case DeletedFile(level, number) =>
      f.(edit := f.edit.(deletedFiles := InsertPair(f.edit.deletedFiles, (level, number))))
    case NewFile(level, file, _) => f.(shared := file, levels := f.levels + [level])
  }

  function StoreAll(f: Fields, xs: seq<Item>): Fields {
    if xs == [] then f else Store(StoreAll(f, xs[..|xs| - 1]), xs[|xs| - 1])
  }

  predicate LevelOk(x: Item) {
    (x.DeletedFile? || x.NewFile?) ==> x.level < MAX_LEVEL
  }

  lemma ReadNewFileBack(f: Fields, x: Item, t: bytes)
    requires ItemFits(x) && x.NewFile?
    ensures ItemBytes(x) == Varint(NEW_FILE) + ItemBytes(x)[|Varint(NEW_FILE)|..]
    ensures ReadNewFile(f, ItemBytes(x)[|Varint(NEW_FILE)|..] + t) ==
            if LevelOk(x) then Again(Store(f, x), t) else Failed(f)
  {
    hide Varint, GetVarint32, GetVarint64, MemEntryBytes, DecodeMemEntry;
    hide LengthPrefixed, GetLengthPrefixedSlice, InRange;
    var file, pads := x.file, x.pads;
    MemEntryBytesSize(file.smallest, pads.smallestKey, pads.smallestValue);
    MemEntryBytesSize(file.largest, pads.largestKey, pads.largestValue);
    MemEntryRoundTrip(file.smallest, pads.smallestKey, pads.smallestValue);
    MemEntryRoundTrip(file.largest, pads.largestKey, pads.largestValue);
    var s4 := PrefixedEntry(file.largest, pads.largestKey, pads.largestValue) + t;
    var s3 := PrefixedEntry(file.smallest, pads.smallestKey, pads.smallestValue) + s4;
    var s2 := Varint(file.fileSize) + s3;
    var s1 := Varint(file.number) + s2;
    assert ItemBytes(x)[|Varint(NEW_FILE)|..] + t == Varint(x.level) + s1;
    Varint32RoundTrip(x.level, s1);
    Varint64RoundTrip(file.number, s2);
    Varint64RoundTrip(file.fileSize, s3);
    LengthPrefixedRoundTrip(MemEntryBytes(file.smallest, pads.smallestKey, pads.smallestValue), s4);
    LengthPrefixedRoundTrip(MemEntryBytes(file.largest, pads.largestKey, pads.largestValue), t);
  }

  lemma ReadDeletedFileBack(f: Fields, x: Item, t: bytes)
    requires ItemFits(x) && x.DeletedFile?
    ensures ReadDeletedFile(f, Varint(x.level) + Varint(x.number) + t) ==
            if LevelOk(x) then Again(Store(f, x), t) else Failed(f)
  {
    hide Varint, GetVarint32, GetVarint64;
    var s1 := Varint(x.number) + t;
    assert Varint(x.level) + Varint(x.number) + t == Varint(x.level) + s1;
    Varint32RoundTrip(x.level, s1);
    Varint64RoundTrip(x.number, t);
  }

  /** One item read back by one turn of the loop. */
  lemma ReadItemBack(f: Fields, x: Item, t: bytes)
    requires ItemFits(x)
    ensures DecodeLoop(f, ItemBytes(x) + t) ==
            if LevelOk(x) then DecodeLoop(Store(f, x), t) else Decoded(Corruption, f)
  {
    hide Varint, GetVarint32, GetVarint64, ReadNewFile, ReadDeletedFile, PrefixedEntry;
    match x
    case PrevLogNumber(n) =>
      TagThenNumber(PREV_LOG_NUMBER, n, t);
    case NextFileNumber(n) =>
      TagThenNumber(NEXT_FILE_NUMBER, n, t);
    case LastSequence(n) =>
      TagThenNumber(LAST_SEQUENCE, n, t);
    case DeletedFile(level, number) =>
      var rest := Varint(level) + Varint(number) + t;
      assert ItemBytes(x) + t == Varint(DELETED_FILE) + rest;
      Varint32RoundTrip(DELETED_FILE, rest);
      ReadDeletedFileBack(f, x, t);
    case NewFile(level, file, pads) =>
      ReadNewFileBack(f, x, t);
      var rest := ItemBytes(x)[|Varint(NEW_FILE)|..] + t;
      assert ItemBytes(x) + t == Varint(NEW_FILE) + rest;
      Varint32RoundTrip(NEW_FILE, rest);
  }

  lemma TagThenNumber(tag: nat, n: nat, t: bytes)
    requires tag < UINT32_LIMIT && n < UINT64_LIMIT
    ensures GetVarint32(Varint(tag) + Varint(n) + t) == Good(tag, Varint(n) + t)
    ensures GetVarint64(Varint(n) + t) == Good(n, t)
  {
    hide Varint, GetVarint32, GetVarint64;
    assert Varint(tag) + Varint(n) + t == Varint(tag) + (Varint(n) + t);
    Varint32RoundTrip(tag, Varint(n) + t);
    Varint64RoundTrip(n, t);
  }

  lemma {:induction false} StoreAllFirst(f: Fields, xs: seq<Item>)
    requires xs != []
    ensures StoreAll(f, xs) == StoreAll(Store(f, xs[0]), xs[1..])
  {
    var last := |xs| - 1;
    if last > 0 {
      StoreAllFirst(f, xs[..last]);
      assert xs[1..][..last - 1] == xs[..last][1..];
    } else {
      assert xs[..0] == [] && xs[1..] == [];
    }
  }

  /** The loop reads a list of items back and stops at the end, and fails if and only if some level
      is out of range. */
  lemma {:induction false} ReadItemsBack(f: Fields, xs: seq<Item>)
    requires forall x :: x in xs ==> ItemFits(x)
    ensures if forall x :: x in xs ==> LevelOk(x)
            then DecodeLoop(f, ItemsBytes(xs)) == Decoded(OK, StoreAll(f, xs))
            else var o := DecodeLoop(f, ItemsBytes(xs)); o.Decoded? && o.status == Corruption
    decreases |xs|
  {
    hide ItemBytes, LevelOk, ItemFits, Store;
    if xs == [] {
    } else {
      ItemsBytesFirst(xs);
      assert xs == [xs[0]] + xs[1..];
      StoreAllFirst(f, xs);
      ReadItemBack(f, xs[0], ItemsBytes(xs[1..]));
      if LevelOk(xs[0]) {
        ReadItemsBack(Store(f, xs[0]), xs[1..]);
      }
    }
  }

  /** Items in front of anything else are read and stored one by one. */
  lemma {:induction false} ReadItemsThen(f: Fields, xs: seq<Item>, t: bytes)
    requires forall x :: x in xs ==> ItemFits(x) && LevelOk(x)
    ensures DecodeLoop(f, ItemsBytes(xs) + t) == DecodeLoop(StoreAll(f, xs), t)
    decreases |xs|
  {
    hide ItemBytes, LevelOk, ItemFits, Store, DecodeLoop;
    if xs == [] {
      assert ItemsBytes(xs) + t == t;
    } else {
      ItemsBytesFirst(xs);
      assert xs == [xs[0]] + xs[1..];
      StoreAllFirst(f, xs);
      ReadItemBack(f, xs[0], ItemsBytes(xs[1..]) + t);
      assert ItemsBytes(xs) + t == ItemBytes(xs[0]) + (ItemsBytes(xs[1..]) + t);
      ReadItemsThen(Store(f, xs[0]), xs[1..], t);
    }
  }

  /** What no field can begin with: a broken varint, or a tag that is none of the five. */
  predicate NoField(t: bytes) {
    match GetVarint32(t)
    case Bad => t != []
    case Good(tag, _) => tag !in {PREV_LOG_NUMBER, NEXT_FILE_NUMBER, LAST_SEQUENCE, DELETED_FILE, NEW_FILE}
  }

  lemma CutOff(f: Fields, t: bytes)
    requires NoField(t) || t in {Varint(PREV_LOG_NUMBER), Varint(NEXT_FILE_NUMBER), Varint(LAST_SEQUENCE)}
    ensures DecodeLoop(f, t) == Decoded(Corruption, f)
  {
    hide GetVarint32, Varint;
    if !NoField(t) {
      var tag :| tag in {PREV_LOG_NUMBER, NEXT_FILE_NUMBER, LAST_SEQUENCE} && t == Varint(tag);
      Varint32RoundTrip(tag, []);
      assert Varint(tag) + [] == Varint(tag);
      assert GetVarint64([]) == Bad;
    }
  }

  lemma {:induction false} StoreDeletions(f: Fields, ps: seq<Pair>)
    requires PairsInOrder(ps) && f.edit.deletedFiles == []
    ensures StoreAll(f, Deletions(ps)) == f.(edit := f.edit.(deletedFiles := ps))
  {
    if ps == [] {
    } else {
      var last := |ps| - 1;
      StoreDeletions(f, ps[..last]);
      assert Deletions(ps)[..last] == Deletions(ps[..last]);
      assert ps == ps[..last] + [ps[last]];
      InsertGreatest(ps[..last], ps[last]);
    }
  }

  lemma {:induction false} StoreAdditions(f: Fields, fs: seq<(nat, FileMetaData)>, pads: seq<Pads>)
    requires |pads| == |fs| && f.levels == []
    ensures StoreAll(f, Additions(fs, pads)) ==
            f.(levels := Levels(fs), shared := if fs == [] then f.shared else fs[|fs| - 1].1)
  {
    if fs == [] {
    } else {
      var last := |fs| - 1;
      StoreAdditions(f, fs[..last], pads[..last]);
      assert Additions(fs, pads)[..last] == Additions(fs[..last], pads[..last]);
      assert Levels(fs) == Levels(fs[..last]) + [fs[last].0];
    }
  }

  function Levels(fs: seq<(nat, FileMetaData)>): seq<nat> {
    seq(|fs|, i requires 0 <= i < |fs| => fs[i].0)
  }

  lemma {:induction false} StoreAllAppend(f: Fields, xs: seq<Item>, ys: seq<Item>)
    ensures StoreAll(f, xs + ys) == StoreAll(StoreAll(f, xs), ys)
  {
    if ys == [] {
      assert xs + ys == xs;
    } else {
      var last := |ys| - 1;
      assert (xs + ys)[..|xs| + last] == xs + ys[..last];
      StoreAllAppend(f, xs, ys[..last]);
    }
  }

  lemma StoreNumbers(e: Edit)
    ensures StoreAll(Fields(BLANK_EDIT, [], BLANK_FILE), Numbers(e)) ==
            Fields(e.(deletedFiles := [], newFiles := []), [], BLANK_FILE)
  {
    var f := Fields(BLANK_EDIT, [], BLANK_FILE);
    var prev := if e.prevLogNumber.Some? then [PrevLogNumber(e.prevLogNumber.value)] else [];
    var next := if e.nextFileNumber.Some? then [NextFileNumber(e.nextFileNumber.value)] else [];
    var seqNo := if e.lastSequence.Some? then [LastSequence(e.lastSequence.value)] else [];
    StoreAllAppend(f, prev + next, seqNo);
    StoreAllAppend(f, prev, next);
    StoreOne(f, prev);
    StoreOne(StoreAll(f, prev), next);
    StoreOne(StoreAll(StoreAll(f, prev), next), seqNo);
  }

  lemma StoreOne(f: Fields, xs: seq<Item>)
    requires |xs| <= 1
    ensures StoreAll(f, xs) == if xs == [] then f else Store(f, xs[0])
  {
    if xs != [] {
      assert xs[..0] == [];
    }
  }

  /** Every level is one the store has. */
  predicate LevelsOk(e: Edit) {
    && (forall p :: p in e.deletedFiles ==> p.0 < MAX_LEVEL)
    && (forall q :: q in e.newFiles ==> q.0 < MAX_LEVEL)
  }

  /** What decoding makes of an edit: the last new file stands for all of them. */
  function LastForAll(e: Edit): Edit {
    if e.newFiles == [] then e
    else e.(newFiles := Sharing(Levels(e.newFiles), e.newFiles[|e.newFiles| - 1].1))
  }

  lemma LevelsOkOfItems(e: Edit, pads: seq<Pads>)
    requires |pads| == |e.newFiles|
    ensures LevelsOk(e) <==> forall x :: x in Items(e, pads) ==> LevelOk(x)
  {
    var xs := Items(e, pads);
    var n, d := |Numbers(e)|, |e.deletedFiles|;
    if forall x :: x in xs ==> LevelOk(x) {
      forall p | p in e.deletedFiles
        ensures p.0 < MAX_LEVEL
      {
        var i :| 0 <= i < d && e.deletedFiles[i] == p;
        assert xs[n + i] in xs;
      }
      forall q | q in e.newFiles
        ensures q.0 < MAX_LEVEL
      {
        var i :| 0 <= i < |e.newFiles| && e.newFiles[i] == q;
        assert xs[n + d + i] in xs;
      }
    }
  }

  /** Decoding an encoded edit: out-of-range levels are refused, and otherwise every field comes
      back, except that all new files become the last one. */
  lemma DecodeOfEncode(e: Edit, pads: seq<Pads>)
    requires Encodable(e, pads)
    ensures var o := DecodeEdit(EditBytes(e, pads));
            && o.Decoded?
            && (o.status == OK <==> LevelsOk(e))
            && (LevelsOk(e) ==> EditOf(o.fields) == LastForAll(e))
  {
    hide DecodeLoop, ItemsBytes, StoreAll, LevelOk, ItemFits, LevelsOk, PairsInOrder;
    var f := Fields(BLANK_EDIT, [], BLANK_FILE);
    var ns, ds, fs := Numbers(e), Deletions(e.deletedFiles), Additions(e.newFiles, pads);
    ReadItemsBack(f, Items(e, pads));
    LevelsOkOfItems(e, pads);
    StoreAllAppend(f, ns + ds, fs);
    StoreAllAppend(f, ns, ds);
    StoreNumbers(e);
    var g := Fields(e.(deletedFiles := [], newFiles := []), [], BLANK_FILE);
    StoreDeletions(g, e.deletedFiles);
    StoreAdditions(g.(edit := g.edit.(deletedFiles := e.deletedFiles)), e.newFiles, pads);
  }

  /** Anything after an encoded edit that begins no field is refused, and so is a number cut off after its
      tag; what was read before stays in the fields. */
  lemma LeftoverIsRefused(e: Edit, pads: seq<Pads>, t: bytes)
    requires Encodable(e, pads) && LevelsOk(e)
    requires NoField(t) || t in {Varint(PREV_LOG_NUMBER), Varint(NEXT_FILE_NUMBER), Varint(LAST_SEQUENCE)}
    ensures var o := DecodeEdit(EditBytes(e, pads) + t);
            o.Decoded? && o.status == Corruption && EditOf(o.fields) == LastForAll(e)
  {
    hide ItemsBytes, StoreAll, LevelOk, ItemFits, PairsInOrder, Items, GetVarint32, GetVarint64, Varint;
    hide DecodeLoop, NoField, LevelsOk, EditOf, LastForAll;
    var f, xs := Fields(BLANK_EDIT, [], BLANK_FILE), Items(e, pads);
    LevelsOkOfItems(e, pads);
    ReadItemsThen(f, xs, t);
    ReadItemsBack(f, xs);
    CutOff(StoreAll(f, xs), t);
    DecodeOfEncode(e, pads);
  }

  ghost predicate SameMetadata(fs: seq<(nat, FileMetaData)>) {
    forall i, j :: 0 <= i < j < |fs| ==> fs[i].1 == fs[j].1
  }

  lemma LastForAllIsEdit(e: Edit)
    ensures LastForAll(e) == e <==> SameMetadata(e.newFiles)
  {
    var fs := e.newFiles;
    if fs != [] {
      var shared := Sharing(Levels(fs), fs[|fs| - 1].1);
      if SameMetadata(fs) {
        forall i | 0 <= i < |fs|
          ensures shared[i] == fs[i]
        {
          assert i < |fs| - 1 ==> fs[i].1 == fs[|fs| - 1].1;
        }
        assert shared == fs;
      }
      if shared == fs {
        forall i | 0 <= i < |fs|
          ensures fs[i].1 == fs[|fs| - 1].1
        {
          assert shared[i] == fs[i];
        }
      }
    }
  }

  /** The round trip restores the edit if and only if its levels exist and its new files all carry
      the same metadata, as they do when there is at most one. */
  lemma RoundTripExactly(e: Edit, pads: seq<Pads>)
    requires Encodable(e, pads)
    ensures (var o := DecodeEdit(EditBytes(e, pads)); o.Decoded? && o.status == OK && EditOf(o.fields) == e)
            <==> LevelsOk(e) && SameMetadata(e.newFiles)
  {
    hide DecodeEdit, EditBytes, LastForAll, Encodable, EditOf, LevelsOk, SameMetadata;
    DecodeOfEncode(e, pads);
    LastForAllIsEdit(e);
  }

  /** The edits that compaction writes come back whole. */
  lemma OneNewFileRoundTrip(e: Edit, pads: seq<Pads>)
    requires Encodable(e, pads) && LevelsOk(e) && |e.newFiles| <= 1
    ensures var o := DecodeEdit(EditBytes(e, pads));
            o.Decoded? && o.status == OK && EditOf(o.fields) == e
  {
    hide DecodeEdit, EditBytes, Encodable, EditOf, LevelsOk;
    RoundTripExactly(e, pads);
  }

  /** Two different new files: decoding reports success and returns the second one twice. */
  lemma TwoNewFilesCollapse(first: FileMetaData, second: FileMetaData, pads: seq<Pads>)
    requires first != second
    requires var e := BLANK_EDIT.(newFiles := [(0, first), (0, second)]); Encodable(e, pads)
    ensures var e := BLANK_EDIT.(newFiles := [(0, first), (0, second)]);
            var o := DecodeEdit(EditBytes(e, pads));
            o.Decoded? && o.status == OK && EditOf(o.fields).newFiles == [(0, second), (0, second)]
  {
    hide DecodeEdit, EditBytes, Encodable, EditOf;
    var e := BLANK_EDIT.(newFiles := [(0, first), (0, second)]);
    DecodeOfEncode(e, pads);
    assert LastForAll(e).newFiles == [(0, second), (0, second)];
  }

  // ---------- the class ----------

  /** A heap-allocated `FileMetaData`, as far as the codec uses it. */
  class FileRecord {
    var number: nat
    var fileSize: nat
    var smallest: MemEntry
    var largest: MemEntry

    ghost function Meta(): FileMetaData
      reads this
    {
      FileMetaData(number, fileSize, smallest, largest)
    }

    /** The original leaves `number` unset; nothing reads it before it is stored. */
    constructor (f: FileMetaData)
      ensures Meta() == f
    {
      number, fileSize, smallest, largest := f.number, f.fileSize, f.smallest, f.largest;
    }
  }

  ghost function Metas(fs: seq<(nat, FileRecord)>): (ms: seq<(nat, FileMetaData)>)
    reads set i | 0 <= i < |fs| :: fs[i].1
    ensures |ms| == |fs|
  {
    if fs == [] then [] else Metas(fs[..|fs| - 1]) + [(fs[|fs| - 1].0, fs[|fs| - 1].1.Meta())]
  }

  twostate lemma {:induction false} MetasUnchanged(fs: seq<(nat, FileRecord)>)
    requires forall i :: 0 <= i < |fs| ==> allocated(fs[i].1) && old(allocated(fs[i].1)) && unchanged(fs[i].1)
    ensures Metas(fs) == old(Metas(fs))
  {
    if fs == [] {
    } else {
      MetasUnchanged(fs[..|fs| - 1]);
    }
  }

  lemma {:induction false} MetasShared(fs: seq<(nat, FileRecord)>, levels: seq<nat>, f: FileRecord)
    requires |fs| == |levels| && forall i :: 0 <= i < |fs| ==> fs[i] == (levels[i], f)
    ensures Metas(fs) == Sharing(levels, f.Meta())
  {
    if fs == [] {
    } else {
      var last := |fs| - 1;
      MetasShared(fs[..last], levels[..last], f);
      assert Sharing(levels, f.Meta()) == Sharing(levels[..last], f.Meta()) + [(levels[last], f.Meta())];
    }
  }

  lemma {:induction false} MetasAt(fs: seq<(nat, FileRecord)>, i: nat)
    requires i < |fs|
    ensures |Metas(fs)| == |fs| && Metas(fs)[i] == (fs[i].0, fs[i].1.Meta())
  {
    if i < |fs| - 1 {
      MetasAt(fs[..|fs| - 1], i);
    } else if |fs| > 1 {
      MetasAt(fs[..|fs| - 1], 0);
    }
  }

  class VersionEdit {
    var hasPrevLogNumber: bool
    var prevLogNumber: nat
    var hasNextFileNumber: bool
    var nextFileNumber: nat
    var hasLastSequence: bool
    var lastSequence: nat
    var deletedFiles: seq<Pair>
    var newFiles: seq<(nat, FileRecord)>

    ghost function Contents(): Edit
      reads this, set i | 0 <= i < |newFiles| :: newFiles[i].1
    {
      Edit(if hasPrevLogNumber then Some(prevLogNumber) else None,
           if hasNextFileNumber then Some(nextFileNumber) else None,
           if hasLastSequence then Some(lastSequence) else None,
           deletedFiles, Metas(newFiles))
    }

    constructor ()
      ensures Contents() == BLANK_EDIT
    {
      hasPrevLogNumber, hasNextFileNumber, hasLastSequence := false, false, false;
      prevLogNumber, nextFileNumber, lastSequence := 0, 0, 0;
      deletedFiles, newFiles := [], [];
    }

    method Clear()
      modifies this
      ensures Contents() == BLANK_EDIT && newFiles == []
    {
      lastSequence, nextFileNumber := 0, 0;
      hasPrevLogNumber, hasNextFileNumber, hasLastSequence := false, false, false;
      deletedFiles, newFiles := [], [];
    }

    method AddFile(level: nat, file: FileMetaData)
      modifies this
      ensures Contents() == old(Contents()).(newFiles := old(Contents()).newFiles + [(level, file)])
    {
      var f := new FileRecord(file);
      newFiles := newFiles + [(level, f)];
      assert newFiles[..|newFiles| - 1] == old(newFiles);
      MetasUnchanged(old(newFiles));
    }

    method DeleteFile(level: nat, number: nat)
      modifies this
      ensures Contents() == old(Contents()).(deletedFiles := InsertPair(old(deletedFiles), (level, number)))
    {
      deletedFiles := InsertPair(deletedFiles, (level, number));
      MetasUnchanged(newFiles);
    }

    method EncodeTo(dst: bytes, pads: seq<Pads>) returns (r: bytes)
      requires Encodable(Contents(), pads)
      ensures Contents() == old(Contents())
      ensures r == dst + EditBytes(Contents(), pads)
    {
      hide ItemFits, ItemsBytes, Deletions, Additions, NumberBytes, EditBytes, Encodable, Metas;
      EncodedParts(Contents(), pads);
      r := PutNumber(dst, hasPrevLogNumber, PREV_LOG_NUMBER, prevLogNumber);
      r := PutNumber(r, hasNextFileNumber, NEXT_FILE_NUMBER, nextFileNumber);
      r := PutNumber(r, hasLastSequence, LAST_SEQUENCE, lastSequence);
      r := PutDeletedFiles(r, deletedFiles);
      MetasUnchanged(newFiles);
      r := PutNewFiles(r, newFiles, pads);
      MetasUnchanged(newFiles);
    }

    /** The fields agree with the decoder's, all new files being the one record. */
    ghost predicate Holds(g: Fields, f: FileRecord)
      reads this, f
    {
      && g.edit.prevLogNumber == (if hasPrevLogNumber then Some(prevLogNumber) else None)
      && g.edit.nextFileNumber == (if hasNextFileNumber then Some(nextFileNumber) else None)
      && g.edit.lastSequence == (if hasLastSequence then Some(lastSequence) else None)
      && g.edit.deletedFiles == deletedFiles
      && f.Meta() == g.shared
      && |newFiles| == |g.levels|
      && forall i :: 0 <= i < |newFiles| ==> newFiles[i] == (g.levels[i], f)
    }

    /** A new-file entry read into the shared record. */
    method ReadNewFileInto(input: bytes, f: FileRecord, ghost g: Fields)
      returns (ok: bool, rest: bytes, ghost g': Fields)
      requires Holds(g, f) && !ReadNewFile(g, input).Outside?
      modifies this, f
      ensures ReadNewFile(g, input) == if ok then Again(g', rest) else Failed(g')
      ensures Holds(g', f)
    {
      hide GetLevel, GetVarint64, GetMemEntry;
      ok, rest, g' := false, input, g;
      var level := GetLevel(input);
      if level.Bad? { return; }
      var number := GetVarint64(level.rest);
      if number.Bad? { return; }
      f.number := number.value;
      g' := g'.(shared := g'.shared.(number := number.value));
      var size := GetVarint64(number.rest);
      if size.Bad? { return; }
      f.fileSize := size.value;
      g' := g'.(shared := g'.shared.(fileSize := size.value));
      var smallest := GetMemEntry(size.rest);
      if smallest.Bad? { return; }
      f.smallest := smallest.value.value;
      g' := g'.(shared := g'.shared.(smallest := smallest.value.value));
      var largest := GetMemEntry(smallest.rest);
      if largest.Bad? { return; }
      f.largest := largest.value.value;
      g' := g'.(shared := g'.shared.(largest := largest.value.value), levels := g'.levels + [level.value]);
      newFiles := newFiles + [(level.value, f)];
      ok, rest := true, largest.rest;
    }

    /** The `switch` on the tag. */
    method ReadFieldInto(tag: nat, input: bytes, f: FileRecord, ghost g: Fields)
      returns (ok: bool, rest: bytes, ghost g': Fields)
      requires Holds(g, f) && !ReadField(tag, g, input).Outside?
      modifies this, f
      ensures ReadField(tag, g, input) == if ok then Again(g', rest) else Failed(g')
      ensures Holds(g', f)
    {
      hide GetLevel, GetVarint64, ReadNewFile;
      ok, rest, g' := false, input, g;
      if tag == NEW_FILE {
        ok, rest, g' := ReadNewFileInto(input, f, g);
      } else if tag == DELETED_FILE {
        var level := GetLevel(input);
        if level.Bad? { return; }
        var number := GetVarint64(level.rest);
        if number.Bad? { return; }
        deletedFiles := InsertPair(deletedFiles, (level.value, number.value));
        g' := g.(edit := g.edit.(deletedFiles := deletedFiles));
        ok, rest := true, number.rest;
      } else if tag == PREV_LOG_NUMBER || tag == NEXT_FILE_NUMBER || tag == LAST_SEQUENCE {
        var n := GetVarint64(input);
        if n.Bad? { return; }
        if tag == PREV_LOG_NUMBER {
          prevLogNumber, hasPrevLogNumber := n.value, true;
          g' := g.(edit := g.edit.(prevLogNumber := Some(n.value)));
        } else if tag == NEXT_FILE_NUMBER {
          nextFileNumber, hasNextFileNumber := n.value, true;
          g' := g.(edit := g.edit.(nextFileNumber := Some(n.value)));
        } else {
          lastSequence, hasLastSequence := n.value, true;
          g' := g.(edit := g.edit.(lastSequence := Some(n.value)));
        }
        ok, rest := true, n.rest;
      }
    }

    /** Callers keep to inputs whose entries stay inside their slices. */
    method DecodeFrom(src: bytes) returns (status: Status)
      requires DecodeEdit(src).Decoded?
      modifies this
      ensures status == DecodeEdit(src).status && Contents() == EditOf(DecodeEdit(src).fields)
    {
      hide GetVarint32, ReadField;
      Clear();
      var input, failed := src, false;
      var f := new FileRecord(BLANK_FILE);
      ghost var g := Fields(BLANK_EDIT, [], BLANK_FILE);
      while !failed && GetVarint32(input).Good?
        invariant fresh(f) && Holds(g, f)
        invariant DecodeEdit(src) == if failed then Decoded(Corruption, g) else DecodeLoop(g, input)
        decreases !failed, |input|
      {
        var tag := GetVarint32(input);
        var ok, rest;
        ok, rest, g := ReadFieldInto(tag.value, tag.rest, f, g);
        failed := !ok;
        input := if ok then rest else tag.rest;
      }
      failed := failed || input != [];
      status := if failed then Corruption else OK;
      MetasShared(newFiles, g.levels, f);
    }
  }

  lemma ItemsBytesPush(xs: seq<Item>, k: nat)
    requires k < |xs| && forall x :: x in xs ==> ItemFits(x)
    ensures ItemsBytes(xs[..k + 1]) == ItemsBytes(xs[..k]) + ItemBytes(xs[k])
  {
    assert xs[..k + 1][..k] == xs[..k];
  }

  lemma {:induction false} ItemsBytesAppend(xs: seq<Item>, ys: seq<Item>)
    requires forall x :: x in xs + ys ==> ItemFits(x)
    ensures (forall x :: x in xs ==> ItemFits(x)) && (forall y :: y in ys ==> ItemFits(y))
    ensures ItemsBytes(xs + ys) == ItemsBytes(xs) + ItemsBytes(ys)
  {
    hide ItemFits, ItemBytes;
    assert forall x :: x in xs ==> x in xs + ys;
    assert forall y :: y in ys ==> y in xs + ys;
    if ys == [] {
      assert xs + ys == xs;
    } else {
      var last := |ys| - 1;
      assert (xs + ys)[..|xs| + last] == xs + ys[..last];
      ItemsBytesAppend(xs, ys[..last]);
    }
  }

  lemma ItemsSplit(ns: seq<Item>, ds: seq<Item>, fs: seq<Item>)
    requires forall x :: x in ns + ds + fs ==> ItemFits(x)
    ensures (forall x :: x in ns ==> ItemFits(x)) && (forall x :: x in ds ==> ItemFits(x))
            && (forall x :: x in fs ==> ItemFits(x))
    ensures ItemsBytes(ns + ds + fs) == ItemsBytes(ns) + ItemsBytes(ds) + ItemsBytes(fs)
  {
    hide ItemFits, ItemBytes, ItemsBytes;
    ItemsBytesAppend(ns + ds, fs);
    ItemsBytesAppend(ns, ds);
  }

  function NumberBytes(n: Option<nat>, tag: nat): bytes {
    match n case None => [] case Some(v) => Varint(tag) + Varint(v)
  }

  lemma NumbersBytes(e: Edit)
    requires forall x :: x in Numbers(e) ==> ItemFits(x)
    ensures ItemsBytes(Numbers(e)) ==
            NumberBytes(e.prevLogNumber, PREV_LOG_NUMBER) + NumberBytes(e.nextFileNumber, NEXT_FILE_NUMBER)
            + NumberBytes(e.lastSequence, LAST_SEQUENCE)
    ensures e.prevLogNumber.Some? ==> e.prevLogNumber.value < UINT64_LIMIT
    ensures e.nextFileNumber.Some? ==> e.nextFileNumber.value < UINT64_LIMIT
    ensures e.lastSequence.Some? ==> e.lastSequence.value < UINT64_LIMIT
  {
    hide Varint, ItemsBytes, ItemFits, ItemBytes;
    var prev := if e.prevLogNumber.Some? then [PrevLogNumber(e.prevLogNumber.value)] else [];
    var next := if e.nextFileNumber.Some? then [NextFileNumber(e.nextFileNumber.value)] else [];
    var seqNo := if e.lastSequence.Some? then [LastSequence(e.lastSequence.value)] else [];
    ItemsSplit(prev, next, seqNo);
    NumberItemBytes(prev, e.prevLogNumber, PREV_LOG_NUMBER);
    NumberItemBytes(next, e.nextFileNumber, NEXT_FILE_NUMBER);
    NumberItemBytes(seqNo, e.lastSequence, LAST_SEQUENCE);
  }

  lemma EncodedParts(e: Edit, pads: seq<Pads>)
    requires Encodable(e, pads)
    ensures |pads| == |e.newFiles|
    ensures forall x :: x in Deletions(e.deletedFiles) ==> ItemFits(x)
    ensures forall x :: x in Additions(e.newFiles, pads) ==> ItemFits(x)
    ensures EditBytes(e, pads) ==
            NumberBytes(e.prevLogNumber, PREV_LOG_NUMBER) + NumberBytes(e.nextFileNumber, NEXT_FILE_NUMBER)
            + NumberBytes(e.lastSequence, LAST_SEQUENCE)
            + ItemsBytes(Deletions(e.deletedFiles)) + ItemsBytes(Additions(e.newFiles, pads))
    ensures e.prevLogNumber.Some? ==> e.prevLogNumber.value < UINT64_LIMIT
    ensures e.nextFileNumber.Some? ==> e.nextFileNumber.value < UINT64_LIMIT
    ensures e.lastSequence.Some? ==> e.lastSequence.value < UINT64_LIMIT
  {
    hide ItemFits, ItemsBytes, Numbers, Deletions, Additions, NumberBytes, PairsInOrder;
    ItemsSplit(Numbers(e), Deletions(e.deletedFiles), Additions(e.newFiles, pads));
    NumbersBytes(e);
  }

  lemma NumberItemBytes(xs: seq<Item>, n: Option<nat>, tag: nat)
    requires forall x :: x in xs ==> ItemFits(x)
    requires match n
             case None => xs == []
             case Some(v) => || (tag == PREV_LOG_NUMBER && xs == [PrevLogNumber(v)])
                             || (tag == NEXT_FILE_NUMBER && xs == [NextFileNumber(v)])
                             || (tag == LAST_SEQUENCE && xs == [LastSequence(v)])
    ensures ItemsBytes(xs) == NumberBytes(n, tag)
    ensures n.Some? ==> n.value < UINT64_LIMIT
  {
    hide Varint;
    if n.Some? {
      assert xs[0] in xs && xs[..0] == [];
    }
  }

  method PutNumber(dst: bytes, has: bool, tag: nat, n: nat) returns (r: bytes)
    requires tag < UINT32_LIMIT && (has ==> n < UINT64_LIMIT)
    ensures r == dst + NumberBytes(if has then Some(n) else None, tag)
  {
    hide Varint;
    r := dst;
    if has {
      r := PutVarint32(r, tag);
      r := PutVarint64(r, n);
    }
  }

  method PutDeletedFiles(dst: bytes, ps: seq<Pair>) returns (r: bytes)
    requires forall x :: x in Deletions(ps) ==> ItemFits(x)
    ensures r == dst + ItemsBytes(Deletions(ps))
  {
    hide ItemFits, ItemBytes;
    r := dst;
    ghost var xs := Deletions(ps);
    for i := 0 to |ps|
      invariant r == dst + ItemsBytes(xs[..i])
    {
      assert xs[i] == DeletedFile(ps[i].0, ps[i].1) && xs[i] in xs;
      r := PutDeletedFile(r, ps[i].0, ps[i].1);
      ItemsBytesPush(xs, i);
    }
    assert xs[..|ps|] == xs;
  }

  method PutNewFiles(dst: bytes, fs: seq<(nat, FileRecord)>, pads: seq<Pads>) returns (r: bytes)
    requires |pads| == |fs| == |Metas(fs)|
    requires forall x :: x in Additions(Metas(fs), pads) ==> ItemFits(x)
    ensures r == dst + ItemsBytes(Additions(old(Metas(fs)), pads))
  {
    hide ItemFits, ItemBytes, Metas;
    r := dst;
    ghost var xs := Additions(Metas(fs), pads);
    for i := 0 to |fs|
      invariant r == dst + ItemsBytes(xs[..i])
    {
      MetasUnchanged(fs);
      MetasAt(fs, i);
      assert xs[i] == NewFile(fs[i].0, fs[i].1.Meta(), pads[i]) && xs[i] in xs;
      r := PutNewFile(r, fs[i].0, fs[i].1, pads[i]);
      ItemsBytesPush(xs, i);
    }
    assert xs[..|fs|] == xs;
  }

  method PutDeletedFile(dst: bytes, level: nat, number: nat) returns (r: bytes)
    requires ItemFits(DeletedFile(level, number))
    ensures r == dst + ItemBytes(DeletedFile(level, number))
  {
    hide Varint;
    r := PutVarint32(dst, DELETED_FILE);
    r := PutVarint32(r, level);
    r := PutVarint64(r, number);
  }

  method PutNewFile(dst: bytes, level: nat, f: FileRecord, pads: Pads) returns (r: bytes)
    requires ItemFits(NewFile(level, f.Meta(), pads))
    ensures r == dst + ItemBytes(NewFile(level, f.Meta(), pads))
  {
    hide Varint, PrefixedEntry;
    ghost var r0 := Varint(NEW_FILE) + Varint(level) + Varint(f.number) + Varint(f.fileSize);
    r := PutVarint32(dst, NEW_FILE);
    r := PutVarint32(r, level);
    r := PutVarint64(r, f.number);
    r := PutVarint64(r, f.fileSize);
    assert r == dst + r0;
    r := PutEntry(r, f.smallest, pads.smallestKey, pads.smallestValue);
    r := PutEntry(r, f.largest, pads.largestKey, pads.largestValue);
  }

  method PutEntry(dst: bytes, e: MemEntry, keyPad: byte, valuePad: byte) returns (r: bytes)
    requires EntryFits(e)
    ensures r == dst + PrefixedEntry(e, keyPad, valuePad)
  {
    hide Varint, InRange, MemEntryBytes;
    var slice := EncodeMemEntry(e, keyPad, valuePad);
    MemEntryBytesSize(e, keyPad, valuePad);
    r := PutVarint32(dst, slice.Length);
    r := r + slice[..];
  }
}
