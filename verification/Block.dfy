/** The block format: prefix-compressed entries, a restart array, and its length. */
module BlockFormat {
  import opened Bytes
  import opened Coding

  datatype Entry = Entry(key: bytes, value: bytes)

  function LastKey(es: seq<Entry>): bytes {
    if es == [] then [] else es[|es| - 1].key
  }

  /** Keys strictly increase. */
  ghost predicate Sorted(es: seq<Entry>) {
    forall i, j :: 0 <= i < j < |es| ==> Less(es[i].key, es[j].key)
  }

  lemma SortedAppend(es: seq<Entry>, e: Entry)
    requires Sorted(es) && (es == [] || Less(LastKey(es), e.key))
    ensures Sorted(es + [e])
  {
    forall i, j | 0 <= i < j < |es| + 1
      ensures Less((es + [e])[i].key, (es + [e])[j].key)
    {
      if j == |es| && i < |es| - 1 {
        LessTransitive(es[i].key, LastKey(es), e.key);
      }
    }
  }

  // ---------- entries ----------

  /** "<shared><non_shared><value_size><key delta><value>" */
  function EntryBytes(shared: nat, e: Entry): bytes
    requires shared <= |e.key|
  {
    Varint(shared) + Varint(|e.key| - shared) + Varint(|e.value|) + e.key[shared..] + e.value
  }

  /** Reads one entry whose predecessor has key `prev`. */
  function DecodeEntry(prev: bytes, s: bytes): (r: Parse<Entry>)
    ensures r.Good? ==> |r.rest| < |s|
  {
    match GetVarint32(s)
    case Bad => Bad
    case Good(shared, r1) =>
      match GetVarint32(r1)
      case Bad => Bad
      case Good(nonShared, r2) =>
        match GetVarint32(r2)
        case Bad => Bad
        case Good(valueSize, r3) =>
          if shared > |prev| || nonShared + valueSize > |r3| then Bad else
          Good(Entry(prev[..shared] + r3[..nonShared], r3[nonShared..nonShared + valueSize]),
               r3[nonShared + valueSize..])
  }

  /** Reads entries to the end of `s`. */
  function DecodeEntries(prev: bytes, s: bytes): Option<seq<Entry>>
    decreases |s|
  {
    if s == [] then Some([]) else
    match DecodeEntry(prev, s)
    case Bad => None
    case Good(e, rest) =>
      match DecodeEntries(e.key, rest)
      case None => None
      case Some(es) => Some([e] + es)
  }

  lemma EntryRoundTrip(prev: bytes, shared: nat, e: Entry, t: bytes)
    requires shared <= |prev| && shared <= |e.key| && prev[..shared] == e.key[..shared]
    requires |e.key| < UINT32_LIMIT && |e.value| < UINT32_LIMIT
    ensures DecodeEntry(prev, EntryBytes(shared, e) + t) == Good(e, t)
  {
    hide GetVarint32, Varint;
    var nonShared, valueSize := |e.key| - shared, |e.value|;
    var r3 := e.key[shared..] + e.value + t;
    var r2 := Varint(valueSize) + r3;
    var r1 := Varint(nonShared) + r2;
    assert EntryBytes(shared, e) + t == Varint(shared) + r1;
    Varint32RoundTrip(shared, r1);
    Varint32RoundTrip(nonShared, r2);
    Varint32RoundTrip(valueSize, r3);
    assert prev[..shared] + r3[..nonShared] == e.key;
    assert r3[nonShared..nonShared + valueSize] == e.value && r3[nonShared + valueSize..] == t;
  }

  lemma EntryBytesSize(shared: nat, e: Entry)
    requires shared <= |e.key| < UINT32_LIMIT && |e.value| < UINT32_LIMIT
    ensures 3 <= |EntryBytes(shared, e)| <= 15 + |e.key| + |e.value|
  {
    Varint32Size(shared);
    Varint32Size(|e.key| - shared);
    Varint32Size(|e.value|);
  }

  lemma DecodeEntryExtends(prev: bytes, s: bytes, t: bytes)
    requires DecodeEntry(prev, s).Good?
    ensures DecodeEntry(prev, s + t) == Good(DecodeEntry(prev, s).value, DecodeEntry(prev, s).rest + t)
  {
    hide GetVarint32;
    var r1 := GetVarint32(s).rest;
    var r2 := GetVarint32(r1).rest;
    var r3 := GetVarint32(r2).rest;
    GetVarint32Extends(s, t);
    GetVarint32Extends(r1, t);
    GetVarint32Extends(r2, t);
    var nonShared, valueSize := GetVarint32(r1).value, GetVarint32(r2).value;
    var u := r3 + t;
    assert u[..nonShared] == r3[..nonShared];
    assert u[nonShared..nonShared + valueSize] == r3[nonShared..nonShared + valueSize];
    assert u[nonShared + valueSize..] == r3[nonShared + valueSize..] + t;
  }

  /** Decoding runs through a decodable prefix and carries its last key into what follows. */
  lemma {:induction false} DecodeEntriesAppend(prev: bytes, s: bytes, t: bytes)
    requires DecodeEntries(prev, s).Some?
    ensures var es := DecodeEntries(prev, s).value;
            DecodeEntries(prev, s + t) ==
            match DecodeEntries(if es == [] then prev else LastKey(es), t)
            case None => None
            case Some(fs) => Some(es + fs)
    decreases |s|
  {
    hide DecodeEntry;
    if s == [] {
      assert s + t == t;
      match DecodeEntries(prev, t)
      case None =>
      case Some(fs) => assert [] + fs == fs;
    } else {
      var e, rest := DecodeEntry(prev, s).value, DecodeEntry(prev, s).rest;
      DecodeEntryExtends(prev, s, t);
      DecodeEntriesAppend(e.key, rest, t);
      var es := DecodeEntries(e.key, rest).value;
      match DecodeEntries(if es == [] then e.key else LastKey(es), t)
      case None =>
      case Some(fs) => assert [e] + (es + fs) == [e] + es + fs;
    }
  }

  // ---------- the restart array ----------

  function FixedArray(rs: seq<uint32>): (r: bytes)
    ensures |r| == 4 * |rs|
  {
    if rs == [] then [] else FixedArray(rs[..|rs| - 1]) + Fixed32(rs[|rs| - 1])
  }

  lemma {:induction false} FixedArrayAt(rs: seq<uint32>, t: bytes, j: nat)
    requires j < |rs|
    ensures DecodeFixed32((FixedArray(rs) + t)[4 * j..]) == rs[j]
    decreases |rs|
  {
    var last := |rs| - 1;
    var front := FixedArray(rs[..last]);
    if j == last {
      assert (FixedArray(rs) + t)[4 * j..] == Fixed32(rs[j]) + t;
      Fixed32RoundTrip(rs[j], t);
    } else {
      FixedArrayAt(rs[..last], Fixed32(rs[last]) + t, j);
      assert FixedArray(rs) + t == front + (Fixed32(rs[last]) + t);
    }
  }

  function BlockBytes(data: bytes, restarts: seq<uint32>): bytes
    requires |restarts| < UINT32_LIMIT
  {
    data + FixedArray(restarts) + Fixed32(|restarts|)
  }

  /** What the `Block` constructor learns about its contents. */
  datatype Block = Block(contents: bytes, numRestarts: nat, restartOffset: nat) {
    ghost predicate Valid() {
      restartOffset + 4 * numRestarts + 4 == |contents|
    }

    function Restart(j: nat): (offset: nat)
      requires j < numRestarts && restartOffset + 4 * numRestarts + 4 == |contents|
    {
      DecodeFixed32(contents[restartOffset + 4 * j..])
    }
  }

  /** The `Block` constructor; None is its error marker (size 0). */
  function OpenBlock(contents: bytes): (r: Option<Block>)
    ensures r.Some? ==> r.value.Valid() && r.value.contents == contents
  {
    var size := |contents|;
    if size < 4 then None else
    var numRestarts := DecodeFixed32(contents[size - 4..]);
    var maxRestartsAllowed := (size - 4) / 4;
    if numRestarts > maxRestartsAllowed then None else
    Some(Block(contents, numRestarts, size - (1 + numRestarts) * 4))
  }

  /** The constructor accepts exactly the contents that hold the array their last word promises. */
  lemma OpenBlockExactly(contents: bytes)
    ensures OpenBlock(contents).Some? <==>
            exists data, words :: contents == data + words && |words| >= 4 &&
                                  |words| == 4 * DecodeFixed32(words[|words| - 4..]) + 4
  {
    var size := |contents|;
    if OpenBlock(contents).Some? {
      var k := OpenBlock(contents).value.restartOffset;
      var data, words := contents[..k], contents[k..];
      assert contents == data + words;
      assert words[|words| - 4..] == contents[size - 4..];
    }
    if data, words :| contents == data + words && |words| >= 4 &&
                      |words| == 4 * DecodeFixed32(words[|words| - 4..]) + 4 {
      assert contents[size - 4..] == words[|words| - 4..];
    }
  }

  /** All entries of a block. */
  function DecodeBlock(contents: bytes): Option<seq<Entry>> {
    match OpenBlock(contents)
    case None => None
    case Some(b) => DecodeEntries([], contents[..b.restartOffset])
  }

  /** The entries from the j-th restart point on. */
  function DecodeFromRestart(contents: bytes, j: nat): Option<seq<Entry>> {
    match OpenBlock(contents)
    case None => None
    case Some(b) =>
      if j >= b.numRestarts || b.Restart(j) > b.restartOffset then None else
      DecodeEntries([], contents[b.Restart(j)..b.restartOffset])
  }

  /** The constructor recovers the restart count, the start of the array and each offset. */
  lemma OpenBlockOfBlockBytes(data: bytes, restarts: seq<uint32>)
    requires |restarts| < UINT32_LIMIT
    ensures OpenBlock(BlockBytes(data, restarts)) ==
            Some(Block(BlockBytes(data, restarts), |restarts|, |data|))
    ensures forall j :: 0 <= j < |restarts| ==>
              Block(BlockBytes(data, restarts), |restarts|, |data|).Restart(j) == restarts[j]
  {
    var contents := BlockBytes(data, restarts);
    assert contents[|contents| - 4..] == Fixed32(|restarts|) + [];
    Fixed32RoundTrip(|restarts|, []);
    forall j | 0 <= j < |restarts|
      ensures Block(contents, |restarts|, |data|).Restart(j) == restarts[j]
    {
      FixedArrayAt(restarts, Fixed32(|restarts|), j);
      assert contents[|data| + 4 * j..] == (FixedArray(restarts) + Fixed32(|restarts|))[4 * j..];
    }
  }

  // ---------- what a builder's buffer stands for ----------

  /** Index of the first entry after the j-th restart point. */
  function GroupStart(j: nat, interval: nat): nat {
    j * interval
  }

  /** The number of runs of `interval` entries, the last one possibly short; one for no entries. */
  predicate IsGroupCount(groups: nat, interval: nat, n: nat) {
    if n == 0 then groups == 1
    else groups >= 1 && GroupStart(groups - 1, interval) < n <= GroupStart(groups, interval)
  }

  /** `tail` decodes, from nothing shared, to the entries of group j and all later ones. */
  ghost predicate SuffixDecodes(tail: bytes, j: nat, interval: nat, es: seq<Entry>) {
    GroupStart(j, interval) <= |es| && DecodeEntries([], tail) == Some(es[GroupStart(j, interval)..])
  }

  /** The buffer decodes to the entries, and restart point j decodes to the entries from
      j * interval on. */
  ghost predicate Encodes(data: bytes, restarts: seq<uint32>, interval: nat, es: seq<Entry>) {
    && DecodeEntries([], data) == Some(es)
    && forall j :: 0 <= j < |restarts| ==>
         restarts[j] <= |data| && SuffixDecodes(data[restarts[j]..], j, interval, es)
  }

  /** What a finished block promises its readers: the restart count is the number of groups, all
      entries decode in order, and restart point j starts the suffix at j * interval (with nothing
      shared, since decoding there starts from the empty key). */
  ghost predicate DecodesTo(contents: bytes, groups: nat, interval: nat, es: seq<Entry>) {
    && OpenBlock(contents).Some? && OpenBlock(contents).value.numRestarts == groups
    && DecodeBlock(contents) == Some(es)
    && forall j: nat :: j < groups ==>
         && GroupStart(j, interval) <= |es|
         && DecodeFromRestart(contents, j) == Some(es[GroupStart(j, interval)..])
  }

  /** A block of these entries with a restart for every run of `interval` of them. */
  ghost predicate WellRestarted(contents: bytes, interval: nat, es: seq<Entry>) {
    exists groups :: IsGroupCount(groups, interval, |es|) && DecodesTo(contents, groups, interval, es)
  }

  lemma FinishedBlock(data: bytes, restarts: seq<uint32>, interval: nat, es: seq<Entry>)
    requires |restarts| < UINT32_LIMIT && Encodes(data, restarts, interval, es)
    ensures DecodesTo(BlockBytes(data, restarts), |restarts|, interval, es)
  {
    hide DecodeEntries, OpenBlock, BlockBytes;
    var contents := BlockBytes(data, restarts);
    OpenBlockOfBlockBytes(data, restarts);
    DataOfBlockBytes(data, restarts);
    forall j: nat | j < |restarts|
      ensures GroupStart(j, interval) <= |es|
      ensures DecodeFromRestart(contents, j) == Some(es[GroupStart(j, interval)..])
    {
      assert SuffixDecodes(data[restarts[j]..], j, interval, es);
      assert contents[restarts[j]..|data|] == contents[..|data|][restarts[j]..];
    }
  }

  lemma DataOfBlockBytes(data: bytes, restarts: seq<uint32>)
    requires |restarts| < UINT32_LIMIT
    ensures |data| <= |BlockBytes(data, restarts)| && BlockBytes(data, restarts)[..|data|] == data
  {
  }

  /** Appending an entry that shares a prefix with its predecessor. */
  lemma AppendShared(data: bytes, restarts: seq<uint32>, interval: nat, es: seq<Entry>, shared: nat, e: Entry)
    requires Encodes(data, restarts, interval, es)
    requires |e.key| < UINT32_LIMIT && |e.value| < UINT32_LIMIT
    requires shared <= |e.key| && shared <= |LastKey(es)| && LastKey(es)[..shared] == e.key[..shared]
    requires forall j: nat :: j < |restarts| ==> GroupStart(j, interval) < |es| || shared == 0
    ensures Encodes(data + EntryBytes(shared, e), restarts, interval, es + [e])
  {
    hide DecodeEntries, EntryBytes;
    var t := EntryBytes(shared, e);
    AppendOne([], data, es, shared, e);
    forall j | 0 <= j < |restarts|
      ensures restarts[j] <= |data + t| && SuffixDecodes((data + t)[restarts[j]..], j, interval, es + [e])
    {
      assert SuffixDecodes(data[restarts[j]..], j, interval, es);
      var tail := es[GroupStart(j, interval)..];
      assert (data + t)[restarts[j]..] == data[restarts[j]..] + t;
      assert (es + [e])[GroupStart(j, interval)..] == tail + [e];
      AppendOne([], data[restarts[j]..], tail, shared, e);
    }
  }

  lemma AppendOne(prev: bytes, s: bytes, es: seq<Entry>, shared: nat, e: Entry)
    requires DecodeEntries(prev, s) == Some(es)
    requires |e.key| < UINT32_LIMIT && |e.value| < UINT32_LIMIT
    requires var k := if es == [] then prev else LastKey(es);
             shared <= |e.key| && shared <= |k| && k[..shared] == e.key[..shared]
    ensures DecodeEntries(prev, s + EntryBytes(shared, e)) == Some(es + [e])
  {
    hide DecodeEntry, EntryBytes;
    var t := EntryBytes(shared, e);
    var k := if es == [] then prev else LastKey(es);
    EntryBytesSize(shared, e);
    EntryRoundTrip(k, shared, e, []);
    assert t + [] == t;
    assert DecodeEntries(e.key, []) == Some([]);
    assert [e] + [] == [e];
    DecodeEntriesAppend(prev, s, t);
  }
}

/** `BlockBuilder`. */
module BlockBuilding {
  import opened Bytes
  import opened Coding
  import opened Comparator
  import opened BlockFormat

  type Interval = n: nat | n >= 1 witness 1

  class BlockBuilder {
    const interval: Interval        // options_->block_restart_interval
    var buffer: bytes
    var restarts: seq<uint32>
    var counter: nat
    var finished: bool
    var lastKey: bytes
    ghost var entries: seq<Entry>   // added since the last Reset

    ghost predicate Valid()
      reads this
    {
      && !finished
      && Sorted(entries)
      && lastKey == LastKey(entries)
      && (buffer == [] <==> entries == []) && 3 * |entries| <= |buffer|
      && restarts != [] && restarts[0] == 0
      && counter <= interval && (entries != [] ==> counter >= 1)
      && |entries| == GroupStart(|restarts| - 1, interval) + counter
      && Encodes(buffer, restarts, interval, entries)
      && CurrentSizeEstimate() < UINT32_LIMIT
    }

    /** The exact size of the block that Finish would return now. */
    function CurrentSizeEstimate(): nat
      reads this
    {
      |buffer| + |restarts| * 4 + 4
    }

    predicate Empty()
      reads this
    {
      buffer == []
    }

    lemma EntriesCost()
      requires Valid()
      ensures 3 * |entries| + 8 <= CurrentSizeEstimate() < UINT32_LIMIT
    {
    }

    lemma EntriesAreKept()
      requires Valid()
      ensures Empty() <==> entries == []
      ensures lastKey == LastKey(entries)
    {
    }

    constructor (interval: Interval)
      ensures Valid() && fresh(this)
      ensures this.interval == interval && entries == [] && CurrentSizeEstimate() == 8
    {
      this.interval := interval;
      buffer, restarts, counter, finished, lastKey := [], [0], 0, false, [];
      entries := [];
    }

    method Reset()
      modifies this
      ensures Valid() && entries == [] && CurrentSizeEstimate() == 8
    {
      buffer, restarts, counter, finished, lastKey := [], [0], 0, false, [];
      entries := [];
    }

    /** The key must exceed the previous one: the original asserts it. */
    method Add(key: bytes, value: bytes)
      requires Valid()
      requires Empty() || Less(lastKey, key)
      requires CurrentSizeEstimate() + |key| + |value| + 19 < UINT32_LIMIT
      modifies this
      ensures Valid() && !Empty()
      ensures entries == old(entries) + [Entry(key, value)]
      ensures old(CurrentSizeEstimate()) + 3 <= CurrentSizeEstimate()
      ensures CurrentSizeEstimate() <= old(CurrentSizeEstimate()) + |key| + |value| + 19
      ensures var restart := old(counter) == interval;
              var shared := if restart then 0 else CommonPrefix(old(lastKey), key);
              && buffer == old(buffer) + EntryBytes(shared, Entry(key, value))
              && restarts == (if restart then old(restarts) + [|old(buffer)|] else old(restarts))
              && counter == (if restart then 0 else old(counter)) + 1
    {
      hide CommonPrefix, EntryBytes, Less, GroupStart, Encodes;
      var e := Entry(key, value);
      var shared := 0;
      if counter < interval {
        shared := ScanCommonPrefix(lastKey, key);
        SharedIsSound(entries, |restarts|, interval, counter, shared);
      } else {
        RestartHere(buffer, restarts, interval, entries);
        restarts := restarts + [|buffer|];
        counter := 0;
      }
      EntryBytesSize(shared, e);
      AppendShared(buffer, restarts, interval, entries, shared, e);
      SortedAppend(entries, e);
      buffer := PutEntry(buffer, shared, key, value);
      lastKey := lastKey[..shared] + key[shared..];
      counter := counter + 1;
      entries := entries + [e];
      assert lastKey == key;
    }

    /** Appends the restart array; the builder then waits for Reset. */
    method Finish() returns (contents: bytes)
      requires Valid()
      modifies this
      ensures contents == buffer && finished && entries == old(entries)
      ensures |contents| == old(CurrentSizeEstimate())
      ensures contents == BlockBytes(old(buffer), old(restarts))
      ensures DecodesTo(contents, |old(restarts)|, interval, entries)
      ensures IsGroupCount(|old(restarts)|, interval, |entries|)
      ensures WellRestarted(contents, interval, entries)
    {
      hide Encodes, Fixed32, DecodesTo, IsGroupCount;
      CountGroups(|restarts|, interval, |entries|, counter);
      ghost var data := buffer;
      for i := 0 to |restarts|
        invariant restarts == old(restarts) && entries == old(entries)
        invariant buffer == data + FixedArray(restarts[..i])
      {
        assert restarts[..i + 1][..i] == restarts[..i];
        buffer := buffer + Fixed32(restarts[i]);
      }
      assert restarts[..|restarts|] == restarts;
      buffer := buffer + Fixed32(|restarts|);
      finished := true;
      contents := buffer;
      assert contents == BlockBytes(data, restarts);
      FinishedBlock(data, restarts, interval, entries);
    }
  }

  /** The appends to the buffer, in order. */
  method PutEntry(dst: bytes, shared: nat, key: bytes, value: bytes) returns (r: bytes)
    requires shared <= |key| < UINT32_LIMIT && |value| < UINT32_LIMIT
    ensures r == dst + EntryBytes(shared, Entry(key, value))
  {
    r := PutVarint32(dst, shared);
    r := PutVarint32(r, |key| - shared);
    r := PutVarint32(r, |value|);
    r := r + key[shared..] + value;
  }

  lemma CountGroups(restarts: nat, interval: Interval, n: nat, counter: nat)
    requires restarts >= 1 && n == GroupStart(restarts - 1, interval) + counter
    requires counter <= interval && (n > 0 ==> counter >= 1)
    ensures IsGroupCount(restarts, interval, n)
  {
    hide GroupStart;
    NextGroupStart(restarts, interval);
    GroupStartGrows(restarts - 1, interval);
  }

  lemma {:induction false} GroupStartGrows(j: nat, interval: Interval)
    ensures GroupStart(j, interval) >= j
  {
    if j == 0 {
    } else {
      hide GroupStart;
      NextGroupStart(j, interval);
      GroupStartGrows(j - 1, interval);
    }
  }

  /** While the counter is below the interval every restart point has an entry after it. */
  lemma SharedIsSound(es: seq<Entry>, restarts: nat, interval: nat, counter: nat, shared: nat)
    requires restarts >= 1 && |es| == GroupStart(restarts - 1, interval) + counter
    requires es != [] ==> counter >= 1
    requires shared <= |LastKey(es)|
    ensures forall j: nat :: j < restarts ==> GroupStart(j, interval) < |es| || shared == 0
  {
    if es != [] {
      forall j: nat | j < restarts
        ensures GroupStart(j, interval) < |es|
      {
        assert j * interval <= (restarts - 1) * interval;
      }
    }
  }

  lemma NextGroupStart(j: nat, interval: nat)
    requires j >= 1
    ensures GroupStart(j, interval) == GroupStart(j - 1, interval) + interval
  {
  }

  lemma NothingLeft(prev: bytes)
    ensures DecodeEntries(prev, []) == Some([])
  {
  }

  /** A restart point at the end of the buffer decodes to no entries yet. */
  lemma RestartHere(data: bytes, restarts: seq<uint32>, interval: nat, es: seq<Entry>)
    requires Encodes(data, restarts, interval, es)
    requires restarts != [] && |es| == GroupStart(|restarts| - 1, interval) + interval
    requires |data| < UINT32_LIMIT
    ensures Encodes(data, restarts + [|data|], interval, es)
    ensures |es| == GroupStart(|restarts|, interval)
  {
    hide GroupStart, DecodeEntries;
    NextGroupStart(|restarts|, interval);
    NothingLeft([]);
    assert data[|data|..] == [] && es[|es|..] == [];
    assert SuffixDecodes(data[|data|..], |restarts|, interval, es);
  }
}
