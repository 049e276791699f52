/** The filter block: one filter for every 2 KB of file offsets, found again through an array of
    offsets at the end of the block. */
module FilterBlocks {
  import opened Bytes
  import opened Coding
  import opened Sequences
  import opened BlockFormat

  const FILTER_BASE_LG: byte := 11
  const FILTER_BASE: nat := 2048

  /** `FilterPolicy`: the bytes `CreateFilter` appends for some keys, and the membership test. */
  datatype Policy = Policy(create: seq<bytes> -> bytes, mayMatch: (bytes, bytes) -> bool) {
    /** What the interface demands of every policy. */
    ghost predicate NoFalseNegatives() {
      forall keys: seq<bytes>, key :: key in keys ==> mayMatch(key, create(keys))
    }
  }

  /** The part between two neighbouring offsets. */
  lemma FlatAt(parts: seq<bytes>, i: nat)
    requires i < |parts|
    ensures |Flatten(parts[..i])| <= |Flatten(parts[..i + 1])| <= |Flatten(parts)|
    ensures Flatten(parts)[|Flatten(parts[..i])|..|Flatten(parts[..i + 1])|] == parts[i]
  {
    FlattenPrefix(parts, i + 1);
    assert parts[..i + 1][..i] == parts[..i];
  }

  // ---------- what a builder stands for ----------

  /** The keys of each finished filter, and those collected for the next. */
  datatype Collected = Collected(groups: seq<seq<bytes>>, pending: seq<bytes>)

  /** An empty run of keys has an empty filter. */
  function FilterOf(policy: Policy, keys: seq<bytes>): bytes {
    if keys == [] then [] else policy.create(keys)
  }

  function Filters(policy: Policy, groups: seq<seq<bytes>>): seq<bytes> {
    seq(|groups|, i requires 0 <= i < |groups| => FilterOf(policy, groups[i]))
  }

  function FilterData(policy: Policy, groups: seq<seq<bytes>>): bytes {
    Flatten(Filters(policy, groups))
  }

  lemma FilterDataPush(policy: Policy, groups: seq<seq<bytes>>, keys: seq<bytes>)
    ensures FilterData(policy, groups + [keys]) == FilterData(policy, groups) + FilterOf(policy, keys)
  {
    assert Filters(policy, groups + [keys]) == Filters(policy, groups) + [FilterOf(policy, keys)];
  }

  function Generate(p: Collected): Collected {
    Collected(p.groups + [p.pending], [])
  }

  /** Filters for the offsets before the block: the first takes the pending keys, the rest are empty. */
  function Skip(p: Collected, index: nat): Collected
    decreases index - |p.groups|
  {
    if index > |p.groups| then Skip(Generate(p), index) else p
  }

  function Close(p: Collected): Collected {
    if p.pending != [] then Generate(p) else p
  }

  // ---------- the finished block ----------

  /** Where filter i begins; for i the number of filters, where the array of offsets does. */
  function OffsetOf(policy: Policy, groups: seq<seq<bytes>>, i: nat): (offset: uint32)
    requires |FilterData(policy, groups)| < UINT32_LIMIT && i <= |groups|
    ensures offset == |FilterData(policy, groups[..i])| <= |FilterData(policy, groups)|
  {
    FlattenPrefix(Filters(policy, groups), i);
    assert Filters(policy, groups)[..i] == Filters(policy, groups[..i]);
    |FilterData(policy, groups[..i])|
  }

  function Offsets(policy: Policy, groups: seq<seq<bytes>>): seq<uint32>
    requires |FilterData(policy, groups)| < UINT32_LIMIT
  {
    seq(|groups|, i requires 0 <= i < |groups| => OffsetOf(policy, groups, i))
  }

  function FinishedFilters(policy: Policy, groups: seq<seq<bytes>>): bytes
    requires |FilterData(policy, groups)| < UINT32_LIMIT
  {
    FilterData(policy, groups) + FixedArray(Offsets(policy, groups))
    + Fixed32(|FilterData(policy, groups)|) + [FILTER_BASE_LG]
  }

  // ---------- the reader ----------

  /** The reader's fields; `num` 0 when the contents are too short or the array lies outside. */
  datatype Reader = Reader(data: bytes, arrayOffset: nat, num: nat, baseLg: nat) {
    ghost predicate Valid() {
      num > 0 ==> arrayOffset + 4 * num + 5 <= |data|
    }

    function Word(i: nat): (w: nat)
      requires num > 0 && i <= num && arrayOffset + 4 * num + 5 <= |data|
    {
      DecodeFixed32(data[arrayOffset + 4 * i..])
    }
  }

  function OpenFilters(contents: bytes): (r: Reader)
    ensures r.Valid()
  {
    var n := |contents|;
    if n < 5 then Reader([], 0, 0, 0) else
    var baseLg: nat := contents[n - 1];
    var lastWord := DecodeFixed32(contents[n - 5..]);
    if lastWord > n - 5 then Reader([], 0, 0, baseLg)
    else Reader(contents, lastWord, (n - 5 - lastWord) / 4, baseLg)
  }

  /** `block_offset >> base_lg_`. */
  function FilterIndex(blockOffset: nat, baseLg: nat): nat {
    if baseLg == 0 then blockOffset else FilterIndex(blockOffset / 2, baseLg - 1)
  }

  /** `KeyMayMatch`; a shift count of 64 or more has no meaning in the original. */
  function KeyMayMatch(policy: Policy, r: Reader, blockOffset: nat, key: bytes): bool
    requires r.Valid() && r.baseLg < 64
  {
    var index := FilterIndex(blockOffset, r.baseLg);
    if index < r.num then
      var (start, limit) := (r.Word(index), r.Word(index + 1));
      if start <= limit && limit <= r.arrayOffset then policy.mayMatch(key, r.data[start..limit])
      else if start == limit then false
      else true
    else true
  }

  /** Damage never rules a key out: contents too short for the array, an array said to begin past the end,
      or offsets that run backwards or past the filters. Only an empty filter beyond the filters does. */
  lemma DamageMayMatch(policy: Policy, contents: bytes, blockOffset: nat, key: bytes)
    requires OpenFilters(contents).baseLg < 64
    ensures |contents| < 5 || DecodeFixed32(contents[|contents| - 5..]) > |contents| - 5 ==>
              KeyMayMatch(policy, OpenFilters(contents), blockOffset, key)
    ensures var r := OpenFilters(contents);
            var index := FilterIndex(blockOffset, r.baseLg);
            index < r.num && r.Word(index) != r.Word(index + 1)
            && (r.Word(index) > r.Word(index + 1) || r.Word(index + 1) > r.arrayOffset) ==>
              KeyMayMatch(policy, r, blockOffset, key)
  {
  }

  lemma ShiftFour(blockOffset: nat, lg: nat)
    requires lg >= 4
    ensures FilterIndex(blockOffset, lg) == FilterIndex(blockOffset / 16, lg - 4)
  {
    assert FilterIndex(blockOffset, lg) == FilterIndex(blockOffset / 2, lg - 1);
    assert FilterIndex(blockOffset / 2, lg - 1) == FilterIndex(blockOffset / 4, lg - 2);
    assert FilterIndex(blockOffset / 4, lg - 2) == FilterIndex(blockOffset / 8, lg - 3);
  }

  lemma BaseIndex(blockOffset: nat)
    ensures FilterIndex(blockOffset, 11) == blockOffset / FILTER_BASE
  {
    ShiftFour(blockOffset, 11);
    ShiftFour(blockOffset / 16, 7);
    assert FilterIndex(blockOffset / 256, 3) == FilterIndex(blockOffset / 512, 2);
    assert FilterIndex(blockOffset / 512, 2) == FilterIndex(blockOffset / 1024, 1);
    assert FilterIndex(blockOffset / 1024, 1) == FilterIndex(blockOffset / 2048, 0);
  }

  /** Opening a finished block finds the array again. */
  lemma OpenFinished(policy: Policy, groups: seq<seq<bytes>>)
    requires |FilterData(policy, groups)| < UINT32_LIMIT
    ensures OpenFilters(FinishedFilters(policy, groups)) ==
            Reader(FinishedFilters(policy, groups), |FilterData(policy, groups)|, |groups|, 11)
  {
    hide FilterData, FixedArray, Fixed32, DecodeFixed32;
    var contents, size := FinishedFilters(policy, groups), |FilterData(policy, groups)|;
    assert contents[|contents| - 5..] == Fixed32(size) + [FILTER_BASE_LG];
    Fixed32RoundTrip(size, [FILTER_BASE_LG]);
  }

  /** The word after entry i of the array is where part i ends, also for the last part. */
  lemma ArrayWord(policy: Policy, groups: seq<seq<bytes>>, i: nat)
    requires |FilterData(policy, groups)| < UINT32_LIMIT && i <= |groups|
    ensures var size := |FilterData(policy, groups)|;
            DecodeFixed32(FinishedFilters(policy, groups)[size + 4 * i..]) == OffsetOf(policy, groups, i)
  {
    hide FilterData, FixedArray, Fixed32, DecodeFixed32, OffsetOf;
    var data, offsets := FilterData(policy, groups), Offsets(policy, groups);
    var contents := FinishedFilters(policy, groups);
    var tail := Fixed32(|data|) + [FILTER_BASE_LG];
    assert contents == data + (FixedArray(offsets) + tail);
    assert contents[|data| + 4 * i..] == (FixedArray(offsets) + tail)[4 * i..];
    if i < |groups| {
      FixedArrayAt(offsets, tail, i);
    } else {
      assert (FixedArray(offsets) + tail)[4 * i..] == tail;
      Fixed32RoundTrip(|data|, [FILTER_BASE_LG]);
      assert groups[..i] == groups;
    }
  }

  /** On a finished block the test is exactly the policy's, on the filter of that offset's group. */
  lemma KeyMayMatchExactly(policy: Policy, groups: seq<seq<bytes>>, blockOffset: nat, key: bytes)
    requires |FilterData(policy, groups)| < UINT32_LIMIT
    ensures var index := blockOffset / FILTER_BASE;
            KeyMayMatch(policy, OpenFilters(FinishedFilters(policy, groups)), blockOffset, key) ==
            if index < |groups| then policy.mayMatch(key, FilterOf(policy, groups[index])) else true
  {
    hide FilterData, FixedArray, Fixed32, DecodeFixed32, OpenFilters, FinishedFilters, FilterIndex;
    BaseIndex(blockOffset);
    OpenFinished(policy, groups);
    var index := blockOffset / FILTER_BASE;
    if index < |groups| {
      ArrayWord(policy, groups, index);
      ArrayWord(policy, groups, index + 1);
      FilterAt(policy, groups, index);
    }
  }

  lemma FilterAt(policy: Policy, groups: seq<seq<bytes>>, i: nat)
    requires |FilterData(policy, groups)| < UINT32_LIMIT && i < |groups|
    ensures OffsetOf(policy, groups, i) <= OffsetOf(policy, groups, i + 1) <= |FilterData(policy, groups)|
    ensures |FinishedFilters(policy, groups)| >= |FilterData(policy, groups)|
    ensures FinishedFilters(policy, groups)[OffsetOf(policy, groups, i)..OffsetOf(policy, groups, i + 1)] ==
            FilterOf(policy, groups[i])
  {
    hide FixedArray, Fixed32, FilterOf, Flatten;
    var filters := Filters(policy, groups);
    FlatAt(filters, i);
    assert filters[..i] == Filters(policy, groups[..i]) && filters[..i + 1] == Filters(policy, groups[..i + 1]);
  }

  // ---------- whole runs ----------

  /** One data block: its offset in the file and its keys. */
  datatype DataBlock = DataBlock(offset: nat, keys: seq<bytes>)

  /** `StartBlock`, then `AddKey` for every key, for each block in turn. */
  function AfterBlocks(blocks: seq<DataBlock>): Collected {
    if blocks == [] then Collected([], [])
    else
      var b := blocks[|blocks| - 1];
      var p := Skip(AfterBlocks(blocks[..|blocks| - 1]), b.offset / FILTER_BASE);
      p.(pending := p.pending + b.keys)
  }

  ghost predicate OffsetsRise(blocks: seq<DataBlock>) {
    forall i, j :: 0 <= i < j < |blocks| ==> blocks[i].offset <= blocks[j].offset
  }

  /** Where a group's keys are: filed under the group's index, or pending for the next one. */
  function KeysAt(p: Collected, index: nat): seq<bytes> {
    if index < |p.groups| then p.groups[index] else if index == |p.groups| then p.pending else []
  }

  lemma {:induction false} SkipKeeps(p: Collected, index: nat)
    requires |p.groups| <= index
    ensures |Skip(p, index).groups| == index
    ensures forall k :: KeysAt(Skip(p, index), k) == KeysAt(p, k)
    decreases index - |p.groups|
  {
    if |p.groups| == index {
    } else {
      SkipKeeps(Generate(p), index);
      forall k
        ensures KeysAt(Generate(p), k) == KeysAt(p, k)
      {
      }
    }
  }

  /** Offsets that never fall keep the assertion in `StartBlock`, and every group holds exactly the
      keys of the blocks that begin in its 2 KB, in order. */
  lemma {:induction false} GroupsHoldTheirBlocks(blocks: seq<DataBlock>)
    requires OffsetsRise(blocks)
    ensures var p := AfterBlocks(blocks);
            && |p.groups| == (if blocks == [] then 0 else blocks[|blocks| - 1].offset / FILTER_BASE)
            && forall index :: KeysAt(p, index) == KeysIn(blocks, index)
  {
    if blocks != [] {
      var last := |blocks| - 1;
      var before := blocks[..last];
      GroupsHoldTheirBlocks(before);
      var index := blocks[last].offset / FILTER_BASE;
      if last > 0 {
        assert before[last - 1].offset <= blocks[last].offset;
        DivideMonotone(before[last - 1].offset, blocks[last].offset);
      }
      SkipKeeps(AfterBlocks(before), index);
      var p := Skip(AfterBlocks(before), index);
      forall k
        ensures KeysAt(AfterBlocks(blocks), k) == KeysIn(blocks, k)
      {
        assert KeysAt(p, k) == KeysIn(before, k);
      }
    } else {
      assert forall index :: KeysAt(Collected([], []), index) == [] == KeysIn([], index);
    }
  }

  lemma DivideMonotone(a: nat, b: nat)
    requires a <= b
    ensures a / FILTER_BASE <= b / FILTER_BASE
  {
  }

  /** The keys of all blocks that begin in one 2 KB stretch. */
  function KeysIn(blocks: seq<DataBlock>, index: nat): seq<bytes> {
    if blocks == [] then []
    else
      var b := blocks[|blocks| - 1];
      var rest := KeysIn(blocks[..|blocks| - 1], index);
      if b.offset / FILTER_BASE == index then rest + b.keys else rest
  }

  lemma {:induction false} KeysInMember(blocks: seq<DataBlock>, i: nat, key: bytes)
    requires i < |blocks| && key in blocks[i].keys
    ensures key in KeysIn(blocks, blocks[i].offset / FILTER_BASE)
  {
    if i == |blocks| - 1 {
    } else {
      KeysInMember(blocks[..|blocks| - 1], i, key);
    }
  }

  /** The block's answer for any offset and key: the policy's, on exactly the keys of the blocks
      that begin in the same 2 KB; offsets past the last filter may always match. */
  lemma FilterBlockAnswers(policy: Policy, blocks: seq<DataBlock>, blockOffset: nat, key: bytes)
    requires OffsetsRise(blocks)
    requires |FilterData(policy, Close(AfterBlocks(blocks)).groups)| < UINT32_LIMIT
    ensures var groups := Close(AfterBlocks(blocks)).groups;
            var index := blockOffset / FILTER_BASE;
            KeyMayMatch(policy, OpenFilters(FinishedFilters(policy, groups)), blockOffset, key) ==
            if index < |groups| then policy.mayMatch(key, FilterOf(policy, KeysIn(blocks, index))) else true
  {
    hide FilterData, FinishedFilters, OpenFilters, KeyMayMatch, AfterBlocks, KeysIn, OffsetsRise;
    var p := AfterBlocks(blocks);
    var index := blockOffset / FILTER_BASE;
    KeyMayMatchExactly(policy, Close(p).groups, blockOffset, key);
    GroupsHoldTheirBlocks(blocks);
    if index < |Close(p).groups| {
      assert Close(p).groups[index] == KeysAt(p, index);
    }
  }

  /** No false negatives: every key added after `StartBlock(offset)` may match at that offset, also
      when blocks share a filter and when filters between them are empty. */
  lemma NoFalseNegatives(policy: Policy, blocks: seq<DataBlock>, i: nat, key: bytes)
    requires policy.NoFalseNegatives() && OffsetsRise(blocks)
    requires i < |blocks| && key in blocks[i].keys
    requires |FilterData(policy, Close(AfterBlocks(blocks)).groups)| < UINT32_LIMIT
    ensures KeyMayMatch(policy, OpenFilters(FinishedFilters(policy, Close(AfterBlocks(blocks)).groups)),
                        blocks[i].offset, key)
  {
    hide FilterData, FinishedFilters, OpenFilters, KeyMayMatch, AfterBlocks, KeysIn;
    FilterBlockAnswers(policy, blocks, blocks[i].offset, key);
    KeysInMember(blocks, i, key);
  }

  // ---------- the builder ----------

  class FilterBlockBuilder {
    const policy: Policy
    var keys: bytes                  // flattened keys
    var start: seq<nat>              // where each begins
    var result: bytes
    var filterOffsets: seq<nat>
    ghost var view: Collected

    ghost predicate Valid()
      reads this
    {
      && keys == Flatten(view.pending)
      && |start| == |view.pending|
      && (forall i :: 0 <= i < |start| ==> start[i] == |Flatten(view.pending[..i])|)
      && result == FilterData(policy, view.groups)
      && |filterOffsets| == |view.groups|
      && (forall i :: 0 <= i < |filterOffsets| ==> filterOffsets[i] == |FilterData(policy, view.groups[..i])|)
    }

    constructor (policy: Policy)
      ensures Valid() && this.policy == policy && view == Collected([], [])
    {
      this.policy := policy;
      keys, start, result, filterOffsets := [], [], [], [];
      view := Collected([], []);
    }

    lemma SizeIsGroups()
      requires Valid()
      ensures |filterOffsets| == |view.groups|
    {
    }

    method StartBlock(blockOffset: nat)
      requires Valid()
      requires blockOffset / FILTER_BASE >= |filterOffsets|      // asserted by the original
      modifies this
      ensures Valid() && view == Skip(old(view), blockOffset / FILTER_BASE)
    {
      var filterIndex := blockOffset / FILTER_BASE;
      while filterIndex > |filterOffsets|
        invariant Valid() && Skip(view, filterIndex) == Skip(old(view), filterIndex)
        decreases filterIndex - |filterOffsets|
      {
        GenerateFilter();
      }
    }

    method AddKey(key: bytes)
      requires Valid()
      modifies this
      ensures Valid() && view == old(view).(pending := old(view).pending + [key])
    {
      ghost var pending := view.pending;
      assert (pending + [key])[..|pending|] == pending;
      assert forall i :: 0 <= i < |pending| ==> (pending + [key])[..i] == pending[..i];
      start := start + [|keys|];
      keys := keys + key;
      view := view.(pending := pending + [key]);
    }

    /** Cuts the flattened keys apart again. */
    method ListKeys() returns (tmpKeys: seq<bytes>)
      requires Valid()
      ensures tmpKeys == view.pending
    {
      var ends := start + [|keys|];
      tmpKeys := [];
      assert view.pending[..|start|] == view.pending;
      for i := 0 to |start|
        invariant tmpKeys == view.pending[..i]
      {
        FlatAt(view.pending, i);
        tmpKeys := tmpKeys + [keys[ends[i]..ends[i + 1]]];
      }
    }

    method GenerateFilter()
      requires Valid()
      modifies this
      ensures Valid() && view == Generate(old(view))
    {
      ghost var groups := view.groups;
      FilterDataPush(policy, groups, view.pending);
      assert (groups + [view.pending])[..|groups|] == groups;
      assert forall i :: 0 <= i < |groups| ==> (groups + [view.pending])[..i] == groups[..i];
      if |start| == 0 {
        filterOffsets := filterOffsets + [|result|];
      } else {
        var tmpKeys := ListKeys();
        filterOffsets := filterOffsets + [|result|];
        result := result + policy.create(tmpKeys);
        keys, start := [], [];
      }
      view := Generate(view);
    }

    /** All offsets fit their 32-bit fields. */
    method Finish() returns (contents: bytes)
      requires Valid() && |FilterData(policy, Close(view).groups)| < UINT32_LIMIT
      modifies this
      ensures contents == FinishedFilters(policy, Close(old(view)).groups)
    {
      hide FilterData, FixedArray, Fixed32;
      if |start| != 0 {
        GenerateFilter();
      }
      var arrayOffset := |result|;
      ghost var offsets := Offsets(policy, view.groups);
      ghost var data := result;
      contents := result;
      var words := filterOffsets;
      assert FixedArray(offsets[..0]) == [];
      assert forall i :: 0 <= i < |words| ==> words[i] == offsets[i];
      for i := 0 to |words|
        invariant contents == data + FixedArray(offsets[..i])
      {
        FixedArrayPush(offsets, i);
        contents := contents + Fixed32(words[i]);
      }
      assert offsets[..|words|] == offsets;
      contents := contents + Fixed32(arrayOffset);
      contents := contents + [FILTER_BASE_LG];
      result := contents;
    }
  }

  lemma FixedArrayPush(rs: seq<uint32>, i: nat)
    requires i < |rs|
    ensures FixedArray(rs[..i + 1]) == FixedArray(rs[..i]) + Fixed32(rs[i])
  {
    assert rs[..i + 1][..i] == rs[..i];
  }

  /** The calling sequence the class documents: the assertion in `StartBlock` never fails, and the
      block read back has no false negatives. */
  method BuildFilterBlock(policy: Policy, blocks: seq<DataBlock>) returns (contents: bytes)
    requires policy.NoFalseNegatives() && OffsetsRise(blocks)
    requires |FilterData(policy, Close(AfterBlocks(blocks)).groups)| < UINT32_LIMIT
    ensures OpenFilters(contents).baseLg < 64
    ensures forall i, key :: 0 <= i < |blocks| && key in blocks[i].keys ==>
                             KeyMayMatch(policy, OpenFilters(contents), blocks[i].offset, key)
  {
    hide FilterData, FinishedFilters, OpenFilters, KeyMayMatch, Close, Skip, Policy.NoFalseNegatives,
         FilterBlockBuilder.Valid;
    var builder := new FilterBlockBuilder(policy);
    for i := 0 to |blocks|
      invariant builder.Valid() && builder.view == AfterBlocks(blocks[..i]) && builder.policy == policy
    {
      assert blocks[..i + 1][..i] == blocks[..i];
      RisePrefix(blocks, i);
      builder.SizeIsGroups();
      builder.StartBlock(blocks[i].offset);
      ghost var p := builder.view;
      for k := 0 to |blocks[i].keys|
        invariant builder.Valid() && builder.policy == policy
        invariant builder.view == p.(pending := p.pending + blocks[i].keys[..k])
      {
        builder.AddKey(blocks[i].keys[k]);
        assert blocks[i].keys[..k + 1] == blocks[i].keys[..k] + [blocks[i].keys[k]];
      }
      assert blocks[i].keys[..|blocks[i].keys|] == blocks[i].keys;
    }
    assert blocks[..|blocks|] == blocks;
    contents := builder.Finish();
    OpenFinished(policy, Close(AfterBlocks(blocks)).groups);
    forall i, key | 0 <= i < |blocks| && key in blocks[i].keys
      ensures KeyMayMatch(policy, OpenFilters(contents), blocks[i].offset, key)
    {
      NoFalseNegatives(policy, blocks, i, key);
    }
  }

  lemma RisePrefix(blocks: seq<DataBlock>, i: nat)
    requires OffsetsRise(blocks) && i < |blocks|
    ensures OffsetsRise(blocks[..i])
    ensures |AfterBlocks(blocks[..i]).groups| <= blocks[i].offset / FILTER_BASE
  {
    GroupsHoldTheirBlocks(blocks[..i]);
    if i > 0 {
      DivideMonotone(blocks[i - 1].offset, blocks[i].offset);
    }
  }
}
