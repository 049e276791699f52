/** `std::map<std::string, Slice>` as a sorted association list. */
module SortedMap {
  import opened Bytes
  import opened BlockFormat

  /** `m[key] = value`. */
  function Put(m: seq<Entry>, key: bytes, value: bytes): seq<Entry> {
    if m == [] || Less(key, m[0].key) then [Entry(key, value)] + m
    else if m[0].key == key then [Entry(key, value)] + m[1..]
    else [m[0]] + Put(m[1..], key, value)
  }

  /** The bindings as a map. */
  function AsMap(m: seq<Entry>): map<bytes, bytes> {
    if m == [] then map[] else AsMap(m[..|m| - 1])[m[|m| - 1].key := m[|m| - 1].value]
  }

  lemma {:induction false} AsMapConcat(m: seq<Entry>, n: seq<Entry>)
    ensures AsMap(m + n) == AsMap(m) + AsMap(n)
    decreases |n|
  {
    if n == [] {
      assert m + n == m;
    } else {
      var last := |n| - 1;
      assert (m + n)[..|m + n| - 1] == m + n[..last];
      AsMapConcat(m, n[..last]);
    }
  }

  /** In a sorted list the map holds exactly the bindings. */
  lemma {:induction false} AsMapMember(m: seq<Entry>, key: bytes)
    requires Sorted(m)
    ensures key in AsMap(m) <==> exists i :: 0 <= i < |m| && m[i].key == key
    ensures key in AsMap(m) ==> Entry(key, AsMap(m)[key]) in m
  {
    if m == [] {
    } else {
      var last := |m| - 1;
      AsMapMember(m[..last], key);
      if i :| 0 <= i < |m| && m[i].key == key && i < last {
        assert m[..last][i].key == key;
      }
    }
  }

  lemma {:induction false} SizeIsCount(m: seq<Entry>)
    requires Sorted(m)
    ensures |AsMap(m)| == |m|
  {
    if m == [] {
    } else {
      var last := |m| - 1;
      SizeIsCount(m[..last]);
      AsMapMember(m[..last], m[last].key);
      if i :| 0 <= i < last && m[..last][i].key == m[last].key {
        LessIrreflexive(m[last].key);
      }
    }
  }

  /** `Put` keeps the list sorted and is map update. */
  lemma {:induction false} PutIsUpdate(m: seq<Entry>, key: bytes, value: bytes)
    requires Sorted(m)
    ensures Sorted(Put(m, key, value))
    ensures AsMap(Put(m, key, value)) == AsMap(m)[key := value]
    ensures forall e :: e in Put(m, key, value) ==> e == Entry(key, value) || e in m
    decreases |m|
  {
    hide AsMap, Less;
    var e := Entry(key, value);
    if m == [] || Less(key, m[0].key) {
      PutInFront(e, m);
    } else {
      var rest := m[1..];
      assert m == [m[0]] + rest && Sorted(rest);
      AsMapCons(m[0], rest);
      if m[0].key == key {
        PutInFront(e, rest);
      } else {
        LessTotal(key, m[0].key);
        PutIsUpdate(rest, key, value);
        var put := Put(rest, key, value);
        SortedCons(m[0], put);
        AsMapCons(m[0], put);
      }
    }
  }

  lemma PutInFront(e: Entry, m: seq<Entry>)
    requires Sorted(m) && (m == [] || Less(e.key, m[0].key))
    ensures Sorted([e] + m) && AsMap([e] + m) == AsMap(m)[e.key := e.value]
  {
    SortedCons(e, m);
    AsMapCons(e, m);
    if m != [] {
      KeyNotBelow(m, e.key);
    }
  }

  lemma SortedCons(e: Entry, m: seq<Entry>)
    requires Sorted(m) && (m == [] || Less(e.key, m[0].key))
    ensures Sorted([e] + m)
  {
    forall i, j | 0 <= i < j < |m| + 1
      ensures Less(([e] + m)[i].key, ([e] + m)[j].key)
    {
      if i == 0 && j > 1 {
        LessTransitive(e.key, m[0].key, m[j - 1].key);
      }
    }
  }

  /** A key below every binding is not bound. */
  lemma KeyNotBelow(m: seq<Entry>, key: bytes)
    requires Sorted(m) && m != [] && Less(key, m[0].key)
    ensures key !in AsMap(m)
  {
    AsMapMember(m, key);
    if i :| 0 <= i < |m| && m[i].key == key {
      LessIrreflexive(key);
      if i > 0 { LessTransitive(key, m[0].key, m[i].key); }
    }
  }

  lemma AsMapCons(e: Entry, m: seq<Entry>)
    ensures AsMap([e] + m) == map[e.key := e.value] + AsMap(m)
  {
    AsMapConcat([e], m);
    assert [e][..0] == [];
    assert AsMap([e]) == map[e.key := e.value];
  }

  /** `count`/`operator[]`. */
  function Lookup(m: seq<Entry>, key: bytes): Option<bytes> {
    if m == [] then None
    else if m[|m| - 1].key == key then Some(m[|m| - 1].value)
    else Lookup(m[..|m| - 1], key)
  }

  lemma {:induction false} LookupIsMap(m: seq<Entry>, key: bytes)
    ensures Lookup(m, key) == if key in AsMap(m) then Some(AsMap(m)[key]) else None
  {
    if m == [] {
    } else {
      LookupIsMap(m[..|m| - 1], key);
    }
  }
}

/** `SkipList`: keys bound to encoded entries. */
module SkipLists {
  import opened Bytes
  import opened Coding
  import opened BlockFormat
  import opened SortedMap
  import Pipeline

  /** Every binding decodes to an entry filed under its own key. */
  ghost predicate WellFiled(list: seq<Entry>) {
    Sorted(list) && forall e :: e in list ==>
                      DecodeMemEntry(e.value).Some? && DecodeMemEntry(e.value).value.key == e.key
  }

  /** The entries behind the bindings. */
  ghost function Decoded(list: seq<Entry>): Pipeline.List
    requires WellFiled(list)
  {
    map key | key in AsMap(list) :: (AsMapMember(list, key); DecodeMemEntry(AsMap(list)[key]).value)
  }

  lemma DecodedFacts(list: seq<Entry>)
    requires WellFiled(list)
    ensures |Decoded(list)| == |list|
    ensures forall key :: key in Decoded(list) <==> Lookup(list, key).Some?
    ensures forall key :: key in Decoded(list) ==> DecodeMemEntry(Lookup(list, key).value) == Some(Decoded(list)[key])
  {
    hide AsMap, Lookup, DecodeMemEntry, Sorted;
    SizeIsCount(list);
    assert Decoded(list).Keys == AsMap(list).Keys;
    forall key
      ensures Lookup(list, key) == if key in AsMap(list) then Some(AsMap(list)[key]) else None
      ensures key in AsMap(list) ==> DecodeMemEntry(AsMap(list)[key]).Some?
    {
      LookupIsMap(list, key);
      AsMapMember(list, key);
    }
  }

  lemma PutDecodes(list: seq<Entry>, e: MemEntry, value: bytes)
    requires WellFiled(list) && DecodeMemEntry(value) == Some(e)
    ensures WellFiled(Put(list, e.key, value))
    ensures Decoded(Put(list, e.key, value)) == Decoded(list)[e.key := e]
  {
    hide AsMap, Put, DecodeMemEntry, Sorted;
    PutIsUpdate(list, e.key, value);
  }

  class SkipList {
    var id: nat
    var list: seq<Entry>

    ghost predicate Valid()
      reads this
    {
      WellFiled(list)
    }

    ghost function Contents(): Pipeline.List
      requires Valid()
      reads this
    {
      Decoded(list)
    }

    constructor ()
      ensures Valid() && Contents() == map[]
    {
      id, list := 0, [];
    }

    /** `keyPad` and `valuePad` are the stray bytes the encoder copies along. */
    method Insert(entry: MemEntry, keyPad: byte, valuePad: byte)
      requires Valid() && InRange(entry)
      modifies this
      ensures Valid() && Contents() == old(Contents())[entry.key := entry]
      ensures id == if old(Contents()) == map[] then entry.seqNum else old(id)
    {
      DecodedFacts(list);
      if |list| == 0 {
        id := entry.seqNum;
      }
      var s := EncodeMemEntry(entry, keyPad, valuePad);
      MemEntryRoundTrip(entry, keyPad, valuePad);
      PutDecodes(list, entry, s[..]);
      list := Put(list, entry.key, s[..]);
    }

    /** The slice found decodes to the entry the list holds. */
    method Get(key: bytes) returns (value: Option<bytes>)
      requires Valid()
      ensures value.Some? <==> key in Contents()
      ensures value.Some? ==> DecodeMemEntry(value.value) == Some(Contents()[key])
    {
      DecodedFacts(list);
      value := Lookup(list, key);
    }

    function Size(): nat
      reads this
    {
      |list|
    }

    lemma SizeIsContents()
      requires Valid()
      ensures Size() == |Contents()|
    {
      DecodedFacts(list);
    }
  }
}
