/** Varints, fixed-width integers, length-prefixed slices and memory entries. */
module Coding {
  import opened Bytes

  // ---------- varints: what the bytes mean ----------

  /** Base-128 little-endian groups; every byte but the last carries the continuation bit. */
  function Varint(v: nat): (r: bytes)
    ensures |r| >= 1
  {
    if v < 128 then [v] else [v % 128 + 128] + Varint(v / 128)
  }

  function Pow128(n: nat): (p: nat)
    ensures p >= 1
  {
    if n == 0 then 1 else 128 * Pow128(n - 1)
  }

  /** Reads at most `groups` groups; the value is not yet cut to a machine width. */
  function GetGroups(s: bytes, groups: nat): (r: Parse<nat>)
    ensures r.Good? ==> |r.rest| < |s| && r.rest == s[|s| - |r.rest|..]
  {
    if groups == 0 || s == [] then Bad
    else if s[0] < 128 then Good(s[0], s[1..])
    else match GetGroups(s[1..], groups - 1)
      case Bad => Bad
      case Good(v, rest) => Good(s[0] - 128 + 128 * v, rest)
  }

  /** `GetVarint32`: five groups, the shifted groups collected in a `uint32_t`. */
  function GetVarint32(s: bytes): (r: Parse<nat>)
    ensures r.Good? ==> r.value < UINT32_LIMIT && |r.rest| < |s|
  {
    match GetGroups(s, 5)
    case Bad => Bad
    case Good(v, rest) => Good(v % UINT32_LIMIT, rest)
  }

  /** `GetVarint64`: ten groups, collected in a `uint64_t`. */
  function GetVarint64(s: bytes): (r: Parse<nat>)
    ensures r.Good? ==> r.value < UINT64_LIMIT && |r.rest| < |s|
  {
    match GetGroups(s, 10)
    case Bad => Bad
    case Good(v, rest) => Good(v % UINT64_LIMIT, rest)
  }

  lemma {:induction false} VarintSize(v: nat, n: nat)
    requires n >= 1 && v < Pow128(n)
    ensures |Varint(v)| <= n
    decreases n
  {
    assert Pow128(1) == 128;
    if v < 128 {
    } else {
      VarintSize(v / 128, n - 1);
    }
  }

  lemma Varint32Size(v: nat)
    requires v < UINT32_LIMIT
    ensures |Varint(v)| <= 5
  {
    assert Pow128(5) == 0x8_0000_0000;
    VarintSize(v, 5);
  }

  lemma Varint64Size(v: nat)
    requires v < UINT64_LIMIT
    ensures |Varint(v)| <= 10
  {
    assert Pow128(10) == 0x40_0000_0000_0000_0000;
    VarintSize(v, 10);
  }

  /** Reading groups back gives the number and leaves whatever followed. */
  lemma {:induction false} GetGroupsInvertsVarint(v: nat, t: bytes, groups: nat)
    requires |Varint(v)| <= groups
    ensures GetGroups(Varint(v) + t, groups) == Good(v, t)
    decreases groups
  {
    var s := Varint(v) + t;
    if v < 128 {
      assert s[1..] == t;
    } else {
      assert s[1..] == Varint(v / 128) + t;
      GetGroupsInvertsVarint(v / 128, t, groups - 1);
    }
  }

  lemma Varint32RoundTrip(v: nat, t: bytes)
    requires v < UINT32_LIMIT
    ensures GetVarint32(Varint(v) + t) == Good(v, t)
  {
    hide GetGroups, Varint;
    Varint32Size(v);
    GetGroupsInvertsVarint(v, t, 5);
  }

  lemma Varint64RoundTrip(v: nat, t: bytes)
    requires v < UINT64_LIMIT
    ensures GetVarint64(Varint(v) + t) == Good(v, t)
  {
    hide GetGroups, Varint;
    Varint64Size(v);
    GetGroupsInvertsVarint(v, t, 10);
  }

  /** Bytes after a varint do not change how it is read. */
  lemma {:induction false} GetGroupsExtends(s: bytes, t: bytes, groups: nat)
    requires GetGroups(s, groups).Good?
    ensures GetGroups(s + t, groups) == Good(GetGroups(s, groups).value, GetGroups(s, groups).rest + t)
    decreases groups
  {
    assert (s + t)[0] == s[0] && (s + t)[1..] == s[1..] + t;
    if s[0] < 128 {
    } else {
      GetGroupsExtends(s[1..], t, groups - 1);
    }
  }

  lemma GetVarint32Extends(s: bytes, t: bytes)
    requires GetVarint32(s).Good?
    ensures GetVarint32(s + t) == Good(GetVarint32(s).value, GetVarint32(s).rest + t)
  {
    hide GetGroups;
    GetGroupsExtends(s, t, 5);
  }

  // ---------- varints: the code ----------

  /** `memcpy(buf + p, data, n)`. */
  method CopyInto(buf: array<byte>, p: nat, data: bytes) returns (q: nat)
    requires p + |data| <= buf.Length
    modifies buf
    ensures q == p + |data|
    ensures buf[..q] == old(buf[..p]) + data
    ensures buf[q..] == old(buf[q..])
  {
    forall i | 0 <= i < |data| {
      buf[p + i] := data[i];
    }
    q := p + |data|;
  }

  /** The five-way unrolled encoder; `v | B` stored through an `unsigned char*` keeps the low
      seven bits and sets the top one. */
  method EncodeVarint32(buf: array<byte>, p: nat, v: nat) returns (q: nat)
    requires v < UINT32_LIMIT
    requires p + |Varint(v)| <= buf.Length
    modifies buf
    ensures q == p + |Varint(v)|
    ensures buf[..q] == old(buf[..p]) + Varint(v)
    ensures buf[q..] == old(buf[q..])
  {
    hide Varint;
    var groups: bytes;
    if v < 0x80 {
      groups := [v];
    } else if v < 0x4000 {
      groups := [v % 128 + 128, v / 0x80];
    } else if v < 0x20_0000 {
      groups := [v % 128 + 128, v / 0x80 % 128 + 128, v / 0x4000];
    } else if v < 0x1000_0000 {
      groups := [v % 128 + 128, v / 0x80 % 128 + 128, v / 0x4000 % 128 + 128, v / 0x20_0000];
    } else {
      groups := [v % 128 + 128, v / 0x80 % 128 + 128, v / 0x4000 % 128 + 128,
                 v / 0x20_0000 % 128 + 128, v / 0x1000_0000];
    }
    ShiftTwice(v);
    GroupsByGroup(v, v / 0x80, v / 0x4000, v / 0x20_0000, v / 0x1000_0000);
    q := CopyInto(buf, p, groups);
  }

  lemma ShiftTwice(v: nat)
    ensures v / 0x80 / 128 == v / 0x4000
    ensures v / 0x4000 / 128 == v / 0x20_0000
    ensures v / 0x20_0000 / 128 == v / 0x1000_0000
    ensures v < 0x4000 <==> v / 0x80 < 128
    ensures v < 0x20_0000 <==> v / 0x4000 < 128
    ensures v < 0x1000_0000 <==> v / 0x20_0000 < 128
    ensures v < UINT32_LIMIT ==> v / 0x1000_0000 < 128
  {
  }

  /** One shift per group, as the unrolled encoder writes them. */
  lemma GroupsByGroup(v: nat, v1: nat, v2: nat, v3: nat, v4: nat)
    requires v1 == v / 128 && v2 == v1 / 128 && v3 == v2 / 128 && v4 == v3 / 128 && v4 < 128
    ensures Varint(v) ==
            if v < 128 then [v]
            else if v1 < 128 then [v % 128 + 128, v1]
            else if v2 < 128 then [v % 128 + 128, v1 % 128 + 128, v2]
            else if v3 < 128 then [v % 128 + 128, v1 % 128 + 128, v2 % 128 + 128, v3]
            else [v % 128 + 128, v1 % 128 + 128, v2 % 128 + 128, v3 % 128 + 128, v4]
  {
    assert Varint(v4) == [v4];
    assert Varint(v3) == if v3 < 128 then [v3] else [v3 % 128 + 128] + Varint(v4);
    assert Varint(v2) == if v2 < 128 then [v2] else [v2 % 128 + 128] + Varint(v3);
    assert Varint(v1) == if v1 < 128 then [v1] else [v1 % 128 + 128] + Varint(v2);
  }

  method PutVarint32(dst: bytes, v: nat) returns (r: bytes)
    requires v < UINT32_LIMIT
    ensures r == dst + Varint(v)
  {
    Varint32Size(v);
    var buf := new byte[5];
    var q := EncodeVarint32(buf, 0, v);
    r := dst + buf[..q];
  }

  method EncodeVarint64(buf: array<byte>, p: nat, v: nat) returns (q: nat)
    requires p + |Varint(v)| <= buf.Length
    modifies buf
    ensures q == p + |Varint(v)|
    ensures buf[..q] == old(buf[..p]) + Varint(v)
    ensures buf[q..] == old(buf[q..])
  {
    var left := v;
    q := p;
    while left >= 128
      invariant p <= q && q + |Varint(left)| == p + |Varint(v)|
      invariant buf[..q] + Varint(left) == old(buf[..p]) + Varint(v)
      invariant buf[p + |Varint(v)|..] == old(buf[p + |Varint(v)|..])
    {
      ghost var before := buf[..q];
      buf[q] := left % 128 + 128;
      assert buf[..q + 1] == before + [left % 128 + 128];
      q := q + 1;
      left := left / 128;
    }
    ghost var before := buf[..q];
    buf[q] := left;
    q := q + 1;
    assert buf[..q] == before + [left];
  }

  method PutVarint64(dst: bytes, v: nat) returns (r: bytes)
    requires v < UINT64_LIMIT
    ensures r == dst + Varint(v)
  {
    Varint64Size(v);
    var buf := new byte[10];
    var q := EncodeVarint64(buf, 0, v);
    r := dst + buf[..q];
  }

  /** The predicted length is the encoded length. */
  method VarintLength(v: nat) returns (len: nat)
    ensures len == |Varint(v)|
  {
    len := 1;
    var left := v;
    while left >= 128
      invariant len + |Varint(left)| == |Varint(v)| + 1
    {
      left := left / 128;
      len := len + 1;
    }
  }

  /** Cutting a value to `uint64_t` or `uint32_t`. */
  function Truncate(v: nat, wide: bool): nat {
    if wide then v % UINT64_LIMIT else v % UINT32_LIMIT
  }

  lemma TruncateOfSum(a: nat, b: nat, wide: bool)
    ensures Truncate(Truncate(a, wide) + b, wide) == Truncate(a + b, wide)
  {
  }

  /** What the getters make of the groups: the value cut to the width of the result. */
  function CutGroups(s: bytes, groups: nat, wide: bool): Parse<nat> {
    match GetGroups(s, groups)
    case Bad => Bad
    case Good(v, rest) => Good(Truncate(v, wide), rest)
  }

  function Scaled(place: nat, v: nat): nat {
    place * v
  }

  /** `result` holds the groups read so far; the next one is worth `place` = 128^k. */
  ghost predicate ReadSoFar(s: bytes, groups: nat, k: nat, result: nat, place: nat, wide: bool)
    requires k <= groups && k <= |s|
  {
    CutGroups(s, groups, wide) == match GetGroups(s[k..], groups - k)
                                  case Bad => Bad
                                  case Good(v, rest) => Good(Truncate(result + Scaled(place, v), wide), rest)
  }

  lemma PlaceValue(result: nat, place: nat, group: nat, v: nat)
    ensures result + Scaled(place, group + 128 * v) == (result + Scaled(place, group)) + Scaled(128 * place, v)
  {
  }

  lemma NextGroup(s: bytes, groups: nat, k: nat, result: nat, place: nat, wide: bool)
    requires k < groups && k < |s| && ReadSoFar(s, groups, k, result, place, wide)
    requires s[k] >= 128
    ensures ReadSoFar(s, groups, k + 1, OrShifted(result, s[k] - 128, place, wide), 128 * place, wide)
  {
    hide Truncate, CutGroups, Scaled;
    assert s[k..][0] == s[k] && s[k..][1..] == s[k + 1..];
    match GetGroups(s[k + 1..], groups - k - 1)
    case Bad =>
    case Good(v, rest) =>
      PlaceValue(result, place, s[k] - 128, v);
      TruncateOfSum(result + Scaled(place, s[k] - 128), Scaled(128 * place, v), wide);
  }

  lemma LastGroup(s: bytes, groups: nat, k: nat, result: nat, place: nat, wide: bool)
    requires k < groups && k < |s| && ReadSoFar(s, groups, k, result, place, wide)
    requires s[k] < 128
    ensures CutGroups(s, groups, wide) == Good(OrShifted(result, s[k], place, wide), s[k + 1..])
  {
    assert s[k..][0] == s[k] && s[k..][1..] == s[k + 1..];
  }

  /** `result |= group << shift`, where `place` is `1 << shift`: the bits are disjoint, so they add
      up modulo the width of `result`. */
  function OrShifted(result: nat, group: nat, place: nat, wide: bool): nat {
    Truncate(result + Scaled(place, group), wide)
  }

  /** The shift loop of `GetVarint32PtrFallback` and `GetVarint64Ptr`. */
  method GetVarintLoop(s: bytes, groups: nat, wide: bool) returns (r: Parse<nat>)
    ensures r == CutGroups(s, groups, wide)
  {
    var k: nat, place: nat, result: nat := 0, 1, 0;
    assert s[0..] == s;
    while k < groups && k < |s|
      invariant k <= groups && k <= |s|
      invariant ReadSoFar(s, groups, k, result, place, wide)
    {
      var byte := s[k];
      if byte < 128 {
        LastGroup(s, groups, k, result, place, wide);
        return Good(OrShifted(result, byte, place, wide), s[k + 1..]);
      }
      NextGroup(s, groups, k, result, place, wide);
      result := OrShifted(result, byte - 128, place, wide);
      place, k := 128 * place, k + 1;
    }
    r := Bad;
  }

  /** `GetVarint32Ptr`: the one-byte fast path, then the loop. */
  method GetVarint32Ptr(s: bytes) returns (r: Parse<nat>)
    ensures r == GetVarint32(s)
  {
    if s != [] && s[0] < 128 {
      return Good(s[0], s[1..]);
    }
    r := GetVarintLoop(s, 5, false);
  }

  method GetVarint64Ptr(s: bytes) returns (r: Parse<nat>)
    ensures r == GetVarint64(s)
  {
    r := GetVarintLoop(s, 10, true);
  }

  // ---------- fixed width ----------

  /** Little-endian, as `memcpy` leaves it on the platforms the original targets. */
  function Fixed32(v: nat): (r: bytes)
    requires v < UINT32_LIMIT
    ensures |r| == 4
  {
    [v % 256, v / 0x100 % 256, v / 0x1_0000 % 256, v / 0x100_0000]
  }

  function DecodeFixed32(s: bytes): (v: nat)
    requires |s| >= 4
    ensures v < UINT32_LIMIT
  {
    var b0: nat, b1: nat, b2: nat, b3: nat := s[0], s[1], s[2], s[3];
    b0 + 0x100 * b1 + 0x1_0000 * b2 + 0x100_0000 * b3
  }

  function Fixed64(v: nat): (r: bytes)
    requires v < UINT64_LIMIT
    ensures |r| == 8
  {
    Fixed32(v % UINT32_LIMIT) + Fixed32(v / UINT32_LIMIT)
  }

  function DecodeFixed64(s: bytes): (v: nat)
    requires |s| >= 8
    ensures v < UINT64_LIMIT
  {
    DecodeFixed32(s[..4]) + UINT32_LIMIT * DecodeFixed32(s[4..8])
  }

  lemma Fixed32RoundTrip(v: nat, t: bytes)
    requires v < UINT32_LIMIT
    ensures DecodeFixed32(Fixed32(v) + t) == v
  {
    var s := Fixed32(v) + t;
    var v1, v2, v3 := v / 0x100, v / 0x1_0000, v / 0x100_0000;
    assert v1 / 256 == v2 && v2 / 256 == v3;
    assert v == v % 256 + 256 * v1 && v1 == v1 % 256 + 256 * v2 && v2 == v2 % 256 + 256 * v3;
    assert s[0] == v % 256 && s[1] == v / 0x100 % 256 && s[2] == v / 0x1_0000 % 256 && s[3] == v / 0x100_0000;
  }

  lemma Fixed64RoundTrip(v: nat, t: bytes)
    requires v < UINT64_LIMIT
    ensures DecodeFixed64(Fixed64(v) + t) == v
  {
    var s := Fixed64(v) + t;
    var lo, hi := v % UINT32_LIMIT, v / UINT32_LIMIT;
    assert s[..4] == Fixed32(lo) + [] && s[4..8] == Fixed32(hi) + [];
    Fixed32RoundTrip(lo, []);
    Fixed32RoundTrip(hi, []);
  }

  // ---------- length-prefixed slices ----------

  function LengthPrefixed(s: bytes): bytes {
    Varint(|s|) + s
  }

  function GetLengthPrefixedSlice(s: bytes): (r: Parse<bytes>)
    ensures r.Good? ==> |r.rest| < |s|
  {
    match GetVarint32(s)
    case Bad => Bad
    case Good(len, rest) => if |rest| >= len then Good(rest[..len], rest[len..]) else Bad
  }

  lemma LengthPrefixedRoundTrip(s: bytes, t: bytes)
    requires |s| < UINT32_LIMIT
    ensures GetLengthPrefixedSlice(LengthPrefixed(s) + t) == Good(s, t)
  {
    assert LengthPrefixed(s) + t == Varint(|s|) + (s + t);
    Varint32RoundTrip(|s|, s + t);
  }

  // ---------- memory entries ----------

  /** `deleted` is the boolean `value_type` (kDeleted is 1). */
  datatype MemEntry = MemEntry(key: bytes, value: bytes, seqNum: nat, deleted: bool)

  /** Lengths fit their `uint32_t` fields and the sequence number fits 56 bits. */
  predicate InRange(e: MemEntry) {
    |e.key| + 9 < UINT32_LIMIT && |e.value| + 1 < UINT32_LIMIT && e.seqNum < 0x100_0000_0000_0000
  }

  function Tag(e: MemEntry): (tag: nat)
    requires InRange(e)
    ensures tag < UINT64_LIMIT && tag / 256 == e.seqNum && (tag % 256 != 0 <==> e.deleted)
  {
    e.seqNum * 256 + if e.deleted then 1 else 0
  }

  /** `keyPad` and `valuePad` stand for the bytes copied from just past the key and the value. */
  function MemEntryBytes(e: MemEntry, keyPad: byte, valuePad: byte): bytes
    requires InRange(e)
  {
    Varint(|e.key| + 9) + e.key + [keyPad] + Fixed64(Tag(e)) + Varint(|e.value| + 1) + e.value + [valuePad]
  }

  /** `DecodeMemEntry`; None marks the slices on which the original would read outside the slice or
      underflow a length. */
  function DecodeMemEntry(s: bytes): Option<MemEntry> {
    match GetVarint32(s)
    case Bad => None
    case Good(klength, r1) =>
      if klength < 9 || |r1| < klength then None else
      var info := DecodeFixed64(r1[klength - 8..klength]);
      match GetVarint32(r1[klength..])
      case Bad => None
      case Good(vlength, r2) =>
        if vlength < 1 || |r2| < vlength - 1 then None else
        Some(MemEntry(r1[..klength - 9], r2[..vlength - 1], info / 256, info % 256 != 0))
  }

  /** The decoder drops the two stray bytes: any padding decodes to the entry. */
  lemma MemEntryRoundTrip(e: MemEntry, keyPad: byte, valuePad: byte)
    requires InRange(e)
    ensures DecodeMemEntry(MemEntryBytes(e, keyPad, valuePad)) == Some(e)
  {
    hide Varint, GetVarint32, Fixed64, DecodeFixed64;
    var s := MemEntryBytes(e, keyPad, valuePad);
    var klength, vlength := |e.key| + 9, |e.value| + 1;
    var r2 := e.value + [valuePad];
    var r1 := e.key + [keyPad] + Fixed64(Tag(e)) + (Varint(vlength) + r2);
    assert s == Varint(klength) + r1;
    Varint32RoundTrip(klength, r1);
    assert r1[klength..] == Varint(vlength) + r2;
    Varint32RoundTrip(vlength, r2);
    assert r1[klength - 8..klength] == Fixed64(Tag(e)) + [];
    Fixed64RoundTrip(Tag(e), []);
    assert r1[..klength - 9] == e.key && r2[..vlength - 1] == e.value;
  }

  lemma MemEntryBytesSize(e: MemEntry, keyPad: byte, valuePad: byte)
    requires InRange(e)
    ensures 12 <= |MemEntryBytes(e, keyPad, valuePad)| <= |e.key| + |e.value| + 20
  {
    Varint32Size(|e.key| + 9);
    Varint32Size(|e.value| + 1);
  }

  /** Allocates exactly the predicted length and fills it exactly: the final assertion is the
      original's own. */
  method EncodeMemEntry(e: MemEntry, keyPad: byte, valuePad: byte) returns (buf: array<byte>)
    requires InRange(e)
    ensures fresh(buf)
    ensures buf[..] == MemEntryBytes(e, keyPad, valuePad)
  {
    hide Varint, Fixed64, Tag;
    var keySize, valSize := |e.key| + 1, |e.value| + 1;
    var internalKeySize := keySize + 8;
    var kLen := VarintLength(internalKeySize);
    var vLen := VarintLength(valSize);
    var encodedLen := kLen + internalKeySize + vLen + valSize;
    buf := new byte[encodedLen];
    var p := EncodeVarint32(buf, 0, internalKeySize);
    p := CopyInto(buf, p, e.key + [keyPad]);
    ghost var keyPart := Varint(internalKeySize) + e.key + [keyPad];
    assert buf[..p] == keyPart;
    p := CopyInto(buf, p, Fixed64(Tag(e)));
    assert buf[..p] == keyPart + Fixed64(Tag(e));
    p := EncodeVarint32(buf, p, valSize);
    p := CopyInto(buf, p, e.value + [valuePad]);
    assert p == encodedLen;
    assert buf[..] == buf[..p] == MemEntryBytes(e, keyPad, valuePad);
  }
}
