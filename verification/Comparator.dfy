/** The bytewise comparator: shortening keys without leaving the gap they mark. */
module Comparator {
  import opened Bytes

  /** Length of the common prefix, the value both scanning loops compute. */
  function CommonPrefix(a: bytes, b: bytes): (n: nat)
    ensures n <= |a| && n <= |b| && a[..n] == b[..n]
    ensures n < |a| && n < |b| ==> a[n] != b[n]
  {
    if a == [] || b == [] || a[0] != b[0] then 0
    else
      var n := CommonPrefix(a[1..], b[1..]);
      assert a[..n + 1] == [a[0]] + a[1..][..n] && b[..n + 1] == [b[0]] + b[1..][..n];
      n + 1
  }

  /** The first position at which the strings differ is the common prefix. */
  lemma {:induction false} CommonPrefixUnique(a: bytes, b: bytes, n: nat)
    requires n <= |a| && n <= |b| && a[..n] == b[..n]
    requires n == |a| || n == |b| || a[n] != b[n]
    ensures n == CommonPrefix(a, b)
    decreases n
  {
    if n == 0 {
    } else {
      assert a[0] == a[..n][0] == b[..n][0] == b[0];
      assert a[1..][..n - 1] == a[..n][1..] == b[..n][1..] == b[1..][..n - 1];
      CommonPrefixUnique(a[1..], b[1..], n - 1);
    }
  }

  /** The scanning loop shared by `FindShortestSeparator` and `BlockBuilder::Add`. */
  method ScanCommonPrefix(a: bytes, b: bytes) returns (n: nat)
    ensures n == CommonPrefix(a, b)
  {
    var minLength := if |a| < |b| then |a| else |b|;
    n := 0;
    while n < minLength && a[n] == b[n]
      invariant n <= minLength && a[..n] == b[..n]
    {
      assert a[..n + 1] == a[..n] + [a[n]] && b[..n + 1] == b[..n] + [b[n]];
      n := n + 1;
    }
    CommonPrefixUnique(a, b, n);
  }

  /** `start`, cut after its first byte that differs from `limit` with that byte incremented, if this
      leaves a gap below `limit`. */
  function ShortestSeparator(start: bytes, limit: bytes): bytes {
    var d := CommonPrefix(start, limit);
    if d < |start| && d < |limit| && start[d] as int + 1 < limit[d] then start[..d] + [start[d] + 1] else start
  }

  /** `FindShortestSeparator`: if `start < limit`, the result lies in [start, limit). It is a
      truncation with its last byte incremented whenever the first differing bytes leave a gap, and
      `start` itself otherwise. */
  method FindShortestSeparator(start: bytes, limit: bytes) returns (r: bytes)
    ensures r == ShortestSeparator(start, limit)
    ensures Less(start, limit) ==> AtMost(start, r) && Less(r, limit)
    ensures |r| <= |start|
    ensures var d := CommonPrefix(start, limit);
            r == if d < |start| && d < |limit| && start[d] as int + 1 < limit[d]
                 then start[..d] + [start[d] + 1] else start
  {
    r := start;
    var diffIndex := ScanCommonPrefix(start, limit);
    if diffIndex < |start| && diffIndex < |limit| {
      var diffByte := start[diffIndex];
      if diffByte < 0xff && diffByte + 1 < limit[diffIndex] {
        r := start[diffIndex := diffByte + 1];
        r := r[..diffIndex + 1];
        LessAt(start, r, diffIndex);
        LessAt(r, limit, diffIndex);
      }
    }
  }

  predicate AllMax(s: bytes) {
    forall i :: 0 <= i < |s| ==> s[i] == 0xff
  }

  /** The key cut after its first byte below 0xff, that byte incremented. */
  function ShortSuccessor(key: bytes): bytes {
    if key == [] then []
    else if key[0] != 0xff then [key[0] + 1]
    else [0xff] + ShortSuccessor(key[1..])
  }

  lemma {:induction false} ShortSuccessorAt(key: bytes, i: nat)
    requires i <= |key| && AllMax(key[..i])
    ensures ShortSuccessor(key) == key[..i] + ShortSuccessor(key[i..])
  {
    if i == 0 {
      assert key[0..] == key && key[..0] == [];
    } else {
      assert key[..i][0] == 0xff;
      assert key[1..][..i - 1] == key[..i][1..] && key[1..][i - 1..] == key[i..];
      ShortSuccessorAt(key[1..], i - 1);
      assert key[..i] == [0xff] + key[1..][..i - 1];
    }
  }

  /** `FindShortSuccessor`: never below the key, never longer, and unchanged exactly for a run of
      0xff bytes. */
  method FindShortSuccessor(key: bytes) returns (r: bytes)
    ensures r == ShortSuccessor(key)
    ensures AtMost(key, r) && |r| <= |key|
    ensures r == key <==> AllMax(key)
    ensures r != key ==>
              var i := |r| - 1;
              0 <= i < |key| && AllMax(key[..i]) && key[i] != 0xff && r == key[..i] + [key[i] + 1]
  {
    r := key;
    for i := 0 to |key|
      invariant r == key && AllMax(key[..i])
    {
      var byte := key[i];
      if byte != 0xff {
        r := key[i := byte + 1];
        r := r[..i + 1];
        LessAt(key, r, i);
        LessIrreflexive(key);
        assert r[..i] == key[..i];
        ShortSuccessorAt(key, i);
        return;
      }
    }
    assert key[..|key|] == key && key[|key|..] == [];
    ShortSuccessorAt(key, |key|);
  }
}
