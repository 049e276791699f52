/** Byte strings and the bytewise order that `Slice::compare` computes. */
module Bytes {
  type byte = b: int | 0 <= b < 256
  type bytes = seq<byte>

  const UINT32_LIMIT := 0x1_0000_0000
  const UINT64_LIMIT := 0x1_0000_0000_0000_0000

  type uint32 = n: int | 0 <= n < UINT32_LIMIT

  datatype Option<+T> = None | Some(value: T)

  /** The result of taking a value off the front of a slice: the C++ getters return false or
      advance the slice past the value. */
  datatype Parse<+T> = Bad | Good(value: T, rest: bytes)

  datatype Status = OK | Error | Corruption

  // ---------- order ----------

  /** Lexicographic order on unsigned bytes, a proper prefix being smaller. */
  predicate Less(a: bytes, b: bytes) {
    b != [] && (a == [] || a[0] < b[0] || (a[0] == b[0] && Less(a[1..], b[1..])))
  }

  predicate AtMost(a: bytes, b: bytes) {
    a == b || Less(a, b)
  }

  /** `memcmp` over the first `n` bytes. */
  function Memcmp(a: bytes, b: bytes, n: nat): int
    requires n <= |a| && n <= |b|
  {
    if n == 0 then 0
    else if a[0] != b[0] then a[0] - b[0]
    else Memcmp(a[1..], b[1..], n - 1)
  }

  /** `Slice::compare`: `memcmp` over the common length, ties broken by length. */
  function Compare(a: bytes, b: bytes): int {
    var minLen := if |a| < |b| then |a| else |b|;
    var r := Memcmp(a, b, minLen);
    if r != 0 then r
    else if |a| < |b| then -1
    else if |a| > |b| then 1
    else 0
  }

  /** The three-way comparison is exactly the lexicographic order. */
  lemma {:induction false} CompareIsLexicographic(a: bytes, b: bytes)
    ensures Compare(a, b) < 0 <==> Less(a, b)
    ensures Compare(a, b) == 0 <==> a == b
    ensures Compare(a, b) > 0 <==> Less(b, a)
    decreases |a|
  {
    if a == [] || b == [] || a[0] != b[0] {
    } else {
      CompareIsLexicographic(a[1..], b[1..]);
      assert a == [a[0]] + a[1..] && b == [b[0]] + b[1..];
    }
  }

  lemma {:induction false} LessIrreflexive(a: bytes)
    ensures !Less(a, a)
    decreases |a|
  {
    if a == [] {
    } else {
      LessIrreflexive(a[1..]);
    }
  }

  lemma {:induction false} LessTransitive(a: bytes, b: bytes, c: bytes)
    requires Less(a, b) && Less(b, c)
    ensures Less(a, c)
    decreases |a|
  {
    if a == [] || a[0] != b[0] || b[0] != c[0] {
    } else {
      LessTransitive(a[1..], b[1..], c[1..]);
    }
  }

  lemma {:induction false} LessTotal(a: bytes, b: bytes)
    ensures Less(a, b) || a == b || Less(b, a)
    decreases |a|
  {
    if a == [] || b == [] || a[0] != b[0] {
    } else {
      LessTotal(a[1..], b[1..]);
      assert a == [a[0]] + a[1..] && b == [b[0]] + b[1..];
    }
  }

  lemma LessAsymmetric(a: bytes, b: bytes)
    requires Less(a, b)
    ensures !Less(b, a) && a != b
  {
    LessIrreflexive(a);
    if Less(b, a) {
      LessTransitive(a, b, a);
    }
  }

  lemma AtMostThenLess(a: bytes, b: bytes, c: bytes)
    requires AtMost(a, b) && Less(b, c)
    ensures Less(a, c)
  {
    if a != b {
      LessTransitive(a, b, c);
    }
  }

  lemma LessThenAtMost(a: bytes, b: bytes, c: bytes)
    requires Less(a, b) && AtMost(b, c)
    ensures Less(a, c)
  {
    if b != c {
      LessTransitive(a, b, c);
    }
  }

  /** Strings that agree before position `d` are ordered by their bytes at `d`. */
  lemma {:induction false} LessAt(a: bytes, b: bytes, d: nat)
    requires d < |a| && d < |b| && a[..d] == b[..d] && a[d] < b[d]
    ensures Less(a, b)
    decreases d
  {
    if d == 0 {
    } else {
      assert a[0] == a[..d][0] == b[..d][0] == b[0];
      assert a[1..][..d - 1] == a[..d][1..] == b[..d][1..] == b[1..][..d - 1];
      LessAt(a[1..], b[1..], d - 1);
    }
  }
}
