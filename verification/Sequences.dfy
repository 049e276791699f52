/** Sequences of sequences, laid end to end. */
module Sequences {
  function Flatten<T>(runs: seq<seq<T>>): seq<T> {
    if runs == [] then [] else Flatten(runs[..|runs| - 1]) + runs[|runs| - 1]
  }

  lemma FlattenPush<T>(runs: seq<seq<T>>, run: seq<T>)
    ensures Flatten(runs + [run]) == Flatten(runs) + run
  {
    assert (runs + [run])[..|runs|] == runs;
  }

  lemma {:induction false} FlattenPrefix<T>(runs: seq<seq<T>>, i: nat)
    requires i <= |runs|
    ensures Flatten(runs[..i]) <= Flatten(runs)
    decreases |runs|
  {
    if i == |runs| {
      assert runs[..i] == runs;
    } else {
      FlattenPrefix(runs[..|runs| - 1], i);
      assert runs[..|runs| - 1][..i] == runs[..i];
    }
  }

  lemma {:induction false} FlattenSplit<T>(runs: seq<seq<T>>, c: nat)
    requires c <= |runs|
    ensures Flatten(runs) == Flatten(runs[..c]) + Flatten(runs[c..])
    decreases |runs| - c
  {
    if c == |runs| {
      assert runs[..c] == runs && Flatten(runs[c..]) == [];
    } else {
      var last := |runs| - 1;
      assert runs == runs[..last] + [runs[last]] && runs[c..] == runs[..last][c..] + [runs[last]];
      FlattenPush(runs[..last], runs[last]);
      FlattenPush(runs[..last][c..], runs[last]);
      FlattenSplit(runs[..last], c);
      assert runs[..last][..c] == runs[..c];
    }
  }

  lemma {:induction false} FlattenMember<T>(runs: seq<seq<T>>, e: T)
    ensures e in Flatten(runs) <==> exists i :: 0 <= i < |runs| && e in runs[i]
  {
    if runs == [] {
    } else {
      var last := |runs| - 1;
      FlattenMember(runs[..last], e);
      if e in Flatten(runs[..last]) {
        var i :| 0 <= i < last && e in runs[..last][i];
        assert e in runs[i];
      }
      if i :| 0 <= i < |runs| && e in runs[i] && i < last {
        assert e in runs[..last][i];
      }
    }
  }

  // ---------- subsequences ----------

  /** `a` is what is left of `b` with some elements left out. */
  ghost predicate Subsequence<T>(a: seq<T>, b: seq<T>)
    decreases |b|
  {
    a == [] ||
    (b != [] &&
     (|| (a[|a| - 1] == b[|b| - 1] && Subsequence(a[..|a| - 1], b[..|b| - 1]))
      || Subsequence(a, b[..|b| - 1])))
  }

  lemma SubsequencePush<T>(a: seq<T>, b: seq<T>, e: T)
    requires Subsequence(a, b)
    ensures Subsequence(a + [e], b + [e])
  {
    assert (a + [e])[..|a|] == a && (b + [e])[..|b|] == b;
  }

  lemma {:induction false} SubsequenceMember<T>(a: seq<T>, b: seq<T>, e: T)
    requires Subsequence(a, b) && e in a
    ensures e in b
    decreases |b|
  {
    var i :| 0 <= i < |a| && a[i] == e;
    if a[|a| - 1] == b[|b| - 1] && Subsequence(a[..|a| - 1], b[..|b| - 1]) {
      if i < |a| - 1 {
        assert a[..|a| - 1][i] == e;
        SubsequenceMember(a[..|a| - 1], b[..|b| - 1], e);
      }
    } else {
      SubsequenceMember(a, b[..|b| - 1], e);
    }
  }

  /** Leaving out a stretch leaves a subsequence. */
  lemma {:induction false} SubsequenceDrop<T>(u: seq<T>, v: seq<T>, w: seq<T>, b: seq<T>)
    requires Subsequence(u + v + w, b)
    ensures Subsequence(u + w, b)
    decreases |b|
  {
    var a := u + v + w;
    if u + w == [] || (v == [] && a == u + w) {
    } else {
      assert a != [] && b != [];
      var last, rest := |a| - 1, b[..|b| - 1];
      if a[last] == b[|b| - 1] && Subsequence(a[..last], rest) {
        if w == [] {
          assert a[..last] == u + v[..|v| - 1] + w;
          SubsequenceDrop(u, v[..|v| - 1], w, rest);
        } else {
          assert a[..last] == u + v + w[..|w| - 1];
          SubsequenceDrop(u, v, w[..|w| - 1], rest);
          assert (u + w)[..|u + w| - 1] == u + w[..|w| - 1];
        }
      } else {
        SubsequenceDrop(u, v, w, rest);
      }
    }
  }

  lemma SubsequenceOfAny<T>(b: seq<T>)
    ensures Subsequence([], b)
  {
  }

  lemma {:induction false} SubsequenceJoin<T>(a: seq<T>, b: seq<T>, c: seq<T>, d: seq<T>)
    requires Subsequence(a, b) && Subsequence(c, d)
    ensures Subsequence(a + c, b + d)
    decreases |d|
  {
    if d == [] {
      assert a + c == a && b + d == b;
    } else {
      var rest := d[..|d| - 1];
      assert (b + d)[..|b + d| - 1] == b + rest;
      if c != [] && c[|c| - 1] == d[|d| - 1] && Subsequence(c[..|c| - 1], rest) {
        assert (a + c)[..|a + c| - 1] == a + c[..|c| - 1];
        SubsequenceJoin(a, b, c[..|c| - 1], rest);
      } else {
        SubsequenceJoin(a, b, c, rest);
      }
    }
  }

  /** An element in front, taken or left out. */
  lemma SubsequenceCons<T>(a: seq<T>, b: seq<T>, e: T)
    requires Subsequence(a, b)
    ensures Subsequence([e] + a, [e] + b) && Subsequence(a, [e] + b)
  {
    assert [e][..0] == [];
    assert Subsequence([e], [e]) && Subsequence([], [e]);
    SubsequenceJoin([e], [e], a, b);
    SubsequenceJoin([], [e], a, b);
    assert [] + a == a;
  }
}
