/** `VersionSet::Builder`: a batch of edits merged into sorted base files. */
module VersionBuilding {
  import opened Bytes
  import opened Files
  import E = VersionEdits

  type Meta = FileMetaData

  // ---------- the order of files ----------

  /** `BySmallestKey`: by smallest key, ties by number. */
  predicate Before(f: Meta, g: Meta) {
    var r := Compare(f.smallest.key, g.smallest.key);
    if r != 0 then r < 0 else f.number < g.number
  }

  /** Neither comes first. */
  predicate Equivalent(f: Meta, g: Meta) {
    f.smallest.key == g.smallest.key && f.number == g.number
  }

  lemma BeforeIsOrder(f: Meta, g: Meta)
    ensures Before(f, g) <==> Less(f.smallest.key, g.smallest.key) ||
                              (f.smallest.key == g.smallest.key && f.number < g.number)
    ensures Before(f, g) || Before(g, f) || Equivalent(f, g)
    ensures !(Before(f, g) && Before(g, f))
    ensures Equivalent(f, g) ==> !Before(f, g) && !Before(g, f)
  {
    CompareIsLexicographic(f.smallest.key, g.smallest.key);
    CompareIsLexicographic(g.smallest.key, f.smallest.key);
    LessTotal(f.smallest.key, g.smallest.key);
    LessIrreflexive(f.smallest.key);
    if Less(f.smallest.key, g.smallest.key) { LessAsymmetric(f.smallest.key, g.smallest.key); }
    if Less(g.smallest.key, f.smallest.key) { LessAsymmetric(g.smallest.key, f.smallest.key); }
  }

  lemma BeforeTransitive(f: Meta, g: Meta, h: Meta)
    requires Before(f, g) && !Before(h, g)
    ensures Before(f, h)
  {
    BeforeIsOrder(f, g);
    BeforeIsOrder(g, h);
    BeforeIsOrder(f, h);
    BeforeIsOrder(h, g);
    if Less(f.smallest.key, g.smallest.key) && Less(g.smallest.key, h.smallest.key) {
      LessTransitive(f.smallest.key, g.smallest.key, h.smallest.key);
    }
  }

  /** In file order; equivalent files may repeat. */
  ghost predicate InOrder(fs: seq<Meta>) {
    forall i, j :: 0 <= i < j < |fs| ==> !Before(fs[j], fs[i])
  }

  /** In strict file order. */
  ghost predicate StrictOrder(fs: seq<Meta>) {
    forall i, j :: 0 <= i < j < |fs| ==> Before(fs[i], fs[j])
  }

  // ---------- std::set of files ----------

  /** Insertion into a `std::set`: an equivalent element already there wins. */
  function Insert(fs: seq<Meta>, f: Meta): seq<Meta> {
    if fs == [] || Before(f, fs[0]) then [f] + fs
    else if Before(fs[0], f) then [fs[0]] + Insert(fs[1..], f)
    else fs
  }

  lemma {:induction false} InsertKeepsOrder(fs: seq<Meta>, f: Meta)
    requires StrictOrder(fs)
    ensures StrictOrder(Insert(fs, f))
    ensures forall g :: g in Insert(fs, f) <==>
                        g in fs || (g == f && forall h :: h in fs ==> !Equivalent(h, f))
    decreases |fs|
  {
    if fs == [] {
    } else if Before(f, fs[0]) {
      forall j | 0 <= j < |fs|
        ensures Before(f, fs[j]) && !Equivalent(fs[j], f)
      {
        if j > 0 {
          BeforeIsOrder(fs[0], fs[j]);
          BeforeTransitive(f, fs[0], fs[j]);
        }
        BeforeIsOrder(f, fs[j]);
      }
    } else if Before(fs[0], f) {
      InsertKeepsOrder(fs[1..], f);
      BeforeIsOrder(fs[0], f);
      assert fs == [fs[0]] + fs[1..];
      var rest := Insert(fs[1..], f);
      forall j | 0 <= j < |rest|
        ensures Before(fs[0], rest[j])
      {
        assert rest[j] in rest;
      }
    } else {
      BeforeIsOrder(f, fs[0]);
      assert Equivalent(fs[0], f) && fs[0] in fs;
    }
  }

  /** A file with no equivalent in the set is inserted. */
  lemma {:induction false} InsertCounts(fs: seq<Meta>, f: Meta)
    requires forall h :: h in fs ==> !Equivalent(h, f)
    ensures multiset(Insert(fs, f)) == multiset(fs) + multiset{f}
  {
    if fs == [] {
    } else if Before(f, fs[0]) {
    } else {
      BeforeIsOrder(f, fs[0]);
      assert fs[0] in fs;
      hide Before, Equivalent;
      assert fs == [fs[0]] + fs[1..];
      InsertCounts(fs[1..], f);
    }
  }

  // ---------- one level, edit by edit ----------

  /** A level's base files and what the edits so far have recorded for it. */
  datatype Level = Level(base: seq<Meta>, deleted: set<nat>, added: seq<Meta>)

  /** The files the level would be saved with. */
  ghost predicate Survives(l: Level, f: Meta) {
    (f in l.base || f in l.added) && f.number !in l.deleted
  }

  function DeleteNumber(l: Level, number: nat): Level {
    l.(deleted := l.deleted + {number})
  }

  function AddFile(l: Level, f: Meta): Level {
    l.(deleted := l.deleted - {f.number}, added := Insert(l.added, f))
  }

  /** Deleting a number removes exactly the files with that number. */
  lemma DeleteRemoves(l: Level, number: nat, f: Meta)
    ensures Survives(DeleteNumber(l, number), f) <==> Survives(l, f) && f.number != number
  {
  }

  /** The guard of the erase: no other file waits under this number to be brought back, and no
      equivalent file keeps the new one out of the set. */
  ghost predicate CleanAdd(l: Level, g: Meta) {
    && (g.number in l.deleted ==>
          forall f :: (f in l.base || f in l.added) && f.number == g.number ==> f == g)
    && (g in l.base || forall h :: h in l.added && Equivalent(h, g) ==> h == g)
  }

  /** Recording an addition adds exactly that file if and only if the guard holds; otherwise the
      erase brings deleted files back, or the set drops the new one. */
  lemma AddIsExact(l: Level, g: Meta)
    requires StrictOrder(l.added)
    ensures (forall f :: Survives(AddFile(l, g), f) <==> Survives(l, f) || f == g) <==> CleanAdd(l, g)
  {
    InsertKeepsOrder(l.added, g);
    var l' := AddFile(l, g);
    if CleanAdd(l, g) {
      forall f
        ensures Survives(l', f) <==> Survives(l, f) || f == g
      {
      }
    } else if g.number in l.deleted && exists f :: (f in l.base || f in l.added) && f.number == g.number && f != g {
      var f :| (f in l.base || f in l.added) && f.number == g.number && f != g;
      assert Survives(l', f) && !Survives(l, f);
    } else {
      var h :| h in l.added && Equivalent(h, g) && h != g;
      if g in l.added {
        EquivalentOnce(l.added, g, h);
      }
      assert !Survives(l', g);
    }
  }

  lemma EquivalentOnce(fs: seq<Meta>, g: Meta, h: Meta)
    requires StrictOrder(fs) && g in fs && h in fs && Equivalent(g, h)
    ensures g == h
  {
    var i :| 0 <= i < |fs| && fs[i] == g;
    var j :| 0 <= j < |fs| && fs[j] == h;
    BeforeIsOrder(g, h);
    BeforeIsOrder(h, g);
  }

  /** Delete 7, then add a new file 7: the old file 7 is back. */
  lemma ReusedNumberResurrects(old7: Meta, new7: Meta)
    requires old7.number == new7.number == 7 && old7 != new7
    ensures var l := AddFile(DeleteNumber(Level([old7], {}, []), 7), new7);
            Survives(l, old7) && Survives(l, new7)
  {
  }

  // ---------- a batch of edits ----------

  /** One edit's part for one level: deletions first, then additions. */
  datatype LevelEdit = LevelEdit(deletions: seq<nat>, additions: seq<Meta>)

  function DeleteAll(l: Level, numbers: seq<nat>): Level {
    if numbers == [] then l else DeleteNumber(DeleteAll(l, numbers[..|numbers| - 1]), numbers[|numbers| - 1])
  }

  function AddAll(l: Level, fs: seq<Meta>): Level {
    if fs == [] then l else AddFile(AddAll(l, fs[..|fs| - 1]), fs[|fs| - 1])
  }

  function ApplyEdit(l: Level, e: LevelEdit): Level {
    AddAll(DeleteAll(l, e.deletions), e.additions)
  }

  function ApplyEdits(l: Level, es: seq<LevelEdit>): Level {
    if es == [] then l else ApplyEdit(ApplyEdits(l, es[..|es| - 1]), es[|es| - 1])
  }

  function Elements(fs: seq<Meta>): set<Meta> {
    set f | f in fs
  }

  /** The files after applying each edit to the file set by itself. */
  function OneByOne(files: set<Meta>, es: seq<LevelEdit>): set<Meta> {
    if es == [] then files
    else
      var e := es[|es| - 1];
      (set f | f in OneByOne(files, es[..|es| - 1]) && f.number !in e.deletions) + Elements(e.additions)
  }

  /** File numbers are never reused: every addition's number is new to the level. */
  ghost predicate FreshNumbers(base: seq<Meta>, es: seq<LevelEdit>) {
    && (forall i, f, g :: 0 <= i < |es| && f in es[i].additions && g in base ==> f.number != g.number)
    && (forall i, j, f, g :: 0 <= i < j < |es| && f in es[i].additions && g in es[j].additions ==> f.number != g.number)
    && (forall i, p, q :: 0 <= i < |es| && 0 <= p < q < |es[i].additions| ==>
          es[i].additions[p].number != es[i].additions[q].number)
  }

  lemma {:induction false} DeleteAllRemoves(l: Level, numbers: seq<nat>, f: Meta)
    ensures Survives(DeleteAll(l, numbers), f) <==> Survives(l, f) && f.number !in numbers
  {
    if numbers == [] {
    } else {
      var last := |numbers| - 1;
      DeleteAllRemoves(l, numbers[..last], f);
      DeleteRemoves(DeleteAll(l, numbers[..last]), numbers[last], f);
      assert numbers == numbers[..last] + [numbers[last]];
    }
  }

  lemma {:induction false} DeleteAllKeeps(l: Level, numbers: seq<nat>)
    ensures DeleteAll(l, numbers).added == l.added && DeleteAll(l, numbers).base == l.base
  {
    if numbers == [] {
    } else {
      DeleteAllKeeps(l, numbers[..|numbers| - 1]);
    }
  }

  /** New numbers make every addition exact. */
  lemma {:induction false} AddAllAdds(l: Level, fs: seq<Meta>)
    requires StrictOrder(l.added)
    requires forall f, g :: f in fs && (g in l.base || g in l.added) ==> f.number != g.number
    requires forall p, q :: 0 <= p < q < |fs| ==> fs[p].number != fs[q].number
    ensures StrictOrder(AddAll(l, fs).added) && AddAll(l, fs).base == l.base
    ensures forall f :: f in AddAll(l, fs).added <==> f in l.added || f in fs
    ensures forall f :: Survives(AddAll(l, fs), f) <==> Survives(l, f) || f in fs
  {
    if fs == [] {
    } else {
      var last := |fs| - 1;
      AddAllAdds(l, fs[..last]);
      var m, g := AddAll(l, fs[..last]), fs[last];
      assert fs == fs[..last] + [g];
      assert CleanAdd(m, g);
      AddIsExact(m, g);
      InsertKeepsOrder(m.added, g);
    }
  }

  lemma {:induction false} AddAllCounts(l: Level, fs: seq<Meta>)
    requires StrictOrder(l.added)
    requires forall f, g :: f in fs && (g in l.base || g in l.added) ==> f.number != g.number
    requires forall p, q :: 0 <= p < q < |fs| ==> fs[p].number != fs[q].number
    ensures multiset(AddAll(l, fs).added) == multiset(l.added) + multiset(fs)
  {
    hide Insert, StrictOrder, Survives, Before;
    if fs == [] {
    } else {
      var last := |fs| - 1;
      var front, g := fs[..last], fs[last];
      assert fs == front + [g];
      AddAllCounts(l, front);
      AddAllAdds(l, front);
      InsertCounts(AddAll(l, front).added, g);
      assert multiset(fs) == multiset(front) + multiset{g};
    }
  }

  /** All additions, in order. */
  function AdditionRun(es: seq<LevelEdit>): seq<Meta> {
    if es == [] then [] else AdditionRun(es[..|es| - 1]) + es[|es| - 1].additions
  }

  function AllAdditions(es: seq<LevelEdit>): set<Meta> {
    if es == [] then {} else AllAdditions(es[..|es| - 1]) + Elements(es[|es| - 1].additions)
  }

  lemma {:induction false} AdditionIndex(es: seq<LevelEdit>, g: Meta)
    requires g in AllAdditions(es)
    ensures exists i :: 0 <= i < |es| && g in es[i].additions
  {
    var last := |es| - 1;
    if g in es[last].additions {
    } else {
      AdditionIndex(es[..last], g);
      var i :| 0 <= i < last && g in es[..last][i].additions;
      assert g in es[i].additions;
    }
  }

  lemma FreshLast(base: seq<Meta>, es: seq<LevelEdit>, f: Meta, g: Meta)
    requires FreshNumbers(base, es) && es != []
    requires f in es[|es| - 1].additions && (g in base || g in AllAdditions(es[..|es| - 1]))
    ensures f.number != g.number
  {
    if g !in base {
      AdditionIndex(es[..|es| - 1], g);
      var i :| 0 <= i < |es| - 1 && g in es[..|es| - 1][i].additions;
      assert g in es[i].additions;
    }
  }

  lemma FreshPrefix(base: seq<Meta>, es: seq<LevelEdit>)
    requires FreshNumbers(base, es) && es != []
    ensures FreshNumbers(base, es[..|es| - 1])
  {
    var front := es[..|es| - 1];
    assert forall i :: 0 <= i < |front| ==> front[i] == es[i];
  }

  /** One edit whose additions have new numbers. */
  lemma ApplyEditIsExact(l: Level, e: LevelEdit)
    requires StrictOrder(l.added)
    requires forall f, g :: f in e.additions && (g in l.base || g in l.added) ==> f.number != g.number
    requires forall p, q :: 0 <= p < q < |e.additions| ==> e.additions[p].number != e.additions[q].number
    ensures var l' := ApplyEdit(l, e);
            && StrictOrder(l'.added) && l'.base == l.base
            && (forall f :: f in l'.added <==> f in l.added || f in e.additions)
            && multiset(l'.added) == multiset(l.added) + multiset(e.additions)
            && (forall f :: Survives(l', f) <==>
                            (Survives(l, f) && f.number !in e.deletions) || f in e.additions)
  {
    hide Survives;
    forall f
      ensures Survives(DeleteAll(l, e.deletions), f) <==> Survives(l, f) && f.number !in e.deletions
    {
      DeleteAllRemoves(l, e.deletions, f);
    }
    DeleteAllKeeps(l, e.deletions);
    AddAllAdds(DeleteAll(l, e.deletions), e.additions);
    AddAllCounts(DeleteAll(l, e.deletions), e.additions);
  }

  /** Batched edits equal one-by-one edits: what survives is exactly the set that applying each
      edit's deletions and then its additions in turn leaves. */
  lemma {:induction false} BatchIsOneByOne(base: seq<Meta>, es: seq<LevelEdit>)
    requires FreshNumbers(base, es)
    ensures var l := ApplyEdits(Level(base, {}, []), es);
            && StrictOrder(l.added) && l.base == base
            && (forall f :: f in l.added <==> f in AllAdditions(es))
            && multiset(l.added) == multiset(AdditionRun(es))
            && (forall f :: Survives(l, f) <==> f in OneByOne(Elements(base), es))
  {
    hide FreshNumbers, ApplyEdit, StrictOrder;
    if es == [] {
      assert Level(base, {}, []).added == [];
      EmptyOrder();
    } else {
      var last := |es| - 1;
      var before, e := es[..last], es[last];
      FreshPrefix(base, es);
      BatchIsOneByOne(base, before);
      var l := ApplyEdits(Level(base, {}, []), before);
      forall f, g | f in e.additions && (g in l.base || g in l.added)
        ensures f.number != g.number
      {
        FreshLast(base, es, f, g);
      }
      FreshWithin(base, es, last);
      ApplyEditIsExact(l, e);
    }
  }

  lemma EmptyOrder()
    ensures StrictOrder([])
  {
  }

  lemma FreshWithin(base: seq<Meta>, es: seq<LevelEdit>, i: nat)
    requires FreshNumbers(base, es) && i < |es|
    ensures forall p, q :: 0 <= p < q < |es[i].additions| ==> es[i].additions[p].number != es[i].additions[q].number
  {
  }

  // ---------- SaveTo ----------

  function Kept(fs: seq<Meta>, deleted: set<nat>): seq<Meta> {
    if fs == [] then []
    else
      var rest := Kept(fs[..|fs| - 1], deleted);
      if fs[|fs| - 1].number in deleted then rest else rest + [fs[|fs| - 1]]
  }

  lemma {:induction false} KeptCount(fs: seq<Meta>, deleted: set<nat>, f: Meta)
    ensures multiset(Kept(fs, deleted))[f] == if f.number in deleted then 0 else multiset(fs)[f]
  {
    if fs == [] {
    } else {
      KeptCount(fs[..|fs| - 1], deleted, f);
      assert fs == fs[..|fs| - 1] + [fs[|fs| - 1]];
    }
  }

  lemma {:induction false} KeptOrder(fs: seq<Meta>, deleted: set<nat>)
    requires InOrder(fs)
    ensures InOrder(Kept(fs, deleted))
  {
    if fs == [] {
    } else {
      var last := |fs| - 1;
      KeptOrder(fs[..last], deleted);
      var rest := Kept(fs[..last], deleted);
      forall i | 0 <= i < |rest|
        ensures !Before(fs[last], rest[i])
      {
        KeptCount(fs[..last], deleted, rest[i]);
        assert rest[i] in multiset(rest);
        assert rest[i] in fs[..last];
      }
    }
  }

  /** The ranges of neighbours do not meet: what `MaybeAddFile` asserts above level 0. */
  ghost predicate NeighboursApart(fs: seq<Meta>) {
    forall i :: 0 <= i < |fs| - 1 ==> Less(fs[i].largest.key, fs[i + 1].smallest.key)
  }

  /** No two ranges meet. */
  ghost predicate RangesApart(fs: seq<Meta>) {
    forall i, j :: 0 <= i < j < |fs| ==>
      Less(fs[i].largest.key, fs[j].smallest.key) || Less(fs[j].largest.key, fs[i].smallest.key)
  }

  /** On files in order with sensible ranges the assertion passes exactly when no ranges meet. */
  lemma AssertionMeansDisjoint(fs: seq<Meta>)
    requires StrictOrder(fs)
    requires forall f :: f in fs ==> AtMost(f.smallest.key, f.largest.key)
    ensures NeighboursApart(fs) <==> RangesApart(fs)
  {
    if NeighboursApart(fs) {
      forall i, j | 0 <= i < j < |fs|
        ensures Less(fs[i].largest.key, fs[j].smallest.key)
      {
        FarApart(fs, i, j);
      }
    }
    if RangesApart(fs) {
      forall i | 0 <= i < |fs| - 1
        ensures Less(fs[i].largest.key, fs[i + 1].smallest.key)
      {
        var f, g := fs[i], fs[i + 1];
        BeforeIsOrder(f, g);
        if Less(g.largest.key, f.smallest.key) {
          AtMostThenLess(g.smallest.key, g.largest.key, f.smallest.key);
          LessAsymmetric(g.smallest.key, f.smallest.key);
        }
      }
    }
  }

  lemma {:induction false} FarApart(fs: seq<Meta>, i: nat, j: nat)
    requires NeighboursApart(fs) && i < j < |fs|
    requires forall f :: f in fs ==> AtMost(f.smallest.key, f.largest.key)
    ensures Less(fs[i].largest.key, fs[j].smallest.key)
    decreases j
  {
    if i == j - 1 {
    } else {
      FarApart(fs, i, j - 1);
      assert fs[j - 1] in fs;
      LessThenAtMost(fs[i].largest.key, fs[j - 1].smallest.key, fs[j - 1].largest.key);
      LessTransitive(fs[i].largest.key, fs[j - 1].largest.key, fs[j].smallest.key);
    }
  }

  /** One more reference for each file listed. */
  function Counted(refs: multiset<Meta>, fs: seq<Meta>): multiset<Meta> {
    refs + multiset(fs)
  }

  lemma CountedPush(refs: multiset<Meta>, fs: seq<Meta>, f: Meta)
    ensures Counted(refs, fs + [f]) == Counted(refs, fs) + multiset{f}
    ensures Counted(refs, []) == refs
  {
  }

  /** `MaybeAddFile`: `ok` records whether the overlap assertion has held so far; `refs` counts each
      file's references. */
  method MaybeAddFile(files: seq<Meta>, ok: bool, refs: multiset<Meta>, level: nat, deleted: set<nat>, f: Meta,
                      ghost refs0: multiset<Meta>)
    returns (files': seq<Meta>, ok': bool, refs': multiset<Meta>)
    requires ok <==> level == 0 || NeighboursApart(files)
    requires refs == Counted(refs0, files)
    ensures files' == if f.number in deleted then files else files + [f]
    ensures ok' <==> level == 0 || NeighboursApart(files')
    ensures refs' == Counted(refs0, files')
  {
    files', ok', refs' := files, ok, refs;
    if f.number !in deleted {
      if level > 0 && files != [] {
        var r := Compare(files[|files| - 1].largest.key, f.smallest.key);
        CompareIsLexicographic(files[|files| - 1].largest.key, f.smallest.key);
        ok' := ok && r < 0;
      }
      refs' := refs + multiset{f};
      files' := files + [f];
      CountedPush(refs0, files, f);
      NeighboursPush(files, f);
    }
  }

  lemma NeighboursPush(fs: seq<Meta>, f: Meta)
    ensures NeighboursApart(fs + [f]) <==>
            NeighboursApart(fs) && (fs == [] || Less(fs[|fs| - 1].largest.key, f.smallest.key))
  {
    var gs := fs + [f];
    assert forall i :: 0 <= i < |fs| ==> gs[i] == fs[i];
    if NeighboursApart(gs) && fs != [] {
      assert Less(gs[|fs| - 1].largest.key, gs[|fs| - 1 + 1].smallest.key);
    }
    if NeighboursApart(gs) {
      forall i | 0 <= i < |fs| - 1
        ensures Less(fs[i].largest.key, fs[i + 1].smallest.key)
      {
        assert Less(gs[i].largest.key, gs[i + 1].smallest.key);
      }
    }
  }

  /** In order, and made of exactly these two runs. */
  ghost predicate Merges(merged: seq<Meta>, base: seq<Meta>, added: seq<Meta>) {
    InOrder(merged) && multiset(merged) == multiset(base) + multiset(added)
  }

  /** Nothing in `rest` belongs before anything in `merged`. */
  ghost predicate NoneBefore(rest: seq<Meta>, merged: seq<Meta>) {
    forall i, j :: 0 <= i < |rest| && 0 <= j < |merged| ==> !Before(rest[i], merged[j])
  }

  lemma TakeBase(merged: seq<Meta>, base: seq<Meta>, added: seq<Meta>, b: nat, a: nat)
    requires InOrder(base) && StrictOrder(added) && b < |base| && a <= |added|
    requires Merges(merged, base[..b], added[..a])
    requires NoneBefore(base[b..], merged) && NoneBefore(added[a..], merged)
    requires a < |added| ==> !Before(added[a], base[b])
    ensures Merges(merged + [base[b]], base[..b + 1], added[..a])
    ensures NoneBefore(base[b + 1..], merged + [base[b]]) && NoneBefore(added[a..], merged + [base[b]])
  {
    assert base[..b + 1] == base[..b] + [base[b]];
    assert base[b..][0] == base[b];
    assert base[b + 1..] == base[b..][1..];
    forall k | a <= k < |added|
      ensures !Before(added[k], base[b])
    {
      if Before(added[k], base[b]) && k > a {
        BeforeIsOrder(base[b], added[k]);
        BeforeTransitive(added[a], added[k], base[b]);
      }
    }
  }

  lemma TakeAdded(merged: seq<Meta>, base: seq<Meta>, added: seq<Meta>, b: nat, a: nat)
    requires InOrder(base) && StrictOrder(added) && b <= |base| && a < |added|
    requires Merges(merged, base[..b], added[..a])
    requires NoneBefore(base[b..], merged) && NoneBefore(added[a..], merged)
    requires b < |base| ==> Before(added[a], base[b])
    ensures Merges(merged + [added[a]], base[..b], added[..a + 1])
    ensures NoneBefore(base[b..], merged + [added[a]]) && NoneBefore(added[a + 1..], merged + [added[a]])
  {
    assert added[..a + 1] == added[..a] + [added[a]];
    assert added[a..][0] == added[a];
    assert added[a + 1..] == added[a..][1..];
    forall k | a < k < |added|
      ensures !Before(added[k], added[a])
    {
      BeforeIsOrder(added[a], added[k]);
    }
    forall k | b <= k < |base|
      ensures !Before(base[k], added[a])
    {
      if k == b {
        BeforeIsOrder(added[a], base[b]);
      } else {
        BeforeTransitive(added[a], base[b], base[k]);
        BeforeIsOrder(added[a], base[k]);
      }
    }
  }

  lemma KeptPush(fs: seq<Meta>, f: Meta, deleted: set<nat>)
    ensures Kept(fs + [f], deleted) == if f.number in deleted then Kept(fs, deleted) else Kept(fs, deleted) + [f]
  {
    assert (fs + [f])[..|fs|] == fs;
  }

  /** What a level is saved as: in order, and each file as often as base and additions hold it. */
  ghost predicate SavedAs(files: seq<Meta>, l: Level) {
    && InOrder(files)
    && forall f: Meta :: multiset(files)[f] ==
         if f.number in l.deleted then 0 else multiset(l.base)[f] + multiset(l.added)[f]
  }

  lemma KeptIsSaved(merged: seq<Meta>, l: Level)
    requires Merges(merged, l.base, l.added)
    ensures SavedAs(Kept(merged, l.deleted), l)
  {
    KeptOrder(merged, l.deleted);
    forall f: Meta
      ensures multiset(Kept(merged, l.deleted))[f] ==
              if f.number in l.deleted then 0 else multiset(l.base)[f] + multiset(l.added)[f]
    {
      KeptCount(merged, l.deleted, f);
    }
  }

  /** The two-way merge of one level: base files in one pass, and before each added file every base
      file that does not come after it. `ok` is the overlap assertion; every file saved gains a reference. */
  method SaveLevel(l: Level, level: nat, refs0: multiset<Meta>)
    returns (files: seq<Meta>, ok: bool, refs: multiset<Meta>)
    requires InOrder(l.base) && StrictOrder(l.added)
    ensures SavedAs(files, l)
    ensures ok <==> level == 0 || NeighboursApart(files)
    ensures refs == Counted(refs0, files)
  {
    hide InOrder, StrictOrder, Merges, NoneBefore, Kept, NeighboursApart, Before, Counted;
    CountedPush(refs0, [], FileMetaData(0, 0, E.BLANK_ENTRY, E.BLANK_ENTRY));
    ghost var merged := [];
    files, ok, refs := [], true, refs0;
    var b := 0;
    SaveStart(l);
    for a := 0 to |l.added|
      invariant b <= |l.base| && files == Kept(merged, l.deleted) && refs == Counted(refs0, files)
      invariant ok <==> level == 0 || NeighboursApart(files)
      invariant Merges(merged, l.base[..b], l.added[..a])
      invariant NoneBefore(l.base[b..], merged) && NoneBefore(l.added[a..], merged)
    {
      while b < |l.base| && !Before(l.added[a], l.base[b])
        invariant b <= |l.base| && files == Kept(merged, l.deleted) && refs == Counted(refs0, files)
        invariant ok <==> level == 0 || NeighboursApart(files)
        invariant Merges(merged, l.base[..b], l.added[..a])
        invariant NoneBefore(l.base[b..], merged) && NoneBefore(l.added[a..], merged)
      {
        files, ok, refs := MaybeAddFile(files, ok, refs, level, l.deleted, l.base[b], refs0);
        TakeBase(merged, l.base, l.added, b, a);
        KeptPush(merged, l.base[b], l.deleted);
        merged := merged + [l.base[b]];
        b := b + 1;
      }
      files, ok, refs := MaybeAddFile(files, ok, refs, level, l.deleted, l.added[a], refs0);
      TakeAdded(merged, l.base, l.added, b, a);
      KeptPush(merged, l.added[a], l.deleted);
      merged := merged + [l.added[a]];
    }
    while b < |l.base|
      invariant b <= |l.base| && files == Kept(merged, l.deleted) && refs == Counted(refs0, files)
      invariant ok <==> level == 0 || NeighboursApart(files)
      invariant Merges(merged, l.base[..b], l.added[..|l.added|])
      invariant NoneBefore(l.base[b..], merged) && NoneBefore(l.added[|l.added|..], merged)
    {
      files, ok, refs := MaybeAddFile(files, ok, refs, level, l.deleted, l.base[b], refs0);
      TakeBase(merged, l.base, l.added, b, |l.added|);
      KeptPush(merged, l.base[b], l.deleted);
      merged := merged + [l.base[b]];
      b := b + 1;
    }
    assert l.base[..b] == l.base && l.added[..|l.added|] == l.added;
    KeptIsSaved(merged, l);
  }

  lemma SaveStart(l: Level)
    ensures Merges([], l.base[..0], l.added[..0]) && NoneBefore(l.base, []) && NoneBefore(l.added, [])
    ensures l.base[0..] == l.base && l.added[0..] == l.added
    ensures Kept([], l.deleted) == [] && NeighboursApart([])
  {
  }

  /** The saved files are the survivors, each once, when base and additions share no place. */
  lemma SavedSurvivors(files: seq<Meta>, l: Level)
    requires StrictOrder(l.base) && StrictOrder(l.added)
    requires forall f, g :: f in l.base && g in l.added ==> !Equivalent(f, g)
    requires SavedAs(files, l)
    ensures StrictOrder(files)
    ensures forall f :: f in files <==> Survives(l, f)
  {
    hide SavedAs, Before, Equivalent;
    forall f: Meta
      ensures multiset(files)[f] == if Survives(l, f) then 1 else 0
    {
      StrictCount(l.base, f);
      StrictCount(l.added, f);
      BeforeIsOrder(f, f);
      SelfEquivalent(f);
      SavedCount(files, l, f);
    }
    forall f: Meta
      ensures f in files <==> Survives(l, f)
    {
      assert f in files <==> f in multiset(files);
    }
    forall i, j | 0 <= i < j < |files|
      ensures Before(files[i], files[j])
    {
      var f, g := files[i], files[j];
      SavedNotBefore(files, l, i, j);
      BeforeIsOrder(f, g);
      if Equivalent(f, g) {
        SameFile(l, f, g);
        SplitCount(files, i, j);
      }
    }
  }

  lemma SelfEquivalent(f: Meta)
    ensures Equivalent(f, f)
  {
  }

  lemma SavedCount(files: seq<Meta>, l: Level, f: Meta)
    requires SavedAs(files, l)
    ensures multiset(files)[f] == if f.number in l.deleted then 0 else multiset(l.base)[f] + multiset(l.added)[f]
  {
  }

  lemma SavedNotBefore(files: seq<Meta>, l: Level, i: nat, j: nat)
    requires SavedAs(files, l) && i < j < |files|
    ensures !Before(files[j], files[i])
  {
  }

  lemma SameFile(l: Level, f: Meta, g: Meta)
    requires StrictOrder(l.base) && StrictOrder(l.added)
    requires forall f, g :: f in l.base && g in l.added ==> !Equivalent(f, g)
    requires Survives(l, f) && Survives(l, g) && Equivalent(f, g)
    ensures f == g
  {
    if f in l.base && g in l.base {
      EquivalentOnce(l.base, f, g);
    } else if f in l.added && g in l.added {
      EquivalentOnce(l.added, f, g);
    }
  }

  lemma {:induction false} StrictCount(fs: seq<Meta>, f: Meta)
    requires StrictOrder(fs)
    ensures multiset(fs)[f] == if f in fs then 1 else 0
  {
    if fs == [] {
    } else {
      var last := |fs| - 1;
      StrictCount(fs[..last], f);
      assert fs == fs[..last] + [fs[last]];
      if f == fs[last] && f in fs[..last] {
        BeforeIsOrder(f, f);
      }
    }
  }

  lemma SplitCount(fs: seq<Meta>, i: nat, j: nat)
    requires i < j < |fs| && fs[i] == fs[j]
    ensures multiset(fs)[fs[i]] >= 2
  {
    assert fs == fs[..j] + fs[j..];
    assert fs[i] in fs[..j] && fs[j] in fs[j..];
    assert multiset(fs) == multiset(fs[..j]) + multiset(fs[j..]);
    assert fs[i] in multiset(fs[..j]) && fs[j] in multiset(fs[j..]);
  }

  // ---------- the theorem ----------

  ghost predicate Apart(f: Meta, g: Meta) {
    Less(f.largest.key, g.smallest.key) || Less(g.largest.key, f.smallest.key)
  }

  ghost predicate AllApart(fs: set<Meta>) {
    forall f, g :: f in fs && g in fs && f != g ==> Apart(f, g)
  }

  /** With fresh numbers, a level saved after a batch of edits holds exactly the files that applying
      each edit by itself leaves, once each and in order; and the assertion above level 0 passes
      exactly when no two of them overlap. */
  lemma BatchSavesExactly(base: seq<Meta>, es: seq<LevelEdit>, files: seq<Meta>)
    requires StrictOrder(base) && FreshNumbers(base, es)
    requires SavedAs(files, ApplyEdits(Level(base, {}, []), es))
    ensures StrictOrder(files) && Elements(files) == OneByOne(Elements(base), es)
    ensures (forall f :: f in files ==> AtMost(f.smallest.key, f.largest.key)) ==>
            (NeighboursApart(files) <==> AllApart(OneByOne(Elements(base), es)))
  {
    hide SavedAs, StrictOrder, FreshNumbers, OneByOne, ApplyEdits, NeighboursApart, RangesApart, AllApart, Survives;
    var l := ApplyEdits(Level(base, {}, []), es);
    BatchIsOneByOne(base, es);
    forall f, g | f in l.base && g in l.added
      ensures !Equivalent(f, g)
    {
      AddedIsFresh(base, es, f, g);
    }
    SavedSurvivors(files, l);
    if forall f :: f in files ==> AtMost(f.smallest.key, f.largest.key) {
      AssertionMeansDisjoint(files);
      RangesApartOfSet(files);
    }
  }

  lemma AddedIsFresh(base: seq<Meta>, es: seq<LevelEdit>, f: Meta, g: Meta)
    requires FreshNumbers(base, es) && f in base && g in AllAdditions(es)
    ensures f.number != g.number
  {
    AdditionIndex(es, g);
  }

  lemma RangesApartOfSet(fs: seq<Meta>)
    requires StrictOrder(fs)
    ensures RangesApart(fs) <==> AllApart(Elements(fs))
  {
    if RangesApart(fs) {
      forall f, g | f in fs && g in fs && f != g
        ensures Apart(f, g)
      {
        var i :| 0 <= i < |fs| && fs[i] == f;
        var j :| 0 <= j < |fs| && fs[j] == g;
      }
    }
    if AllApart(Elements(fs)) {
      forall i, j | 0 <= i < j < |fs|
        ensures Less(fs[i].largest.key, fs[j].smallest.key) || Less(fs[j].largest.key, fs[i].smallest.key)
      {
        BeforeIsOrder(fs[i], fs[j]);
        SelfEquivalent(fs[i]);
        assert fs[i] in Elements(fs) && fs[j] in Elements(fs);
        assert Apart(fs[i], fs[j]);
      }
    }
  }

  // ---------- the class ----------

  function DeletionsAt(ps: seq<E.Pair>, level: nat): seq<nat> {
    if ps == [] then []
    else
      var (rest, p) := (DeletionsAt(ps[..|ps| - 1], level), ps[|ps| - 1]);
      if p.0 == level then rest + [p.1] else rest
  }

  function AdditionsAt(fs: seq<(nat, Meta)>, level: nat): seq<Meta> {
    if fs == [] then []
    else
      var (rest, f) := (AdditionsAt(fs[..|fs| - 1], level), fs[|fs| - 1]);
      if f.0 == level then rest + [f.1] else rest
  }

  /** An edit's part for one level. */
  function AtLevel(e: E.Edit, level: nat): LevelEdit {
    LevelEdit(DeletionsAt(e.deletedFiles, level), AdditionsAt(e.newFiles, level))
  }

  lemma {:induction false} AddAllKeepsOrder(l: Level, fs: seq<Meta>)
    requires StrictOrder(l.added)
    ensures StrictOrder(AddAll(l, fs).added) && AddAll(l, fs).base == l.base
  {
    if fs == [] {
    } else {
      AddAllKeepsOrder(l, fs[..|fs| - 1]);
      InsertKeepsOrder(AddAll(l, fs[..|fs| - 1]).added, fs[|fs| - 1]);
    }
  }

  ghost predicate LevelValid(l: Level) {
    InOrder(l.base) && StrictOrder(l.added)
  }

  lemma ApplyEditKeepsValid(l: Level, e: LevelEdit)
    requires LevelValid(l)
    ensures LevelValid(ApplyEdit(l, e))
  {
    DeleteAllKeeps(l, e.deletions);
    AddAllKeepsOrder(DeleteAll(l, e.deletions), e.additions);
  }

  class Builder {
    var levels: array<Level>
    var refs: array<multiset<Meta>>     // `refs` of each level's files

    ghost predicate Valid()
      reads this, levels, refs
    {
      && levels.Length == refs.Length == E.MAX_LEVEL
      && forall k :: 0 <= k < E.MAX_LEVEL ==> LevelValid(levels[k]) && Owned(levels[k], refs[k])
    }

    constructor (base: seq<seq<Meta>>, baseRefs: seq<multiset<Meta>>)
      requires |base| == |baseRefs| == E.MAX_LEVEL && forall k :: 0 <= k < E.MAX_LEVEL ==> InOrder(base[k])
      ensures Valid() && fresh(levels) && fresh(refs)
      ensures forall k :: 0 <= k < E.MAX_LEVEL ==> levels[k] == Level(base[k], {}, []) && refs[k] == baseRefs[k]
    {
      levels := new Level[E.MAX_LEVEL](k requires 0 <= k < |base| => Level(base[k], {}, []));
      refs := new multiset<Meta>[E.MAX_LEVEL](k requires 0 <= k < |baseRefs| => baseRefs[k]);
    }

    /** Each added file is a copy with one reference, the builder's own. */
    method Apply(edit: E.Edit)
      requires Valid() && E.LevelsOk(edit)
      modifies levels, refs
      ensures Valid()
      ensures forall k :: 0 <= k < E.MAX_LEVEL ==>
                && levels[k] == ApplyEdit(old(levels[k]), AtLevel(edit, k))
                && refs[k] == Counted(old(refs[k]), AdditionsAt(edit.newFiles, k))
    {
      hide LevelValid, Owned, Counted, ApplyEdit;
      ApplyDeletions(edit.deletedFiles);
      ApplyAdditions(edit.newFiles);
      assert forall k :: 0 <= k < E.MAX_LEVEL ==> levels[k] == ApplyEdit(old(levels[k]), AtLevel(edit, k)) by {
        ApplyEditParts(edit);
      }
      forall k | 0 <= k < E.MAX_LEVEL
        ensures LevelValid(levels[k]) && Owned(levels[k], refs[k])
      {
        ApplyOwned(old(levels[k]), old(refs[k]), AtLevel(edit, k));
      }
    }

    method ApplyDeletions(ps: seq<E.Pair>)
      requires levels.Length == E.MAX_LEVEL && forall p :: p in ps ==> p.0 < E.MAX_LEVEL
      modifies levels
      ensures forall k :: 0 <= k < E.MAX_LEVEL ==> levels[k] == DeleteAll(old(levels[k]), DeletionsAt(ps, k))
    {
      hide DeleteNumber;
      for i := 0 to |ps|
        invariant forall k :: 0 <= k < E.MAX_LEVEL ==> levels[k] == DeleteAll(old(levels[k]), DeletionsAt(ps[..i], k))
      {
        var (level, number) := ps[i];
        assert ps[i] in ps;
        DeletePush(ps, i);
        levels[level] := DeleteNumber(levels[level], number);
      }
      assert ps[..|ps|] == ps;
    }

    method ApplyAdditions(fs: seq<(nat, Meta)>)
      requires levels.Length == refs.Length == E.MAX_LEVEL && forall f :: f in fs ==> f.0 < E.MAX_LEVEL
      modifies levels, refs
      ensures forall k :: 0 <= k < E.MAX_LEVEL ==>
                && levels[k] == AddAll(old(levels[k]), AdditionsAt(fs, k))
                && refs[k] == Counted(old(refs[k]), AdditionsAt(fs, k))
    {
      hide AddFile, Counted, AddAll, AdditionsAt;
      AddNothing();
      for i := 0 to |fs|
        invariant forall k :: 0 <= k < E.MAX_LEVEL ==> levels[k] == AddAll(old(levels[k]), AdditionsAt(fs[..i], k))
        invariant forall k :: 0 <= k < E.MAX_LEVEL ==> refs[k] == Counted(old(refs[k]), AdditionsAt(fs[..i], k))
      {
        var (level, f) := fs[i];
        assert fs[i] in fs && fs[..i + 1][..i] == fs[..i];
        AddPush(fs, i);
        CountPush(fs, i);
        levels[level] := AddFile(levels[level], f);
        refs[level] := refs[level] + multiset{f};
      }
      assert fs[..|fs|] == fs;
    }

    /** All levels; `ok` is the overlap assertion. */
    method SaveTo() returns (files: seq<seq<Meta>>, ok: bool)
      requires Valid()
      modifies refs
      ensures |files| == E.MAX_LEVEL && Valid()
      ensures forall k :: 0 <= k < E.MAX_LEVEL ==> SavedAs(files[k], levels[k])
      ensures forall k :: 0 <= k < E.MAX_LEVEL ==> refs[k] == Counted(old(refs[k]), files[k])
      ensures ok <==> forall k :: 1 <= k < E.MAX_LEVEL ==> NeighboursApart(files[k])
    {
      hide SavedAs, NeighboursApart, Counted, Owned, LevelValid;
      files, ok := [], true;
      for level := 0 to E.MAX_LEVEL
        invariant |files| == level && Valid()
        invariant forall k :: 0 <= k < level ==> SavedAs(files[k], levels[k])
        invariant forall k :: 0 <= k < level ==> refs[k] == Counted(old(refs[k]), files[k])
        invariant forall k :: level <= k < E.MAX_LEVEL ==> refs[k] == old(refs[k])
        invariant ok <==> forall k :: 1 <= k < level ==> NeighboursApart(files[k])
      {
        var saved, apart := SaveOne(level);
        files, ok := files + [saved], ok && apart;
      }
    }

    method SaveOne(level: nat) returns (saved: seq<Meta>, apart: bool)
      requires Valid() && level < E.MAX_LEVEL
      modifies refs
      ensures Valid() && SavedAs(saved, levels[level])
      ensures apart <==> level == 0 || NeighboursApart(saved)
      ensures refs[level] == Counted(old(refs[level]), saved)
      ensures forall k :: 0 <= k < E.MAX_LEVEL && k != level ==> refs[k] == old(refs[k])
    {
      hide SavedAs, NeighboursApart, Counted, Owned, LevelValid, InOrder, StrictOrder;
      assert LevelValid(levels[level]) && Owned(levels[level], refs[level]);
      LevelOrder(levels[level]);
      var counted;
      saved, apart, counted := SaveLevel(levels[level], level, refs[level]);
      StillOwned(levels[level], refs[level], saved);
      refs[level] := counted;
    }

    /** The destructor gives the builder's own references back. */
    method Destroy()
      requires Valid()
      modifies refs
      ensures forall k :: 0 <= k < E.MAX_LEVEL ==> refs[k] == Released(old(refs[k]), levels[k].added)
    {
      hide Released, LevelValid, Owned;
      for level := 0 to E.MAX_LEVEL
        invariant forall k :: 0 <= k < level ==> refs[k] == Released(old(refs[k]), levels[k].added)
        invariant forall k :: level <= k < E.MAX_LEVEL ==> refs[k] == old(refs[k])
      {
        assert Owned(levels[level], refs[level]);
        var released := UnrefAdded(levels[level], refs[level]);
        refs[level] := released;
      }
    }
  }

  /** The builder holds a reference to each file of its set. */
  ghost predicate Owned(l: Level, refs: multiset<Meta>) {
    multiset(l.added) <= refs
  }

  /** One reference less for each file listed. */
  function Released(refs: multiset<Meta>, fs: seq<Meta>): multiset<Meta> {
    refs - multiset(fs)
  }

  /** No count is taken below zero. */
  method UnrefAdded(l: Level, refs: multiset<Meta>) returns (r: multiset<Meta>)
    requires Owned(l, refs)
    ensures r == Released(refs, l.added)
  {
    r := refs;
    var toUnref := l.added;
    for i := 0 to |toUnref|
      invariant r == refs - multiset(toUnref[..i])
    {
      assert toUnref[..i + 1] == toUnref[..i] + [toUnref[i]];
      assert toUnref == toUnref[..i + 1] + toUnref[i + 1..];
      assert r[toUnref[i]] > 0;
      r := r - multiset{toUnref[i]};
    }
    assert toUnref[..|toUnref|] == toUnref;
  }

  lemma LevelOrder(l: Level)
    requires LevelValid(l)
    ensures InOrder(l.base) && StrictOrder(l.added)
  {
  }

  lemma StillOwned(l: Level, refs: multiset<Meta>, fs: seq<Meta>)
    requires Owned(l, refs)
    ensures Owned(l, Counted(refs, fs))
  {
  }

  lemma ApplyOwned(l: Level, refs: multiset<Meta>, e: LevelEdit)
    requires LevelValid(l) && Owned(l, refs)
    ensures LevelValid(ApplyEdit(l, e)) && Owned(ApplyEdit(l, e), Counted(refs, e.additions))
  {
    hide StrictOrder, InOrder;
    ApplyEditKeepsValid(l, e);
    DeleteAllKeeps(l, e.deletions);
    AddAllAtMost(DeleteAll(l, e.deletions), e.additions);
  }

  lemma ApplyEditParts(edit: E.Edit)
    ensures forall k, l :: ApplyEdit(l, AtLevel(edit, k)) ==
                           AddAll(DeleteAll(l, DeletionsAt(edit.deletedFiles, k)), AdditionsAt(edit.newFiles, k))
  {
  }

  lemma AddNothing()
    ensures forall l :: AddAll(l, []) == l
    ensures forall k :: AdditionsAt([], k) == []
    ensures forall refs :: Counted(refs, []) == refs
  {
  }

  lemma CountPush(fs: seq<(nat, Meta)>, i: nat)
    requires i < |fs|
    ensures forall k, refs :: Counted(refs, AdditionsAt(fs[..i + 1], k)) ==
                              if k == fs[i].0 then Counted(refs, AdditionsAt(fs[..i], k)) + multiset{fs[i].1}
                              else Counted(refs, AdditionsAt(fs[..i], k))
  {
    assert fs[..i + 1][..i] == fs[..i];
  }

  // ---------- a builder's whole life ----------

  /** The parts of the edits for one level. */
  function Parts(edits: seq<E.Edit>, level: nat): seq<LevelEdit> {
    seq(|edits|, i requires 0 <= i < |edits| => AtLevel(edits[i], level))
  }

  /** Any number of edits applied, then saved, with new file numbers: on every level exactly the sorted set
      that applying each edit by itself leaves; the overlap assertion holds exactly if no two files of a
      level above 0 overlap; and once the builder is gone, each file has one more reference per listing. */
  method SaveBatch(base: seq<seq<Meta>>, baseRefs: seq<multiset<Meta>>, edits: seq<E.Edit>)
    returns (files: seq<seq<Meta>>, ok: bool, refs: seq<multiset<Meta>>)
    requires |base| == |baseRefs| == E.MAX_LEVEL
    requires forall i :: 0 <= i < |edits| ==> E.LevelsOk(edits[i])
    requires forall k :: 0 <= k < E.MAX_LEVEL ==> StrictOrder(base[k]) && FreshNumbers(base[k], Parts(edits, k))
    ensures |files| == |refs| == E.MAX_LEVEL
    ensures forall k :: 0 <= k < E.MAX_LEVEL ==>
              StrictOrder(files[k]) && Elements(files[k]) == OneByOne(Elements(base[k]), Parts(edits, k))
    ensures (forall k, f :: 1 <= k < E.MAX_LEVEL && f in files[k] ==> AtMost(f.smallest.key, f.largest.key)) ==>
              (ok <==> forall k :: 1 <= k < E.MAX_LEVEL ==> AllApart(OneByOne(Elements(base[k]), Parts(edits, k))))
    ensures forall k :: 0 <= k < E.MAX_LEVEL ==> refs[k] == baseRefs[k] + multiset(files[k])
  {
    hide StrictOrder, FreshNumbers, InOrder, E.LevelsOk, SavedAs, NeighboursApart, AllApart, OneByOne, ApplyEdit;
    hide LevelValid, AtLevel, Owned, Counted, Released, AdditionRun;
    forall k | 0 <= k < E.MAX_LEVEL
      ensures InOrder(base[k])
    {
      StrictIsInOrder(base[k]);
    }
    NoParts();
    assert edits[..0] == [];
    var builder := new Builder(base, baseRefs);
    for i := 0 to |edits|
      invariant builder.Valid() && fresh(builder.levels) && fresh(builder.refs)
      invariant forall k :: 0 <= k < E.MAX_LEVEL ==>
                  && builder.levels[k] == ApplyEdits(Level(base[k], {}, []), Parts(edits[..i], k))
                  && builder.refs[k] == Counted(baseRefs[k], AdditionRun(Parts(edits[..i], k)))
    {
      PartsPush(edits, i);
      builder.Apply(edits[i]);
    }
    assert edits[..|edits|] == edits;
    files, ok := builder.SaveTo();
    builder.Destroy();
    refs := builder.refs[..];
    forall k | 0 <= k < E.MAX_LEVEL
      ensures StrictOrder(files[k]) && Elements(files[k]) == OneByOne(Elements(base[k]), Parts(edits, k))
      ensures (forall f :: f in files[k] ==> AtMost(f.smallest.key, f.largest.key)) ==>
                (NeighboursApart(files[k]) <==> AllApart(OneByOne(Elements(base[k]), Parts(edits, k))))
      ensures refs[k] == baseRefs[k] + multiset(files[k])
    {
      BatchSavesExactly(base[k], Parts(edits, k), files[k]);
      BatchIsOneByOne(base[k], Parts(edits, k));
      AllReleased(ApplyEdits(Level(base[k], {}, []), Parts(edits, k)), baseRefs[k], Parts(edits, k), files[k]);
    }
  }

  lemma AllReleased(l: Level, refs: multiset<Meta>, es: seq<LevelEdit>, files: seq<Meta>)
    requires multiset(l.added) == multiset(AdditionRun(es))
    ensures Released(Counted(Counted(refs, AdditionRun(es)), files), l.added) == refs + multiset(files)
  {
  }

  lemma StrictIsInOrder(fs: seq<Meta>)
    requires StrictOrder(fs)
    ensures InOrder(fs)
  {
    forall i, j | 0 <= i < j < |fs|
      ensures !Before(fs[j], fs[i])
    {
      BeforeIsOrder(fs[i], fs[j]);
    }
  }

  lemma NoParts()
    ensures forall k, l :: ApplyEdits(l, Parts([], k)) == l
    ensures forall k, refs :: Counted(refs, AdditionRun(Parts([], k))) == refs
  {
  }

  lemma PartsPush(edits: seq<E.Edit>, i: nat)
    requires i < |edits|
    ensures forall k, l :: ApplyEdits(l, Parts(edits[..i + 1], k)) ==
                           ApplyEdit(ApplyEdits(l, Parts(edits[..i], k)), AtLevel(edits[i], k))
    ensures forall k, refs :: Counted(refs, AdditionRun(Parts(edits[..i + 1], k))) ==
                              Counted(Counted(refs, AdditionRun(Parts(edits[..i], k))),
                                      AdditionsAt(edits[i].newFiles, k))
  {
    forall k
      ensures Parts(edits[..i + 1], k) == Parts(edits[..i], k) + [AtLevel(edits[i], k)]
      ensures Parts(edits[..i + 1], k)[..i] == Parts(edits[..i], k)
    {
    }
  }

  /** The set holds no more than what was inserted. */
  lemma {:induction false} AddAllAtMost(l: Level, fs: seq<Meta>)
    ensures multiset(AddAll(l, fs).added) <= multiset(l.added) + multiset(fs)
  {
    hide Insert;
    if fs == [] {
    } else {
      var front, f := fs[..|fs| - 1], fs[|fs| - 1];
      AddAllAtMost(l, front);
      InsertAtMost(AddAll(l, front).added, f);
      assert fs == front + [f];
      SumAtMost(multiset(AddAll(l, front).added), multiset(l.added) + multiset(front), f);
      assert multiset(fs) == multiset(front) + multiset{f};
    }
  }

  lemma SumAtMost(a: multiset<Meta>, b: multiset<Meta>, f: Meta)
    requires a <= b
    ensures a + multiset{f} <= b + multiset{f}
  {
  }

  lemma {:induction false} InsertAtMost(fs: seq<Meta>, f: Meta)
    ensures multiset(Insert(fs, f)) <= multiset(fs) + multiset{f}
  {
    if fs == [] || Before(f, fs[0]) {
    } else if Before(fs[0], f) {
      InsertAtMost(fs[1..], f);
      assert fs == [fs[0]] + fs[1..];
    }
  }

  lemma DeletePush(ps: seq<E.Pair>, i: nat)
    requires i < |ps|
    ensures forall k, l :: DeleteAll(l, DeletionsAt(ps[..i + 1], k)) ==
                           if k == ps[i].0 then DeleteNumber(DeleteAll(l, DeletionsAt(ps[..i], k)), ps[i].1)
                           else DeleteAll(l, DeletionsAt(ps[..i], k))
  {
    assert ps[..i + 1][..i] == ps[..i];
    var k, before := ps[i].0, DeletionsAt(ps[..i], ps[i].0);
    assert DeletionsAt(ps[..i + 1], k)[..|before|] == before;
  }

  lemma AddPush(fs: seq<(nat, Meta)>, i: nat)
    requires i < |fs|
    ensures forall k, l :: AddAll(l, AdditionsAt(fs[..i + 1], k)) ==
                           if k == fs[i].0 then AddFile(AddAll(l, AdditionsAt(fs[..i], k)), fs[i].1)
                           else AddAll(l, AdditionsAt(fs[..i], k))
  {
    assert fs[..i + 1][..i] == fs[..i];
    var k, before := fs[i].0, AdditionsAt(fs[..i], fs[i].0);
    assert AdditionsAt(fs[..i + 1], k)[..|before|] == before;
  }
}
