/** Reference-counted versions on a circular list. They share reference-counted files, and each owns the
    lists frozen into it. */
module VersionRing {
  import opened Files
  import opened Sequences
  import E = VersionEdits
  import P = Pipeline
  import VB = VersionBuilding

  /** What versions list: a file, known by its number, or a frozen list. */
  datatype Shared = File(number: nat) | FrozenList(id: nat)

  /** `refs` of each file and `ref_` of each list. */
  type Refs = map<Shared, nat>

  /** How often something is listed. */
  function FileCount(files: seq<seq<Shared>>, f: Shared): nat {
    if files == [] then 0 else FileCount(files[..|files| - 1], f) + multiset(files[|files| - 1])[f]
  }

  lemma {:induction false} FileCountIsFlatten(files: seq<seq<Shared>>, f: Shared)
    ensures FileCount(files, f) == multiset(Flatten(files))[f]
  {
    if files == [] {
    } else {
      FileCountIsFlatten(files[..|files| - 1], f);
    }
  }

  class Version {
    var next: Version?
    var prev: Version?
    var ref: nat
    var files: seq<seq<Shared>>     // one sequence per level
    var lists: seq<seq<Shared>>     // one sequence per writer

    constructor ()
      ensures ref == 0 && files == seq(E.MAX_LEVEL, i => []) && lists == seq(P.MAX_WRITER, i => [])
    {
      next, prev, ref := null, null, 0;
      files, lists := seq(E.MAX_LEVEL, i => []), seq(P.MAX_WRITER, i => []);
    }

    /** Everything a version holds a reference to. */
    function Listed(): seq<seq<Shared>>
      reads this`files, this`lists
    {
      files + lists
    }
  }

  /** Listings of a file in these versions. */
  ghost function Listings(vs: seq<Version>, f: Shared): nat
    reads vs`files, vs`lists
  {
    if vs == [] then 0 else Listings(vs[..|vs| - 1], f) + FileCount(vs[|vs| - 1].Listed(), f)
  }

  lemma {:induction false} ListingsRemove(vs: seq<Version>, i: nat, f: Shared)
    requires i < |vs|
    ensures Listings(vs, f) == Listings(vs[..i] + vs[i + 1..], f) + FileCount(vs[i].Listed(), f)
    decreases |vs|
  {
    var last := |vs| - 1;
    if i == last {
      assert vs[..i] + vs[i + 1..] == vs[..last];
    } else {
      ListingsRemove(vs[..last], i, f);
      var rest := vs[..i] + vs[i + 1..];
      assert rest[..|rest| - 1] == vs[..last][..i] + vs[..last][i + 1..];
      assert vs[..last][i] == vs[i] && rest[|rest| - 1] == vs[last];
    }
  }

  lemma ListingsPush(vs: seq<Version>, v: Version, f: Shared)
    ensures Listings(vs + [v], f) == Listings(vs, f) + FileCount(v.Listed(), f)
  {
    assert (vs + [v])[..|vs|] == vs;
  }

  /** The list with one version taken out. */
  function Without(vs: seq<Version>, v: Version): seq<Version> {
    if vs == [] then []
    else if vs[|vs| - 1] == v then vs[..|vs| - 1]
    else Without(vs[..|vs| - 1], v) + [vs[|vs| - 1]]
  }

  ghost predicate NoRepeats(vs: seq<Version>) {
    forall i, j :: 0 <= i < j < |vs| ==> vs[i] != vs[j]
  }

  lemma {:induction false} WithoutAt(vs: seq<Version>, v: Version, i: nat)
    requires NoRepeats(vs) && i < |vs| && vs[i] == v
    ensures Without(vs, v) == vs[..i] + vs[i + 1..]
  {
    var last := |vs| - 1;
    if i == last {
    } else {
      WithoutAt(vs[..last], v, i);
      assert vs[..i] + vs[i + 1..] == (vs[..last][..i] + vs[..last][i + 1..]) + [vs[last]];
    }
  }

  lemma {:induction false} WithoutMember(vs: seq<Version>, v: Version)
    requires NoRepeats(vs)
    ensures NoRepeats(Without(vs, v))
    ensures forall u :: u in Without(vs, v) <==> u in vs && u != v
  {
    if vs == [] {
    } else {
      var last := |vs| - 1;
      assert vs == vs[..last] + [vs[last]];
      WithoutMember(vs[..last], v);
      assert vs[last] !in Without(vs[..last], v);
    }
  }

  lemma {:induction false} NotListed(vs: seq<Version>, known: set<Shared>, f: Shared)
    requires forall v :: v in vs ==> Within(v.Listed(), known)
    requires f !in known
    ensures Listings(vs, f) == 0
  {
    if vs == [] {
    } else {
      NotListed(vs[..|vs| - 1], known, f);
      NotCounted(vs[|vs| - 1].Listed(), known, f);
    }
  }

  lemma {:induction false} NotCounted(files: seq<seq<Shared>>, known: set<Shared>, f: Shared)
    requires Within(files, known) && f !in known
    ensures FileCount(files, f) == 0
  {
    if files == [] {
    } else {
      NotCounted(files[..|files| - 1], known, f);
    }
  }

  /** Every count changed by the file's listings. */
  ghost predicate Shifted(before: Refs, after: Refs, files: seq<seq<Shared>>, up: bool) {
    && before.Keys == after.Keys
    && forall f :: f in before ==>
         if up then after[f] == before[f] + FileCount(files, f) else after[f] + FileCount(files, f) == before[f]
  }

  /** `for (auto file: ...) file->ref();` over all levels. */
  method RefFiles(files: seq<seq<Shared>>, refs: Refs) returns (r: Refs)
    requires Within(files, refs.Keys)
    ensures Shifted(refs, r, files, true)
  {
    r := refs;
    for i := 0 to |files|
      invariant Shifted(refs, r, files[..i], true)
    {
      assert files[..i + 1][..i] == files[..i];
      var level := files[i];
      ghost var before := r;
      for j := 0 to |level|
        invariant r.Keys == before.Keys
        invariant forall f :: f in before ==> r[f] == before[f] + multiset(level[..j])[f]
      {
        assert level[..j + 1] == level[..j] + [level[j]];
        r := r[level[j] := r[level[j]] + 1];
      }
      assert level[..|level|] == level;
    }
    assert files[..|files|] == files;
  }

  /** The destructor's loop; no `unref` assertion fails while each listing holds a reference. */
  method UnrefFiles(files: seq<seq<Shared>>, refs: Refs) returns (r: Refs)
    requires Within(files, refs.Keys)
    requires forall f :: f in refs ==> refs[f] >= FileCount(files, f)
    ensures Shifted(refs, r, files, false)
  {
    r := refs;
    for i := 0 to |files|
      invariant Shifted(refs, r, files[..i], false)
    {
      assert files[..i + 1][..i] == files[..i];
      forall f | f in refs
        ensures r[f] >= multiset(files[i])[f]
      {
        FileCountMonotone(files, i + 1, f);
      }
      r := UnrefLevel(files[i], r);
    }
    assert files[..|files|] == files;
  }

  method UnrefLevel(level: seq<Shared>, refs: Refs) returns (r: Refs)
    requires forall f :: f in level ==> f in refs
    requires forall f :: f in refs ==> refs[f] >= multiset(level)[f]
    ensures r.Keys == refs.Keys && forall f :: f in refs ==> r[f] + multiset(level)[f] == refs[f]
  {
    r := refs;
    for j := 0 to |level|
      invariant r.Keys == refs.Keys
      invariant forall f :: f in refs ==> r[f] + multiset(level[..j])[f] == refs[f]
    {
      assert level[..j + 1] == level[..j] + [level[j]];
      assert level == level[..j + 1] + level[j + 1..];
      assert r[level[j]] > 0;
      r := r[level[j] := r[level[j]] - 1];
    }
    assert level[..|level|] == level;
  }

  lemma {:induction false} FileCountMonotone(files: seq<seq<Shared>>, i: nat, f: Shared)
    requires i <= |files|
    ensures FileCount(files[..i], f) <= FileCount(files, f)
    decreases |files| - i
  {
    if i < |files| {
      FileCountMonotone(files, i + 1, f);
      assert files[..i + 1][..i] == files[..i];
    } else {
      assert files[..i] == files;
    }
  }

  predicate Within(files: seq<seq<Shared>>, known: set<Shared>) {
    forall k, f :: 0 <= k < |files| && f in files[k] ==> f in known
  }

  class VersionSet {
    const dummy: Version
    var current: Version?
    ghost var ring: seq<Version>          // the list, starting at the dummy, oldest version first
    ghost var pending: Version?           // built by apply, not yet appended
    ghost var held: multiset<Version>     // one per reference: the set's own to current, and readers'
    var refs: Refs

    /** A well-formed circular doubly linked list without repetition. */
    ghost predicate Linked()
      reads this`ring, ring`next, ring`prev
    {
      && ring != [] && ring[0] == dummy
      && NoRepeats(ring)
      && (forall i :: 0 <= i < |ring| ==> LinkedAt(i))
    }

    ghost predicate LinkedAt(i: nat)
      requires i < |ring|
      reads this`ring, ring`next, ring`prev
    {
      var after := if i + 1 < |ring| then ring[i + 1] else ring[0];
      ring[i].next == after && after.prev == ring[i]
    }

    ghost function Tail(): Version
      requires ring != []
      reads this`ring
    {
      ring[|ring| - 1]
    }

    /** Exactly the versions still referenced are on the list, each with its number of holders. */
    ghost predicate Counted()
      reads this`ring, this`held, ring`ref
    {
      && (forall v :: v in held ==> v in ring && v != dummy)
      && (forall v :: v in ring && v != dummy ==> v.ref == held[v] > 0)
    }

    /** The versions not yet destroyed. */
    ghost function Live(): seq<Version>
      reads this`ring, this`pending
    {
      if pending == null then ring else ring + [pending]
    }

    /** Each file and list has one reference per listing in a version not yet destroyed. */
    ghost predicate FilesCounted(live: seq<Version>)
      reads this`refs, live`files, live`lists
    {
      && (forall v :: v in live ==>
            |v.files| == E.MAX_LEVEL && |v.lists| == P.MAX_WRITER && Within(v.Listed(), refs.Keys))
      && (forall f :: f in refs ==> refs[f] == Listings(live, f))
    }

    ghost predicate Inv()
      reads this`ring, this`pending, this`refs, this`held, ring, Live(), pending
    {
      && Linked() && Counted() && FilesCounted(Live())
      && (pending != null ==> pending !in ring && pending.ref == 0)
    }

    ghost predicate Valid()
      reads this, ring, Live(), pending
    {
      Inv() && current != null && current in held
    }

    /** `VersionSet::VersionSet`: an empty version is current. The original leaves `current_` unset
        here; it is read as null. */
    constructor ()
      ensures Valid() && pending == null && |ring| == 2 && held == multiset{current} && refs == map[]
    {
      var d := new Version();
      d.ref, d.next, d.prev := 1, d, d;
      dummy := d;
      current := null;
      ring, held, refs := [d], multiset{}, map[];
      var v := new Version();
      pending := v;
      new;
      assert LinkedAt(0);
      AppendVersion(v);
    }

    /** `Version::Ref` by a reader. */
    method Ref(v: Version)
      requires Inv() && v in ring && v != dummy
      modifies v`ref, this`held
      ensures Inv() && held == old(held) + multiset{v}
    {
      hide Linked, FilesCounted;
      v.ref := v.ref + 1;
      held := held + multiset{v};
    }

    /** `Version::Unref` by a holder of a reference: the last one unlinks and destroys the version. */
    method Unref(v: Version)
      requires Inv() && v in held
      modifies this`held, this`ring, this`refs, ring`ref, ring`next, ring`prev
      ensures Inv() && held == old(held) - multiset{v} && refs.Keys == old(refs.Keys)
      ensures ring == if old(v.ref) > 1 then old(ring) else Without(old(ring), v)
      ensures forall u :: u in ring ==> u in old(ring)
    {
      hide Linked, FilesCounted, Without, NoRepeats, Live;
      assert v != dummy && v.ref >= 1;
      v.ref := v.ref - 1;
      held := held - multiset{v};
      if v.ref == 0 {
        Destroy(v);
      }
    }

    lemma RingShape()
      requires Linked()
      ensures NoRepeats(ring) && ring != [] && ring[0] == dummy
    {
    }

    /** Everything not yet destroyed, but for the i-th version of the ring. */
    ghost function Others(i: nat): seq<Version>
      requires i < |ring|
      reads this`ring, this`pending
    {
      ring[..i] + ring[i + 1..] + if pending == null then [] else [pending]
    }

    /** One version's share of all listings. */
    lemma ShareOf(i: nat)
      requires i < |ring|
      ensures forall u :: u in Others(i) ==> u in Live()
      ensures forall f :: Listings(Live(), f) == Listings(Others(i), f) + FileCount(ring[i].Listed(), f)
    {
      hide Listings, FileCount;
      var last := if pending == null then [] else [pending];
      RestOfLive(ring, last, i);
      assert Live() == ring + last;
      forall f
        ensures Listings(Live(), f) == Listings(Others(i), f) + FileCount(ring[i].Listed(), f)
      {
        ListingsRemove(Live(), i, f);
      }
    }

    /** What the version to be destroyed has to give back. */
    lemma SharesOf(i: nat)
      requires i < |ring| && FilesCounted(Live())
      ensures var v := ring[i];
              && |v.files| == E.MAX_LEVEL && |v.lists| == P.MAX_WRITER && Within(v.Listed(), refs.Keys)
              && Within(v.lists, refs.Keys) && Within(v.files, refs.Keys)
              && forall f :: f in refs ==>
                   refs[f] == Listings(Others(i), f) + FileCount(v.files, f) + FileCount(v.lists, f)
      ensures forall f :: f in refs ==> refs[f] == Listings(Others(i), f) + FileCount(ring[i].Listed(), f)
      ensures forall u :: u in Others(i) ==>
                |u.files| == E.MAX_LEVEL && |u.lists| == P.MAX_WRITER && Within(u.Listed(), refs.Keys)
    {
      hide Listings, FileCount, Within;
      var v := ring[i];
      assert v in ring && v in Live();
      ShareOf(i);
      WithinParts(v.files, v.lists, refs.Keys);
      CountParts(v.files, v.lists);
    }

    /** Gives up the frozen lists, takes the version out of the ring, then gives up its files. */
    method Destroy(v: Version)
      requires Linked() && FilesCounted(Live()) && v in ring && v != dummy
      modifies this`ring, this`refs, ring`next, ring`prev
      ensures Linked() && FilesCounted(Live()) && ring == Without(old(ring), v)
      ensures forall u :: u in ring <==> u in old(ring) && u != v
      ensures refs.Keys == old(refs.Keys)
    {
      hide Listings, FileCount, LinkedAt, Without, NoRepeats, Within, FilesCounted;
      ghost var i :| 0 <= i < |ring| && ring[i] == v;
      ghost var rest := Others(i);
      SharesOf(i);
      DropLists(v, rest);
      Unlink(v, i);
      hide Linked;
      assert Live() == rest;
      DropFiles(v.files, rest);
    }

    /** `list_->unref()` for every frozen list; no assertion in it fails. */
    method DropLists(v: Version, ghost rest: seq<Version>)
      requires Within(v.lists, refs.Keys)
      requires forall f :: f in refs ==> refs[f] == Listings(rest, f) + FileCount(v.files, f) + FileCount(v.lists, f)
      modifies this`refs
      ensures refs.Keys == old(refs.Keys)
      ensures forall f :: f in refs ==> refs[f] == Listings(rest, f) + FileCount(v.files, f)
    {
      hide Listings, FileCount, Within;
      refs := UnrefFiles(v.lists, refs);
    }

    /** The destructor: what is left counts the listings that are left. */
    method DropFiles(files: seq<seq<Shared>>, ghost rest: seq<Version>)
      requires Within(files, refs.Keys)
      requires forall u :: u in rest ==>
                 |u.files| == E.MAX_LEVEL && |u.lists| == P.MAX_WRITER && Within(u.Listed(), refs.Keys)
      requires forall f :: f in refs ==> refs[f] == Listings(rest, f) + FileCount(files, f)
      modifies this`refs
      ensures FilesCounted(rest) && refs.Keys == old(refs.Keys)
    {
      hide Listings, FileCount, Within;
      refs := UnrefFiles(files, refs);
    }

    lemma RestOfLive(vs: seq<Version>, last: seq<Version>, i: nat)
      requires i < |vs|
      ensures (vs + last)[i] == vs[i] && vs[i] in vs + last
      ensures (vs + last)[..i] + (vs + last)[i + 1..] == (vs[..i] + vs[i + 1..]) + last
    {
      assert (vs + last)[i] in vs + last;
    }

    method Unlink(v: Version, ghost i: nat)
      requires Linked() && 0 < i < |ring| && ring[i] == v
      modifies this`ring, ring`next, ring`prev
      ensures Linked() && ring == old(ring)[..i] + old(ring)[i + 1..] == Without(old(ring), v)
      ensures forall u :: u in ring <==> u in old(ring) && u != v
    {
      ghost var before := ring;
      assert LinkedAt(i - 1) && LinkedAt(i);
      v.next.prev := v.prev;
      v.prev.next := v.next;
      ring := ring[..i] + ring[i + 1..];
      WithoutAt(before, v, i);
      WithoutMember(before, v);
      forall k | 0 <= k < |ring|
        ensures LinkedAt(k)
      {
        var j := if k < i then k else k + 1;
        assert old(LinkedAt(j));
        assert ring[k] == before[j];
      }
    }

    /** `AppendList` on the current version: a new list comes with the one reference that the version
        holds from now on. */
    method AppendFrozenList(list: nat, idx: nat)
      requires Valid() && idx < P.MAX_WRITER && FrozenList(list) !in refs
      modifies this`refs, current`lists
      ensures Valid()
      ensures current.lists == old(current.lists)[idx := old(current.lists[idx]) + [FrozenList(list)]]
      ensures refs == old(refs)[FrozenList(list) := 1]
    {
      hide Linked, Listings, FileCount, Within, FilesCounted;
      assert current in ring;
      ghost var i :| 0 <= i < |ring| && ring[i] == current;
      ghost var before := refs;
      SharesOf(i);
      ShareOf(i);
      NotInRest(i);
      UnknownList(list);
      current.lists := current.lists[idx := current.lists[idx] + [FrozenList(list)]];
      refs := refs[FrozenList(list) := 1];
      assert Others(i) == old(Others(i));
      assert forall f :: Listings(Others(i), f) == old(Listings(Others(i), f));
      ListCountPush(current.files, old(current.lists), idx, FrozenList(list));
      assert refs.Keys == before.Keys + {FrozenList(list)};
      WithinMore(current.files + old(current.lists), current.Listed(), before.Keys, FrozenList(list));
      CountedAgain(i, before, FrozenList(list));
    }

    lemma UnknownList(list: nat)
      requires FilesCounted(Live()) && FrozenList(list) !in refs
      ensures Listings(Live(), FrozenList(list)) == 0
    {
      hide Listings, Within;
      NotListed(Live(), refs.Keys, FrozenList(list));
    }

    /** The invariant from one version and the others. */
    lemma CountedAgain(i: nat, before: Refs, x: Shared)
      requires i < |ring| && refs.Keys == before.Keys + {x}
      requires forall u :: u in Others(i) ==>
                 |u.files| == E.MAX_LEVEL && |u.lists| == P.MAX_WRITER && Within(u.Listed(), before.Keys)
      requires |ring[i].files| == E.MAX_LEVEL && |ring[i].lists| == P.MAX_WRITER && Within(ring[i].Listed(), refs.Keys)
      requires forall f :: f in refs ==> refs[f] == Listings(Others(i), f) + FileCount(ring[i].Listed(), f)
      ensures FilesCounted(Live())
    {
      hide Listings, FileCount;
      ShareOf(i);
      forall v | v in Live()
        ensures |v.files| == E.MAX_LEVEL && |v.lists| == P.MAX_WRITER && Within(v.Listed(), refs.Keys)
      {
        assert v == ring[i] || v in Others(i);
      }
    }

    lemma NotInRest(i: nat)
      requires Inv() && i < |ring|
      ensures ring[i] !in Others(i)
    {
    }

    /** `Version::apply` on a new version: the current version's files, plus the edit's level-0 files; every
        listing takes a reference. Deletions and other levels are ignored. The edit's files are new objects
        without references. */
    method Apply(edit: E.Edit) returns (v: Version)
      requires Valid() && pending == null
      requires AddedFiles(edit.newFiles) !! refs.Keys
      modifies this`pending, this`refs
      ensures Valid() && pending == v && fresh(v)
      ensures v.files == AppliedFiles(current.files, edit.newFiles) && v.lists == seq(P.MAX_WRITER, i => [])
    {
      hide Linked, Counted, Listings, FileCount, Within;
      CurrentWithin();
      AppliedWithin(current.files, edit.newFiles, refs.Keys);
      v := CopyFiles(edit.newFiles);
      assert FilesCounted(ring);
      RefListed(v.files, edit.newFiles);
      WithinNoLists(v.files, v.lists, refs.Keys);
      TakeOn(v, old(refs));
    }

    lemma CurrentWithin()
      requires Valid()
      ensures current in ring && |current.files| == E.MAX_LEVEL && Within(current.files, refs.Keys)
    {
      hide Linked, Listings, Within;
      assert current in ring && current in Live();
      WithinParts(current.files, current.lists, refs.Keys);
    }

    /** Counts the edit's files from zero and adds one reference per listing. */
    method RefListed(files: seq<seq<Shared>>, newFiles: seq<(nat, FileMetaData)>)
      requires FilesCounted(ring) && AddedFiles(newFiles) !! refs.Keys
      requires Within(files, refs.Keys + AddedFiles(newFiles))
      modifies this`refs
      ensures refs.Keys == old(refs.Keys) + AddedFiles(newFiles)
      ensures forall f :: f in refs ==> refs[f] == Listings(ring, f) + FileCount(files, f)
    {
      hide Listings, FileCount, Within;
      var all := refs + map f | f in AddedFiles(newFiles) :: 0;
      assert all.Keys == refs.Keys + AddedFiles(newFiles);
      forall f | f in AddedFiles(newFiles)
        ensures Listings(ring, f) == 0
      {
        NotListed(ring, refs.Keys, f);
      }
      refs := RefFiles(files, all);
    }

    /** The file lists of the new version. */
    method CopyFiles(newFiles: seq<(nat, FileMetaData)>) returns (v: Version)
      requires current != null && |current.files| == E.MAX_LEVEL
      ensures fresh(v) && v.ref == 0 && v.files == AppliedFiles(current.files, newFiles)
      ensures v.lists == seq(P.MAX_WRITER, i => [])
    {
      v := new Version();
      v.files := current.files;
      for k := 0 to |newFiles|
        invariant v.ref == 0 && v.files == AppliedFiles(current.files, newFiles[..k])
        invariant v.lists == seq(P.MAX_WRITER, i => [])
        modifies v
      {
        assert newFiles[..k + 1][..k] == newFiles[..k];
        var (level, f) := newFiles[k];
        if level == 0 {
          v.files := v.files[0 := v.files[0] + [File(f.number)]];
        }
      }
      assert newFiles[..|newFiles|] == newFiles;
    }

    /** The new version counts from the moment its listings hold their references. */
    ghost method TakeOn(v: Version, before: Refs)
      requires Linked() && Counted() && pending == null && v !in ring && v.ref == 0
      requires before.Keys <= refs.Keys
      requires forall u :: u in ring ==>
                 |u.files| == E.MAX_LEVEL && |u.lists| == P.MAX_WRITER && Within(u.Listed(), before.Keys)
      requires |v.files| == E.MAX_LEVEL && |v.lists| == P.MAX_WRITER && Within(v.Listed(), refs.Keys)
      requires forall f :: f in refs ==> refs[f] == Listings(ring, f) + FileCount(v.Listed(), f)
      modifies this`pending
      ensures Inv() && pending == v
    {
      hide Linked, Counted, Listings, FileCount;
      pending := v;
      forall f | f in refs
        ensures refs[f] == Listings(ring + [v], f)
      {
        ListingsPush(ring, v, f);
      }
    }

    /** Makes the pending version current and links it at the end. */
    method MakeCurrent(v: Version)
      requires Inv() && pending == v
      modifies this`current, this`held, this`pending, this`ring, dummy`prev, Tail()`next, v`ref, v`next, v`prev
      ensures Valid() && current == v && pending == null
      ensures ring == old(ring) + [v] && held == old(held) + multiset{v}
    {
      hide FilesCounted;
      assert v !in held;
      current := v;
      v.ref := v.ref + 1;
      held := held + multiset{v};
      Link(v);
      pending := null;
      assert Live() == old(Live());
    }

    /** Makes the pending version current. The set gives up its reference to the old current
        version, which goes away unless a reader still holds it; readers' references stay. */
    method AppendVersion(v: Version)
      requires Inv() && pending == v && (current != null ==> current in held)
      modifies this, ring`ref, ring`next, ring`prev, v`ref, v`next, v`prev
      ensures Valid() && current == v && pending == null
      ensures held == old(held) - (if old(current) == null then multiset{} else multiset{old(current)}) + multiset{v}
      ensures refs.Keys == old(refs.Keys)
      ensures ring == (if old(current) == null || old(current.ref) > 1 then old(ring)
                       else Without(old(ring), old(current))) + [v]
    {
      hide Linked, Counted, FilesCounted, Without;
      if current != null {
        Unref(current);
      }
      RingShape();
      assert Tail() in ring && dummy in ring;
      MakeCurrent(v);
    }

    /** Inserts before the dummy: the end of the list. */
    method Link(v: Version)
      requires Linked() && v !in ring
      modifies this`ring, v`next, v`prev, dummy`prev, Tail()`next
      ensures Linked() && ring == old(ring) + [v]
    {
      ghost var before := ring;
      assert LinkedAt(|ring| - 1);
      v.prev := dummy.prev;
      v.next := dummy;
      v.prev.next := v;
      v.next.prev := v;
      ring := ring + [v];
      forall k | 0 <= k < |ring|
        ensures LinkedAt(k)
      {
        assert k < |before| ==> old(LinkedAt(k)) && ring[k] == before[k];
      }
    }
  }

  lemma WithinParts(files: seq<seq<Shared>>, lists: seq<seq<Shared>>, known: set<Shared>)
    ensures Within(files + lists, known) <==> Within(files, known) && Within(lists, known)
  {
    var all := files + lists;
    if Within(all, known) {
      forall k, f | 0 <= k < |files| && f in files[k]
        ensures f in known
      {
        assert all[k] == files[k];
      }
      forall k, f | 0 <= k < |lists| && f in lists[k]
        ensures f in known
      {
        assert all[|files| + k] == lists[k];
      }
    }
  }

  lemma {:induction false} CountPart(files: seq<seq<Shared>>, lists: seq<seq<Shared>>, f: Shared)
    ensures FileCount(files + lists, f) == FileCount(files, f) + FileCount(lists, f)
  {
    if lists == [] {
      assert files + lists == files;
    } else {
      var last := |lists| - 1;
      assert (files + lists)[..|files| + last] == files + lists[..last];
      CountPart(files, lists[..last], f);
    }
  }

  lemma CountParts(files: seq<seq<Shared>>, lists: seq<seq<Shared>>)
    ensures forall f :: FileCount(files + lists, f) == FileCount(files, f) + FileCount(lists, f)
  {
    forall f
      ensures FileCount(files + lists, f) == FileCount(files, f) + FileCount(lists, f)
    {
      CountPart(files, lists, f);
    }
  }

  /** A new version has no lists. */
  lemma WithinNoLists(files: seq<seq<Shared>>, lists: seq<seq<Shared>>, known: set<Shared>)
    requires Within(files, known) && forall i :: 0 <= i < |lists| ==> lists[i] == []
    ensures Within(files + lists, known)
    ensures forall f :: FileCount(files + lists, f) == FileCount(files, f)
  {
    WithinParts(files, lists, known);
    CountParts(files, lists);
    forall f
      ensures FileCount(lists, f) == 0
    {
      EmptyCount(lists, f);
    }
  }

  lemma {:induction false} EmptyCount(lists: seq<seq<Shared>>, f: Shared)
    requires forall i :: 0 <= i < |lists| ==> lists[i] == []
    ensures FileCount(lists, f) == 0
  {
    if lists == [] {
    } else {
      EmptyCount(lists[..|lists| - 1], f);
    }
  }

  lemma {:induction false} CountUpdate(lists: seq<seq<Shared>>, idx: nat, x: Shared, f: Shared)
    requires idx < |lists|
    ensures FileCount(lists[idx := lists[idx] + [x]], f) == FileCount(lists, f) + if f == x then 1 else 0
  {
    var last := |lists| - 1;
    var grown := lists[idx := lists[idx] + [x]];
    if idx == last {
      assert grown[..last] == lists[..last];
    } else {
      assert grown[..last] == lists[..last][idx := lists[..last][idx] + [x]];
      CountUpdate(lists[..last], idx, x, f);
    }
  }

  lemma ListCountPush(files: seq<seq<Shared>>, lists: seq<seq<Shared>>, idx: nat, x: Shared)
    requires idx < |lists|
    ensures forall f :: FileCount(files + lists[idx := lists[idx] + [x]], f) ==
                        FileCount(files + lists, f) + if f == x then 1 else 0
  {
    var grown := lists[idx := lists[idx] + [x]];
    CountParts(files, lists);
    CountParts(files, grown);
    forall f
      ensures FileCount(grown, f) == FileCount(lists, f) + if f == x then 1 else 0
    {
      CountUpdate(lists, idx, x, f);
    }
  }

  lemma WithinMore(before: seq<seq<Shared>>, after: seq<seq<Shared>>, known: set<Shared>, x: Shared)
    requires Within(before, known) && |after| == |before|
    requires forall k, f :: 0 <= k < |after| && f in after[k] ==> f in before[k] || f == x
    ensures Within(after, known + {x})
  {
  }

  function AddedFiles(newFiles: seq<(nat, FileMetaData)>): set<Shared> {
    if newFiles == [] then {} else AddedFiles(newFiles[..|newFiles| - 1]) + {File(newFiles[|newFiles| - 1].1.number)}
  }

  /** Level 0 gains the edit's level-0 files in order; the other levels stay. */
  function AppliedFiles(files: seq<seq<Shared>>, newFiles: seq<(nat, FileMetaData)>): (r: seq<seq<Shared>>)
    requires files != []
    ensures |r| == |files|
    decreases |newFiles|
  {
    if newFiles == [] then files
    else
      var before := AppliedFiles(files, newFiles[..|newFiles| - 1]);
      var (level, f) := newFiles[|newFiles| - 1];
      if level == 0 then before[0 := before[0] + [File(f.number)]] else before
  }

  lemma {:induction false} AppliedWithin(files: seq<seq<Shared>>, newFiles: seq<(nat, FileMetaData)>,
                                         known: set<Shared>)
    requires files != [] && Within(files, known)
    ensures Within(AppliedFiles(files, newFiles), known + AddedFiles(newFiles))
    decreases |newFiles|
  {
    if newFiles == [] {
    } else {
      var last := |newFiles| - 1;
      AppliedWithin(files, newFiles[..last], known);
      var applied, all := AppliedFiles(files, newFiles), known + AddedFiles(newFiles);
      assert AddedFiles(newFiles) == AddedFiles(newFiles[..last]) + {File(newFiles[last].1.number)};
      forall k, f | 0 <= k < |applied| && f in applied[k]
        ensures f in all
      {
        var before := AppliedFiles(files, newFiles[..last]);
        assert |before| == |applied|;
        if f in before[k] {
          assert f in known + AddedFiles(newFiles[..last]);
        }
      }
    }
  }

  // ---------- what apply makes of an edit ----------

  function FilesOf(fs: seq<FileMetaData>): seq<Shared> {
    seq(|fs|, i requires 0 <= i < |fs| => File(fs[i].number))
  }

  function Remaining(fs: seq<Shared>, deleted: seq<nat>): seq<Shared> {
    if fs == [] then []
    else
      var (rest, f) := (Remaining(fs[..|fs| - 1], deleted), fs[|fs| - 1]);
      if f.File? && f.number in deleted then rest else rest + [f]
  }

  /** What the edit asks for: on every level its deletions, then its additions. */
  function Asked(files: seq<seq<Shared>>, edit: E.Edit): seq<seq<Shared>> {
    seq(|files|, k requires 0 <= k < |files| =>
      Remaining(files[k], VB.DeletionsAt(edit.deletedFiles, k)) + FilesOf(VB.AdditionsAt(edit.newFiles, k)))
  }

  lemma {:induction false} RemainingIsAll(fs: seq<Shared>, deleted: seq<nat>)
    ensures |Remaining(fs, deleted)| <= |fs|
    ensures forall f :: f in Remaining(fs, deleted) ==> f in fs
    ensures Remaining(fs, deleted) == fs <==> forall f :: f in fs && f.File? ==> f.number !in deleted
  {
    if fs == [] {
    } else {
      RemainingIsAll(fs[..|fs| - 1], deleted);
      assert fs == fs[..|fs| - 1] + [fs[|fs| - 1]];
    }
  }

  lemma {:induction false} AppliedAt(files: seq<seq<Shared>>, newFiles: seq<(nat, FileMetaData)>, k: nat)
    requires k < |files|
    ensures AppliedFiles(files, newFiles)[k] ==
            files[k] + if k == 0 then FilesOf(VB.AdditionsAt(newFiles, 0)) else []
    decreases |newFiles|
  {
    if newFiles == [] {
    } else {
      var (front, (level, f)) := (newFiles[..|newFiles| - 1], newFiles[|newFiles| - 1]);
      AppliedAt(files, front, k);
      if level == 0 {
        assert FilesOf(VB.AdditionsAt(newFiles, 0)) == FilesOf(VB.AdditionsAt(front, 0)) + [File(f.number)];
      }
    }
  }

  lemma {:induction false} DeletionsAtMember(ps: seq<E.Pair>, k: nat, number: nat)
    ensures number in VB.DeletionsAt(ps, k) <==> (k, number) in ps
  {
    if ps == [] {
    } else {
      DeletionsAtMember(ps[..|ps| - 1], k, number);
      assert ps == ps[..|ps| - 1] + [ps[|ps| - 1]];
    }
  }

  lemma {:induction false} AdditionsAtMember(fs: seq<(nat, FileMetaData)>, k: nat, f: FileMetaData)
    ensures f in VB.AdditionsAt(fs, k) <==> (k, f) in fs
  {
    if fs == [] {
    } else {
      AdditionsAtMember(fs[..|fs| - 1], k, f);
      assert fs == fs[..|fs| - 1] + [fs[|fs| - 1]];
    }
  }

  /** The edit deletes nothing listed on the level and, above level 0, adds nothing. */
  ghost predicate LeavesAlone(edit: E.Edit, k: nat, listed: seq<Shared>) {
    && (forall f :: f in listed && f.File? ==> f.number !in VB.DeletionsAt(edit.deletedFiles, k))
    && (k > 0 ==> VB.AdditionsAt(edit.newFiles, k) == [])
  }

  /** On one level, apply does as asked exactly if the edit leaves the level's files alone. */
  lemma LevelIsAsked(files: seq<seq<Shared>>, edit: E.Edit, k: nat)
    requires k < |files|
    requires forall f :: f in VB.AdditionsAt(edit.newFiles, k) ==> File(f.number) !in files[k]
    ensures AppliedFiles(files, edit.newFiles)[k] == Asked(files, edit)[k] <==> LeavesAlone(edit, k, files[k])
  {
    hide AppliedFiles, Remaining, VB.DeletionsAt, VB.AdditionsAt;
    var deleted, added := VB.DeletionsAt(edit.deletedFiles, k), VB.AdditionsAt(edit.newFiles, k);
    var rest := Remaining(files[k], deleted);
    AppliedAt(files, edit.newFiles, k);
    RemainingIsAll(files[k], deleted);
    if k > 0 && added != [] {
      var asked := rest + FilesOf(added);
      assert added[|added| - 1] in added;
      assert asked[|asked| - 1] == File(added[|added| - 1].number);
      assert asked != files[k];
    } else if k > 0 {
      assert FilesOf(added) == [] && rest + [] == rest && files[k] + [] == files[k];
    } else if |rest| < |files[k]| {
      assert |rest + FilesOf(added)| < |files[k] + FilesOf(added)|;
    } else if files[k] + FilesOf(added) == rest + FilesOf(added) {
      assert files[k] == (files[k] + FilesOf(added))[..|rest|] == rest;
    }
  }

  /** `apply` does what the edit says if and only if the edit deletes no listed file and adds files to
      level 0 only. */
  lemma ApplyIsExact(files: seq<seq<Shared>>, edit: E.Edit)
    requires |files| == E.MAX_LEVEL && E.LevelsOk(edit)
    requires forall q :: q in edit.newFiles ==> File(q.1.number) !in files[q.0]
    ensures AppliedFiles(files, edit.newFiles) == Asked(files, edit) <==>
            && (forall p :: p in edit.deletedFiles ==> File(p.1) !in files[p.0])
            && (forall q :: q in edit.newFiles ==> q.0 == 0)
  {
    hide AppliedFiles, Asked, LeavesAlone;
    AskedLevels(files, edit);
    forall k | 0 <= k < |files|
      ensures AppliedFiles(files, edit.newFiles)[k] == Asked(files, edit)[k] <==> LeavesAlone(edit, k, files[k])
    {
      forall f | f in VB.AdditionsAt(edit.newFiles, k)
        ensures File(f.number) !in files[k]
      {
        AdditionsAtMember(edit.newFiles, k, f);
      }
      LevelIsAsked(files, edit, k);
    }
    LeftAloneExactly(files, edit);
  }

  lemma AskedLevels(files: seq<seq<Shared>>, edit: E.Edit)
    ensures |Asked(files, edit)| == |files|
  {
  }

  /** Level by level, and deletion by deletion and addition by addition. */
  lemma LeftAloneExactly(files: seq<seq<Shared>>, edit: E.Edit)
    requires |files| == E.MAX_LEVEL && E.LevelsOk(edit)
    ensures (forall k :: 0 <= k < |files| ==> LeavesAlone(edit, k, files[k])) <==>
            && (forall p :: p in edit.deletedFiles ==> File(p.1) !in files[p.0])
            && (forall q :: q in edit.newFiles ==> q.0 == 0)
  {
    hide VB.DeletionsAt, VB.AdditionsAt;
    if forall k :: 0 <= k < |files| ==> LeavesAlone(edit, k, files[k]) {
      forall p | p in edit.deletedFiles
        ensures File(p.1) !in files[p.0]
      {
        DeletionsAtMember(edit.deletedFiles, p.0, p.1);
        assert LeavesAlone(edit, p.0, files[p.0]);
      }
      forall q | q in edit.newFiles
        ensures q.0 == 0
      {
        AdditionsAtMember(edit.newFiles, q.0, q.1);
        assert LeavesAlone(edit, q.0, files[q.0]);
      }
    }
    if && (forall p :: p in edit.deletedFiles ==> File(p.1) !in files[p.0])
       && (forall q :: q in edit.newFiles ==> q.0 == 0) {
      forall k | 0 <= k < |files|
        ensures LeavesAlone(edit, k, files[k])
      {
        forall f | f in files[k] && f.File?
          ensures f.number !in VB.DeletionsAt(edit.deletedFiles, k)
        {
          DeletionsAtMember(edit.deletedFiles, k, f.number);
        }
        if k > 0 && VB.AdditionsAt(edit.newFiles, k) != [] {
          AdditionsAtMember(edit.newFiles, k, VB.AdditionsAt(edit.newFiles, k)[0]);
        }
      }
    }
  }

  /** An edit that deletes a listed file: apply keeps the file. */
  lemma ApplyKeepsADeletedFile(number: nat)
    ensures var files := seq(E.MAX_LEVEL, k => if k == 0 then [File(number)] else []);
            var edit := E.BLANK_EDIT.(deletedFiles := [(0, number)]);
            && E.LevelsOk(edit)
            && File(number) in AppliedFiles(files, edit.newFiles)[0] && File(number) !in Asked(files, edit)[0]
  {
    var ps: seq<E.Pair> := [(0, number)];
    assert ps[..0] == [];
    assert VB.DeletionsAt(ps, 0) == [number];
    var listed: seq<Shared> := [File(number)];
    assert listed[..0] == [];
    assert Remaining(listed, [number]) == [];
  }
}
