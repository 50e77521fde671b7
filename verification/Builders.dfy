/** VersionSet::Builder (version_set.cc): turning a base version and a list of edits into the next
    version.  Edits are kept per level: the files an edit deletes by number and the files it adds,
    in order. */
module Builders {
  import opened Keys
  import opened Store
  import opened Versions

  datatype LevelEdit = LevelEdit(deleted: set<nat>, added: seq<FileMeta>)

  // BySmallestKey: increasing smallest key, ties broken by file number
  predicate BySmallest(f: FileMeta, g: FileMeta) {
    var a, b := f.smallest, g.smallest;
    || a.user < b.user
    || (a.user == b.user && (a.sequence > b.sequence
    || (a.sequence == b.sequence && (a.vtype.Code() > b.vtype.Code()
    || (a.vtype == b.vtype && f.number < g.number)))))
  }

  lemma BySmallestIsCompare(f: FileMeta, g: FileMeta)
    ensures var r := Compare(f.smallest, g.smallest);
            BySmallest(f, g) <==> r < 0 || (r == 0 && f.number < g.number)
  {
    var a, b := f.smallest, g.smallest;
    if a.sequence < b.sequence {
      assert (a.sequence + 1) * 256 <= b.sequence * 256;
    } else if b.sequence < a.sequence {
      assert (b.sequence + 1) * 256 <= a.sequence * 256;
    }
  }

  ghost predicate SortedBySmallest(files: seq<FileMeta>) {
    forall i, j :: 0 <= i < j < |files| ==> !BySmallest(files[j], files[i])
  }

  // What one level of the builder has gathered: the std::set of added files is kept sorted.
  datatype LevelState = LevelState(deleted: set<nat>, added: seq<FileMeta>)

  const EMPTY: LevelState := LevelState({}, [])

  lemma SortedHead(files: seq<FileMeta>)
    requires SortedBySmallest(files) && files != []
    ensures SortedBySmallest(files[1..])
    ensures forall g :: g in files[1..] ==> !BySmallest(g, files[0])
  {
  }

  lemma SortedCons(f: FileMeta, files: seq<FileMeta>)
    requires SortedBySmallest(files) && forall g :: g in files ==> !BySmallest(g, f)
    ensures SortedBySmallest([f] + files)
  {
  }

  lemma NotBySmallestTransitive(f: FileMeta, g: FileMeta, h: FileMeta)
    requires !BySmallest(g, f) && !BySmallest(h, g)
    ensures !BySmallest(h, f)
  {
  }

  // std::set::insert: no effect if an equivalent element is present
  function InsertFile(files: seq<FileMeta>, f: FileMeta): (r: seq<FileMeta>)
    requires SortedBySmallest(files)
    ensures SortedBySmallest(r)
    ensures forall g :: g in files ==> g in r
    ensures forall g :: g in r ==> g in files || g == f
    ensures (forall g :: g in files ==> g.number != f.number) ==> f in r
  {
    if files == [] || BySmallest(f, files[0]) then [f] + files
    else if !BySmallest(files[0], f) then files
    else
      var r := InsertFile(files[1..], f);
      assert files == [files[0]] + files[1..];
      assert forall g :: g in r ==> !BySmallest(g, files[0]) by {
        SortedHead(files);
      }
      [files[0]] + r
  }

  lemma {:induction false} InsertDistinct(files: seq<FileMeta>, f: FileMeta)
    requires SortedBySmallest(files) && DistinctNumbers(files) && forall g :: g in files ==> g.number != f.number
    ensures DistinctNumbers(InsertFile(files, f))
  {
    if files != [] && !BySmallest(f, files[0]) && BySmallest(files[0], f) {
      InsertDistinct(files[1..], f);
      var r := InsertFile(files[1..], f);
      assert forall g :: g in files[1..] ==> g.number != files[0].number;
      assert forall g :: g in r ==> g.number != files[0].number;
    }
  }

  function Numbers(files: seq<FileMeta>): set<nat> {
    set f | f in files :: f.number
  }

  // Builder::Apply for one added file, and for a whole edit
  function ApplyAdd(st: LevelState, f: FileMeta): LevelState
    requires SortedBySmallest(st.added)
  {
    LevelState(st.deleted - {f.number}, InsertFile(st.added, f))
  }

  function ApplyAdds(st: LevelState, added: seq<FileMeta>): (r: LevelState)
    requires SortedBySmallest(st.added)
    ensures SortedBySmallest(r.added)
  {
    if added == [] then st else ApplyAdd(ApplyAdds(st, added[..|added| - 1]), added[|added| - 1])
  }

  function Apply(st: LevelState, edit: LevelEdit): (r: LevelState)
    requires SortedBySmallest(st.added)
    ensures SortedBySmallest(r.added)
  {
    ApplyAdds(st.(deleted := st.deleted + edit.deleted), edit.added)
  }

  function Unless(f: FileMeta, deleted: set<nat>): seq<FileMeta> {
    if f.number in deleted then [] else [f]
  }

  /** The merge SaveTo performs from position b of the base and a of the added files: of two
      equivalent files the base one comes first. */
  ghost function Merge(base: seq<FileMeta>, b: nat, added: seq<FileMeta>, a: nat, deleted: set<nat>): seq<FileMeta>
    requires b <= |base| && a <= |added|
    decreases |base| - b + |added| - a
  {
    if b < |base| && (a == |added| || !BySmallest(added[a], base[b])) then
      Unless(base[b], deleted) + Merge(base, b + 1, added, a, deleted)
    else if a < |added| then
      Unless(added[a], deleted) + Merge(base, b, added, a + 1, deleted)
    else []
  }

  /** Builder::SaveTo at one level: merges the base files and the added files, leaving out the deleted
      ones.  Every surviving file appears as often as in the two lists together, in key order. */
  method SaveTo(base: seq<FileMeta>, st: LevelState) returns (files: seq<FileMeta>)
    requires SortedBySmallest(base) && SortedBySmallest(st.added)
    ensures SortedBySmallest(files)
    ensures multiset(files) == Surviving(base, 0, st.deleted) + Surviving(st.added, 0, st.deleted)
    ensures DistinctNumbers(base) && DistinctNumbers(st.added) && Numbers(base) !! Numbers(st.added) ==> DistinctNumbers(files)
    ensures st == EMPTY ==> files == base
  {
    files := [];
    var b := 0;
    ghost var all := Merge(base, 0, st.added, 0, st.deleted);
    for a := 0 to |st.added|
      invariant b <= |base| && files + Merge(base, b, st.added, a, st.deleted) == all
    {
      var next := st.added[a];
      while b < |base| && !BySmallest(next, base[b])
        invariant b <= |base| && files + Merge(base, b, st.added, a, st.deleted) == all
      {
        files := Emit(files, base[b], st.deleted, Merge(base, b + 1, st.added, a, st.deleted));
        b := b + 1;
      }
      files := Emit(files, next, st.deleted, Merge(base, b, st.added, a + 1, st.deleted));
    }
    while b < |base|
      invariant b <= |base| && files + Merge(base, b, st.added, |st.added|, st.deleted) == all
    {
      files := Emit(files, base[b], st.deleted, Merge(base, b + 1, st.added, |st.added|, st.deleted));
      b := b + 1;
    }
    assert files + [] == files;
    MergeSorted(base, 0, st.added, 0, st.deleted);
    MergeCounts(base, 0, st.added, 0, st.deleted);
    if DistinctNumbers(base) && DistinctNumbers(st.added) && Numbers(base) !! Numbers(st.added) {
      MergeDistinct(base, 0, st.added, 0, st.deleted);
    }
    MergeOfNothing(base, 0);
  }

  // MaybeAddFile
  function Emit(files: seq<FileMeta>, f: FileMeta, deleted: set<nat>, ghost rest: seq<FileMeta>): (r: seq<FileMeta>)
    ensures r + rest == files + (Unless(f, deleted) + rest)
  {
    files + Unless(f, deleted)
  }

  ghost function Surviving(files: seq<FileMeta>, i: nat, deleted: set<nat>): multiset<FileMeta>
    requires i <= |files|
    decreases |files| - i
  {
    if i == |files| then multiset{}
    else multiset(Unless(files[i], deleted)) + Surviving(files, i + 1, deleted)
  }

  lemma {:induction false} SurvivingMember(files: seq<FileMeta>, i: nat, deleted: set<nat>, f: FileMeta)
    requires i <= |files|
    ensures f in Surviving(files, i, deleted) <==> f in files[i..] && f.number !in deleted
    decreases |files| - i
  {
    if i < |files| {
      SurvivingMember(files, i + 1, deleted, f);
      assert files[i..] == [files[i]] + files[i + 1..];
    }
  }

  lemma {:induction false} MergeMembers(base: seq<FileMeta>, b: nat, added: seq<FileMeta>, a: nat, deleted: set<nat>)
    requires b <= |base| && a <= |added|
    ensures forall g :: g in Merge(base, b, added, a, deleted) ==> g in base[b..] || g in added[a..]
    decreases |base| - b + |added| - a
  {
    if b < |base| && (a == |added| || !BySmallest(added[a], base[b])) {
      MergeMembers(base, b + 1, added, a, deleted);
      assert base[b..] == [base[b]] + base[b + 1..];
    } else if a < |added| {
      MergeMembers(base, b, added, a + 1, deleted);
      assert added[a..] == [added[a]] + added[a + 1..];
    }
  }

  lemma {:induction false} MergeOfNothing(base: seq<FileMeta>, b: nat)
    requires b <= |base|
    ensures Merge(base, b, [], 0, {}) == base[b..]
    decreases |base| - b
  {
    if b < |base| {
      MergeOfNothing(base, b + 1);
    }
  }

  lemma {:induction false} MergeDistinct(base: seq<FileMeta>, b: nat, added: seq<FileMeta>, a: nat, deleted: set<nat>)
    requires b <= |base| && a <= |added|
    requires DistinctNumbers(base) && DistinctNumbers(added) && Numbers(base) !! Numbers(added)
    ensures DistinctNumbers(Merge(base, b, added, a, deleted))
    decreases |base| - b + |added| - a
  {
    if b < |base| && (a == |added| || !BySmallest(added[a], base[b])) {
      MergeDistinct(base, b + 1, added, a, deleted);
      MergeMembers(base, b + 1, added, a, deleted);
      OthersDiffer(base, b, added, a);
      EmitDistinct(base[b], Merge(base, b + 1, added, a, deleted), deleted);
    } else if a < |added| {
      MergeDistinct(base, b, added, a + 1, deleted);
      MergeMembers(base, b, added, a + 1, deleted);
      OthersDiffer(added, a, base, b);
      EmitDistinct(added[a], Merge(base, b, added, a + 1, deleted), deleted);
    }
  }

  lemma EmitDistinct(f: FileMeta, m: seq<FileMeta>, deleted: set<nat>)
    requires DistinctNumbers(m) && forall g :: g in m ==> g.number != f.number
    ensures DistinctNumbers(Unless(f, deleted) + m)
  {
    if f.number in deleted {
      assert [] + m == m;
    }
  }

  lemma OthersDiffer(own: seq<FileMeta>, i: nat, other: seq<FileMeta>, j: nat)
    requires i < |own| && j <= |other| && DistinctNumbers(own) && Numbers(own) !! Numbers(other)
    ensures forall g :: g in own[i + 1..] || g in other[j..] ==> g.number != own[i].number
  {
    assert own[i].number in Numbers(own);
    forall g | g in other[j..]
      ensures g.number in Numbers(other)
    {
    }
  }

  lemma {:induction false} MergeCounts(base: seq<FileMeta>, b: nat, added: seq<FileMeta>, a: nat, deleted: set<nat>)
    requires b <= |base| && a <= |added|
    ensures multiset(Merge(base, b, added, a, deleted)) == Surviving(base, b, deleted) + Surviving(added, a, deleted)
    decreases |base| - b + |added| - a
  {
    if b < |base| && (a == |added| || !BySmallest(added[a], base[b])) {
      MergeCounts(base, b + 1, added, a, deleted);
      CountStep(Unless(base[b], deleted), Merge(base, b + 1, added, a, deleted),
                Surviving(base, b + 1, deleted), Surviving(added, a, deleted));
    } else if a < |added| {
      MergeCounts(base, b, added, a + 1, deleted);
      CountStep(Unless(added[a], deleted), Merge(base, b, added, a + 1, deleted),
                Surviving(added, a + 1, deleted), Surviving(base, b, deleted));
    }
  }

  lemma CountStep(x: seq<FileMeta>, rest: seq<FileMeta>, own: multiset<FileMeta>, other: multiset<FileMeta>)
    requires multiset(rest) == own + other
    ensures multiset(x + rest) == (multiset(x) + own) + other
  {
  }

  lemma {:induction false} MergeSorted(base: seq<FileMeta>, b: nat, added: seq<FileMeta>, a: nat, deleted: set<nat>)
    requires b <= |base| && a <= |added| && SortedBySmallest(base) && SortedBySmallest(added)
    ensures SortedBySmallest(Merge(base, b, added, a, deleted))
    decreases |base| - b + |added| - a
  {
    if b < |base| && (a == |added| || !BySmallest(added[a], base[b])) {
      MergeSorted(base, b + 1, added, a, deleted);
      MergeMembers(base, b + 1, added, a, deleted);
      if a < |added| {
        NothingBefore(added, a, base[b]);
      }
      NothingBefore(base, b, base[b]);
      EmitSorted(base[b], Merge(base, b + 1, added, a, deleted), deleted);
    } else if a < |added| {
      MergeSorted(base, b, added, a + 1, deleted);
      MergeMembers(base, b, added, a + 1, deleted);
      if b < |base| {
        NothingBefore(base, b, added[a]);
      }
      NothingBefore(added, a, added[a]);
      EmitSorted(added[a], Merge(base, b, added, a + 1, deleted), deleted);
    }
  }

  lemma NothingBefore(files: seq<FileMeta>, i: nat, f: FileMeta)
    requires SortedBySmallest(files) && i < |files| && !BySmallest(files[i], f)
    ensures forall g :: g in files[i..] || g in files[i + 1..] ==> !BySmallest(g, f)
  {
    forall j | i <= j < |files|
      ensures !BySmallest(files[j], f)
    {
      if i < j {
        NotBySmallestTransitive(f, files[i], files[j]);
      }
    }
  }

  lemma EmitSorted(f: FileMeta, m: seq<FileMeta>, deleted: set<nat>)
    requires SortedBySmallest(m) && forall g :: g in m ==> !BySmallest(g, f)
    ensures SortedBySmallest(Unless(f, deleted) + m)
  {
    if f.number in deleted {
      assert [] + m == m;
    } else {
      SortedCons(f, m);
    }
  }

  // ---------------------------------------------------------------- one builder or many versions

  function AsSet(files: seq<FileMeta>): set<FileMeta> {
    set f | f in files
  }

  // The files SaveTo leaves at a level, as a set
  ghost function Result(base: set<FileMeta>, st: LevelState): set<FileMeta> {
    set f | f in base + AsSet(st.added) && f.number !in st.deleted
  }

  lemma SaveToResult(base: seq<FileMeta>, st: LevelState, files: seq<FileMeta>)
    requires multiset(files) == Surviving(base, 0, st.deleted) + Surviving(st.added, 0, st.deleted)
    ensures AsSet(files) == Result(AsSet(base), st)
  {
    forall f
      ensures f in files <==> f in Result(AsSet(base), st)
    {
      assert f in files <==> f in multiset(files);
      SurvivingMember(base, 0, st.deleted, f);
      SurvivingMember(st.added, 0, st.deleted, f);
      assert base[0..] == base && st.added[0..] == st.added;
    }
  }

  // Recover: every edit of the manifest goes through one builder.
  ghost function Replayed(edits: seq<LevelEdit>): (st: LevelState)
    ensures SortedBySmallest(st.added)
  {
    if edits == [] then EMPTY else Apply(Replayed(edits[..|edits| - 1]), edits[|edits| - 1])
  }

  // LogAndApply: every edit installs a version of its own.
  ghost function InstalledOneByOne(base: set<FileMeta>, edits: seq<LevelEdit>): set<FileMeta> {
    if edits == [] then base
    else Result(InstalledOneByOne(base, edits[..|edits| - 1]), Apply(EMPTY, edits[|edits| - 1]))
  }

  ghost predicate DistinctNumbers(files: seq<FileMeta>) {
    forall i, j :: 0 <= i < j < |files| ==> files[i].number != files[j].number
  }

  ghost function AllAdded(edits: seq<LevelEdit>): set<FileMeta> {
    if edits == [] then {} else AllAdded(edits[..|edits| - 1]) + AsSet(edits[|edits| - 1].added)
  }

  // No file number comes back to the level.
  ghost predicate FreshNumbers(base: set<FileMeta>, edits: seq<LevelEdit>) {
    edits != [] ==>
      var last := edits[|edits| - 1];
      && FreshNumbers(base, edits[..|edits| - 1]) && DistinctNumbers(last.added)
      && forall f, g :: f in base + AllAdded(edits[..|edits| - 1]) && g in last.added ==> f.number != g.number
  }

  lemma {:induction false} ApplyAddsFresh(st: LevelState, added: seq<FileMeta>)
    requires SortedBySmallest(st.added) && DistinctNumbers(added)
    requires forall f, g :: f in st.added && g in added ==> f.number != g.number
    ensures var r := ApplyAdds(st, added);
            AsSet(r.added) == AsSet(st.added) + AsSet(added) && r.deleted == st.deleted - Numbers(added)
            && (DistinctNumbers(st.added) ==> DistinctNumbers(r.added))
  {
    if added != [] {
      var prefix, last := added[..|added| - 1], added[|added| - 1];
      ApplyAddsFresh(st, prefix);
      assert added == prefix + [last];
      ApplyAddFresh(st, prefix, last);
      assert Numbers(added) == Numbers(prefix) + {last.number};
    }
  }

  lemma ApplyAddFresh(st: LevelState, prefix: seq<FileMeta>, last: FileMeta)
    requires SortedBySmallest(st.added) && DistinctNumbers(prefix + [last])
    requires forall f, g :: f in st.added && g in prefix + [last] ==> f.number != g.number
    requires AsSet(ApplyAdds(st, prefix).added) == AsSet(st.added) + AsSet(prefix)
    ensures var r := ApplyAdds(st, prefix).added;
            AsSet(InsertFile(r, last)) == AsSet(st.added) + AsSet(prefix + [last])
            && (DistinctNumbers(r) ==> DistinctNumbers(InsertFile(r, last)))
  {
    var r := ApplyAdds(st, prefix);
    forall g | g in r.added
      ensures g.number != last.number
    {
      assert g in AsSet(r.added);
      if g in prefix {
        var i :| 0 <= i < |prefix| && prefix[i] == g;
        assert (prefix + [last])[i] == g && (prefix + [last])[|prefix|] == last;
      } else {
        assert last in prefix + [last];
      }
    }
    assert AsSet(InsertFile(r.added, last)) == AsSet(r.added) + {last};
    if DistinctNumbers(r.added) {
      InsertDistinct(r.added, last);
    }
    assert AsSet(prefix + [last]) == AsSet(prefix) + {last};
  }

  /** Replaying a list of edits in one builder, as recovery does, yields the same files as installing
      them one version at a time, as long as no file number comes back to a level. */
  lemma {:induction false} ReplayEqualsInstalling(base: set<FileMeta>, edits: seq<LevelEdit>)
    requires FreshNumbers(base, edits)
    ensures Result(base, Replayed(edits)) == InstalledOneByOne(base, edits)
    ensures AsSet(Replayed(edits).added) == AllAdded(edits)
  {
    if edits != [] {
      var prefix, last := edits[..|edits| - 1], edits[|edits| - 1];
      ReplayEqualsInstalling(base, prefix);
      var st := Replayed(prefix);
      forall f | f in st.added
        ensures f in AllAdded(prefix)
      {
        assert f in AsSet(st.added);
      }
      ApplyAddsFresh(st.(deleted := st.deleted + last.deleted), last.added);
      ApplyAddsFresh(EMPTY.(deleted := EMPTY.deleted + last.deleted), last.added);
      forall f | f in base + AllAdded(prefix)
        ensures f.number !in Numbers(last.added)
      {
      }
      ReplayStep(base, st, last, AllAdded(prefix));
    }
  }

  lemma ReplayStep(base: set<FileMeta>, st: LevelState, edit: LevelEdit, earlier: set<FileMeta>)
    requires SortedBySmallest(st.added) && AsSet(st.added) == earlier
    requires forall f :: f in base + earlier ==> f.number !in Numbers(edit.added)
    requires AsSet(Apply(st, edit).added) == earlier + AsSet(edit.added)
    requires Apply(st, edit).deleted == st.deleted + edit.deleted - Numbers(edit.added)
    requires AsSet(Apply(EMPTY, edit).added) == AsSet(edit.added)
    requires Apply(EMPTY, edit).deleted == edit.deleted - Numbers(edit.added)
    ensures Result(base, Apply(st, edit)) == Result(Result(base, st), Apply(EMPTY, edit))
  {
    forall f | f in edit.added
      ensures f.number in Numbers(edit.added)
    {
    }
  }

  /** A level is determined by its files: sorted lists of files with distinct numbers that hold the same
      files are the same list. */
  lemma {:induction false} SortedListUnique(a: seq<FileMeta>, b: seq<FileMeta>)
    requires SortedBySmallest(a) && SortedBySmallest(b) && DistinctNumbers(a) && DistinctNumbers(b)
    requires AsSet(a) == AsSet(b)
    ensures a == b
  {
    assert forall f :: f in a <==> f in AsSet(a);
    assert forall f :: f in b <==> f in AsSet(b);
    NonemptySet(b);
    if a != [] {
      assert a[0] in b;
      SameHead(a, b);
      RestSet(a);
      RestSet(b);
      SortedListUnique(a[1..], b[1..]);
      assert a == [a[0]] + a[1..] && b == [b[0]] + b[1..];
    }
  }

  lemma NonemptySet(a: seq<FileMeta>)
    ensures a != [] ==> AsSet(a) != {}
  {
    if a != [] {
      assert a[0] in AsSet(a);
    }
  }

  lemma SameHead(a: seq<FileMeta>, b: seq<FileMeta>)
    requires SortedBySmallest(a) && SortedBySmallest(b) && DistinctNumbers(a)
    requires a != [] && b != [] && a[0] in b && b[0] in a
    ensures a[0] == b[0]
  {
    var i :| 0 <= i < |b| && b[i] == a[0];
    var j :| 0 <= j < |a| && a[j] == b[0];
    assert i > 0 ==> !BySmallest(b[i], b[0]);
    assert j > 0 ==> !BySmallest(a[j], a[0]);
  }

  lemma RestSet(a: seq<FileMeta>)
    requires a != [] && DistinctNumbers(a)
    ensures AsSet(a[1..]) == AsSet(a) - {a[0]}
  {
    assert forall f :: f in a <==> f == a[0] || f in a[1..];
    forall f | f in a[1..]
      ensures f != a[0]
    {
      var i :| 0 <= i < |a[1..]| && a[1..][i] == f;
      assert a[i + 1] == f;
    }
  }
}
