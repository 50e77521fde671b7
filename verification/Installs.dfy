/** Installing the result of a compaction or a flush as a new version (LogAndApply in
    version_set.cc, InstallCompactionResults and CompactMemTable in db_impl.cc), and why the new
    version satisfies the invariant of versions again. */
module Installs {
  import opened Keys
  import opened Store
  import opened Versions
  import opened Selection
  import opened Builders
  import opened Compactions
  import opened CompactionReads

  ghost predicate LevelsSorted(v: Version) {
    forall l :: 0 <= l < |v.files| ==> SortedBySmallest(v.files[l])
  }

  // One level of Builder::Apply and Builder::SaveTo
  method InstallLevel(base: seq<FileMeta>, edit: LevelEdit) returns (files: seq<FileMeta>)
    requires ValidFiles(base) && SortedBySmallest(base)
    ensures SortedBySmallest(files) && LevelInstalled(base, edit, files)
  {
    var st := Apply(EMPTY, edit);
    files := SaveTo(base, st);
    SaveToResult(base, st, files);
    FreshAddsInstall(base, edit, st, files);
  }

  /** LogAndApply: a version whose levels are what one builder makes of the edit. */
  method LogAndApply(v: Version, edit: seq<LevelEdit>) returns (r: Version)
    requires ValidVersion(v) && LevelsSorted(v) && |edit| == NUM_LEVELS
    ensures |r.files| == NUM_LEVELS && LevelsSorted(r)
    ensures forall l :: 0 <= l < NUM_LEVELS ==> LevelInstalled(v.files[l], edit[l], r.files[l])
  {
    var files: seq<seq<FileMeta>> := [];
    for l := 0 to NUM_LEVELS
      invariant |files| == l
      invariant forall k :: 0 <= k < l ==> SortedBySmallest(files[k]) && LevelInstalled(v.files[k], edit[k], files[k])
    {
      assert LevelOk(l, v.files[l]);
      var level := InstallLevel(v.files[l], edit[l]);
      files := files + [level];
    }
    r := Version(files);
  }

  // What an edit makes of a level, as long as the numbers it adds are new to the level.
  ghost predicate LevelInstalled(base: seq<FileMeta>, edit: LevelEdit, files: seq<FileMeta>) {
    && (edit == LevelEdit({}, []) ==> files == base)
    && (DistinctNumbers(edit.added) && Numbers(base) !! Numbers(edit.added) ==>
          && DistinctNumbers(files)
          && forall f :: f in files <==> (f in base && f.number !in edit.deleted) || f in edit.added)
  }

  lemma SameSetSameNumbers(a: seq<FileMeta>, b: seq<FileMeta>)
    requires AsSet(a) == AsSet(b)
    ensures Numbers(a) == Numbers(b)
  {
    assert forall f :: f in a <==> f in AsSet(a);
    assert forall f :: f in b <==> f in AsSet(b);
  }

  lemma FreshAddsInstall(base: seq<FileMeta>, edit: LevelEdit, st: LevelState, files: seq<FileMeta>)
    requires ValidFiles(base) && st == Apply(EMPTY, edit)
    requires AsSet(files) == Result(AsSet(base), st)
    requires DistinctNumbers(base) && DistinctNumbers(st.added) && Numbers(base) !! Numbers(st.added) ==> DistinctNumbers(files)
    requires st == EMPTY ==> files == base
    ensures LevelInstalled(base, edit, files)
  {
    if DistinctNumbers(edit.added) && Numbers(base) !! Numbers(edit.added) {
      ApplyAddsFresh(EMPTY.(deleted := EMPTY.deleted + edit.deleted), edit.added);
      assert AsSet(st.added) == AsSet(edit.added) && Numbers(st.added) == Numbers(edit.added) by {
        SameSetSameNumbers(st.added, edit.added);
      }
      forall f
        ensures f in files <==> (f in base && f.number !in edit.deleted) || f in edit.added
      {
        assert f in files <==> f in AsSet(files);
        assert f in st.added <==> f in AsSet(st.added);
        assert f in edit.added <==> f in AsSet(edit.added);
        assert f in base ==> f.number in Numbers(base);
        assert f in edit.added ==> f.number in Numbers(edit.added);
      }
    }
  }

  /** v' is v with the inputs of c replaced by the outputs at the next level. */
  ghost predicate CompactionInstalled(v: Version, c: Inputs, outputs: seq<FileMeta>, v': Version) {
    && |v.files| == NUM_LEVELS == |v'.files| && LevelsSorted(v') && c.level + 1 < NUM_LEVELS
    && (forall l :: 0 <= l < NUM_LEVELS && l != c.level && l != c.level + 1 ==> v'.files[l] == v.files[l])
    && LevelReplaced(v.files[c.level], c.inputs0, [], v'.files[c.level])
    && LevelReplaced(v.files[c.level + 1], c.inputs1, outputs, v'.files[c.level + 1])
  }

  ghost predicate LevelReplaced(base: seq<FileMeta>, removed: seq<FileMeta>, added: seq<FileMeta>, files: seq<FileMeta>) {
    DistinctNumbers(files) && forall f :: f in files <==> (f in base && f !in removed) || f in added
  }

  lemma DeletedByNumber(base: seq<FileMeta>, removed: seq<FileMeta>, added: seq<FileMeta>, files: seq<FileMeta>)
    requires ValidFiles(base) && Subset(removed, base)
    requires DistinctNumbers(added) && Numbers(base) !! Numbers(added)
    requires LevelInstalled(base, LevelEdit(Numbers(removed), added), files)
    ensures LevelReplaced(base, removed, added, files)
  {
    forall f | f in base
      ensures f.number in Numbers(removed) <==> f in removed
    {
    }
  }

  /** InstallCompactionResults: deletes the inputs and adds the outputs at the next level. */
  method InstallCompactionResults(v: Version, c: Inputs, outputs: seq<FileMeta>) returns (r: Version)
    requires ValidVersion(v) && LevelsSorted(v) && Fits(v, c)
    requires DistinctNumbers(outputs) && Numbers(v.files[c.level + 1]) !! Numbers(outputs)
    ensures CompactionInstalled(v, c, outputs, r)
  {
    var edit := seq(NUM_LEVELS, l => if l == c.level then LevelEdit(Numbers(c.inputs0), [])
                                     else if l == c.level + 1 then LevelEdit(Numbers(c.inputs1), outputs)
                                     else LevelEdit({}, []));
    r := LogAndApply(v, edit);
    assert LevelOk(c.level, v.files[c.level]) && LevelOk(c.level + 1, v.files[c.level + 1]);
    assert LevelInstalled(v.files[c.level], edit[c.level], r.files[c.level]);
    assert LevelInstalled(v.files[c.level + 1], edit[c.level + 1], r.files[c.level + 1]);
    DeletedByNumber(v.files[c.level], c.inputs0, [], r.files[c.level]);
    DeletedByNumber(v.files[c.level + 1], c.inputs1, outputs, r.files[c.level + 1]);
    forall l | 0 <= l < NUM_LEVELS && l != c.level && l != c.level + 1
      ensures r.files[l] == v.files[l]
    {
      assert LevelInstalled(v.files[l], edit[l], r.files[l]);
    }
  }

  // Outputs of a compaction: well-formed disjoint tables that hold nothing but input entries.
  ghost predicate OutputsOf(outputs: seq<FileMeta>, c: Inputs) {
    && ValidFiles(outputs) && Disjoint(outputs)
    && forall o, e :: o in outputs && e in o.entries ==> e in InputEntries(c)
  }

  ghost predicate PairwiseDisjoint(files: seq<FileMeta>) {
    forall f, g :: f in files && g in files && f != g ==> Before(f.largest, g.smallest) || Before(g.largest, f.smallest)
  }

  lemma SortedPairwiseIsDisjoint(files: seq<FileMeta>)
    requires SortedBySmallest(files) && DistinctNumbers(files) && PairwiseDisjoint(files)
    requires forall f :: f in files ==> ValidFile(f)
    ensures Disjoint(files)
  {
    forall i, j | 0 <= i < j < |files|
      ensures Before(files[i].largest, files[j].smallest)
    {
      FileRange(files[i]);
      FileRange(files[j]);
      assert files[i].number != files[j].number;
    }
  }

  // o holds keys on both sides of g.
  ghost predicate Spans(o: FileMeta, g: FileMeta) {
    o.smallest.user < g.smallest.user && g.largest.user < o.largest.user
  }

  /** Some output reaches across a file that was left at the output level, or came to it meanwhile. */
  ghost predicate SpansSibling(v: Version, c: Inputs, outputs: seq<FileMeta>)
    requires c.level + 1 < |v.files|
  {
    exists o, g {:trigger Spans(o, g)} :: o in outputs && g in v.files[c.level + 1] && g !in c.inputs1 && Spans(o, g)
  }

  // A file on one side of what arrives at the output level lies on that side of every input.
  lemma SiblingSide(next: seq<FileMeta>, c: Inputs, g: FileMeta, f: FileMeta)
    requires ValidFiles(next) && Disjoint(next) && LowerMeets(next, c.inputs0, c.inputs1)
    requires c.inputs0 != [] && (forall h :: h in c.inputs0 ==> ValidFile(h)) && g in next && g !in c.inputs1
    requires f in c.inputs0 + c.inputs1
    ensures (forall h :: h in c.inputs0 ==> g.largest.user < h.smallest.user) ==> Before(g.largest, f.smallest)
    ensures (forall h :: h in c.inputs0 ==> h.largest.user < g.smallest.user) ==> Before(f.largest, g.smallest)
  {
    if f in c.inputs1 {
      var h0 := c.inputs0[0];
      assert h0 in c.inputs0;
      DisjointPair(next, f, g);
      FileRange(f);
      FileRange(g);
      assert MeetsRange(f, c.inputs0);
    }
  }

  lemma OutputEnds(v: Version, c: Inputs, outputs: seq<FileMeta>, o: FileMeta) returns (f: FileMeta, h: FileMeta)
    requires ValidVersion(v) && Fits(v, c) && OutputsOf(outputs, c) && o in outputs
    ensures f in c.inputs0 + c.inputs1 && ValidFile(f) && o.entries[0] in f.entries
    ensures h in c.inputs0 + c.inputs1 && ValidFile(h) && o.entries[|o.entries| - 1] in h.entries
  {
    assert LevelOk(c.level, v.files[c.level]) && LevelOk(c.level + 1, v.files[c.level + 1]);
    var first, last := o.entries[0], o.entries[|o.entries| - 1];
    assert first in o.entries && last in o.entries;
    var m, n;
    m, f := InputFile(v, c, first);
    n, h := InputFile(v, c, last);
  }

  /** An output and a file of the output level outside the compaction are disjoint, unless the output
      spans the file. */
  lemma OutputBesideSibling(v: Version, c: Inputs, outputs: seq<FileMeta>, o: FileMeta, g: FileMeta)
    requires ValidVersion(v) && Fits(v, c) && OutputsOf(outputs, c)
    requires o in outputs && g in v.files[c.level + 1] && g !in c.inputs1
    ensures Before(o.largest, g.smallest) || Before(g.largest, o.smallest) <==> !Spans(o, g)
  {
    assert LevelOk(c.level, v.files[c.level]) && LevelOk(c.level + 1, v.files[c.level + 1]) && Aside(g, c);
    FileRange(g);
    FileRange(o);
    var f, h := OutputEnds(v, c, outputs, o);
    WithinFile(f, o.entries[0]);
    WithinFile(h, o.entries[|o.entries| - 1]);
    SiblingSide(v.files[c.level + 1], c, g, f);
    SiblingSide(v.files[c.level + 1], c, g, h);
  }

  lemma UpperLevelOk(level: nat, base: seq<FileMeta>, removed: seq<FileMeta>, files: seq<FileMeta>)
    requires LevelOk(level, base) && LevelReplaced(base, removed, [], files) && SortedBySmallest(files)
    ensures LevelOk(level, files)
  {
    if level == 0 {
      forall f, g | f in files && g in files && f.number > g.number
        ensures Newer(f, g)
      {
      }
    } else {
      forall f, g | f in files && g in files && f != g
        ensures Before(f.largest, g.smallest) || Before(g.largest, f.smallest)
      {
        DisjointPair(base, f, g);
      }
      SortedPairwiseIsDisjoint(files);
    }
  }

  lemma LowerLevelOk(v: Version, c: Inputs, outputs: seq<FileMeta>, files: seq<FileMeta>)
    requires ValidVersion(v) && Fits(v, c) && OutputsOf(outputs, c) && SortedBySmallest(files)
    requires LevelReplaced(v.files[c.level + 1], c.inputs1, outputs, files) && !SpansSibling(v, c, outputs)
    ensures LevelOk(c.level + 1, files)
  {
    var base := v.files[c.level + 1];
    assert LevelOk(c.level + 1, base);
    forall f, g | f in files && g in files && f != g
      ensures Before(f.largest, g.smallest) || Before(g.largest, f.smallest)
    {
      if f in outputs {
        if g in outputs {
          DisjointPair(outputs, f, g);
        } else {
          OutputBesideSibling(v, c, outputs, f, g);
        }
      } else if g in outputs {
        OutputBesideSibling(v, c, outputs, g, f);
      } else {
        DisjointPair(base, f, g);
      }
    }
    SortedPairwiseIsDisjoint(files);
  }

  // Where an entry of the new version was before: where it is now, or one level up among the inputs.
  lemma Origin(v: Version, c: Inputs, outputs: seq<FileMeta>, v': Version, l: nat, f: FileMeta, e: Entry)
    returns (m: nat, g: FileMeta)
    requires ValidVersion(v) && Fits(v, c) && OutputsOf(outputs, c) && CompactionInstalled(v, c, outputs, v')
    requires l < NUM_LEVELS && f in v'.files[l] && e in f.entries
    ensures m < NUM_LEVELS && g in v.files[m] && e in g.entries
    ensures (m == l && (l == c.level ==> g !in c.inputs0)) || (m == c.level && l == c.level + 1 && g in c.inputs0)
  {
    if l == c.level + 1 && f in outputs {
      m, g := InputFile(v, c, e);
    } else {
      m, g := l, f;
    }
  }

  /** Whatever selection that still fits is compacted into whatever outputs, the installed version
      satisfies the invariant again, deeper levels sorted and disjoint and every shallower entry of a
      user key newer than every deeper one, if and only if no output spans a file that stayed at, or
      came to, the output level. */
  lemma InstallValidIff(v: Version, c: Inputs, outputs: seq<FileMeta>, v': Version)
    requires ValidVersion(v) && Fits(v, c) && OutputsOf(outputs, c) && CompactionInstalled(v, c, outputs, v')
    ensures ValidVersion(v') <==> !SpansSibling(v, c, outputs)
  {
    if SpansSibling(v, c, outputs) {
      var o, g :| o in outputs && g in v.files[c.level + 1] && g !in c.inputs1 && Spans(o, g);
      assert o in v'.files[c.level + 1] && g in v'.files[c.level + 1];
      assert LevelOk(c.level + 1, v.files[c.level + 1]);
      OutputBesideSibling(v, c, outputs, o, g);
      if LevelOk(c.level + 1, v'.files[c.level + 1]) {
        DisjointPair(v'.files[c.level + 1], o, g);
        assert false;
      }
    } else {
      InstalledLevelsOk(v, c, outputs, v');
      forall i, j, f, g | 0 <= i < j < NUM_LEVELS && f in v'.files[i] && g in v'.files[j]
        ensures Newer(f, g)
      {
        NewPairOrdered(v, c, outputs, v', i, j, f, g);
      }
    }
  }

  lemma InstalledLevelsOk(v: Version, c: Inputs, outputs: seq<FileMeta>, v': Version)
    requires ValidVersion(v) && Fits(v, c) && OutputsOf(outputs, c) && CompactionInstalled(v, c, outputs, v')
    requires !SpansSibling(v, c, outputs)
    ensures forall l {:trigger LevelOk(l, v'.files[l])} :: 0 <= l < NUM_LEVELS ==> LevelOk(l, v'.files[l])
  {
    forall l | 0 <= l < NUM_LEVELS
      ensures LevelOk(l, v'.files[l])
    {
      assert LevelOk(l, v.files[l]);
      if l == c.level {
        UpperLevelOk(l, v.files[l], c.inputs0, v'.files[l]);
      } else if l == c.level + 1 {
        LowerLevelOk(v, c, outputs, v'.files[l]);
      }
    }
  }

  /** A selection nothing was flushed into always leads to a valid version. */
  lemma SelectedNeverSpans(v: Version, c: Inputs, outputs: seq<FileMeta>)
    requires ValidVersion(v) && Selected(v, c) && OutputsOf(outputs, c)
    ensures !SpansSibling(v, c, outputs)
  {
    forall o, g | o in outputs && g in v.files[c.level + 1] && g !in c.inputs1
      ensures !Spans(o, g)
    {
      assert LevelOk(c.level, v.files[c.level]) && LevelOk(c.level + 1, v.files[c.level + 1]) && OneSide(g, c.inputs0);
      var f, h := OutputEnds(v, c, outputs, o);
      WithinFile(f, o.entries[0]);
      WithinFile(h, o.entries[|o.entries| - 1]);
      SiblingSide(v.files[c.level + 1], c, g, f);
      SiblingSide(v.files[c.level + 1], c, g, h);
      FileRange(g);
    }
  }

  lemma InstallKeepsValid(v: Version, c: Inputs, outputs: seq<FileMeta>, v': Version)
    requires ValidVersion(v) && Selected(v, c) && OutputsOf(outputs, c) && CompactionInstalled(v, c, outputs, v')
    ensures ValidVersion(v')
  {
    SelectedNeverSpans(v, c, outputs);
    InstallValidIff(v, c, outputs, v');
  }

  lemma NewPairOrdered(v: Version, c: Inputs, outputs: seq<FileMeta>, v': Version, i: nat, j: nat, f: FileMeta, g: FileMeta)
    requires ValidVersion(v) && Fits(v, c) && OutputsOf(outputs, c) && CompactionInstalled(v, c, outputs, v')
    requires i < j < NUM_LEVELS && f in v'.files[i] && g in v'.files[j]
    ensures Newer(f, g)
  {
    forall e, x | e in f.entries && x in g.entries && e.key.user == x.key.user
      ensures e.key.sequence > x.key.sequence
    {
      var m, f0 := Origin(v, c, outputs, v', i, f, e);
      var n, g0 := Origin(v, c, outputs, v', j, g, x);
      if m == n {
        assert Newer(f0, g0);
      } else {
        assert AllNewer(v.files[m], v.files[n]) && Newer(f0, g0);
      }
    }
  }

  // ---------------------------------------------------------------- what a recovery makes of the manifest

  // The lists one level had, from a new database on, as edit after edit was installed
  ghost predicate InstalledInTurn(lists: seq<seq<FileMeta>>, edits: seq<LevelEdit>) {
    && |lists| == |edits| + 1 && lists[0] == []
    && forall i: nat {:trigger InstalledAt(lists, edits, i)} :: i < |edits| ==> InstalledAt(lists, edits, i)
  }

  ghost predicate InstalledAt(lists: seq<seq<FileMeta>>, edits: seq<LevelEdit>, i: nat)
    requires i < |edits| && i + 1 < |lists|
  {
    SortedBySmallest(lists[i + 1]) && LevelInstalled(lists[i], edits[i], lists[i + 1])
  }

  lemma {:induction false} FreshPrefix(edits: seq<LevelEdit>, n: nat)
    requires FreshNumbers({}, edits) && n <= |edits|
    ensures FreshNumbers({}, edits[..n])
    decreases |edits|
  {
    if n == |edits| {
      assert edits[..n] == edits;
    } else {
      FreshPrefix(edits[..|edits| - 1], n);
      assert edits[..|edits| - 1][..n] == edits[..n];
    }
  }

  lemma {:induction false} InTurnPrefix(lists: seq<seq<FileMeta>>, edits: seq<LevelEdit>, n: nat)
    requires InstalledInTurn(lists, edits) && FreshNumbers({}, edits) && n <= |edits|
    ensures SortedBySmallest(lists[n]) && DistinctNumbers(lists[n])
    ensures AsSet(lists[n]) == InstalledOneByOne({}, edits[..n]) <= AllAdded(edits[..n])
  {
    if n > 0 {
      InTurnPrefix(lists, edits, n - 1);
      FreshPrefix(edits, n);
      var prefix, last := edits[..n - 1], edits[n - 1];
      assert edits[..n][..n - 1] == prefix && edits[..n][n - 1] == last;
      assert InstalledAt(lists, edits, n - 1);
      EditResult(lists[n - 1], AllAdded(prefix), last, lists[n]);
    }
  }

  // One edit with fresh numbers
  lemma EditResult(base: seq<FileMeta>, earlier: set<FileMeta>, edit: LevelEdit, files: seq<FileMeta>)
    requires LevelInstalled(base, edit, files) && DistinctNumbers(edit.added) && AsSet(base) <= earlier
    requires forall f, g :: f in {} + earlier && g in edit.added ==> f.number != g.number
    ensures DistinctNumbers(files) && AsSet(files) == Result(AsSet(base), Apply(EMPTY, edit)) <= earlier + AsSet(edit.added)
  {
    assert forall f :: f in base <==> f in AsSet(base);
    assert Numbers(base) !! Numbers(edit.added);
    ApplyAddsFresh(EMPTY.(deleted := EMPTY.deleted + edit.deleted), edit.added);
    var st := Apply(EMPTY, edit);
    assert AsSet(st.added) == AsSet(edit.added) && st.deleted == edit.deleted - Numbers(edit.added);
    forall f
      ensures f in AsSet(files) <==> f in Result(AsSet(base), st)
    {
      assert f in files <==> f in AsSet(files);
      assert f in edit.added <==> f in AsSet(edit.added);
      assert f in edit.added ==> f.number in Numbers(edit.added);
    }
  }

  /** VersionSet::Recover at one level: every edit of the manifest goes through one builder, which is saved
      once.  As long as no file number comes back to the level, the list is the one the last of the
      versions had that were installed edit by edit. */
  method RecoverLevel(edits: seq<LevelEdit>, ghost lists: seq<seq<FileMeta>>) returns (files: seq<FileMeta>)
    requires InstalledInTurn(lists, edits) && FreshNumbers({}, edits)
    ensures files == lists[|edits|]
  {
    var st := EMPTY;
    for i := 0 to |edits|
      invariant SortedBySmallest(st.added) && st == Replayed(edits[..i])
    {
      assert edits[..i + 1][..i] == edits[..i];
      st := Apply(st, edits[i]);
    }
    assert edits[..|edits|] == edits;
    files := SaveTo([], st);
    SaveToResult([], st, files);
    ReplayEqualsInstalling({}, edits);
    InTurnPrefix(lists, edits, |edits|);
    ReplayedDistinct(edits);
    assert AsSet([]) == {} && Numbers([]) == {};
    SortedListUnique(files, lists[|edits|]);
  }

  lemma {:induction false} ReplayedDistinct(edits: seq<LevelEdit>)
    requires FreshNumbers({}, edits)
    ensures DistinctNumbers(Replayed(edits).added)
  {
    if edits != [] {
      var prefix, last := edits[..|edits| - 1], edits[|edits| - 1];
      ReplayedDistinct(prefix);
      ReplayEqualsInstalling({}, prefix);
      var st := Replayed(prefix);
      forall f, g | f in st.added && g in last.added
        ensures f.number != g.number
      {
        assert f in AsSet(st.added) && f in {} + AllAdded(prefix);
      }
      ApplyAddsFresh(st.(deleted := st.deleted + last.deleted), last.added);
    }
  }
}
