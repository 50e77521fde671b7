/** A whole compaction, from the merging iterator over its inputs to the installed version
    (BackgroundCompaction, MakeInputIterator and DoCompactionWork together). */
module Background {
  import opened Keys
  import opened Store
  import opened Versions
  import opened Selection
  import opened Builders
  import opened Compactions
  import opened Cuts
  import opened CompactionReads
  import opened Installs
  import opened Flushes
  import opened Lsm
  import opened Mergers

  // Finite sets of entries with distinct keys have a sorted listing.
  lemma {:induction false} SortedListing(es: set<Entry>) returns (r: seq<Entry>)
    requires Unique(es)
    ensures Sorted(r) && forall e :: e in r <==> e in es
    decreases |es|
  {
    r := [];
    if e :| e in es {
      var rest := SortedListing(es - {e});
      r := Insert(rest, e);
      InsertSorted(rest, e);
    }
  }

  ghost function Insert(es: seq<Entry>, e: Entry): seq<Entry> {
    if es == [] || Before(e.key, es[0].key) then [e] + es else [es[0]] + Insert(es[1..], e)
  }

  lemma {:induction false} InsertSorted(es: seq<Entry>, e: Entry)
    requires Sorted(es) && forall x :: x in es ==> x.key.user != e.key.user || x.key.sequence != e.key.sequence
    ensures Sorted(Insert(es, e))
    ensures forall x :: x in Insert(es, e) <==> x in es || x == e
  {
    if es == [] || Before(e.key, es[0].key) {
      SortedConcat([e], es);
    } else {
      InsertSorted(es[1..], e);
      assert es == [es[0]] + es[1..];
      SortedConcat([es[0]], Insert(es[1..], e));
    }
  }

  // The children of the input iterator: one per level-0 file, one per deeper level.
  function Children(c: Inputs): seq<seq<Entry>> {
    if c.level == 0 then seq(|c.inputs0|, i requires 0 <= i < |c.inputs0| => c.inputs0[i].entries) + [Flatten(c.inputs1)]
    else [Flatten(c.inputs0), Flatten(c.inputs1)]
  }

  lemma ChildrenAreUnion(v: Version, c: Inputs, union: seq<Entry>)
    requires ValidVersion(v) && Fits(v, c) && Sorted(union)
    requires forall e :: e in union <==> e in InputEntries(c)
    ensures IsUnion(Children(c), union)
  {
    assert LevelOk(c.level, v.files[c.level]) && LevelOk(c.level + 1, v.files[c.level + 1]);
    FlattenSorted(c.inputs1);
    forall e
      ensures e in Flatten(c.inputs0) <==> e in FileContents(c.inputs0)
      ensures e in Flatten(c.inputs1) <==> e in FileContents(c.inputs1)
    {
      FlattenMember(c.inputs0, e);
      FlattenMember(c.inputs1, e);
    }
    forall f, e | f in c.inputs0 && e in f.entries
      ensures e !in FileContents(c.inputs1)
    {
      NotBelow(v, c, f, e);
    }
    if c.level == 0 {
      forall f, g, e | f in c.inputs0 && g in c.inputs0 && f != g && e in f.entries
        ensures e !in g.entries
      {
        OneFilePerEntry(v, 0, g, 0, f, e);
      }
      LevelZeroChildren(c, union);
    } else {
      FlattenSorted(c.inputs0);
      assert forall e :: e in union ==> e in Children(c)[if e in FileContents(c.inputs0) then 0 else 1];
    }
  }

  lemma LevelZeroChildren(c: Inputs, union: seq<Entry>)
    requires c.level == 0 && Sorted(union) && NoDuplicates(c.inputs0)
    requires forall e :: e in union <==> e in InputEntries(c)
    requires (forall f :: f in c.inputs0 ==> Sorted(f.entries)) && Sorted(Flatten(c.inputs1))
    requires forall e :: e in Flatten(c.inputs1) <==> e in FileContents(c.inputs1)
    requires forall f, e :: f in c.inputs0 && e in f.entries ==> e !in FileContents(c.inputs1)
    requires forall f, g, e :: f in c.inputs0 && g in c.inputs0 && f != g && e in f.entries ==> e !in g.entries
    ensures IsUnion(Children(c), union)
  {
    var lists, n := Children(c), |c.inputs0|;
    assert forall k :: 0 <= k < n ==> lists[k] == c.inputs0[k].entries;
    assert lists[n] == Flatten(c.inputs1);
    forall e | e in union
      ensures exists k :: 0 <= k < |lists| && e in lists[k]
    {
      if e in FileContents(c.inputs0) {
        var f :| f in c.inputs0 && e in f.entries;
        var k :| 0 <= k < n && c.inputs0[k] == f;
        assert e in lists[k];
      } else {
        assert e in lists[n];
      }
    }
  }

  lemma NotBelow(v: Version, c: Inputs, f: FileMeta, e: Entry)
    requires ValidVersion(v) && Fits(v, c) && f in c.inputs0 && e in f.entries
    ensures e !in FileContents(c.inputs1)
  {
    forall g | g in c.inputs1
      ensures e !in g.entries
    {
      OneFilePerEntry(v, c.level + 1, g, c.level, f, e);
    }
  }

  /** Drives the merging iterator from SeekToFirst to the end: the inputs come out as one sorted
      sequence. */
  method MergeInputs(ghost v: Version, c: Inputs) returns (input: seq<Entry>)
    requires ValidVersion(v) && Fits(v, c)
    ensures IsMergeOf(input, c)
  {
    InputsUnique(v, c);
    ghost var union := SortedListing(InputEntries(c));
    ChildrenAreUnion(v, c, union);
    var it := new MergingIterator(Children(c), union);
    input := Drain(it);
  }

  method Drain(it: MergingIterator) returns (input: seq<Entry>)
    requires it.Valid()
    modifies it, it.pos
    ensures input == it.union
  {
    it.SeekToFirst();
    input := [];
    ghost var i := 0;
    while it.current.Some?
      invariant i <= |it.union| && it.At(i) && input == it.union[..i]
      decreases |it.union| - i
    {
      input := input + [it.lists[it.current.value][it.pos[it.current.value]]];
      it.Next(i);
      i := i + 1;
    }
  }

  lemma InputsUnique(v: Version, c: Inputs)
    requires ValidVersion(v) && Fits(v, c)
    ensures Unique(InputEntries(c))
  {
    ValidVersionUnique(v);
    RestSplit(v, c);
  }

  /** One compaction of any selected inputs: the version it installs satisfies the invariant, and from the
      smallest snapshot on it changes exactly the reads it exposes. */
  method RunCompaction(v: Version, c: Inputs, smallest: SequenceNumber, nextNumber: nat, maxFileSize: nat,
                       builtSize: seq<Entry> -> nat, tableSize: seq<Entry> -> nat)
    returns (r: Version, nextNumber': nat)
    requires ValidVersion(v) && LevelsSorted(v) && Selected(v, c) && smallest < MAX_SEQUENCE
    requires forall l, f :: 0 <= l < |v.files| && f in v.files[l] ==> f.number < nextNumber
    ensures ValidVersion(r) && LevelsSorted(r) && Contents(r) <= Contents(v)
    ensures forall u, s: SequenceNumber :: smallest <= s ==>
              (Read(Contents(r), u, s) == Read(Contents(v), u, s) <==> !ExposesAt(v, c, u, smallest, s))
  {
    var input := MergeInputs(v, c);
    var job := new Compaction(v, c, maxFileSize);
    var outputs;
    outputs, nextNumber' := DoCompactionWork(job, input, smallest, nextNumber, builtSize, tableSize);
    assert Numbers(v.files[c.level + 1]) !! Numbers(outputs);
    r := InstallCompactionResults(v, c, outputs);
    InstalledReads(v, c, input, smallest, outputs, r);
    SelectedNeverSpans(v, c, outputs);
  }

  /** The steps of the engine are what the code computes.  A compaction chosen earlier, merged and installed
      now, beside whatever was flushed meanwhile. */
  method FinishJob(s: Db, maxFileSize: nat, builtSize: seq<Entry> -> nat, tableSize: seq<Entry> -> nat)
    returns (input: seq<Entry>, outputs: seq<FileMeta>, nextNumber: nat, v: Version)
    requires LayersOk(s) && NumbersOk(s.version, s.nextFile) && JobOk(s) && s.job.Some? && s.job.value.smallest < MAX_SEQUENCE
    ensures Installable(s.(nextFile := nextNumber), FinishCompaction(input, outputs), v)
    ensures Sized(outputs, tableSize)
    ensures var j := s.job.value;
            CutRightly(CutRule(j.inputs, maxFileSize, input, builtSize), KeptAt(j.base, j.inputs.level, input, |input|, j.smallest), outputs)
  {
    var j := s.job.value;
    input := MergeInputs(s.version, j.inputs);
    var work := new Compaction(j.base, j.inputs, maxFileSize);
    outputs, nextNumber := DoCompactionWork(work, input, j.smallest, s.nextFile, builtSize, tableSize);
    assert Numbers(s.version.files[j.inputs.level + 1]) !! Numbers(outputs);
    v := InstallCompactionResults(s.version, j.inputs, outputs);
  }

  // A memtable written out with the next file number
  method FinishFlush(s: Db, size: nat, maxFileSize: nat) returns (table: FileMeta, level: nat, v: Version)
    requires LayersOk(s) && NumbersOk(s.version, s.nextFile) && s.imm.Some? && s.imm.value != []
    ensures Installable(s.(nextFile := s.nextFile + 1), Flush(table, level), v)
  {
    var es := s.imm.value;
    table := FileMeta(s.nextFile, size, es[0].key, es[|es| - 1].key, es);
    level, v := CompactMemTable(s.version, table, maxFileSize);
  }

  lemma InstalledReads(v: Version, c: Inputs, input: seq<Entry>, smallest: SequenceNumber, outputs: seq<FileMeta>, r: Version)
    requires ValidVersion(v) && Fits(v, c) && IsMergeOf(input, c)
    requires Flatten(outputs) == Kept(v, c.level, input, |input|, smallest) && ValidFiles(outputs) && Disjoint(outputs)
    requires CompactionInstalled(v, c, outputs, r)
    ensures OutputsOf(outputs, c) && Contents(r) <= Contents(v)
    ensures ValidVersion(r) <==> !SpansSibling(v, c, outputs)
    ensures forall u, s: SequenceNumber :: smallest <= s ==>
              (Read(Contents(r), u, s) == Read(Contents(v), u, s) <==> !ExposesAt(v, c, u, smallest, s))
  {
    forall e
      ensures e in FileContents(outputs) <==> e in KeptSet(v, c, input, smallest)
    {
      FlattenMember(outputs, e);
    }
    KeptAreInputs(v, c, input, smallest, outputs);
    InstallValidIff(v, c, outputs, r);
    InstalledContents(v, c, outputs, r);
    AfterIsSubset(v, c, input, smallest);
    assert Contents(r) == After(v, c, input, smallest);
    forall u, s: SequenceNumber | smallest <= s
      ensures Read(Contents(r), u, s) == Read(Contents(v), u, s) <==> !ExposesAt(v, c, u, smallest, s)
    {
      ReadPreservedIff(v, c, input, smallest, u, s);
    }
  }

  /** The case the code does not handle happens: a manual compaction of two distant level-1 files writes
      everything the drop rule keeps to one table, which spans the gap between them; a memtable flushed
      into that gap at level 2 meanwhile leaves level 2 with overlapping files. */
  lemma FlushIntoGapExample() returns (v: Version, c: Inputs, input: seq<Entry>, table: FileMeta, v1: Version, output: FileMeta, v2: Version)
    ensures ValidVersion(v) && Selected(v, c) && c.inputs0 == v.files[1] && c.level == 1
    ensures ValidFile(table) && NewerThanVersion(table, v) && ClearUpTo(v, 2, table.smallest.user, table.largest.user)
    ensures FlushInstalled(v, table, 2, v1) && ValidVersion(v1) && Fits(v1, c) && !Selected(v1, c)
    ensures IsMergeOf(input, c) && Flatten([output]) == Kept(v, 1, input, |input|, 2)
    ensures ValidFiles([output]) && Disjoint([output]) && CompactionInstalled(v1, c, [output], v2)
    ensures SpansSibling(v1, c, [output]) && !ValidVersion(v2)
  {
    var a, b, m := Put(0.0, 1, "a"), Put(5.0, 2, "b"), Put(2.0, 3, "m");
    var left, right := Table(1, [a]), Table(2, [b]);
    table := Table(3, [m]);
    output := Table(4, [a, b]);
    input := [a, b];
    v := Version([[], [left, right], [], [], [], [], []]);
    v1 := Version([[], [left, right], [table], [], [], [], []]);
    v2 := Version([[], [], [output, table], [], [], [], []]);
    c := Inputs(1, [left, right], [], []);
    GapVersionsValid(v, v1, left, right, table);
    GapKept(v, v1, c, left, right, output, input);
    GapLevels(v, v1, v2, left, right, table, output);
    GapSelected(v, c, left, right);
    GapSpoilt(v, v1, v2, c, left, right, table, output, input);
  }

  lemma GapKept(v: Version, v1: Version, c: Inputs, left: FileMeta, right: FileMeta, output: FileMeta, input: seq<Entry>)
    requires input == [Put(0.0, 1, "a"), Put(5.0, 2, "b")] && left.entries == [input[0]] && right.entries == [input[1]]
    requires c == Inputs(1, [left, right], [], []) && output == Table(4, input)
    ensures IsMergeOf(input, c) && Flatten([output]) == Kept(v, 1, input, |input|, 2) == Kept(v1, 1, input, |input|, 2)
    ensures ValidFile(output) && ValidFiles([output]) && Disjoint([output])
    ensures output.smallest.user == 0.0 && output.largest.user == 5.0
    ensures left in c.inputs0 && right in c.inputs0
  {
    assert input[0].key.user == 0.0 && input[1].key.user == 5.0;
    GapMerge(c, left, right, input);
    NothingDropped(v, 1, input, 2);
    NothingDropped(v1, 1, input, 2);
    FlattenOne(output);
    OneFileOk(2, output);
    assert left in c.inputs0 && right in c.inputs0;
  }

  lemma GapSelected(v: Version, c: Inputs, left: FileMeta, right: FileMeta)
    requires v.files == [[], [left, right], [], [], [], [], []] && c == Inputs(1, [left, right], [], [])
    requires left.number != right.number && Before(left.largest, right.smallest)
    ensures Selected(v, c)
  {
  }

  lemma FlattenOne(f: FileMeta)
    ensures Flatten([f]) == f.entries
  {
    FlattenAppend([], f);
    assert [] + [f] == [f];
  }

  lemma GapSpoilt(v: Version, v1: Version, v2: Version, c: Inputs, left: FileMeta, right: FileMeta, table: FileMeta, output: FileMeta,
                  input: seq<Entry>)
    requires ValidVersion(v) && Selected(v, c) && FlushInstalled(v, table, c.level + 1, v1) && ValidFile(table) && ValidVersion(v1)
    requires NewerThanVersion(table, v) && ClearUpTo(v, c.level + 1, table.smallest.user, table.largest.user)
    requires left in c.inputs0 && right in c.inputs0 && left.smallest.user <= table.largest.user && table.smallest.user <= right.largest.user
    requires IsMergeOf(input, c) && Flatten([output]) == Kept(v1, c.level, input, |input|, 2) && ValidFile(output)
    requires Spans(output, table) && CompactionInstalled(v1, c, [output], v2)
    ensures Fits(v1, c) && !Selected(v1, c) && SpansSibling(v1, c, [output]) && !ValidVersion(v2)
  {
    FitSurvivesFlush(v, c, table, c.level + 1, v1);
    SelectionSurvivesFlush(v, c, table, c.level + 1, v1);
    TableIsNew(v, c.level + 1, table);
    assert output in [output] && table in v1.files[c.level + 1];
    InstalledReads(v1, c, input, 2, [output], v2);
  }

  lemma GapMerge(c: Inputs, left: FileMeta, right: FileMeta, input: seq<Entry>)
    requires c.inputs0 == [left, right] && c.inputs1 == [] && input == left.entries + right.entries && Sorted(input)
    ensures IsMergeOf(input, c)
  {
    assert left in c.inputs0 && right in c.inputs0;
  }

  // Values with distinct user keys are all kept.
  lemma {:induction false} NothingDropped(v: Version, level: nat, input: seq<Entry>, smallest: SequenceNumber)
    requires forall i :: 0 <= i < |input| ==> input[i].key.vtype.Value?
    requires forall i, j :: 0 <= i < j < |input| ==> input[i].key.user != input[j].key.user
    ensures Kept(v, level, input, |input|, smallest) == input
  {
    KeptPrefix(v, level, input, |input|, smallest);
    assert input[..|input|] == input;
  }

  lemma {:induction false} KeptPrefix(v: Version, level: nat, input: seq<Entry>, n: nat, smallest: SequenceNumber)
    requires n <= |input| && forall i :: 0 <= i < n ==> !Dropped(v, level, input, i, smallest)
    ensures Kept(v, level, input, n, smallest) == input[..n]
  {
    if n > 0 {
      KeptPrefix(v, level, input, n - 1, smallest);
    }
  }

  lemma GapVersionsValid(v: Version, v1: Version, left: FileMeta, right: FileMeta, table: FileMeta)
    requires left == Table(1, [Put(0.0, 1, "a")]) && right == Table(2, [Put(5.0, 2, "b")]) && table == Table(3, [Put(2.0, 3, "m")])
    requires v.files == [[], [left, right], [], [], [], [], []]
    requires v1.files == [[], [left, right], [table], [], [], [], []]
    ensures ValidVersion(v) && ValidVersion(v1) && NewerThanVersion(table, v)
    ensures ClearUpTo(v, 2, table.smallest.user, table.largest.user)
  {
    GapLevelsValid(left, right, table);
    LevelsValid(v, [left, right], []);
    LevelsValid(v1, [left, right], [table]);
    TableInGap(v, left, right, table);
  }

  lemma GapLevelsValid(left: FileMeta, right: FileMeta, table: FileMeta)
    requires left == Table(1, [Put(0.0, 1, "a")]) && right == Table(2, [Put(5.0, 2, "b")]) && table == Table(3, [Put(2.0, 3, "m")])
    ensures LevelOk(1, [left, right]) && LevelOk(2, [table]) && LevelOk(2, [])
    ensures Newer(table, left) && Newer(table, right) && AllNewer([left, right], [table]) && AllNewer([left, right], [])
  {
    TwoFilesOk(1, left, right);
    OneFileOk(2, table);
    DifferentKeys(left, table);
    DifferentKeys(right, table);
    NothingBelow([left, right]);
  }

  lemma DifferentKeys(f: FileMeta, g: FileMeta)
    requires ValidFile(f) && ValidFile(g) && f.smallest.user == f.largest.user != g.smallest.user == g.largest.user
    ensures Newer(f, g) && Newer(g, f)
  {
    forall e, x | e in f.entries && x in g.entries
      ensures e.key.user != x.key.user
    {
      WithinFile(f, e);
      WithinFile(g, x);
    }
  }

  lemma NothingBelow(files: seq<FileMeta>)
    requires LevelOk(1, files)
    ensures LevelOk(2, []) && AllNewer(files, [])
  {
  }

  lemma TableInGap(v: Version, left: FileMeta, right: FileMeta, table: FileMeta)
    requires v.files == [[], [left, right], [], [], [], [], []] && Newer(table, left) && Newer(table, right)
    requires left.largest.user < table.smallest.user && table.largest.user < right.smallest.user
    ensures NewerThanVersion(table, v) && ClearUpTo(v, 2, table.smallest.user, table.largest.user)
  {
    assert forall l :: 0 <= l < NUM_LEVELS && l != 1 ==> v.files[l] == [];
  }

  lemma GapLevels(v: Version, v1: Version, v2: Version, left: FileMeta, right: FileMeta, table: FileMeta, output: FileMeta)
    requires left.number == 1 && right.number == 2 && table.number == 3 && output.number == 4
    requires left.smallest.user == 0.0 && right.smallest.user == 5.0 && output.smallest.user == 0.0 && table.smallest.user == 2.0
    requires v == Version([[], [left, right], [], [], [], [], []])
    requires v1 == Version([[], [left, right], [table], [], [], [], []])
    requires v2 == Version([[], [], [output, table], [], [], [], []])
    ensures FlushInstalled(v, table, 2, v1)
    ensures CompactionInstalled(v1, Inputs(1, [left, right], [], []), [output], v2)
  {
    assert LevelsSorted(v1) by {
      forall l | 0 <= l < 7
        ensures SortedBySmallest(v1.files[l])
      {
        assert l == 1 || l == 2 || v1.files[l] == [];
      }
    }
    assert LevelsSorted(v2) by {
      forall l | 0 <= l < 7
        ensures SortedBySmallest(v2.files[l])
      {
        assert l == 2 || v2.files[l] == [];
      }
    }
  }
}
