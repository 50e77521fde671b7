/** Which reads a compaction preserves.

    The drop rule removes a deletion once nothing below the output level can hold its key, but
    SetupOtherInputs closes only the upper inputs under a shared boundary user key
    (version_set.cc:1407).  A lower file left behind may therefore continue a user key whose
    deletion is dropped.  This module proves that this is the only way a read can change, and that
    it does change then. */
module CompactionReads {
  import opened Keys
  import opened Store
  import opened Versions
  import opened Selection
  import opened Compactions

  ghost function InputEntries(c: Inputs): set<Entry> {
    FileContents(c.inputs0) + FileContents(c.inputs1)
  }

  predicate Stays(c: Inputs, level: nat, f: FileMeta) {
    !(level == c.level && f in c.inputs0) && !(level == c.level + 1 && f in c.inputs1)
  }

  // Everything the compaction does not touch
  ghost function Rest(v: Version, c: Inputs): set<Entry> {
    set l, f, e | 0 <= l < |v.files| && f in v.files[l] && Stays(c, l, f) && e in f.entries :: e
  }

  // What stays behind at the output level
  ghost function Siblings(v: Version, c: Inputs): set<Entry>
    requires c.level + 1 < |v.files|
  {
    set f, e | f in v.files[c.level + 1] && f !in c.inputs1 && e in f.entries :: e
  }

  ghost predicate IsMergeOf(input: seq<Entry>, c: Inputs) {
    Sorted(input) && forall e :: e in input <==> e in InputEntries(c)
  }

  ghost function KeptSet(v: Version, c: Inputs, input: seq<Entry>, smallest: SequenceNumber): set<Entry> {
    set e | e in Kept(v, c.level, input, |input|, smallest)
  }

  lemma RestSplit(v: Version, c: Inputs)
    requires ValidVersion(v) && Fits(v, c)
    ensures Contents(v) == Rest(v, c) + InputEntries(c)
    ensures Siblings(v, c) <= Rest(v, c)
  {
    forall e | e in Contents(v)
      ensures e in Rest(v, c) + InputEntries(c)
    {
      var l, f := Locate(v, e);
      if Stays(c, l, f) {
        assert e in Rest(v, c);
      }
    }
    forall e | e in Rest(v, c) + InputEntries(c)
      ensures e in Contents(v)
    {
      if e in Rest(v, c) {
        var l, f :| 0 <= l < |v.files| && f in v.files[l] && Stays(c, l, f) && e in f.entries;
        InContents(v, l, f, e);
      } else if e in FileContents(c.inputs0) {
        var f :| f in c.inputs0 && e in f.entries;
        InContents(v, c.level, f, e);
      } else {
        var f :| f in c.inputs1 && e in f.entries;
        InContents(v, c.level + 1, f, e);
      }
    }
    forall e | e in Siblings(v, c)
      ensures e in Rest(v, c)
    {
      var f :| f in v.files[c.level + 1] && f !in c.inputs1 && e in f.entries;
      assert Stays(c, c.level + 1, f);
    }
  }

  /** With nothing below the output level, an untouched entry is a sibling or newer than every input
      of its user key. */
  lemma RestIsNewer(v: Version, c: Inputs, x: Entry, e: Entry)
    requires ValidVersion(v) && Fits(v, c)
    requires x in Rest(v, c) && x !in Siblings(v, c) && BaseLevel(v, c.level, x.key.user)
    requires e in InputEntries(c) && x.key.user == e.key.user
    ensures x.key.sequence > e.key.sequence
  {
    var l, f :| 0 <= l < |v.files| && f in v.files[l] && Stays(c, l, f) && x in f.entries;
    var m, g := InputFile(v, c, e);
    assert LevelOk(l, v.files[l]);
    WithinFile(f, x);
    if l == c.level && m == c.level {
      assert Newer(f, g);
    } else {
      assert l <= c.level && l < m;
      assert AllNewer(v.files[l], v.files[m]) && Newer(f, g);
    }
  }

  lemma InputFile(v: Version, c: Inputs, e: Entry) returns (m: nat, g: FileMeta)
    requires c.level + 1 < |v.files| && e in InputEntries(c)
    requires Subset(c.inputs0, v.files[c.level]) && Subset(c.inputs1, v.files[c.level + 1])
    ensures (m == c.level && g in c.inputs0) || (m == c.level + 1 && g in c.inputs1)
    ensures m < |v.files| && g in v.files[m] && e in g.entries
  {
    if e in FileContents(c.inputs0) {
      g :| g in c.inputs0 && e in g.entries;
      m := c.level;
    } else {
      g :| g in c.inputs1 && e in g.entries;
      m := c.level + 1;
    }
  }

  lemma {:induction false} KeptMember(v: Version, level: nat, input: seq<Entry>, n: nat, smallest: SequenceNumber, e: Entry)
    requires n <= |input|
    ensures e in Kept(v, level, input, n, smallest)
            <==> exists i :: 0 <= i < n && input[i] == e && !Dropped(v, level, input, i, smallest)
  {
    if n > 0 {
      KeptMember(v, level, input, n - 1, smallest, e);
    }
  }

  /** Per user key, the drop rule keeps what only some snapshots see, and of the rest the newest entry
      unless it is an obsolete deletion. */
  lemma KeptOf(v: Version, c: Inputs, input: seq<Entry>, smallest: SequenceNumber, e: Entry)
    requires IsMergeOf(input, c) && e in InputEntries(c)
    ensures e in KeptSet(v, c, input, smallest)
            <==> e.key.sequence > smallest
                 || (IsLatest(InputEntries(c), e.key.user, smallest, e) && !Obsolete(v, c.level, e, smallest))
  {
    KeptMember(v, c.level, input, |input|, smallest, e);
    var i :| 0 <= i < |input| && input[i] == e;
    assert forall j :: 0 <= j < |input| && input[j] == e ==> j == i;
    HiddenIffNotLatest(c, input, smallest, i);
  }

  lemma HiddenIffNotLatest(c: Inputs, input: seq<Entry>, smallest: SequenceNumber, i: nat)
    requires IsMergeOf(input, c) && i < |input|
    ensures Hidden(input, i, smallest)
            <==> input[i].key.sequence <= smallest && !IsLatest(InputEntries(c), input[i].key.user, smallest, input[i])
  {
    var e := input[i];
    if i > 0 {
      assert Before(input[i - 1].key, e.key);
      assert input[i - 1] in input && input[i - 1] in InputEntries(c);
    }
    forall x | x in InputEntries(c) && VisibleTo(x, e.key.user, smallest) && x.key.sequence > e.key.sequence
      ensures Hidden(input, i, smallest)
    {
      var j :| 0 <= j < |input| && input[j] == x;
      assert j < i;
      assert j < i - 1 ==> Before(x.key, input[i - 1].key);
    }
  }

  /** The facts about one user key u on which the outcome of a compaction depends: what the store is
      made of, which inputs are kept, and what can be older than an input. */
  ghost predicate DropFacts(all: set<Entry>, rest: set<Entry>, inputs: set<Entry>, kept: set<Entry>, siblings: set<Entry>,
                            base: bool, u: UserKey, smallest: SequenceNumber)
  {
    && all == rest + inputs && rest !! inputs && kept <= inputs && siblings <= rest && Unique(all)
    && (forall x, e :: x in rest && x !in siblings && e in inputs && x.key.user == u && e.key.user == u && base
          ==> x.key.sequence > e.key.sequence)
    && (forall e :: e in inputs && e.key.user == u ==>
          (e in kept <==> e.key.sequence > smallest
                          || (IsLatest(inputs, u, smallest, e) && !(e.key.vtype.Deletion? && base))))
  }

  lemma DropFactsHold(v: Version, c: Inputs, input: seq<Entry>, u: UserKey, smallest: SequenceNumber)
    requires ValidVersion(v) && Fits(v, c) && IsMergeOf(input, c)
    ensures DropFacts(Contents(v), Rest(v, c), InputEntries(c), KeptSet(v, c, input, smallest), Siblings(v, c),
                      BaseLevel(v, c.level, u), u, smallest)
  {
    RestSplit(v, c);
    ValidVersionUnique(v);
    forall e | e in InputEntries(c)
      ensures e !in Rest(v, c)
    {
      InputNotInRest(v, c, e);
    }
    forall e | e in KeptSet(v, c, input, smallest)
      ensures e in InputEntries(c)
    {
      KeptMember(v, c.level, input, |input|, smallest, e);
    }
    forall x, e | x in Rest(v, c) && x !in Siblings(v, c) && e in InputEntries(c)
                  && x.key.user == u && e.key.user == u && BaseLevel(v, c.level, u)
      ensures x.key.sequence > e.key.sequence
    {
      RestIsNewer(v, c, x, e);
    }
    forall e | e in InputEntries(c) && e.key.user == u
      ensures e in KeptSet(v, c, input, smallest)
              <==> e.key.sequence > smallest
                   || (IsLatest(InputEntries(c), u, smallest, e) && !(e.key.vtype.Deletion? && BaseLevel(v, c.level, u)))
    {
      KeptOf(v, c, input, smallest, e);
    }
  }

  /** The newest entry visible at s is an obsolete deletion of the inputs, and the siblings show a value. */
  ghost predicate Exposed(all: set<Entry>, inputs: set<Entry>, siblings: set<Entry>, base: bool, u: UserKey, smallest: SequenceNumber,
                          s: SequenceNumber)
  {
    base && Read(siblings, u, smallest).Some?
    && exists t :: t in inputs && t.key.sequence <= smallest && IsLatest(all, u, s, t) && t.key.vtype.Deletion?
  }

  /** A read whose answer is dropped found an obsolete deletion, and afterwards finds what the siblings
      show. */
  lemma ChangedRead(all: set<Entry>, rest: set<Entry>, inputs: set<Entry>, kept: set<Entry>, siblings: set<Entry>,
                    base: bool, u: UserKey, smallest: SequenceNumber, s: SequenceNumber, t: Entry)
    requires DropFacts(all, rest, inputs, kept, siblings, base, u, smallest) && smallest <= s
    requires IsLatest(all, u, s, t) && t !in rest + kept
    ensures t in inputs && IsLatest(all, u, smallest, t) && t.key.vtype.Deletion? && base
    ensures Latest(rest + kept, u, s) == Latest(siblings, u, smallest)
  {
    assert t in inputs && IsLatest(inputs, u, smallest, t);
    var after := rest + kept;
    forall x | x in after && VisibleTo(x, u, s)
      ensures x in siblings && VisibleTo(x, u, smallest)
    {
      assert x in all;
    }
    var r := Latest(siblings, u, smallest);
    if r.Some? {
      LatestIs(after, u, s, r.value);
    } else {
      LatestNone(after, u, s);
    }
  }

  lemma ReadOfDrop(all: set<Entry>, rest: set<Entry>, inputs: set<Entry>, kept: set<Entry>, siblings: set<Entry>,
                   base: bool, u: UserKey, smallest: SequenceNumber, s: SequenceNumber)
    requires DropFacts(all, rest, inputs, kept, siblings, base, u, smallest) && smallest <= s
    ensures Read(rest + kept, u, s) == Read(all, u, s) <==> !Exposed(all, inputs, siblings, base, u, smallest, s)
  {
    var after := rest + kept;
    if Exposed(all, inputs, siblings, base, u, smallest, s) {
      var t :| t in inputs && t.key.sequence <= smallest && IsLatest(all, u, s, t) && t.key.vtype.Deletion?;
      LatestIs(all, u, s, t);
      ChangedRead(all, rest, inputs, kept, siblings, base, u, smallest, s, t);
      assert Read(after, u, s) != Read(all, u, s);
    } else {
      var r := Latest(all, u, s);
      if r.None? {
        LatestNone(after, u, s);
      } else if r.value in after {
        LatestIs(after, u, s, r.value);
      } else {
        ChangedRead(all, rest, inputs, kept, siblings, base, u, smallest, s, r.value);
      }
    }
  }

  // The store after the compaction
  ghost function After(v: Version, c: Inputs, input: seq<Entry>, smallest: SequenceNumber): set<Entry> {
    Rest(v, c) + KeptSet(v, c, input, smallest)
  }

  lemma AfterIsSubset(v: Version, c: Inputs, input: seq<Entry>, smallest: SequenceNumber)
    requires ValidVersion(v) && Fits(v, c) && IsMergeOf(input, c)
    ensures After(v, c, input, smallest) <= Contents(v)
  {
    RestSplit(v, c);
    forall e | e in KeptSet(v, c, input, smallest)
      ensures e in InputEntries(c)
    {
      KeptMember(v, c.level, input, |input|, smallest, e);
    }
  }

  /** The newest entry of u at sequence s is a deletion among the inputs that every snapshot sees, nothing
      below the output level can hold u, and a file left behind at the output level shows a value of u. */
  ghost predicate ExposesAt(v: Version, c: Inputs, u: UserKey, smallest: SequenceNumber, s: SequenceNumber)
    requires c.level + 1 < |v.files|
  {
    Exposed(Contents(v), InputEntries(c), Siblings(v, c), BaseLevel(v, c.level, u), u, smallest, s)
  }

  // Some read of u changes: the one at the smallest snapshot does, if any.
  ghost predicate Exposes(v: Version, c: Inputs, u: UserKey, smallest: SequenceNumber)
    requires c.level + 1 < |v.files|
  {
    ExposesAt(v, c, u, smallest, smallest)
  }

  /** From the smallest snapshot on, a compaction preserves exactly those reads it does not expose. */
  lemma ReadPreservedIff(v: Version, c: Inputs, input: seq<Entry>, smallest: SequenceNumber, u: UserKey, s: SequenceNumber)
    requires ValidVersion(v) && Fits(v, c) && IsMergeOf(input, c) && smallest <= s
    ensures Read(After(v, c, input, smallest), u, s) == Read(Contents(v), u, s) <==> !ExposesAt(v, c, u, smallest, s)
  {
    DropFactsHold(v, c, input, u, smallest);
    ReadOfDrop(Contents(v), Rest(v, c), InputEntries(c), KeptSet(v, c, input, smallest), Siblings(v, c),
               BaseLevel(v, c.level, u), u, smallest, s);
  }

  /** A compaction preserves every read at every snapshot from the smallest one on, of exactly those
      user keys it does not expose. */
  lemma ReadsPreservedIff(v: Version, c: Inputs, input: seq<Entry>, smallest: SequenceNumber, u: UserKey)
    requires ValidVersion(v) && Fits(v, c) && IsMergeOf(input, c)
    ensures (forall s: SequenceNumber :: smallest <= s ==> Read(After(v, c, input, smallest), u, s) == Read(Contents(v), u, s))
            <==> !Exposes(v, c, u, smallest)
  {
    ReadPreservedIff(v, c, input, smallest, u, smallest);
    forall s: SequenceNumber | smallest <= s && !Exposes(v, c, u, smallest)
      ensures Read(After(v, c, input, smallest), u, s) == Read(Contents(v), u, s)
    {
      ReadPreservedIff(v, c, input, smallest, u, s);
    }
  }

  lemma InputNotInRest(v: Version, c: Inputs, t: Entry)
    requires ValidVersion(v) && Fits(v, c) && t in InputEntries(c)
    ensures t !in Rest(v, c)
  {
    var m, g := InputFile(v, c, t);
    forall l, f | 0 <= l < |v.files| && f in v.files[l] && Stays(c, l, f)
      ensures t !in f.entries
    {
      OneFilePerEntry(v, l, f, m, g, t);
    }
  }

  lemma OneFilePerEntry(v: Version, l: nat, f: FileMeta, m: nat, g: FileMeta, e: Entry)
    requires ValidVersion(v) && l < NUM_LEVELS && m < NUM_LEVELS && f in v.files[l] && g in v.files[m]
    requires l != m || f != g
    requires e in g.entries
    ensures e !in f.entries
  {
    if l < m {
      assert AllNewer(v.files[l], v.files[m]) && Newer(f, g);
    } else if m < l {
      assert AllNewer(v.files[m], v.files[l]) && Newer(g, f);
    } else {
      assert LevelOk(l, v.files[l]);
      OneFilePerLevel(l, v.files[l], f, g, e);
    }
  }

  lemma OneFilePerLevel(level: nat, files: seq<FileMeta>, f: FileMeta, g: FileMeta, e: Entry)
    requires LevelOk(level, files) && f in files && g in files && f != g && e in g.entries
    ensures e !in f.entries
  {
    if level == 0 {
      assert f.number != g.number;
      assert Newer(f, g) || Newer(g, f);
    } else {
      DisjointPair(files, f, g);
      WithinFile(g, e);
      forall i | 0 <= i < |f.entries|
        ensures f.entries[i] != e
      {
        WithinFile(f, f.entries[i]);
      }
    }
  }

  /** If the lower inputs were closed under a shared boundary user key as the upper ones are, no
      compaction would expose anything. */
  lemma BoundaryClosedExposesNothing(v: Version, c: Inputs, u: UserKey, smallest: SequenceNumber)
    requires ValidVersion(v) && Fits(v, c)
    requires c.inputs1 != [] ==> BoundaryClosed(v.files[c.level + 1], c.inputs1)
    ensures !Exposes(v, c, u, smallest)
  {
    assert LevelOk(c.level + 1, v.files[c.level + 1]) && LevelOk(c.level, v.files[c.level]);
    forall t, x | t in FileContents(c.inputs0) && x in Siblings(v, c)
      ensures t.key.user != x.key.user
    {
      var f :| f in v.files[c.level + 1] && f !in c.inputs1 && x in f.entries;
      var g :| g in c.inputs0 && t in g.entries;
      WithinFile(f, x);
      WithinFile(g, t);
      assert Aside(f, c) && g in c.inputs0 + c.inputs1;
    }
    forall t, x | t in FileContents(c.inputs1) && x in Siblings(v, c) && t.key.user == x.key.user
      ensures x.key.sequence > t.key.sequence
    {
      var f :| f in v.files[c.level + 1] && f !in c.inputs1 && x in f.entries;
      var g :| g in c.inputs1 && t in g.entries;
      SiblingIsNewer(v.files[c.level + 1], c, f, g);
    }
    RestSplit(v, c);
    NewerSiblingsAreNotExposed(Contents(v), InputEntries(c), Siblings(v, c), BaseLevel(v, c.level, u), u, smallest, smallest);
  }

  lemma NewerSiblingsAreNotExposed(all: set<Entry>, inputs: set<Entry>, siblings: set<Entry>, base: bool, u: UserKey, smallest: SequenceNumber,
                                   s: SequenceNumber)
    requires siblings <= all && smallest <= s
    requires forall t, x :: t in inputs && x in siblings && t.key.user == x.key.user ==> x.key.sequence > t.key.sequence
    ensures !Exposed(all, inputs, siblings, base, u, smallest, s)
  {
  }

  lemma SiblingIsNewer(next: seq<FileMeta>, c: Inputs, f: FileMeta, g: FileMeta)
    requires ValidFiles(next) && Disjoint(next)
    requires c.inputs0 != [] && (forall h :: h in c.inputs0 ==> ValidFile(h))
    requires LowerMeets(next, c.inputs0, c.inputs1) && BoundaryClosed(next, c.inputs1)
    requires f in next && f !in c.inputs1 && g in c.inputs1 && Aside(f, c)
    ensures Newer(f, g)
  {
    var k := LargestExists(c.inputs1);
    var last :| last in c.inputs1 && last.largest == k;
    assert !IsBoundary(f, k);
    forall x, e | x in f.entries && e in g.entries && x.key.user == e.key.user
      ensures x.key.sequence > e.key.sequence
    {
      WithinFile(f, x);
      WithinFile(g, e);
      DisjointPair(next, f, g);
      FileRange(last);
      if f != last {
        DisjointPair(next, f, last);
      }
      assert g in c.inputs0 + c.inputs1;
      assert MeetsRange(g, c.inputs0) && MeetsRange(last, c.inputs0);
      var h0 := c.inputs0[0];
      assert h0 in c.inputs0;
    }
  }

  function Put(u: UserKey, s: SequenceNumber, value: string): Entry { Entry(InternalKey(u, s, Value), value) }
  function Tombstone(u: UserKey, s: SequenceNumber): Entry { Entry(InternalKey(u, s, Deletion), "") }
  function Table(number: nat, es: seq<Entry>): FileMeta
    requires es != []
  {
    FileMeta(number, 1, es[0].key, es[|es| - 1].key, es)
  }

  /** The exposure happens: at level 2 a deletion of key 1.0 ends one file and the value it hides
      starts the next; compacting a level-1 file over key 0.5 selects only the first of the two, and
      key 1.0 comes back to life. */
  lemma ExposureExample() returns (v: Version, c: Inputs)
    ensures ValidVersion(v) && Selected(v, c) && Exposes(v, c, 1.0, 100)
    ensures c.level == 1 && c.inputs0 == v.files[1]
    ensures forall f :: f in c.inputs1 <==> f in v.files[2] && Overlaps(f, Some(0.5), Some(0.5))
  {
    var n, a, t, x := Put(0.5, 20, "n"), Put(0.0, 2, "a"), Tombstone(1.0, 8), Put(1.0, 3, "old");
    var upper, first, second := Table(3, [n]), Table(1, [a, t]), Table(2, [x]);
    v := Version([[], [upper], [first, second], [], [], [], []]);
    c := Inputs(1, [upper], [first], []);
    assert first.entries[1] == t && first.largest == t.key;
    ExampleIsValid(v, upper, first, second);
    assert OneSide(second, [upper]) && MeetsRange(first, [upper]);
    ExampleReads(v, c, upper, first, second);
  }

  lemma ExampleReads(v: Version, c: Inputs, upper: FileMeta, first: FileMeta, second: FileMeta)
    requires upper.entries == [Put(0.5, 20, "n")] && second.entries == [Put(1.0, 3, "old")]
    requires first.entries == [Put(0.0, 2, "a"), Tombstone(1.0, 8)]
    requires v == Version([[], [upper], [first, second], [], [], [], []]) && c == Inputs(1, [upper], [first], [])
    ensures Exposes(v, c, 1.0, 100)
  {
    var t, x := first.entries[1], second.entries[0];
    assert second in v.files[c.level + 1] && second !in c.inputs1 && x in second.entries;
    assert x in Siblings(v, c);
    LatestIs(Siblings(v, c), 1.0, 100, x);
    assert t in first.entries && first in c.inputs1;
    InContents(v, 2, first, t);
    forall e | e in Contents(v)
      ensures e.key.user == 0.5 || e.key.sequence <= 8
    {
      var l, f := Locate(v, e);
      assert f == upper || f == first || f == second;
    }
    assert IsLatest(Contents(v), 1.0, 100, t);
  }

  lemma OneFileOk(level: nat, f: FileMeta)
    requires ValidFile(f)
    ensures LevelOk(level, [f])
  {
  }

  lemma TwoFilesOk(level: nat, f: FileMeta, g: FileMeta)
    requires level > 0 && ValidFile(f) && ValidFile(g) && f.number != g.number && Before(f.largest, g.smallest)
    ensures LevelOk(level, [f, g])
  {
  }

  lemma ExampleIsValid(v: Version, upper: FileMeta, first: FileMeta, second: FileMeta)
    requires upper == Table(3, [Put(0.5, 20, "n")]) && second == Table(2, [Put(1.0, 3, "old")])
    requires first == Table(1, [Put(0.0, 2, "a"), Tombstone(1.0, 8)])
    requires v.files == [[], [upper], [first, second], [], [], [], []]
    ensures ValidVersion(v)
  {
    ExampleLevels(upper, first, second);
    LevelsValid(v, [upper], [first, second]);
  }

  lemma ExampleLevels(upper: FileMeta, first: FileMeta, second: FileMeta)
    requires upper == Table(3, [Put(0.5, 20, "n")]) && second == Table(2, [Put(1.0, 3, "old")])
    requires first == Table(1, [Put(0.0, 2, "a"), Tombstone(1.0, 8)])
    ensures LevelOk(1, [upper]) && LevelOk(2, [first, second]) && AllNewer([upper], [first, second])
  {
    assert first.entries[0].key.user == 0.0 && first.entries[1].key.user == 1.0;
    OneFileOk(1, upper);
    TwoFilesOk(2, first, second);
    assert Newer(upper, first) && Newer(upper, second);
    AllNewerLists(upper, [first, second]);
  }

  lemma AllNewerLists(upper: FileMeta, lower: seq<FileMeta>)
    requires forall g :: g in lower ==> Newer(upper, g)
    ensures AllNewer([upper], lower)
  {
  }

  lemma LevelsValid(v: Version, upper: seq<FileMeta>, lower: seq<FileMeta>)
    requires v.files == [[], upper, lower, [], [], [], []]
    requires LevelOk(1, upper) && LevelOk(2, lower) && AllNewer(upper, lower)
    ensures ValidVersion(v)
  {
    TwoLevelVersionValid(v, 1, 2);
  }

  lemma TwoLevelVersionValid(v: Version, p: nat, q: nat)
    requires |v.files| == NUM_LEVELS && p < q < NUM_LEVELS
    requires forall l :: 0 <= l < NUM_LEVELS && l != p && l != q ==> v.files[l] == []
    requires LevelOk(p, v.files[p]) && LevelOk(q, v.files[q]) && AllNewer(v.files[p], v.files[q])
    ensures ValidVersion(v)
  {
    forall l | 0 <= l < NUM_LEVELS
      ensures LevelOk(l, v.files[l])
    {
      assert l == p || l == q || v.files[l] == [];
    }
    forall i, j | 0 <= i < j < NUM_LEVELS
      ensures AllNewer(v.files[i], v.files[j])
    {
      assert (i == p && j == q) || v.files[i] == [] || v.files[j] == [];
    }
  }
}
