/** Choosing the inputs of a compaction (version_set.cc): GetOverlappingInputs, AddBoundaryInputs,
    SetupOtherInputs, PickCompaction and CompactRange, proved to select input sets that are closed
    in the sense the rest of a compaction relies on. */
module Selection {
  import opened Keys
  import opened Store
  import opened Versions

  ghost predicate Subset(fs: seq<FileMeta>, files: seq<FileMeta>) {
    forall f :: f in fs ==> f in files
  }

  // The files of a level that meet [begin, end], in level order.
  function Overlapping(files: seq<FileMeta>, begin: Option<UserKey>, end: Option<UserKey>): (r: seq<FileMeta>)
    ensures forall f :: f in r <==> f in files && Overlaps(f, begin, end)
  {
    if files == [] then []
    else
      var last := files[|files| - 1];
      assert forall f :: f in files <==> f in files[..|files| - 1] || f == last;
      Overlapping(files[..|files| - 1], begin, end) + (if Overlaps(last, begin, end) then [last] else [])
  }

  ghost predicate Touching(f: FileMeta, g: FileMeta) {
    f.smallest.user <= g.largest.user && g.smallest.user <= f.largest.user
  }

  /** Level 0: no file outside fs shares a user-key range with one inside. */
  ghost predicate OverlapClosed(files: seq<FileMeta>, fs: seq<FileMeta>) {
    forall f, g :: f in fs && g in files && Touching(f, g) ==> g in fs
  }

  ghost predicate Widened(from: Option<UserKey>, to: Option<UserKey>, up: bool) {
    from.Some? == to.Some? && (from.Some? ==> if up then from.value <= to.value else to.value <= from.value)
  }

  /** No file meets [small, large]. */
  ghost predicate Clear(files: seq<FileMeta>, small: UserKey, large: UserKey) {
    forall f :: f in files ==> !Overlaps(f, Some(small), Some(large))
  }

  // [small, large] lies entirely to one side of the user-key range of fs.
  ghost predicate Beside(small: UserKey, large: UserKey, fs: seq<FileMeta>) {
    || (forall f :: f in fs ==> large < f.smallest.user)
    || (forall f :: f in fs ==> f.largest.user < small)
  }

  ghost predicate Apart(small: UserKey, large: UserKey, begin: UserKey, end: UserKey) {
    large < begin || end < small
  }

  /** Widening [begin, end] to [b, e] passed over no range that is clear of the level. */
  ghost predicate NoGapPassed(files: seq<FileMeta>, begin: Option<UserKey>, end: Option<UserKey>, b: Option<UserKey>, e: Option<UserKey>) {
    begin.Some? && end.Some? && b.Some? && e.Some? ==>
      forall small, large {:trigger Apart(small, large, b.value, e.value)} ::
        small <= large && Clear(files, small, large) && Apart(small, large, begin.value, end.value) ==> Apart(small, large, b.value, e.value)
  }

  // Files a lower begin could still pull in, respectively files a higher end could.
  ghost function StartsBelow(files: seq<FileMeta>, begin: Option<UserKey>): set<FileMeta> {
    set f | f in files && begin.Some? && f.smallest.user < begin.value
  }

  ghost function EndsAbove(files: seq<FileMeta>, end: Option<UserKey>): set<FileMeta> {
    set f | f in files && end.Some? && f.largest.user > end.value
  }

  ghost predicate WithinRange(f: FileMeta, begin: Option<UserKey>, end: Option<UserKey>) {
    (begin.Some? ==> begin.value <= f.smallest.user) && (end.Some? ==> f.largest.user <= end.value)
  }

  // What the search of level 0 comes to: the files of a wider range that passed over no gap
  ghost predicate Grown(files: seq<FileMeta>, begin: Option<UserKey>, end: Option<UserKey>, inputs: seq<FileMeta>) {
    exists b, e :: Widened(begin, b, false) && Widened(end, e, true) && inputs == Overlapping(files, b, e)
                   && NoGapPassed(files, begin, end, b, e)
  }

  // A file that sticks out of [b, e] leaves no gap between the old range and the new one.
  lemma WidenOverFile(files: seq<FileMeta>, begin: Option<UserKey>, end: Option<UserKey>, b: Option<UserKey>, e: Option<UserKey>, f: FileMeta)
    requires NoGapPassed(files, begin, end, b, e) && b.Some? == begin.Some? && e.Some? == end.Some?
    requires f in files && Overlaps(f, b, e)
    ensures b.Some? && f.smallest.user < b.value ==> NoGapPassed(files, begin, end, Some(f.smallest.user), e)
    ensures e.Some? && f.largest.user > e.value ==> NoGapPassed(files, begin, end, b, Some(f.largest.user))
  {
    if begin.Some? && end.Some? {
      forall small, large | small <= large && Clear(files, small, large) && Apart(small, large, begin.value, end.value)
        ensures Apart(small, large, b.value, e.value)
        ensures f.smallest.user < b.value ==> Apart(small, large, f.smallest.user, e.value)
        ensures f.largest.user > e.value ==> Apart(small, large, b.value, f.largest.user)
      {
        assert Apart(small, large, b.value, e.value);
        assert !Overlaps(f, Some(small), Some(large));
      }
    }
  }

  /** All files of a level that meet [begin, end].  On level 0 the search restarts with a wider range
      whenever a chosen file sticks out of it; it terminates, and what it returns is closed. */
  method GetOverlappingInputs(level: nat, files: seq<FileMeta>, begin: Option<UserKey>, end: Option<UserKey>)
    returns (inputs: seq<FileMeta>)
    requires ValidFiles(files)
    ensures Subset(inputs, files)
    ensures forall f :: f in files && Overlaps(f, begin, end) ==> f in inputs
    ensures level > 0 ==> inputs == Overlapping(files, begin, end)
    ensures level == 0 ==> OverlapClosed(files, inputs)
    ensures level == 0 ==> Grown(files, begin, end, inputs)
  {
    var userBegin, userEnd := begin, end;
    inputs := [];
    var i := 0;
    while i < |files|
      invariant i <= |files|
      invariant Widened(begin, userBegin, false) && Widened(end, userEnd, true)
      invariant NoGapPassed(files, begin, end, userBegin, userEnd)
      invariant level > 0 ==> userBegin == begin && userEnd == end
      invariant inputs == Overlapping(files[..i], userBegin, userEnd)
      invariant level == 0 ==> forall f :: f in inputs ==> WithinRange(f, userBegin, userEnd)
      decreases StartsBelow(files, userBegin), EndsAbove(files, userEnd), |files| - i
    {
      var f := files[i];
      assert files[..i + 1] == files[..i] + [f];
      i := i + 1;
      if AfterFile(userBegin, f) {
        // completely before the range
      } else if BeforeFile(userEnd, f) {
        // completely after the range
      } else {
        inputs := inputs + [f];
        if level == 0 {
          WidenOverFile(files, begin, end, userBegin, userEnd, f);
          if userBegin.Some? && f.smallest.user < userBegin.value {
            assert f in StartsBelow(files, userBegin) && f !in StartsBelow(files, Some(f.smallest.user));
            userBegin := Some(f.smallest.user);
            inputs := [];
            i := 0;
          } else if userEnd.Some? && f.largest.user > userEnd.value {
            assert f in EndsAbove(files, userEnd) && f !in EndsAbove(files, Some(f.largest.user));
            userEnd := Some(f.largest.user);
            inputs := [];
            i := 0;
          }
        }
      }
    }
    assert files[..i] == files;
    if level == 0 {
      RangeIsClosed(files, userBegin, userEnd);
    }
  }

  lemma RangeIsClosed(files: seq<FileMeta>, begin: Option<UserKey>, end: Option<UserKey>)
    requires ValidFiles(files)
    requires forall f :: f in Overlapping(files, begin, end) ==> WithinRange(f, begin, end)
    ensures OverlapClosed(files, Overlapping(files, begin, end))
  {
  }

  ghost predicate IsLargest(fs: seq<FileMeta>, k: InternalKey) {
    (exists f :: f in fs && f.largest == k) && forall f :: f in fs ==> !Before(k, f.largest)
  }

  ghost predicate IsSmallest(fs: seq<FileMeta>, k: InternalKey) {
    (exists f :: f in fs && f.smallest == k) && forall f :: f in fs ==> !Before(f.smallest, k)
  }

  // g starts after key on the same user key.
  predicate IsBoundary(g: FileMeta, key: InternalKey) {
    Before(key, g.smallest) && g.smallest.user == key.user
  }

  method FindLargestKey(fs: seq<FileMeta>) returns (r: Option<InternalKey>)
    ensures r.None? <==> fs == []
    ensures r.Some? ==> IsLargest(fs, r.value)
  {
    if fs == [] {
      return None;
    }
    var k := fs[0].largest;
    for i := 1 to |fs|
      invariant exists f :: f in fs && f.largest == k
      invariant forall j :: 0 <= j < i ==> !Before(k, fs[j].largest)
    {
      if Before(k, fs[i].largest) {
        k := fs[i].largest;
      }
    }
    return Some(k);
  }

  method FindSmallestBoundaryFile(files: seq<FileMeta>, key: InternalKey) returns (r: Option<FileMeta>)
    ensures r.None? ==> forall g :: g in files ==> !IsBoundary(g, key)
    ensures r.Some? ==> r.value in files && IsBoundary(r.value, key)
                        && forall g :: g in files && IsBoundary(g, key) ==> !Before(g.smallest, r.value.smallest)
  {
    r := None;
    for i := 0 to |files|
      invariant r.None? ==> forall j :: 0 <= j < i ==> !IsBoundary(files[j], key)
      invariant r.Some? ==> r.value in files && IsBoundary(r.value, key)
                            && forall j :: 0 <= j < i && IsBoundary(files[j], key) ==> !Before(files[j].smallest, r.value.smallest)
    {
      if IsBoundary(files[i], key) && (r.None? || Before(files[i].smallest, r.value.smallest)) {
        r := Some(files[i]);
      }
    }
  }

  /** No file of the level starts after the largest chosen key on the same user key. */
  ghost predicate BoundaryClosed(files: seq<FileMeta>, fs: seq<FileMeta>) {
    forall k, g :: IsLargest(fs, k) && g in files ==> !IsBoundary(g, k)
  }

  /** fs is an interval of a disjoint level. */
  ghost predicate Interval(files: seq<FileMeta>, fs: seq<FileMeta>) {
    forall f, g, h :: f in fs && g in fs && h in files && Before(f.largest, h.smallest) && Before(h.largest, g.smallest) ==> h in fs
  }

  ghost predicate NoDuplicates(fs: seq<FileMeta>) {
    forall i, j :: 0 <= i < j < |fs| ==> fs[i] != fs[j]
  }

  ghost function EndsAfter(files: seq<FileMeta>, key: InternalKey): set<FileMeta> {
    set g | g in files && Before(key, g.largest)
  }

  lemma AppendBoundary(files: seq<FileMeta>, fs: seq<FileMeta>, key: InternalKey, b: FileMeta)
    requires ValidFiles(files) && Subset(fs, files) && IsLargest(fs, key)
    requires b in files && IsBoundary(b, key)
    requires forall g :: g in files && IsBoundary(g, key) ==> !Before(g.smallest, b.smallest)
    ensures IsLargest(fs + [b], b.largest)
    ensures b !in fs && !OverlapClosed(files, fs)
    ensures EndsAfter(files, b.largest) < EndsAfter(files, key)
  {
    FileRange(b);
    var m :| m in fs && m.largest == key;
    FileRange(m);
    assert Touching(m, b);
    assert b in fs + [b];
    assert b in EndsAfter(files, key) && b !in EndsAfter(files, b.largest);
    assert forall g :: g in EndsAfter(files, b.largest) ==> g in EndsAfter(files, key);
  }

  lemma AppendBoundaryDisjoint(fs: seq<FileMeta>, key: InternalKey, b: FileMeta)
    requires Disjoint(fs) && IsLargest(fs, key) && IsBoundary(b, key)
    ensures Disjoint(fs + [b])
  {
    forall f | f in fs
      ensures Before(f.largest, b.smallest)
    {
    }
  }

  lemma AppendBoundaryInterval(files: seq<FileMeta>, fs: seq<FileMeta>, key: InternalKey, b: FileMeta)
    requires ValidFiles(files) && Disjoint(files) && Interval(files, fs) && Subset(fs, files) && IsLargest(fs, key)
    requires b in files && IsBoundary(b, key)
    requires forall g :: g in files && IsBoundary(g, key) ==> !Before(g.smallest, b.smallest)
    ensures Interval(files, fs + [b])
  {
    var m :| m in fs && m.largest == key;
    forall f, g, h | f in fs + [b] && g in fs + [b] && h in files && Before(f.largest, h.smallest) && Before(h.largest, g.smallest)
      ensures h in fs + [b]
    {
      BoundaryKeepsInterval(files, fs, key, m, b, f, g, h);
    }
  }

  lemma DisjointPair(files: seq<FileMeta>, f: FileMeta, g: FileMeta)
    requires Disjoint(files) && f in files && g in files && f != g
    ensures Before(f.largest, g.smallest) || Before(g.largest, f.smallest)
  {
  }

  lemma BoundaryKeepsInterval(files: seq<FileMeta>, fs: seq<FileMeta>, key: InternalKey, m: FileMeta, b: FileMeta,
                              f: FileMeta, g: FileMeta, h: FileMeta)
    requires ValidFiles(files) && Disjoint(files) && Interval(files, fs) && Subset(fs, files)
    requires m in fs && m.largest == key && forall x :: x in fs ==> !Before(key, x.largest)
    requires b in files && IsBoundary(b, key)
    requires forall x :: x in files && IsBoundary(x, key) ==> !Before(x.smallest, b.smallest)
    requires (f in fs || f == b) && (g in fs || g == b) && h in files
    requires Before(f.largest, h.smallest) && Before(h.largest, g.smallest)
    ensures h in fs
  {
    FileRange(h);
    FileRange(f);
    FileRange(g);
    if g == b && h != m {
      DisjointPair(files, h, m);
    }
  }

  lemma LargestIsUnique(files: seq<FileMeta>, fs: seq<FileMeta>, key: InternalKey)
    requires IsLargest(fs, key) && forall g :: g in files ==> !IsBoundary(g, key)
    ensures BoundaryClosed(files, fs)
  {
  }

  /** Every range that is clear of the level and lies beside fs lies beside r. */
  ghost predicate GapsKept(files: seq<FileMeta>, fs: seq<FileMeta>, r: seq<FileMeta>) {
    forall small, large {:trigger Beside(small, large, r)} ::
      small <= large && Clear(files, small, large) && Beside(small, large, fs) ==> Beside(small, large, r)
  }

  lemma AppendBoundaryGaps(files: seq<FileMeta>, fs: seq<FileMeta>, key: InternalKey, b: FileMeta)
    requires ValidFiles(files) && Subset(fs, files) && IsLargest(fs, key) && b in files && IsBoundary(b, key)
    ensures GapsKept(files, fs, fs + [b])
  {
    var m :| m in fs && m.largest == key;
    FileRange(m);
    forall small, large | small <= large && Clear(files, small, large) && Beside(small, large, fs)
      ensures Beside(small, large, fs + [b])
    {
      assert !Overlaps(b, Some(small), Some(large));
    }
  }

  // From the n-th file on, every file continues the last user key of those before it.
  ghost predicate Chained(fs: seq<FileMeta>, n: nat) {
    forall i {:trigger fs[i]} :: n <= i < |fs| ==> Continues(fs[..i], fs[i])
  }

  ghost predicate Continues(fs: seq<FileMeta>, b: FileMeta) {
    exists k :: IsLargest(fs, k) && IsBoundary(b, k)
  }

  lemma ChainedAppend(fs: seq<FileMeta>, n: nat, b: FileMeta)
    requires Chained(fs, n) && Continues(fs, b)
    ensures Chained(fs + [b], n)
  {
    forall i | n <= i < |fs| + 1
      ensures Continues((fs + [b])[..i], (fs + [b])[i])
    {
      if i < |fs| {
        assert (fs + [b])[..i] == fs[..i] && (fs + [b])[i] == fs[i];
      } else {
        assert (fs + [b])[..i] == fs;
      }
    }
  }

  // What adding boundary files to a choice keeps
  ghost predicate Extends(files: seq<FileMeta>, chosen: seq<FileMeta>, r: seq<FileMeta>) {
    && chosen <= r && Subset(r, files)
    && (NoDuplicates(chosen) ==> NoDuplicates(r))
    && (Disjoint(files) && Interval(files, chosen) ==> Interval(files, r))
    && (Disjoint(chosen) ==> Disjoint(r))
    && (OverlapClosed(files, chosen) ==> r == chosen)
    && GapsKept(files, chosen, r) && Chained(r, |chosen|)
  }

  lemma AppendNew(files: seq<FileMeta>, r: seq<FileMeta>, b: FileMeta)
    requires Subset(r, files) && b in files && b !in r
    ensures Subset(r + [b], files) && (NoDuplicates(r) ==> NoDuplicates(r + [b]))
  {
  }

  lemma AppendExtends(files: seq<FileMeta>, chosen: seq<FileMeta>, r: seq<FileMeta>, key: InternalKey, b: FileMeta)
    requires ValidFiles(files) && Extends(files, chosen, r) && IsLargest(r, key)
    requires b in files && IsBoundary(b, key)
    requires forall g :: g in files && IsBoundary(g, key) ==> !Before(g.smallest, b.smallest)
    ensures Extends(files, chosen, r + [b])
  {
    AppendBoundary(files, r, key, b);
    AppendNew(files, r, b);
    AppendBoundaryGaps(files, r, key, b);
    ChainedAppend(r, |chosen|, b);
    if Disjoint(chosen) {
      AppendBoundaryDisjoint(r, key, b);
    }
    if Disjoint(files) && Interval(files, chosen) {
      AppendBoundaryInterval(files, r, key, b);
    }
  }

  /** Extends the chosen files by every file that continues their last user key. */
  method AddBoundaryInputs(files: seq<FileMeta>, chosen: seq<FileMeta>) returns (r: seq<FileMeta>)
    requires ValidFiles(files) && Subset(chosen, files)
    ensures Extends(files, chosen, r) && BoundaryClosed(files, r)
  {
    r := chosen;
    var largest := FindLargestKey(chosen);
    if largest.None? {
      return;
    }
    var key := largest.value;
    var searching := true;
    while searching
      invariant Extends(files, chosen, r) && IsLargest(r, key)
      invariant !searching ==> forall g :: g in files ==> !IsBoundary(g, key)
      decreases searching, EndsAfter(files, key)
    {
      var next := FindSmallestBoundaryFile(files, key);
      if next.Some? {
        var b := next.value;
        AppendBoundary(files, r, key, b);
        AppendExtends(files, chosen, r, key, b);
        r := r + [b];
        key := b.largest;
      } else {
        searching := false;
      }
    }
    LargestIsUnique(files, r, key);
  }

  ghost function SumSizes(fs: seq<FileMeta>): nat {
    if fs == [] then 0 else SumSizes(fs[..|fs| - 1]) + fs[|fs| - 1].size
  }

  method TotalFileSize(fs: seq<FileMeta>) returns (sum: nat)
    ensures sum == SumSizes(fs)
  {
    sum := 0;
    for i := 0 to |fs|
      invariant sum == SumSizes(fs[..i])
    {
      assert fs[..i + 1][..i] == fs[..i];
      sum := sum + fs[i].size;
    }
    assert fs[..|fs|] == fs;
  }

  method GetRange(fs: seq<FileMeta>) returns (smallest: InternalKey, largest: InternalKey)
    requires fs != []
    ensures IsSmallest(fs, smallest) && IsLargest(fs, largest)
  {
    smallest, largest := fs[0].smallest, fs[0].largest;
    for i := 1 to |fs|
      invariant exists f :: f in fs && f.smallest == smallest
      invariant exists f :: f in fs && f.largest == largest
      invariant forall j :: 0 <= j < i ==> !Before(fs[j].smallest, smallest)
      invariant forall j :: 0 <= j < i ==> !Before(largest, fs[j].largest)
    {
      if Before(fs[i].smallest, smallest) {
        smallest := fs[i].smallest;
      }
      if Before(largest, fs[i].largest) {
        largest := fs[i].largest;
      }
    }
  }

  // What the first selection of files at a level must be before SetupOtherInputs completes it.
  ghost predicate Closed(level: nat, files: seq<FileMeta>, fs: seq<FileMeta>) {
    Subset(fs, files) && NoDuplicates(fs) && Whole(level, files, fs)
  }

  // fs leaves out no file between two of its own, and on level 0 none that shares a range with one of them.
  ghost predicate Whole(level: nat, files: seq<FileMeta>, fs: seq<FileMeta>) {
    Interval(files, fs) && if level == 0 then OverlapClosed(files, fs) else Disjoint(fs)
  }

  // g lies entirely to one side of the user-key range of fs.
  ghost predicate OneSide(g: FileMeta, fs: seq<FileMeta>) {
    || (forall f :: f in fs ==> g.largest.user < f.smallest.user)
    || (forall f :: f in fs ==> f.largest.user < g.smallest.user)
  }

  datatype Inputs = Inputs(level: nat, inputs0: seq<FileMeta>, inputs1: seq<FileMeta>, grandparents: seq<FileMeta>)

  // What stays at the level is newer than what leaves it.
  ghost predicate UpperClosed(files: seq<FileMeta>, inputs0: seq<FileMeta>) {
    && inputs0 != [] && Subset(inputs0, files) && NoDuplicates(inputs0)
    && (forall f, g {:trigger Newer(g, f)} :: f in inputs0 && g in files && g !in inputs0 ==> Newer(g, f))
  }

  // What joins the compaction at the next level meets the range of what arrives.
  ghost predicate LowerMeets(next: seq<FileMeta>, inputs0: seq<FileMeta>, inputs1: seq<FileMeta>) {
    && Subset(inputs1, next) && NoDuplicates(inputs1)
    && (forall f {:trigger MeetsRange(f, inputs0)} :: f in inputs1 ==> MeetsRange(f, inputs0))
  }

  // What stays at the next level lies to one side of what arrives.
  ghost predicate LowerClosed(next: seq<FileMeta>, inputs0: seq<FileMeta>, inputs1: seq<FileMeta>) {
    && LowerMeets(next, inputs0, inputs1)
    && (forall g {:trigger OneSide(g, inputs0)} :: g in next && g !in inputs1 ==> OneSide(g, inputs0))
  }

  ghost predicate MeetsRange(f: FileMeta, fs: seq<FileMeta>) {
    && (exists g :: g in fs && f.smallest.user <= g.largest.user)
    && (exists g :: g in fs && g.smallest.user <= f.largest.user)
  }

  /** The closure every selected compaction has. */
  ghost predicate Selected(v: Version, c: Inputs) {
    && |v.files| == NUM_LEVELS && c.level + 1 < NUM_LEVELS
    && UpperClosed(v.files[c.level], c.inputs0)
    && LowerClosed(v.files[c.level + 1], c.inputs0, c.inputs1)
    && (c.level > 0 ==> Disjoint(c.inputs0)) && Disjoint(c.inputs1)
  }

  // g lies to one side of what arrives, or in a gap between the inputs.
  ghost predicate Aside(g: FileMeta, c: Inputs) {
    OneSide(g, c.inputs0) || Clear(c.inputs0 + c.inputs1, g.smallest.user, g.largest.user)
  }

  /** What is left of the closure when memtables have been flushed to the output level since. */
  ghost predicate Fits(v: Version, c: Inputs) {
    && |v.files| == NUM_LEVELS && c.level + 1 < NUM_LEVELS
    && UpperClosed(v.files[c.level], c.inputs0)
    && LowerMeets(v.files[c.level + 1], c.inputs0, c.inputs1)
    && (forall g {:trigger Aside(g, c)} :: g in v.files[c.level + 1] && g !in c.inputs1 ==> Aside(g, c))
    && (c.level > 0 ==> Disjoint(c.inputs0)) && Disjoint(c.inputs1)
  }

  lemma SelectedFits(v: Version, c: Inputs)
    requires Selected(v, c)
    ensures Fits(v, c)
  {
  }

  /** The inputs cover their range without a gap: whatever range is clear of both levels lies to one side. */
  ghost predicate Connected(files: seq<FileMeta>, next: seq<FileMeta>, fs: seq<FileMeta>) {
    forall small, large {:trigger Beside(small, large, fs)} ::
      small <= large && Clear(files, small, large) && Clear(next, small, large) ==> Beside(small, large, fs)
  }

  ghost predicate SolidRange(files: seq<FileMeta>, next: seq<FileMeta>, begin: UserKey, end: UserKey) {
    forall small, large {:trigger Apart(small, large, begin, end)} ::
      small <= large && Clear(files, small, large) && Clear(next, small, large) ==> Apart(small, large, begin, end)
  }

  lemma ConnectedRange(files: seq<FileMeta>, next: seq<FileMeta>, fs: seq<FileMeta>, smallest: InternalKey, largest: InternalKey)
    requires Connected(files, next, fs) && IsSmallest(fs, smallest) && IsLargest(fs, largest)
    ensures SolidRange(files, next, smallest.user, largest.user)
  {
    forall small, large | small <= large && Clear(files, small, large) && Clear(next, small, large)
      ensures Apart(small, large, smallest.user, largest.user)
    {
      assert Beside(small, large, fs);
    }
  }

  // The files of a level that meet a range without a gap have none between them.
  lemma OverlappingConnected(level: nat, files: seq<FileMeta>, next: seq<FileMeta>, begin: UserKey, end: UserKey, fs: seq<FileMeta>)
    requires SolidRange(files, next, begin, end)
    requires level > 0 ==> fs == Overlapping(files, Some(begin), Some(end))
    requires level == 0 ==> Grown(files, Some(begin), Some(end), fs)
    ensures Connected(files, next, fs)
  {
    var b, e := Some(begin), Some(end);
    if level == 0 {
      b, e :| Widened(Some(begin), b, false) && Widened(Some(end), e, true) && fs == Overlapping(files, b, e)
              && NoGapPassed(files, Some(begin), Some(end), b, e);
    }
    forall small, large | small <= large && Clear(files, small, large) && Clear(next, small, large)
      ensures Beside(small, large, fs)
    {
      assert Apart(small, large, begin, end) && Apart(small, large, b.value, e.value);
    }
  }

  lemma WithLowerConnected(files: seq<FileMeta>, next: seq<FileMeta>, inputs0: seq<FileMeta>, inputs1: seq<FileMeta>)
    requires LowerMeets(next, inputs0, inputs1)
    ensures Connected(files, next, inputs0) ==> Connected(files, next, inputs0 + inputs1)
  {
    forall small, large | Connected(files, next, inputs0) && small <= large && Clear(files, small, large) && Clear(next, small, large)
      ensures Beside(small, large, inputs0 + inputs1)
    {
      assert Beside(small, large, inputs0);
      forall f | f in inputs1
        ensures MeetsRange(f, inputs0) && !Overlaps(f, Some(small), Some(large))
      {
      }
    }
  }

  lemma SingleConnected(files: seq<FileMeta>, next: seq<FileMeta>, f: FileMeta)
    requires f in files
    ensures Connected(files, next, [f])
    ensures SolidRange(files, next, f.smallest.user, f.largest.user)
  {
  }

  lemma OverlappingIsClosed(level: nat, files: seq<FileMeta>, begin: Option<UserKey>, end: Option<UserKey>)
    requires ValidFiles(files) && (level > 0 ==> Disjoint(files))
    ensures NoDuplicates(Overlapping(files, begin, end))
    ensures Interval(files, Overlapping(files, begin, end))
    ensures level > 0 ==> Disjoint(Overlapping(files, begin, end))
  {
    OverlappingNoDuplicates(files, begin, end);
    var fs := Overlapping(files, begin, end);
    forall f, g, h | f in fs && g in fs && h in files && Before(f.largest, h.smallest) && Before(h.largest, g.smallest)
      ensures h in fs
    {
      FileRange(h);
    }
    if level > 0 {
      OverlappingDisjoint(files, begin, end);
    }
  }

  lemma {:induction false} OverlappingNoDuplicates(files: seq<FileMeta>, begin: Option<UserKey>, end: Option<UserKey>)
    requires ValidFiles(files)
    ensures NoDuplicates(Overlapping(files, begin, end))
  {
    if files != [] {
      var rest := files[..|files| - 1];
      assert forall f :: f in rest ==> f.number != files[|files| - 1].number;
      OverlappingNoDuplicates(rest, begin, end);
    }
  }

  lemma LeftBehindIsNewer(level: nat, files: seq<FileMeta>, fs: seq<FileMeta>, f: FileMeta, g: FileMeta)
    requires LevelOk(level, files) && Closed(level, files, fs) && BoundaryClosed(files, fs)
    requires f in fs && g in files && g !in fs
    ensures Newer(g, f)
  {
    forall x, e | x in g.entries && e in f.entries && x.key.user == e.key.user
      ensures x.key.sequence > e.key.sequence
    {
      WithinFile(f, e);
      WithinFile(g, x);
      if level > 0 {
        DisjointPair(files, f, g);
        if Before(f.largest, g.smallest) {
          var k := LargestExists(fs);
          var m :| m in fs && m.largest == k;
          FileRange(m);
          assert IsLargest(fs, k) && !IsBoundary(g, k);
          DisjointPair(files, g, m);
        }
      }
    }
  }

  lemma {:induction false} LargestExists(fs: seq<FileMeta>) returns (k: InternalKey)
    requires fs != []
    ensures IsLargest(fs, k)
  {
    if |fs| == 1 {
      k := fs[0].largest;
    } else {
      var last := fs[|fs| - 1];
      var prefix := fs[..|fs| - 1];
      assert forall f :: f in fs <==> f in prefix || f == last;
      k := LargestExists(prefix);
      if Before(k, last.largest) {
        k := last.largest;
      }
    }
  }

  /** The files of the next level that meet the user-key range of the chosen ones. */
  method SelectLower(level: nat, next: seq<FileMeta>, inputs0: seq<FileMeta>) returns (inputs1: seq<FileMeta>, largest: InternalKey)
    requires LevelOk(level + 1, next) && inputs0 != [] && forall f :: f in inputs0 ==> ValidFile(f)
    ensures LowerClosed(next, inputs0, inputs1) && Disjoint(inputs1) && IsLargest(inputs0, largest)
  {
    var smallest;
    smallest, largest := GetRange(inputs0);
    inputs1 := GetOverlappingInputs(level + 1, next, Some(smallest.user), Some(largest.user));
    OverlappingIsClosed(level + 1, next, Some(smallest.user), Some(largest.user));
    RangeMeets(inputs0, smallest, largest);
  }

  lemma RangeMeets(fs: seq<FileMeta>, smallest: InternalKey, largest: InternalKey)
    requires IsSmallest(fs, smallest) && IsLargest(fs, largest)
    ensures forall f {:trigger Overlaps(f, Some(smallest.user), Some(largest.user))} ::
              if Overlaps(f, Some(smallest.user), Some(largest.user)) then MeetsRange(f, fs) else OneSide(f, fs)
  {
    var s :| s in fs && s.smallest == smallest;
    var l :| l in fs && l.largest == largest;
  }

  /** r is chosen and after it the files that continue its last user key, as long as there are any. */
  ghost predicate WithBoundary(files: seq<FileMeta>, chosen: seq<FileMeta>, r: seq<FileMeta>) {
    chosen <= r && Chained(r, |chosen|) && BoundaryClosed(files, r)
  }

  /** A first selection with the boundary files it needs. */
  method CloseUpper(level: nat, files: seq<FileMeta>, ghost next: seq<FileMeta>, chosen: seq<FileMeta>) returns (r: seq<FileMeta>)
    requires LevelOk(level, files) && chosen != [] && Closed(level, files, chosen)
    ensures UpperClosed(files, r) && Whole(level, files, r)
    ensures WithBoundary(files, chosen, r)
    ensures Connected(files, next, chosen) ==> Connected(files, next, r)
  {
    r := AddBoundaryInputs(files, chosen);
    UpperIsClosed(level, files, r);
    BoundaryConnected(files, next, chosen, r);
  }

  // The files of a level that meet a range; on level 0, that of a range grown until no file sticks out
  ghost predicate MeetRange(level: nat, files: seq<FileMeta>, begin: Option<UserKey>, end: Option<UserKey>, fs: seq<FileMeta>) {
    if level > 0 then fs == Overlapping(files, begin, end) else Grown(files, begin, end, fs) && OverlapClosed(files, fs)
  }

  // r is what the range of both input sets meets at the upper level.
  ghost predicate Expands(level: nat, files: seq<FileMeta>, inputs0: seq<FileMeta>, inputs1: seq<FileMeta>, r: seq<FileMeta>) {
    exists start: InternalKey, limit: InternalKey, met ::
      && IsSmallest(inputs0 + inputs1, start) && IsLargest(inputs0 + inputs1, limit)
      && MeetRange(level, files, Some(start.user), Some(limit.user), met) && WithBoundary(files, met, r)
  }

  /** What SetupOtherInputs makes of a choice.  upper and lower are the chosen files with their boundary files
      and what they meet at the next level, grown and grownLower the same for all files in the range of both;
      these are taken if the upper set grows, the lower one does not, and the whole stays small. */
  ghost predicate Completes(level: nat, files: seq<FileMeta>, next: seq<FileMeta>, chosen: seq<FileMeta>, maxFileSize: nat,
                            inputs0: seq<FileMeta>, inputs1: seq<FileMeta>)
  {
    exists upper, lower {:trigger WithBoundary(files, chosen, upper), LowerClosed(next, upper, lower)} ::
      && WithBoundary(files, chosen, upper) && LowerClosed(next, upper, lower)
      && if lower == [] then inputs0 == upper && inputs1 == lower else GrowsIfSmall(level, files, next, upper, lower, maxFileSize, inputs0, inputs1)
  }

  ghost predicate GrowsIfSmall(level: nat, files: seq<FileMeta>, next: seq<FileMeta>, upper: seq<FileMeta>, lower: seq<FileMeta>,
                               maxFileSize: nat, inputs0: seq<FileMeta>, inputs1: seq<FileMeta>)
  {
    exists grown {:trigger Expands(level, files, upper, lower, grown)} ::
      && Expands(level, files, upper, lower, grown)
      && if |grown| > |upper| && SumSizes(lower) + SumSizes(grown) < 25 * maxFileSize
         then TakesGrown(next, upper, lower, grown, inputs0, inputs1)
         else inputs0 == upper && inputs1 == lower
  }

  ghost predicate TakesGrown(next: seq<FileMeta>, upper: seq<FileMeta>, lower: seq<FileMeta>, grown: seq<FileMeta>,
                             inputs0: seq<FileMeta>, inputs1: seq<FileMeta>)
  {
    exists grownLower {:trigger LowerClosed(next, grown, grownLower)} ::
      && LowerClosed(next, grown, grownLower)
      && if |grownLower| == |lower| then inputs0 == grown && inputs1 == grownLower else inputs0 == upper && inputs1 == lower
  }

  lemma ExpandsTo(level: nat, files: seq<FileMeta>, inputs0: seq<FileMeta>, inputs1: seq<FileMeta>, start: InternalKey, limit: InternalKey,
                  met: seq<FileMeta>, r: seq<FileMeta>)
    requires IsSmallest(inputs0 + inputs1, start) && IsLargest(inputs0 + inputs1, limit)
    requires MeetRange(level, files, Some(start.user), Some(limit.user), met) && WithBoundary(files, met, r)
    ensures Expands(level, files, inputs0, inputs1, r)
  {
  }

  /** The files of the level that meet the range of both input sets. */
  method ExpandUpper(level: nat, files: seq<FileMeta>, ghost next: seq<FileMeta>, inputs0: seq<FileMeta>, inputs1: seq<FileMeta>,
                     start: InternalKey, limit: InternalKey) returns (r: seq<FileMeta>)
    requires LevelOk(level, files) && inputs0 != [] && Subset(inputs0, files)
    requires IsSmallest(inputs0 + inputs1, start) && IsLargest(inputs0 + inputs1, limit)
    ensures UpperClosed(files, r) && Subset(inputs0, r) && Whole(level, files, r)
    ensures Expands(level, files, inputs0, inputs1, r)
    ensures Connected(files, next, inputs0 + inputs1) ==> Connected(files, next, r)
  {
    var expanded := InRange(level, files, next, inputs0, inputs1, start, limit);
    r := CloseUpper(level, files, next, expanded);
    ExpandsTo(level, files, inputs0, inputs1, start, limit, expanded, r);
  }

  method InRange(level: nat, files: seq<FileMeta>, ghost next: seq<FileMeta>, inputs0: seq<FileMeta>, inputs1: seq<FileMeta>,
                 start: InternalKey, limit: InternalKey) returns (expanded: seq<FileMeta>)
    requires LevelOk(level, files) && inputs0 != [] && Subset(inputs0, files)
    requires IsSmallest(inputs0 + inputs1, start) && IsLargest(inputs0 + inputs1, limit)
    ensures MeetRange(level, files, Some(start.user), Some(limit.user), expanded) && Closed(level, files, expanded)
    ensures expanded != [] && Subset(inputs0, expanded)
    ensures Connected(files, next, inputs0 + inputs1) ==> Connected(files, next, expanded)
  {
    expanded := GetOverlappingInputs(level, files, Some(start.user), Some(limit.user));
    ExpandedConnected(level, files, next, inputs0 + inputs1, start, limit, expanded);
    ExpandedIsClosed(level, files, expanded, Some(start.user), Some(limit.user));
    ExpandedCovers(files, inputs0, inputs1, start, limit, expanded);
    assert inputs0[0] in expanded;
  }

  lemma ExpandedConnected(level: nat, files: seq<FileMeta>, next: seq<FileMeta>, fs: seq<FileMeta>, start: InternalKey, limit: InternalKey,
                          expanded: seq<FileMeta>)
    requires IsSmallest(fs, start) && IsLargest(fs, limit)
    requires level > 0 ==> expanded == Overlapping(files, Some(start.user), Some(limit.user))
    requires level == 0 ==> Grown(files, Some(start.user), Some(limit.user), expanded)
    ensures Connected(files, next, fs) ==> Connected(files, next, expanded)
  {
    if Connected(files, next, fs) {
      ConnectedRange(files, next, fs, start, limit);
      OverlappingConnected(level, files, next, start.user, limit.user, expanded);
    }
  }

  lemma BoundaryConnected(files: seq<FileMeta>, next: seq<FileMeta>, fs: seq<FileMeta>, r: seq<FileMeta>)
    requires GapsKept(files, fs, r)
    ensures Connected(files, next, fs) ==> Connected(files, next, r)
  {
    if Connected(files, next, fs) {
      forall small, large | small <= large && Clear(files, small, large) && Clear(next, small, large)
        ensures Beside(small, large, r)
      {
        assert Beside(small, large, fs);
      }
    }
  }

  method CompleteInputs(level: nat, files: seq<FileMeta>, next: seq<FileMeta>, chosen: seq<FileMeta>, maxFileSize: nat)
    returns (inputs0: seq<FileMeta>, inputs1: seq<FileMeta>, largest: InternalKey)
    requires LevelOk(level, files) && LevelOk(level + 1, next)
    requires chosen != [] && Closed(level, files, chosen)
    ensures InputsOk(level, files, next, inputs0, inputs1, largest) && Subset(chosen, inputs0)
    ensures Completes(level, files, next, chosen, maxFileSize, inputs0, inputs1)
    ensures Connected(files, next, chosen) ==> Connected(files, next, inputs0)
  {
    inputs0 := CloseUpper(level, files, next, chosen);
    inputs1, largest := SelectLower(level, next, inputs0);
    ghost var upper, lower := inputs0, inputs1;
    if inputs1 != [] {
      inputs0, inputs1, largest := GrowInputs(level, files, next, inputs0, inputs1, largest, maxFileSize);
    }
    assert WithBoundary(files, chosen, upper) && LowerClosed(next, upper, lower);
  }

  // What a set of inputs must be
  ghost predicate InputsOk(level: nat, files: seq<FileMeta>, next: seq<FileMeta>, inputs0: seq<FileMeta>, inputs1: seq<FileMeta>, largest: InternalKey) {
    && UpperClosed(files, inputs0) && LowerClosed(next, inputs0, inputs1)
    && Whole(level, files, inputs0) && Disjoint(inputs1) && IsLargest(inputs0, largest)
  }

  // See if the upper inputs can grow without changing the number of lower ones.
  method GrowInputs(level: nat, files: seq<FileMeta>, next: seq<FileMeta>, upper: seq<FileMeta>, lower: seq<FileMeta>, limit: InternalKey,
                    maxFileSize: nat)
    returns (inputs0: seq<FileMeta>, inputs1: seq<FileMeta>, largest: InternalKey)
    requires LevelOk(level, files) && LevelOk(level + 1, next) && InputsOk(level, files, next, upper, lower, limit)
    ensures InputsOk(level, files, next, inputs0, inputs1, largest) && Subset(upper, inputs0)
    ensures GrowsIfSmall(level, files, next, upper, lower, maxFileSize, inputs0, inputs1)
    ensures Connected(files, next, upper) ==> Connected(files, next, inputs0)
  {
    inputs0, inputs1, largest := upper, lower, limit;
    var allStart, allLimit := GetRange(inputs0 + inputs1);
    WithLowerConnected(files, next, inputs0, inputs1);
    var expanded0 := ExpandUpper(level, files, next, inputs0, inputs1, allStart, allLimit);
    var inputs1Size := TotalFileSize(inputs1);
    var expanded0Size := TotalFileSize(expanded0);
    if |expanded0| > |inputs0| && inputs1Size + expanded0Size < 25 * maxFileSize {
      inputs0, inputs1, largest := TakeGrown(level, files, next, upper, lower, limit, expanded0);
    }
    GrowsTo(level, files, next, upper, lower, maxFileSize, inputs0, inputs1, expanded0);
  }

  lemma GrowsTo(level: nat, files: seq<FileMeta>, next: seq<FileMeta>, upper: seq<FileMeta>, lower: seq<FileMeta>,
                maxFileSize: nat, inputs0: seq<FileMeta>, inputs1: seq<FileMeta>, grown: seq<FileMeta>)
    requires Expands(level, files, upper, lower, grown)
    requires if |grown| > |upper| && SumSizes(lower) + SumSizes(grown) < 25 * maxFileSize
             then TakesGrown(next, upper, lower, grown, inputs0, inputs1)
             else inputs0 == upper && inputs1 == lower
    ensures GrowsIfSmall(level, files, next, upper, lower, maxFileSize, inputs0, inputs1)
  {
  }

  method TakeGrown(level: nat, files: seq<FileMeta>, next: seq<FileMeta>, upper: seq<FileMeta>, lower: seq<FileMeta>, limit: InternalKey,
                   expanded0: seq<FileMeta>)
    returns (inputs0: seq<FileMeta>, inputs1: seq<FileMeta>, largest: InternalKey)
    requires LevelOk(level, files) && LevelOk(level + 1, next) && InputsOk(level, files, next, upper, lower, limit)
    requires UpperClosed(files, expanded0) && Whole(level, files, expanded0)
    ensures InputsOk(level, files, next, inputs0, inputs1, largest) && (inputs0 == upper || inputs0 == expanded0)
    ensures TakesGrown(next, upper, lower, expanded0, inputs0, inputs1)
  {
    inputs0, inputs1, largest := upper, lower, limit;
    var expanded1, newLimit := SelectLower(level, next, expanded0);
    if |expanded1| == |inputs1| {
      inputs0, inputs1, largest := expanded0, expanded1, newLimit;
    }
    assert LowerClosed(next, expanded0, expanded1);
  }

  lemma UpperIsClosed(level: nat, files: seq<FileMeta>, fs: seq<FileMeta>)
    requires LevelOk(level, files) && fs != [] && Closed(level, files, fs) && BoundaryClosed(files, fs)
    ensures UpperClosed(files, fs)
  {
    forall f, g | f in fs && g in files && g !in fs
      ensures Newer(g, f)
    {
      LeftBehindIsNewer(level, files, fs, f, g);
    }
  }

  ghost predicate IsFirstAfter(files: seq<FileMeta>, pointer: Option<InternalKey>, i: nat) {
    && i < |files|
    && (i > 0 ==> pointer.Some? && forall j :: 0 <= j < i ==> !Before(pointer.value, files[j].largest))
    && (pointer.None? || Before(pointer.value, files[i].largest)
        || (i == 0 && forall j :: 0 <= j < |files| ==> !Before(pointer.value, files[j].largest)))
  }

  /** The first file that ends after the pointer, wrapping around to the first file. */
  method FirstAfter(files: seq<FileMeta>, pointer: Option<InternalKey>) returns (f: FileMeta)
    requires files != []
    ensures f in files && exists i: nat :: i < |files| && f == files[i] && IsFirstAfter(files, pointer, i)
  {
    for i := 0 to |files|
      invariant i > 0 ==> pointer.Some?
      invariant forall j :: 0 <= j < i ==> !Before(pointer.value, files[j].largest)
    {
      if pointer.None? || Before(pointer.value, files[i].largest) {
        assert IsFirstAfter(files, pointer, i);
        return files[i];
      }
    }
    assert IsFirstAfter(files, pointer, 0);
    return files[0];
  }

  lemma SingleIsClosed(level: nat, files: seq<FileMeta>, f: FileMeta)
    requires LevelOk(level, files) && level > 0 && f in files
    ensures Closed(level, files, [f])
  {
    forall h | h in files && Before(f.largest, h.smallest)
      ensures !Before(h.largest, f.smallest)
    {
      FileRange(f);
      FileRange(h);
    }
  }

  // What is chosen with a picked file: on level 0 everything it overlaps, and nothing else elsewhere
  ghost predicate IsChoice(level: nat, files: seq<FileMeta>, picked: FileMeta, chosen: seq<FileMeta>) {
    && picked in files && picked in chosen
    && if level > 0 then chosen == [picked] else MeetRange(0, files, Some(picked.smallest.user), Some(picked.largest.user), chosen)
  }

  // Level-0 files may overlap, so there the picked file brings everything it overlaps along.
  method ChooseUpper(level: nat, files: seq<FileMeta>, ghost next: seq<FileMeta>, picked: FileMeta) returns (chosen: seq<FileMeta>)
    requires LevelOk(level, files) && picked in files
    ensures Closed(level, files, chosen) && IsChoice(level, files, picked, chosen) && Connected(files, next, chosen)
  {
    chosen := [picked];
    SingleConnected(files, next, picked);
    if level == 0 {
      FileRange(picked);
      chosen := GetOverlappingInputs(0, files, Some(picked.smallest.user), Some(picked.largest.user));
      ExpandedIsClosed(0, files, chosen, Some(picked.smallest.user), Some(picked.largest.user));
      OverlappingConnected(0, files, next, picked.smallest.user, picked.largest.user, chosen);
    } else {
      SingleIsClosed(level, files, picked);
    }
  }

  /** The grandparents are the files of the level after next that meet the range of all inputs. */
  ghost predicate GrandparentsOk(v: Version, c: Inputs) {
    if c.level + 2 >= |v.files| then c.grandparents == []
    else
      exists start, limit :: IsSmallest(c.inputs0 + c.inputs1, start) && IsLargest(c.inputs0 + c.inputs1, limit)
                             && c.grandparents == Overlapping(v.files[c.level + 2], Some(start.user), Some(limit.user))
  }

  method Grandparents(v: Version, level: nat, inputs0: seq<FileMeta>, inputs1: seq<FileMeta>) returns (grandparents: seq<FileMeta>)
    requires ValidVersion(v) && level + 1 < NUM_LEVELS && inputs0 != []
    ensures GrandparentsOk(v, Inputs(level, inputs0, inputs1, grandparents))
  {
    var allStart, allLimit := GetRange(inputs0 + inputs1);
    grandparents := [];
    if level + 2 < NUM_LEVELS {
      assert LevelOk(level + 2, v.files[level + 2]);
      grandparents := GetOverlappingInputs(level + 2, v.files[level + 2], Some(allStart.user), Some(allLimit.user));
    }
  }

  /** The inputs SetupOtherInputs makes of a choice are closed and contain it, and are completed by its rules. */
  ghost predicate IsSetUp(v: Version, level: nat, chosen: seq<FileMeta>, maxFileSize: nat, c: Inputs) {
    && c.level == level && Selected(v, c) && Subset(chosen, c.inputs0)
    && Completes(level, v.files[level], v.files[level + 1], chosen, maxFileSize, c.inputs0, c.inputs1)
    && Whole(level, v.files[level], c.inputs0) && GrandparentsOk(v, c)
  }

  lemma InputsAreSelected(v: Version, files: seq<FileMeta>, next: seq<FileMeta>, c: Inputs, largest: InternalKey)
    requires |v.files| == NUM_LEVELS && c.level + 1 < NUM_LEVELS && files == v.files[c.level] && next == v.files[c.level + 1]
    requires InputsOk(c.level, files, next, c.inputs0, c.inputs1, largest)
    ensures Selected(v, c) && Whole(c.level, files, c.inputs0) && IsLargest(c.inputs0, largest)
  {
  }

  method OtherInputs(v: Version, level: nat, chosen: seq<FileMeta>, maxFileSize: nat) returns (c: Inputs, largest: InternalKey)
    requires ValidVersion(v) && level + 1 < NUM_LEVELS && chosen != [] && Closed(level, v.files[level], chosen)
    ensures IsSetUp(v, level, chosen, maxFileSize, c) && IsLargest(c.inputs0, largest)
    ensures Connected(v.files[level], v.files[level + 1], chosen) ==> Connected(v.files[level], v.files[level + 1], c.inputs0)
  {
    var files, next := v.files[level], v.files[level + 1];
    assert LevelOk(level, files) && LevelOk(level + 1, next);
    var inputs0, inputs1;
    inputs0, inputs1, largest := CompleteInputs(level, files, next, chosen, maxFileSize);
    var grandparents := Grandparents(v, level, inputs0, inputs1);
    c := Inputs(level, inputs0, inputs1, grandparents);
    InputsAreSelected(v, files, next, c, largest);
  }

  /** What one automatic pick of a level without a seek file does: it takes the first file that ends after the
      compaction pointer, and moves the pointer to the end of what it took. */
  ghost predicate IsPick(level: nat, files: seq<FileMeta>, before: Option<InternalKey>, inputs0: seq<FileMeta>, after: Option<InternalKey>) {
    && Subset(inputs0, files) && Whole(level, files, inputs0)
    && (exists i: nat :: IsFirstAfter(files, before, i) && files[i] in inputs0)
    && after.Some? && IsLargest(inputs0, after.value)
  }

  // The first n files are the shortest beginning that reaches the limit, or all of them if none does.
  ghost predicate ReachesLimit(fs: seq<FileMeta>, limit: nat, n: nat) {
    && 0 < n <= |fs| && (n == |fs| || SumSizes(fs[..n]) >= limit)
    && forall i {:trigger fs[..i]} :: 0 < i < n ==> SumSizes(fs[..i]) < limit
  }

  method UpToLimit(fs: seq<FileMeta>, limit: nat) returns (n: nat)
    requires fs != []
    ensures ReachesLimit(fs, limit, n)
  {
    var total := 0;
    n := 0;
    while n < |fs|
      invariant n <= |fs| && total == SumSizes(fs[..n])
      invariant forall i {:trigger fs[..i]} :: 0 < i <= n ==> SumSizes(fs[..i]) < limit
    {
      assert fs[..n + 1][..n] == fs[..n];
      total := total + fs[n].size;
      n := n + 1;
      if total >= limit {
        return;
      }
    }
  }

  // What a manual compaction of a range chooses
  ghost predicate IsRangeChoice(level: nat, files: seq<FileMeta>, begin: Option<UserKey>, end: Option<UserKey>, limit: nat,
                                chosen: seq<FileMeta>)
  {
    if level == 0 then MeetRange(0, files, begin, end, chosen)
    else exists n: nat {:trigger ReachesLimit(Overlapping(files, begin, end), limit, n)} ::
      ReachesLimit(Overlapping(files, begin, end), limit, n) && chosen == Overlapping(files, begin, end)[..n]
  }

  class VersionSet {
    var current: Version
    const compactPointer: array<Option<InternalKey>>
    const maxFileSize: nat

    constructor (v: Version, maxFileSize: nat)
      requires ValidVersion(v)
      ensures Valid() && current == v && fresh(compactPointer)
    {
      current := v;
      compactPointer := new Option<InternalKey>[NUM_LEVELS](_ => None);
      this.maxFileSize := maxFileSize;
    }

    ghost predicate Valid()
      reads this
    {
      ValidVersion(current) && compactPointer.Length == NUM_LEVELS
    }

    /** Completes the chosen files of a level to a closed set of inputs at both levels, growing the
        upper set when that pulls in no further lower file. */
    method SetupOtherInputs(level: nat, chosen: seq<FileMeta>) returns (c: Inputs)
      requires Valid() && level + 1 < NUM_LEVELS
      requires chosen != [] && Closed(level, current.files[level], chosen)
      modifies compactPointer
      ensures IsSetUp(current, level, chosen, maxFileSize, c)
      ensures Connected(current.files[level], current.files[level + 1], chosen)
              ==> Connected(current.files[level], current.files[level + 1], c.inputs0)
      ensures exists k :: IsLargest(c.inputs0, k) && compactPointer[level] == Some(k)
      ensures forall l :: 0 <= l < NUM_LEVELS && l != level ==> compactPointer[l] == old(compactPointer[l])
    {
      var largest;
      c, largest := OtherInputs(current, level, chosen, maxFileSize);
      compactPointer[level] := Some(largest);
    }

    /** Chooses the next compaction of a level: the first file after the compaction pointer, wrapping
        around (size trigger), or a given file (seek trigger).  The inputs cover their range without a gap,
        which a manual choice need not do. */
    method PickCompaction(level: nat, seekFile: Option<FileMeta>) returns (c: Inputs)
      requires Valid() && level + 1 < NUM_LEVELS && current.files[level] != []
      requires seekFile.Some? ==> seekFile.value in current.files[level]
      modifies compactPointer
      ensures c.level == level && Selected(current, c)
      ensures Connected(current.files[level], current.files[level + 1], c.inputs0)
      ensures seekFile.Some? ==> seekFile.value in c.inputs0
      ensures seekFile.None? ==> IsPick(level, current.files[level], old(compactPointer[level]), c.inputs0, compactPointer[level])
      ensures exists picked, chosen :: IsChoice(level, current.files[level], picked, chosen)
                && (seekFile.Some? ==> picked == seekFile.value) && IsSetUp(current, level, chosen, maxFileSize, c)
      ensures forall l :: 0 <= l < NUM_LEVELS && l != level ==> compactPointer[l] == old(compactPointer[l])
    {
      var files := current.files[level];
      assert LevelOk(level, files);
      var picked;
      if seekFile.Some? {
        picked := seekFile.value;
      } else {
        picked := FirstAfter(files, compactPointer[level]);
      }
      var chosen := ChooseUpper(level, files, current.files[level + 1], picked);
      c := SetupOtherInputs(level, chosen);
    }

    /** A manual compaction of [begin, end]: on deeper levels only a prefix of the overlapping files,
        up to the file size limit, is taken. */
    method CompactRange(level: nat, begin: Option<UserKey>, end: Option<UserKey>) returns (c: Option<Inputs>)
      requires Valid() && level + 1 < NUM_LEVELS
      modifies compactPointer
      ensures c.Some? ==> c.value.level == level && Selected(current, c.value)
      ensures c.None? ==> forall f :: f in current.files[level] ==> !Overlaps(f, begin, end)
      ensures c.Some? ==> exists chosen {:trigger IsRangeChoice(level, current.files[level], begin, end, maxFileSize, chosen)} ::
                && IsRangeChoice(level, current.files[level], begin, end, maxFileSize, chosen)
                && IsSetUp(current, level, chosen, maxFileSize, c.value)
      ensures c.Some? && level == 0 ==> forall f :: f in current.files[0] && Overlaps(f, begin, end) ==> f in c.value.inputs0
      ensures forall l :: 0 <= l < NUM_LEVELS && l != level ==> compactPointer[l] == old(compactPointer[l])
    {
      var files := current.files[level];
      assert LevelOk(level, files);
      var inputs := GetOverlappingInputs(level, files, begin, end);
      ExpandedIsClosed(level, files, inputs, begin, end);
      if inputs == [] {
        return None;
      }
      if level > 0 {
        var n := UpToLimit(inputs, maxFileSize);
        PrefixIsInterval(files, begin, end, n);
        inputs := inputs[..n];
      }
      assert IsRangeChoice(level, files, begin, end, maxFileSize, inputs);
      var r := SetupOtherInputs(level, inputs);
      c := Some(r);
    }
  }

  lemma ExpandedIsClosed(level: nat, files: seq<FileMeta>, fs: seq<FileMeta>, begin: Option<UserKey>, end: Option<UserKey>)
    requires LevelOk(level, files)
    requires level > 0 ==> fs == Overlapping(files, begin, end)
    requires level == 0 ==> OverlapClosed(files, fs)
    requires level == 0 ==> Grown(files, begin, end, fs)
    ensures Closed(level, files, fs)
  {
    if level > 0 {
      OverlappingIsClosed(level, files, begin, end);
    } else {
      var b, e :| Widened(begin, b, false) && Widened(end, e, true) && fs == Overlapping(files, b, e);
      OverlappingIsClosed(level, files, b, e);
    }
  }

  lemma {:induction false} OverlappingDisjoint(files: seq<FileMeta>, begin: Option<UserKey>, end: Option<UserKey>)
    requires Disjoint(files)
    ensures Disjoint(Overlapping(files, begin, end))
  {
    if files != [] {
      var rest := files[..|files| - 1];
      OverlappingDisjoint(rest, begin, end);
      assert forall f :: f in rest ==> Before(f.largest, files[|files| - 1].smallest);
    }
  }

  lemma PrefixIsInterval(files: seq<FileMeta>, begin: Option<UserKey>, end: Option<UserKey>, n: nat)
    requires ValidFiles(files) && Disjoint(files) && n <= |Overlapping(files, begin, end)|
    ensures var fs := Overlapping(files, begin, end)[..n];
            Interval(files, fs) && NoDuplicates(fs) && Disjoint(fs)
  {
    var all := Overlapping(files, begin, end);
    var fs := all[..n];
    OverlappingIsClosed(1, files, begin, end);
    OverlappingDisjoint(files, begin, end);
    forall f, g, h | f in fs && g in fs && h in files && Before(f.largest, h.smallest) && Before(h.largest, g.smallest)
      ensures h in fs
    {
      assert f in all && g in all && h in all;
      FileRange(h);
      FileRange(g);
      EarlierInPrefix(all, n, g, h);
    }
  }

  lemma EarlierInPrefix(all: seq<FileMeta>, n: nat, g: FileMeta, h: FileMeta)
    requires Disjoint(all) && n <= |all| && g in all[..n] && h in all
    requires Before(h.largest, g.smallest) && ValidFile(g) && ValidFile(h)
    ensures h in all[..n]
  {
    var j :| 0 <= j < n && all[j] == g;
    var k :| 0 <= k < |all| && all[k] == h;
    FileRange(h);
    FileRange(g);
    assert k <= j;
    assert all[..n][k] == h;
  }

  lemma ExpandedCovers(files: seq<FileMeta>, inputs0: seq<FileMeta>, inputs1: seq<FileMeta>, start: InternalKey, limit: InternalKey,
                       expanded: seq<FileMeta>)
    requires ValidFiles(files) && Subset(inputs0, files)
    requires IsSmallest(inputs0 + inputs1, start) && IsLargest(inputs0 + inputs1, limit)
    requires forall f :: f in files && Overlaps(f, Some(start.user), Some(limit.user)) ==> f in expanded
    ensures Subset(inputs0, expanded)
  {
    forall f | f in inputs0
      ensures f in expanded
    {
      assert f in inputs0 + inputs1;
      FileRange(f);
    }
  }
}
