/** Versions and point lookups (version_set.cc).

    A Version is immutable once built, and so are the tables it names; a FileMeta therefore
    carries the entries of its table. */
module Versions {
  import opened Keys
  import opened Store

  const NUM_LEVELS: nat := 7

  datatype FileMeta = FileMeta(number: nat, size: nat, smallest: InternalKey, largest: InternalKey,
                               entries: seq<Entry>)

  datatype Version = Version(files: seq<seq<FileMeta>>)

  predicate ValidFile(f: FileMeta) {
    && |f.entries| > 0 && Sorted(f.entries)
    && f.smallest == f.entries[0].key && f.largest == f.entries[|f.entries| - 1].key
  }

  // Every entry of f is newer than every entry of g for the same user key.
  ghost predicate Newer(f: FileMeta, g: FileMeta) {
    forall e, x :: e in f.entries && x in g.entries && e.key.user == x.key.user ==> e.key.sequence > x.key.sequence
  }

  ghost predicate ValidFiles(files: seq<FileMeta>) {
    && (forall f :: f in files ==> ValidFile(f))
    && (forall i, j :: 0 <= i < j < |files| ==> files[i].number != files[j].number)
  }

  // Levels >= 1: sorted with disjoint internal-key ranges.
  ghost predicate Disjoint(files: seq<FileMeta>) {
    forall i, j :: 0 <= i < j < |files| ==> Before(files[i].largest, files[j].smallest)
  }

  // Level 0: files may overlap, but a larger file number holds newer entries.
  ghost predicate NewestByNumber(files: seq<FileMeta>) {
    forall f, g {:trigger Newer(f, g)} :: f in files && g in files && f.number > g.number ==> Newer(f, g)
  }

  ghost predicate LevelOk(level: nat, files: seq<FileMeta>) {
    && ValidFiles(files)
    && (if level == 0 then NewestByNumber(files) else Disjoint(files))
  }

  ghost predicate AllNewer(upper: seq<FileMeta>, lower: seq<FileMeta>) {
    forall f, g {:trigger Newer(f, g)} :: f in upper && g in lower ==> Newer(f, g)
  }

  /** The invariant of every installed version: each level is well formed and, for each user
      key, everything at a shallower level is newer than everything deeper. */
  ghost predicate ValidVersion(v: Version) {
    && |v.files| == NUM_LEVELS
    && (forall l {:trigger LevelOk(l, v.files[l])} :: 0 <= l < NUM_LEVELS ==> LevelOk(l, v.files[l]))
    && (forall i, j {:trigger AllNewer(v.files[i], v.files[j])} :: 0 <= i < j < NUM_LEVELS ==> AllNewer(v.files[i], v.files[j]))
  }

  ghost function FileContents(files: seq<FileMeta>): set<Entry> {
    set f, e | f in files && e in f.entries :: e
  }

  ghost function Contents(v: Version): set<Entry> {
    set l, e | 0 <= l < |v.files| && e in FileContents(v.files[l]) :: e
  }

  lemma WithinFile(f: FileMeta, e: Entry)
    requires ValidFile(f) && e in f.entries
    ensures e.key == f.smallest || Before(f.smallest, e.key)
    ensures e.key == f.largest || Before(e.key, f.largest)
    ensures f.smallest.user <= e.key.user <= f.largest.user
  {
  }

  lemma FileRange(f: FileMeta)
    requires ValidFile(f)
    ensures f.smallest == f.largest || Before(f.smallest, f.largest)
  {
  }

  lemma InContents(v: Version, l: nat, f: FileMeta, e: Entry)
    requires l < |v.files| && f in v.files[l] && e in f.entries
    ensures e in Contents(v)
  {
    assert e in FileContents(v.files[l]);
  }

  lemma Locate(v: Version, e: Entry) returns (l: nat, f: FileMeta)
    requires e in Contents(v)
    ensures l < |v.files| && f in v.files[l] && e in f.entries
  {
    l :| 0 <= l < |v.files| && e in FileContents(v.files[l]);
    f :| f in v.files[l] && e in f.entries;
  }

  lemma DisjointEntries(files: seq<FileMeta>, i: nat, j: nat, a: Entry, b: Entry)
    requires ValidFiles(files) && Disjoint(files)
    requires i < j < |files| && a in files[i].entries && b in files[j].entries
    ensures Before(a.key, b.key)
  {
    WithinFile(files[i], a);
    WithinFile(files[j], b);
  }

  lemma LevelKeysDistinct(level: nat, files: seq<FileMeta>, f: FileMeta, g: FileMeta, a: Entry, b: Entry)
    requires LevelOk(level, files) && f in files && g in files && a in f.entries && b in g.entries
    requires a.key.user == b.key.user && a != b
    ensures a.key.sequence != b.key.sequence
  {
    var i :| 0 <= i < |files| && files[i] == f;
    var j :| 0 <= j < |files| && files[j] == g;
    if i != j && level == 0 {
      assert Newer(f, g) || Newer(g, f);
    } else if i < j {
      DisjointEntries(files, i, j, a, b);
    } else if j < i {
      DisjointEntries(files, j, i, b, a);
    }
  }

  lemma ValidVersionUnique(v: Version)
    requires ValidVersion(v)
    ensures Unique(Contents(v))
  {
    forall a, b | a in Contents(v) && b in Contents(v) && a.key.user == b.key.user && a != b
      ensures a.key.sequence != b.key.sequence
    {
      var l, f :| 0 <= l < NUM_LEVELS && f in v.files[l] && a in f.entries;
      var m, g :| 0 <= m < NUM_LEVELS && g in v.files[m] && b in g.entries;
      if l == m {
        LevelKeysDistinct(l, v.files[l], f, g, a, b);
      } else if l < m {
        assert AllNewer(v.files[l], v.files[m]) && Newer(f, g);
      } else {
        assert AllNewer(v.files[m], v.files[l]) && Newer(g, f);
      }
    }
  }

  /** Binary search for the first file whose largest key is at or after key. */
  method FindFile(files: seq<FileMeta>, key: InternalKey) returns (right: nat)
    requires ValidFiles(files) && Disjoint(files)
    ensures right <= |files|
    ensures forall i :: 0 <= i < right ==> Before(files[i].largest, key)
    ensures forall i :: right <= i < |files| ==> !Before(files[i].largest, key)
  {
    var left := 0;
    right := |files|;
    while left < right
      invariant left <= right <= |files|
      invariant forall i :: 0 <= i < left ==> Before(files[i].largest, key)
      invariant forall i :: right <= i < |files| ==> !Before(files[i].largest, key)
    {
      var mid := (left + right) / 2;
      forall i | 0 <= i < |files| && i != mid
        ensures i < mid ==> Before(files[i].largest, files[mid].largest)
        ensures i > mid ==> Before(files[mid].largest, files[i].largest)
      {
        FileRange(files[mid]);
        FileRange(files[i]);
      }
      if Before(files[mid].largest, key) {
        left := mid + 1;
      } else {
        right := mid;
      }
    }
  }

  // null user keys (None) stand for the ends of the key space
  predicate AfterFile(user: Option<UserKey>, f: FileMeta) {
    user.Some? && user.value > f.largest.user
  }

  predicate BeforeFile(user: Option<UserKey>, f: FileMeta) {
    user.Some? && user.value < f.smallest.user
  }

  // The user-key range of f meets [begin, end].
  predicate Overlaps(f: FileMeta, begin: Option<UserKey>, end: Option<UserKey>) {
    !AfterFile(begin, f) && !BeforeFile(end, f)
  }

  /** Answers whether any file meets the range, by a scan on level 0 and by one binary search on
      a disjoint level. */
  method SomeFileOverlapsRange(disjoint: bool, files: seq<FileMeta>, begin: Option<UserKey>, end: Option<UserKey>)
    returns (r: bool)
    requires ValidFiles(files) && (disjoint ==> Disjoint(files))
    requires begin.Some? && end.Some? ==> begin.value <= end.value
    ensures r <==> exists f :: f in files && Overlaps(f, begin, end)
  {
    if !disjoint {
      for i := 0 to |files|
        invariant forall j :: 0 <= j < i ==> !Overlaps(files[j], begin, end)
      {
        if Overlaps(files[i], begin, end) {
          return true;
        }
      }
      return false;
    }
    var index := 0;
    if begin.Some? {
      index := FindFile(files, SeekKey(begin.value, MAX_SEQUENCE));
    }
    if index >= |files| {
      return false;
    }
    if BeforeFile(end, files[index]) {
      forall j | index <= j < |files|
        ensures BeforeFile(end, files[j])
      {
        FileRange(files[index]);
      }
    } else {
      assert Overlaps(files[index], begin, end);
    }
    return !BeforeFile(end, files[index]);
  }

  /** Index of the first entry at or after key. */
  function SeekIndex(es: seq<Entry>, key: InternalKey): (i: nat)
    requires Sorted(es)
    ensures i <= |es|
    ensures forall j :: 0 <= j < i ==> Before(es[j].key, key)
    ensures forall j :: i <= j < |es| ==> !Before(es[j].key, key)
  {
    if |es| == 0 || !Before(es[0].key, key) then 0 else 1 + SeekIndex(es[1..], key)
  }

  // TableCache::Get with the SaveValue callback, and MemTable::Get: the entry a seek lands on,
  // if it belongs to the requested user key.
  function SeekUserKey(es: seq<Entry>, u: UserKey, s: SequenceNumber): (r: Option<Entry>)
    requires Sorted(es)
    ensures r.Some? ==> r.value in es && VisibleTo(r.value, u, s)
                        && forall e :: e in es && VisibleTo(e, u, s) ==> e.key.sequence <= r.value.key.sequence
    ensures r.None? ==> forall e :: e in es ==> !VisibleTo(e, u, s)
  {
    var i := SeekIndex(es, SeekKey(u, s));
    if i < |es| && es[i].key.user == u then Some(es[i]) else None
  }

  function InsertNewest(f: FileMeta, fs: seq<FileMeta>): (r: seq<FileMeta>)
    requires forall i, j :: 0 <= i < j < |fs| ==> fs[i].number >= fs[j].number
    ensures forall i, j :: 0 <= i < j < |r| ==> r[i].number >= r[j].number
    ensures forall g :: g in r <==> g == f || g in fs
  {
    if fs == [] || f.number >= fs[0].number then [f] + fs
    else
      var r := InsertNewest(f, fs[1..]);
      assert forall g :: g in r ==> g.number <= fs[0].number;
      assert forall g :: g in [fs[0]] + r <==> g == fs[0] || g in r;
      assert forall g :: g in fs <==> g == fs[0] || g in fs[1..];
      [fs[0]] + r
  }

  // std::sort with NewestFirst
  function SortNewestFirst(fs: seq<FileMeta>): (r: seq<FileMeta>)
    ensures forall i, j :: 0 <= i < j < |r| ==> r[i].number >= r[j].number
    ensures forall g :: g in r <==> g in fs
  {
    if fs == [] then []
    else
      assert forall g :: g in fs <==> g == fs[0] || g in fs[1..];
      InsertNewest(fs[0], SortNewestFirst(fs[1..]))
  }

  ghost predicate NoneVisibleUpTo(files: seq<FileMeta>, n: nat, u: UserKey, s: SequenceNumber)
    requires n <= |files|
  {
    forall i, e :: 0 <= i < n && e in files[i].entries ==> !VisibleTo(e, u, s)
  }

  ghost predicate NoneVisible(files: seq<FileMeta>, u: UserKey, s: SequenceNumber) {
    forall f, e :: f in files && e in f.entries ==> !VisibleTo(e, u, s)
  }

  // Some file in search holds an entry visible to the read and newer than e.
  ghost predicate Shadowed(search: seq<FileMeta>, u: UserKey, s: SequenceNumber, e: Entry) {
    exists f, x :: f in search && x in f.entries && VisibleTo(x, u, s) && x.key.sequence > e.key.sequence
  }

  ghost predicate Covers(search: seq<FileMeta>, files: seq<FileMeta>, u: UserKey, s: SequenceNumber) {
    && (forall f :: f in search ==> f in files)
    && (forall f, e :: f in files && f !in search && e in f.entries && VisibleTo(e, u, s) ==> Shadowed(search, u, s, e))
    && (forall i, j :: 0 <= i < j < |search| ==> search[i].number >= search[j].number)
  }

  /** The files Version::Get consults at one level, in the order it consults them. */
  method FilesToSearch(level: nat, files: seq<FileMeta>, u: UserKey, s: SequenceNumber)
    returns (search: seq<FileMeta>)
    requires LevelOk(level, files)
    ensures Covers(search, files, u, s)
    ensures level > 0 ==> |search| <= 1
    ensures level == 0 ==> forall f :: f in search <==> f in files && f.smallest.user <= u <= f.largest.user
  {
    search := [];
    if level == 0 {
      for i := 0 to |files|
        invariant forall f :: f in search <==> f in files[..i] && f.smallest.user <= u <= f.largest.user
        invariant forall f, e :: f in files[..i] && f !in search && e in f.entries ==> !VisibleTo(e, u, s)
      {
        if files[i].smallest.user <= u <= files[i].largest.user {
          search := search + [files[i]];
        } else {
          forall e | e in files[i].entries
            ensures !VisibleTo(e, u, s)
          {
            WithinFile(files[i], e);
          }
        }
      }
      search := SortNewestFirst(search);
    } else {
      var index := FindFile(files, SeekKey(u, s));
      if index < |files| && files[index].smallest.user <= u {
        search := [files[index]];
      }
      OnlyOneCandidate(files, index, u, s);
    }
  }

  lemma OnlyOneCandidate(files: seq<FileMeta>, index: nat, u: UserKey, s: SequenceNumber)
    requires ValidFiles(files) && Disjoint(files) && index <= |files|
    requires forall i :: 0 <= i < index ==> Before(files[i].largest, SeekKey(u, s))
    requires forall i :: index <= i < |files| ==> !Before(files[i].largest, SeekKey(u, s))
    ensures forall f, e :: f in files && e in f.entries && VisibleTo(e, u, s)
                           ==> index < |files| && files[index].smallest.user <= u
                               && (f != files[index] ==> Shadowed([files[index]], u, s, e))
  {
    forall f, e | f in files && e in f.entries && VisibleTo(e, u, s)
      ensures index < |files| && files[index].smallest.user <= u
      ensures f != files[index] ==> Shadowed([files[index]], u, s, e)
    {
      var i :| 0 <= i < |files| && files[i] == f;
      WithinFile(f, e);
      if i > index {
        var c := files[index];
        FileRange(c);
        var x := c.entries[|c.entries| - 1];
        assert Before(c.largest, f.smallest);
        assert VisibleTo(x, u, s) && x.key.sequence > e.key.sequence;
        assert c in [c] && x in c.entries;
      }
    }
  }

  /** Version::Get returns exactly what a scan of every entry of the version would find. */
  method Get(v: Version, u: UserKey, s: SequenceNumber) returns (r: Option<Entry>)
    requires ValidVersion(v)
    ensures r == Latest(Contents(v), u, s)
  {
    ValidVersionUnique(v);
    for level := 0 to NUM_LEVELS
      invariant forall l :: 0 <= l < level ==> NoneVisible(v.files[l], u, s)
    {
      var search := FilesToSearch(level, v.files[level], u, s);
      for i := 0 to |search|
        invariant NoneVisibleUpTo(search, i, u, s)
      {
        assert search[i] in v.files[level];
        r := SeekUserKey(search[i].entries, u, s);
        if r.Some? {
          FirstHitIsLatest(v, level, search, i, u, s, r.value);
          LatestIs(Contents(v), u, s, r.value);
          return;
        }
      }
    }
    LatestNone(Contents(v), u, s);
    return None;
  }

  lemma FirstHitIsLatest(v: Version, level: nat, search: seq<FileMeta>, i: nat, u: UserKey, s: SequenceNumber, hit: Entry)
    requires ValidVersion(v) && level < NUM_LEVELS && i < |search|
    requires forall l :: 0 <= l < level ==> NoneVisible(v.files[l], u, s)
    requires Covers(search, v.files[level], u, s) && (level > 0 ==> |search| <= 1)
    requires NoneVisibleUpTo(search, i, u, s)
    requires hit in search[i].entries && VisibleTo(hit, u, s)
    requires forall e :: e in search[i].entries && VisibleTo(e, u, s) ==> e.key.sequence <= hit.key.sequence
    ensures IsLatest(Contents(v), u, s, hit)
  {
    InContents(v, level, search[i], hit);
    forall x | x in Contents(v) && VisibleTo(x, u, s)
      ensures x.key.sequence <= hit.key.sequence
    {
      var m, g := Locate(v, x);
      if m > level {
        assert AllNewer(v.files[level], v.files[m]) && Newer(search[i], g);
      } else if m == level {
        FirstHitInLevel(level, v.files[level], search, i, u, s, hit, g, x);
      }
    }
  }

  lemma FirstHitInLevel(level: nat, files: seq<FileMeta>, search: seq<FileMeta>, i: nat, u: UserKey, s: SequenceNumber,
                        hit: Entry, g: FileMeta, x: Entry)
    requires LevelOk(level, files) && i < |search|
    requires Covers(search, files, u, s) && (level > 0 ==> |search| <= 1)
    requires NoneVisibleUpTo(search, i, u, s)
    requires hit in search[i].entries && VisibleTo(hit, u, s)
    requires forall e :: e in search[i].entries && VisibleTo(e, u, s) ==> e.key.sequence <= hit.key.sequence
    requires g in files && x in g.entries && VisibleTo(x, u, s)
    ensures x.key.sequence <= hit.key.sequence
  {
    if g in search {
      FirstHitInSearch(level, files, search, i, u, s, hit, g, x);
    } else {
      var h, y :| h in search && y in h.entries && VisibleTo(y, u, s) && y.key.sequence > x.key.sequence;
      FirstHitInSearch(level, files, search, i, u, s, hit, h, y);
    }
  }

  lemma FirstHitInSearch(level: nat, files: seq<FileMeta>, search: seq<FileMeta>, i: nat, u: UserKey, s: SequenceNumber,
                         hit: Entry, g: FileMeta, x: Entry)
    requires LevelOk(level, files) && i < |search|
    requires Covers(search, files, u, s) && (level > 0 ==> |search| <= 1)
    requires NoneVisibleUpTo(search, i, u, s)
    requires hit in search[i].entries && VisibleTo(hit, u, s)
    requires forall e :: e in search[i].entries && VisibleTo(e, u, s) ==> e.key.sequence <= hit.key.sequence
    requires g in search && x in g.entries && VisibleTo(x, u, s)
    ensures x.key.sequence <= hit.key.sequence
  {
    var k :| 0 <= k < |search| && search[k] == g;
    if g != search[i] {
      assert k > i && search[i].number >= g.number;
      assert search[i] in files && g in files;
      assert Newer(search[i], g);
    }
  }
}
