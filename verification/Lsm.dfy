/** The storage engine as a state machine (db_impl.cc).  Each step is what one thread does while it
    holds the mutex; a compaction is two steps, because the mutex is released while it merges, and
    writes, snapshots and flushes may come in between.  Beside the engine runs the abstract store:
    the set of every entry ever written. */
module Lsm {
  import opened Keys
  import opened Store
  import opened Versions
  import opened Selection
  import opened Builders
  import opened Compactions
  import opened CompactionReads
  import opened Installs
  import opened Flushes

  // A compaction under way: its inputs, the version it was chosen from, smallest_snapshot, and whether a
  // caller asked for it.
  datatype Job = Job(inputs: Inputs, base: Version, smallest: SequenceNumber, manual: bool)

  datatype Db = Db(mem: seq<Entry>, imm: Option<seq<Entry>>, version: Version, lastSequence: SequenceNumber,
                   snapshots: seq<SequenceNumber>, nextFile: nat, job: Option<Job>)

  ghost function ImmEntries(s: Db): set<Entry> {
    if s.imm.Some? then AsEntries(s.imm.value) else {}
  }

  // What has not been flushed yet
  ghost function Upper(s: Db): set<Entry> {
    AsEntries(s.mem) + ImmEntries(s)
  }

  ghost function All(s: Db): set<Entry> {
    Upper(s) + Contents(s.version)
  }

  /** The oldest sequence a reader may still use: the first of the snapshot list, or the latest one. */
  function Oldest(s: Db): SequenceNumber {
    if s.snapshots == [] then s.lastSequence else s.snapshots[0]
  }

  // DBImpl::Get
  method Get(s: Db, u: UserKey, at: SequenceNumber) returns (r: Option<string>)
    requires LayersOk(s)
    ensures r == Read(All(s), u, at)
  {
    LayersUnique(s);
    var hit := SeekUserKey(s.mem, u, at);
    if hit.Some? {
      LatestIs(All(s), u, at, hit.value);
      return Outcome(hit);
    }
    if s.imm.Some? {
      hit := SeekUserKey(s.imm.value, u, at);
      if hit.Some? {
        LatestIs(All(s), u, at, hit.value);
        return Outcome(hit);
      }
    }
    hit := Versions.Get(s.version, u, at);
    if hit.Some? {
      LatestIs(All(s), u, at, hit.value);
    } else {
      LatestNone(All(s), u, at);
    }
    return Outcome(hit);
  }

  ghost predicate NewerSet(upper: set<Entry>, lower: set<Entry>) {
    forall a, b :: a in upper && b in lower && a.key.user == b.key.user ==> a.key.sequence > b.key.sequence
  }

  ghost predicate LayersOk(s: Db) {
    && ValidVersion(s.version)
    && Sorted(s.mem) && (s.imm.Some? ==> Sorted(s.imm.value))
    && NewerSet(AsEntries(s.mem), ImmEntries(s)) && NewerSet(Upper(s), Contents(s.version))
  }

  lemma SortedUnique(es: seq<Entry>)
    requires Sorted(es)
    ensures Unique(AsEntries(es))
  {
  }

  lemma UnionUnique(upper: set<Entry>, lower: set<Entry>)
    requires Unique(upper) && Unique(lower) && NewerSet(upper, lower)
    ensures Unique(upper + lower)
  {
  }

  lemma LayersUnique(s: Db)
    requires LayersOk(s)
    ensures Unique(All(s))
  {
    SortedUnique(s.mem);
    if s.imm.Some? {
      SortedUnique(s.imm.value);
    }
    UnionUnique(AsEntries(s.mem), ImmEntries(s));
    ValidVersionUnique(s.version);
    UnionUnique(Upper(s), Contents(s.version));
  }

  ghost predicate NumbersOk(v: Version, next: nat) {
    && LevelsSorted(v)
    && (forall l, f :: 0 <= l < |v.files| && f in v.files[l] ==> f.number < next)
  }

  ghost predicate SnapshotsOk(s: Db) {
    && (forall i, j :: 0 <= i < j < |s.snapshots| ==> s.snapshots[i] <= s.snapshots[j])
    && (forall i :: 0 <= i < |s.snapshots| ==> s.snapshots[i] <= s.lastSequence)
  }

  // The selection a running compaction was started with still fits the current version, an automatic
  // one leaves no gap a memtable could be flushed into, and the version the job consults gives the same
  // answers about the keys it merges.
  ghost predicate JobOk(s: Db) {
    s.job.Some? ==>
      var j := s.job.value;
      && j.smallest <= Oldest(s) && Fits(s.version, j.inputs) && ValidVersion(j.base)
      && (!j.manual ==> Selected(s.version, j.inputs) && Gapless(s.version, j.inputs))
      && forall e :: e in InputEntries(j.inputs) ==>
           (BaseLevel(j.base, j.inputs.level, e.key.user) <==> BaseLevel(s.version, j.inputs.level, e.key.user))
  }

  // What PickCompaction promises of a selection and CompactRange does not
  ghost predicate Gapless(v: Version, c: Inputs) {
    c.level + 1 < |v.files| && Connected(v.files[c.level], v.files[c.level + 1], c.inputs0)
  }

  ghost predicate SameReads(a: set<Entry>, b: set<Entry>, from: SequenceNumber, except: iset<(UserKey, SequenceNumber)>) {
    forall u, at: SequenceNumber :: from <= at && (u, at) !in except ==> Read(a, u, at) == Read(b, u, at)
  }

  // No entry of u was written after sequence q and at or below sequence at.
  ghost predicate Quiet(history: set<Entry>, u: UserKey, q: SequenceNumber, at: SequenceNumber) {
    forall e :: e in history && VisibleTo(e, u, at) ==> e.key.sequence <= q
  }

  /** The reads that exposed ones make wrong: an exposed read of a user key spoils the later ones, up to the
      next write of the key. */
  ghost function Broken(exposed: iset<(UserKey, SequenceNumber)>, history: set<Entry>): iset<(UserKey, SequenceNumber)> {
    iset p: (UserKey, SequenceNumber) | exists q: SequenceNumber {:trigger Quiet(history, p.0, q, p.1)} ::
      (p.0, q) in exposed && q <= p.1 && Quiet(history, p.0, q, p.1)
  }

  /** The invariant of every run: the engine's layers are ordered, everything it holds was written, and
      every read a live snapshot can make agrees with the abstract store, except of a user key some
      compaction exposed and that has not been written again. */
  ghost predicate Inv(s: Db, history: set<Entry>, exposed: iset<(UserKey, SequenceNumber)>) {
    && LayersOk(s) && NumbersOk(s.version, s.nextFile) && SnapshotsOk(s) && JobOk(s)
    && All(s) <= history && Unique(history)
    && (forall e :: e in history ==> e.key.sequence <= s.lastSequence)
    && SameReads(All(s), history, Oldest(s), Broken(exposed, history))
  }

  datatype Event =
    | Write(batch: seq<Entry>)
    | AllocateNumber
    | SwitchMemTable
    | Flush(table: FileMeta, level: nat)
    | FlushNothing
    | StartCompaction(inputs: Inputs, manual: bool)
    | FinishCompaction(input: seq<Entry>, outputs: seq<FileMeta>)
    | MoveFile(inputs: Inputs)
    | TakeSnapshot
    | ReleaseSnapshot(index: nat)

  /** The step may install v' as the next version. */
  ghost predicate Installable(s: Db, ev: Event, v': Version) {
    match ev
    case Flush(table, level) =>
      && s.imm.Some? && table.entries == s.imm.value && ValidFile(table)
      && NumbersOk(s.version, table.number) && table.number < s.nextFile
      && FlushInstalled(s.version, table, level, v')
      && (level > 0 ==> ClearUpTo(s.version, level, table.smallest.user, table.largest.user))
    case FlushNothing =>
      s.imm == Some([]) && v' == s.version
    case FinishCompaction(input, outputs) =>
      && s.job.Some?
      && var j := s.job.value;
      && IsMergeOf(input, j.inputs)
      && Flatten(outputs) == Kept(j.base, j.inputs.level, input, |input|, j.smallest)
      && ValidFiles(outputs) && Disjoint(outputs) && (forall f :: f in outputs ==> f.number < s.nextFile)
      && CompactionInstalled(s.version, j.inputs, outputs, v')
    case MoveFile(c) =>
      && s.job.None? && Selected(s.version, c) && |c.inputs0| == 1 && c.inputs1 == []
      && CompactionInstalled(s.version, c, c.inputs0, v')
    case _ => false
  }

  function AfterInstall(s: Db, ev: Event, v': Version): Db {
    if ev.Flush? || ev.FlushNothing? then s.(imm := None, version := v')
    else if ev.FinishCompaction? then s.(job := None, version := v')
    else s.(version := v')
  }

  ghost predicate Next(s: Db, history: set<Entry>, ev: Event, s': Db, history': set<Entry>) {
    match ev
    case Write(batch) =>
      && s.lastSequence + |batch| <= MAX_SEQUENCE
      && (forall i :: 0 <= i < |batch| ==> batch[i].key.sequence == s.lastSequence + 1 + i)
      && Sorted(s'.mem) && AsEntries(s'.mem) == AsEntries(s.mem) + AsEntries(batch)
      && s' == s.(mem := s'.mem, lastSequence := s.lastSequence + |batch|)
      && history' == history + AsEntries(batch)
    case AllocateNumber =>
      s' == s.(nextFile := s.nextFile + 1) && history' == history
    case SwitchMemTable =>
      // the number goes to the new log file
      s.imm.None? && s' == s.(mem := [], imm := Some(s.mem), nextFile := s.nextFile + 1) && history' == history
    case StartCompaction(c, manual) =>
      && s.job.None? && Selected(s.version, c) && (!manual ==> Gapless(s.version, c))
      && s' == s.(job := Some(Job(c, s.version, Oldest(s), manual))) && history' == history
    case TakeSnapshot =>
      s' == s.(snapshots := s.snapshots + [s.lastSequence]) && history' == history
    case ReleaseSnapshot(i) =>
      i < |s.snapshots| && s' == s.(snapshots := s.snapshots[..i] + s.snapshots[i + 1..]) && history' == history
    case _ =>
      Installable(s, ev, s'.version) && s' == AfterInstall(s, ev, s'.version) && history' == history
  }

  /** The reads a step changes. */
  ghost function ExposedBy(s: Db, ev: Event): iset<(UserKey, SequenceNumber)> {
    if ev.FinishCompaction? && s.job.Some? && s.job.value.inputs.level + 1 < |s.version.files| then
      iset p: (UserKey, SequenceNumber) | s.job.value.smallest <= p.1 <= s.lastSequence
                                          && ChangedAt(s, s.job.value, p.0, p.1)
    else iset{}
  }

  ghost predicate ChangedAt(s: Db, j: Job, u: UserKey, at: SequenceNumber)
    requires j.inputs.level + 1 < |s.version.files|
  {
    ExposesAt(s.version, j.inputs, u, j.smallest, at) && Latest(Upper(s), u, at).None?
  }

  /** The step installs a compaction of whose outputs one spans a table flushed meanwhile. */
  ghost predicate Spanning(s: Db, ev: Event) {
    && ev.FinishCompaction? && s.job.Some? && s.job.value.inputs.level + 1 < |s.version.files|
    && SpansSibling(s.version, s.job.value.inputs, ev.outputs)
  }

  // ---------------------------------------------------------------- reads of two stores that grow

  /** Two stores that get the same newer entries: reads that agreed still agree, and others agree if they
      find one of the new entries. */
  lemma GrowTogether(a: set<Entry>, b: set<Entry>, more: set<Entry>, from: SequenceNumber,
                     except: iset<(UserKey, SequenceNumber)>, except': iset<(UserKey, SequenceNumber)>)
    requires SameReads(a, b, from, except) && Unique(a + more) && Unique(b + more)
    requires forall e, x :: e in more && x in a + b && e.key.user == x.key.user ==> e.key.sequence > x.key.sequence
    requires forall u, at: SequenceNumber :: from <= at && (u, at) in except && (u, at) !in except' ==> Latest(more, u, at).Some?
    ensures SameReads(a + more, b + more, from, except')
  {
    forall u, at: SequenceNumber | from <= at && (u, at) !in except'
      ensures Read(a + more, u, at) == Read(b + more, u, at)
    {
      var r := Latest(more, u, at);
      if r.Some? {
        LatestIs(a + more, u, at, r.value);
        LatestIs(b + more, u, at, r.value);
      } else {
        LatestOfUnion(a, more, u, at);
        LatestOfUnion(b, more, u, at);
        assert Read(a, u, at) == Read(b, u, at);
      }
    }
  }

  lemma LatestOfUnion(a: set<Entry>, more: set<Entry>, u: UserKey, at: SequenceNumber)
    requires Unique(a + more) && forall e :: e in more ==> !VisibleTo(e, u, at)
    ensures Latest(a + more, u, at) == Latest(a, u, at)
  {
    var r := Latest(a, u, at);
    if r.Some? {
      LatestIs(a + more, u, at, r.value);
    } else {
      LatestNone(a + more, u, at);
    }
  }

  // ---------------------------------------------------------------- one lemma per step

  lemma WriteKeepsInv(s: Db, history: set<Entry>, exposed: iset<(UserKey, SequenceNumber)>, batch: seq<Entry>, s': Db, history': set<Entry>)
    requires Inv(s, history, exposed) && Next(s, history, Write(batch), s', history')
    ensures Inv(s', history', exposed)
  {
    var more := AsEntries(batch);
    assert All(s') == All(s) + more;
    forall e | e in more
      ensures s.lastSequence < e.key.sequence <= s'.lastSequence
    {
    }
    BatchUnique(s, batch);
    UnionUnique(more, history);
    assert more + history == history + more;
    HealedByWrite(history, more, exposed);
    GrowTogether(All(s), history, more, Oldest(s), Broken(exposed, history), Broken(exposed, history'));
  }

  // A read is no longer broken once it finds a later write.
  lemma HealedByWrite(history: set<Entry>, more: set<Entry>, exposed: iset<(UserKey, SequenceNumber)>)
    ensures forall u, at: SequenceNumber :: (u, at) in Broken(exposed, history) && (u, at) !in Broken(exposed, history + more)
              ==> Latest(more, u, at).Some?
  {
    forall u, at: SequenceNumber | (u, at) in Broken(exposed, history) && Latest(more, u, at).None?
      ensures (u, at) in Broken(exposed, history + more)
    {
      var q: SequenceNumber :| (u, q) in exposed && q <= at && Quiet(history, u, q, at);
      assert Quiet(history + more, u, q, at);
    }
  }

  lemma BatchUnique(s: Db, batch: seq<Entry>)
    requires forall i :: 0 <= i < |batch| ==> batch[i].key.sequence == s.lastSequence + 1 + i
    ensures Unique(AsEntries(batch))
  {
  }

  lemma SwitchKeepsInv(s: Db, history: set<Entry>, exposed: iset<(UserKey, SequenceNumber)>, ev: Event, s': Db, history': set<Entry>)
    requires ev.SwitchMemTable? || ev.AllocateNumber?
    requires Inv(s, history, exposed) && Next(s, history, ev, s', history')
    ensures Inv(s', history', exposed)
  {
    assert All(s') == All(s);
  }

  lemma FlushKeepsInv(s: Db, history: set<Entry>, exposed: iset<(UserKey, SequenceNumber)>, table: FileMeta, level: nat, s': Db, history': set<Entry>)
    requires Inv(s, history, exposed) && Next(s, history, Flush(table, level), s', history')
    ensures Inv(s', history', exposed)
  {
    forall l, g | 0 <= l < NUM_LEVELS && g in s.version.files[l]
      ensures Newer(table, g)
    {
      forall e, x | e in table.entries && x in g.entries && e.key.user == x.key.user
        ensures e.key.sequence > x.key.sequence
      {
        InContents(s.version, l, g, x);
        assert e in ImmEntries(s);
      }
    }
    FlushKeepsValid(s.version, table, level, s'.version);
    assert All(s') == All(s);
    FlushKeepsJob(s, table, level, s');
  }

  lemma FlushKeepsJob(s: Db, table: FileMeta, level: nat, s': Db)
    requires ValidVersion(s.version) && JobOk(s) && ValidFile(table) && FlushInstalled(s.version, table, level, s'.version)
    requires level > 0 ==> ClearUpTo(s.version, level, table.smallest.user, table.largest.user)
    requires NewerThanVersion(table, s.version)
    requires s' == s.(imm := None, version := s'.version)
    ensures JobOk(s')
  {
    if s.job.Some? {
      var j := s.job.value;
      var c := j.inputs;
      FitSurvivesFlush(s.version, c, table, level, s'.version);
      if !j.manual {
        GaplessSurvivesFlush(s.version, c, table, level, s'.version);
      }
      forall e | e in InputEntries(c)
        ensures BaseLevel(s.version, c.level, e.key.user) <==> BaseLevel(s'.version, c.level, e.key.user)
      {
        BaseLevelSurvivesFlush(s.version, c, table, level, s'.version, e);
      }
    }
  }

  /** Wherever a memtable is flushed to, the selection of a running compaction still fits. */
  lemma FitSurvivesFlush(v: Version, c: Inputs, table: FileMeta, level: nat, v': Version)
    requires ValidVersion(v) && Fits(v, c) && FlushInstalled(v, table, level, v') && NewerThanVersion(table, v)
    requires level > 0 ==> ClearUpTo(v, level, table.smallest.user, table.largest.user)
    ensures Fits(v', c)
  {
    forall f, g | f in c.inputs0 && g in v'.files[c.level] && g !in c.inputs0
      ensures Newer(g, f)
    {
    }
    forall g | g in v'.files[c.level + 1] && g !in c.inputs1
      ensures Aside(g, c)
    {
      if g in v.files[c.level + 1] {
        assert Aside(g, c);
      } else {
        assert g == table && level == c.level + 1;
        assert Clear(v.files[c.level], g.smallest.user, g.largest.user) && Clear(v.files[level], g.smallest.user, g.largest.user);
      }
    }
  }

  lemma TableIsNew(v: Version, level: nat, table: FileMeta)
    requires NewerThanVersion(table, v) && ValidFile(table) && level < |v.files|
    ensures table !in v.files[level]
  {
    NotNewerThanItself(table);
  }

  lemma NotNewerThanItself(f: FileMeta)
    requires ValidFile(f)
    ensures !Newer(f, f)
  {
    var e := f.entries[0];
    assert e in f.entries;
  }

  /** The selection stays closed exactly if the table did not land at the output level between the inputs. */
  lemma SelectionSurvivesFlush(v: Version, c: Inputs, table: FileMeta, level: nat, v': Version)
    requires ValidVersion(v) && Selected(v, c) && FlushInstalled(v, table, level, v') && NewerThanVersion(table, v) && ValidFile(table)
    ensures Selected(v', c) <==> (level == c.level + 1 ==> OneSide(table, c.inputs0))
  {
    if level == c.level + 1 {
      TableIsNew(v, level, table);
      assert table in v'.files[c.level + 1];
    }
    if level == c.level + 1 ==> OneSide(table, c.inputs0) {
      forall f, g | f in c.inputs0 && g in v'.files[c.level] && g !in c.inputs0
        ensures Newer(g, f)
      {
      }
      forall g | g in v'.files[c.level + 1] && g !in c.inputs1
        ensures OneSide(g, c.inputs0)
      {
      }
    }
  }

  /** An automatic compaction leaves no gap: a memtable that is flushed to the output level lands to one side
      of its inputs, and the selection stays closed. */
  lemma GaplessSurvivesFlush(v: Version, c: Inputs, table: FileMeta, level: nat, v': Version)
    requires ValidVersion(v) && Selected(v, c) && Gapless(v, c) && ValidFile(table)
    requires FlushInstalled(v, table, level, v') && NewerThanVersion(table, v)
    requires level > 0 ==> ClearUpTo(v, level, table.smallest.user, table.largest.user)
    ensures Selected(v', c) && Gapless(v', c)
  {
    if level == c.level + 1 {
      FileRange(table);
      assert Clear(v.files[c.level], table.smallest.user, table.largest.user) && Clear(v.files[level], table.smallest.user, table.largest.user);
      assert Beside(table.smallest.user, table.largest.user, c.inputs0);
    }
    SelectionSurvivesFlush(v, c, table, level, v');
    forall small, large | small <= large && Clear(v'.files[c.level], small, large) && Clear(v'.files[c.level + 1], small, large)
      ensures Beside(small, large, c.inputs0)
    {
      assert Clear(v.files[c.level], small, large) && Clear(v.files[c.level + 1], small, large);
    }
  }

  lemma BaseLevelSurvivesFlush(v: Version, c: Inputs, table: FileMeta, level: nat, v': Version, e: Entry)
    requires ValidVersion(v) && Fits(v, c) && FlushInstalled(v, table, level, v') && ValidFile(table)
    requires level > 0 ==> ClearUpTo(v, level, table.smallest.user, table.largest.user)
    requires e in InputEntries(c)
    ensures BaseLevel(v, c.level, e.key.user) <==> BaseLevel(v', c.level, e.key.user)
  {
    if level >= c.level + 2 {
      var m, g := InputFile(v, c, e);
      assert LevelOk(m, v.files[m]);
      WithinFile(g, e);
      FileRange(table);
      assert !Overlaps(g, Some(table.smallest.user), Some(table.largest.user));
    }
    forall l | c.level + 2 <= l < NUM_LEVELS
      ensures (forall f :: f in v.files[l] ==> f in v'.files[l])
      ensures (forall f :: f in v'.files[l] ==> f in v.files[l] || (f == table && l == level))
    {
    }
  }

  lemma StartKeepsInv(s: Db, history: set<Entry>, exposed: iset<(UserKey, SequenceNumber)>, c: Inputs, manual: bool, s': Db, history': set<Entry>)
    requires Inv(s, history, exposed) && Next(s, history, StartCompaction(c, manual), s', history')
    ensures Inv(s', history', exposed)
  {
    SelectedFits(s.version, c);
    assert All(s') == All(s);
  }

  lemma {:induction false} KeptAgree(v: Version, w: Version, level: nat, input: seq<Entry>, n: nat, smallest: SequenceNumber)
    requires n <= |input|
    requires forall e :: e in input ==> (BaseLevel(v, level, e.key.user) <==> BaseLevel(w, level, e.key.user))
    ensures Kept(v, level, input, n, smallest) == Kept(w, level, input, n, smallest)
  {
    if n > 0 {
      KeptAgree(v, w, level, input, n - 1, smallest);
      assert input[n - 1] in input;
    }
  }

  // What the new version holds: everything untouched, and the outputs.
  lemma InstalledContents(v: Version, c: Inputs, outputs: seq<FileMeta>, v': Version)
    requires ValidVersion(v) && Fits(v, c) && CompactionInstalled(v, c, outputs, v')
    ensures Contents(v') == Rest(v, c) + FileContents(outputs)
  {
    forall e | e in Contents(v')
      ensures e in Rest(v, c) + FileContents(outputs)
    {
      var l, f := Locate(v', e);
      if !(l == c.level + 1 && f in outputs) {
        assert f in v.files[l] && Stays(c, l, f);
      }
    }
    forall e | e in Rest(v, c) + FileContents(outputs)
      ensures e in Contents(v')
    {
      if e in Rest(v, c) {
        var l, f :| 0 <= l < |v.files| && f in v.files[l] && Stays(c, l, f) && e in f.entries;
        InContents(v', l, f, e);
      } else {
        var f :| f in outputs && e in f.entries;
        InContents(v', c.level + 1, f, e);
      }
    }
  }

  // Rewriting the version to one that holds less and reads the same, but for changed, keeps the invariant.
  lemma RewriteKeepsInv(s: Db, history: set<Entry>, exposed: iset<(UserKey, SequenceNumber)>, s': Db, from: SequenceNumber,
                        changed: iset<(UserKey, SequenceNumber)>, more: iset<(UserKey, SequenceNumber)>)
    requires Inv(s, history, exposed) && from <= Oldest(s)
    requires s'.mem == s.mem && s'.imm == s.imm && s'.lastSequence == s.lastSequence && s'.snapshots == s.snapshots
    requires s'.job.None?
    requires ValidVersion(s'.version) && NumbersOk(s'.version, s'.nextFile)
    requires Contents(s'.version) <= Contents(s.version) && SameReads(Contents(s'.version), Contents(s.version), from, changed)
    requires forall u, at: SequenceNumber :: from <= at && (u, at) in changed && Latest(Upper(s), u, at).None? ==> (u, at) in Broken(more, history)
    ensures Inv(s', history, exposed + more)
  {
    LayersUnique(s);
    LayersUnique(s');
    assert All(s') == Contents(s'.version) + Upper(s) && All(s) == Contents(s.version) + Upper(s);
    GrowTogether(Contents(s'.version), Contents(s.version), Upper(s), from, changed, Broken(more, history));
    BrokenGrows(exposed, more, history);
  }

  lemma BrokenGrows(exposed: iset<(UserKey, SequenceNumber)>, more: iset<(UserKey, SequenceNumber)>, history: set<Entry>)
    ensures Broken(exposed, history) <= Broken(exposed + more, history)
    ensures Broken(more, history) <= Broken(exposed + more, history)
  {
  }

  /** What FinishCompaction installs, reads included. */
  lemma FinishedVersion(s: Db, input: seq<Entry>, outputs: seq<FileMeta>, v': Version)
    requires ValidVersion(s.version) && JobOk(s) && Installable(s, FinishCompaction(input, outputs), v')
    ensures OutputsOf(outputs, s.job.value.inputs)
    ensures ValidVersion(v') <==> !Spanning(s, FinishCompaction(input, outputs))
    ensures Contents(v') == After(s.version, s.job.value.inputs, input, s.job.value.smallest) && Contents(v') <= Contents(s.version)
  {
    var j := s.job.value;
    var c := j.inputs;
    KeptAgree(j.base, s.version, c.level, input, |input|, j.smallest);
    forall e
      ensures e in FileContents(outputs) <==> e in KeptSet(s.version, c, input, j.smallest)
    {
      FlattenMember(outputs, e);
    }
    AfterIsSubset(s.version, c, input, j.smallest);
    KeptAreInputs(s.version, c, input, j.smallest, outputs);
    InstallValidIff(s.version, c, outputs, v');
    InstalledContents(s.version, c, outputs, v');
  }

  lemma FinishKeepsInv(s: Db, history: set<Entry>, exposed: iset<(UserKey, SequenceNumber)>, input: seq<Entry>, outputs: seq<FileMeta>, s': Db, history': set<Entry>)
    requires Inv(s, history, exposed) && Next(s, history, FinishCompaction(input, outputs), s', history')
    requires !Spanning(s, FinishCompaction(input, outputs))
    ensures Inv(s', history', exposed + ExposedBy(s, FinishCompaction(input, outputs)))
  {
    var j, ev := s.job.value, FinishCompaction(input, outputs);
    FinishedVersion(s, input, outputs, s'.version);
    var changed := ExposedFrom(s.version, j.inputs, j.smallest);
    OthersKept(s.version, j.inputs, input, j.smallest);
    forall u, at: SequenceNumber | j.smallest <= at && (u, at) in changed && Latest(Upper(s), u, at).None?
      ensures (u, at) in Broken(ExposedBy(s, ev), history)
    {
      ChangedIsBroken(s, history, ev, u, at);
    }
    RewriteKeepsInv(s, history, exposed, s', j.smallest, changed, ExposedBy(s, ev));
  }

  ghost function ExposedFrom(v: Version, c: Inputs, smallest: SequenceNumber): iset<(UserKey, SequenceNumber)>
    requires c.level + 1 < |v.files|
  {
    iset p: (UserKey, SequenceNumber) | ExposesAt(v, c, p.0, smallest, p.1)
  }

  lemma OthersKept(v: Version, c: Inputs, input: seq<Entry>, smallest: SequenceNumber)
    requires ValidVersion(v) && Fits(v, c) && IsMergeOf(input, c)
    ensures SameReads(After(v, c, input, smallest), Contents(v), smallest, ExposedFrom(v, c, smallest))
  {
    forall u, at: SequenceNumber | smallest <= at && (u, at) !in ExposedFrom(v, c, smallest)
      ensures Read(After(v, c, input, smallest), u, at) == Read(Contents(v), u, at)
    {
      ReadPreservedIff(v, c, input, smallest, u, at);
    }
  }

  // Sequences above the last one see what the last one sees.
  lemma ChangedIsBroken(s: Db, history: set<Entry>, ev: Event, u: UserKey, at: SequenceNumber)
    requires ev.FinishCompaction? && s.job.Some? && s.job.value.inputs.level + 1 < |s.version.files|
    requires s.job.value.smallest <= at && s.job.value.smallest <= s.lastSequence
    requires All(s) <= history && forall e :: e in history ==> e.key.sequence <= s.lastSequence
    requires ExposesAt(s.version, s.job.value.inputs, u, s.job.value.smallest, at) && Latest(Upper(s), u, at).None?
    ensures (u, at) in Broken(ExposedBy(s, ev), history)
  {
    var q := if at <= s.lastSequence then at else s.lastSequence;
    var v, c := s.version, s.job.value.inputs;
    ExposedEarlier(Contents(v), InputEntries(c), Siblings(v, c), BaseLevel(v, c.level, u), u, s.job.value.smallest, q, at);
    assert ChangedAt(s, s.job.value, u, q) by {
      LatestNone(Upper(s), u, q);
    }
    assert (u, q) in ExposedBy(s, ev);
    assert Quiet(history, u, q, at);
  }

  lemma ExposedEarlier(all: set<Entry>, inputs: set<Entry>, siblings: set<Entry>, base: bool, u: UserKey, smallest: SequenceNumber,
                       q: SequenceNumber, at: SequenceNumber)
    requires Exposed(all, inputs, siblings, base, u, smallest, at) && smallest <= q <= at
    ensures Exposed(all, inputs, siblings, base, u, smallest, q)
  {
    var t :| t in inputs && t.key.sequence <= smallest && IsLatest(all, u, at, t) && t.key.vtype.Deletion?;
    assert IsLatest(all, u, q, t);
  }

  /** Of the reads from the oldest sequence a reader may use up to the last one, the end of a compaction
      changes exactly those it exposes. */
  lemma FinishChangesIff(s: Db, input: seq<Entry>, outputs: seq<FileMeta>, s': Db, u: UserKey, at: SequenceNumber)
    requires LayersOk(s) && JobOk(s) && Installable(s, FinishCompaction(input, outputs), s'.version)
    requires s' == AfterInstall(s, FinishCompaction(input, outputs), s'.version)
    requires s.job.value.smallest <= at <= s.lastSequence
    ensures Read(All(s'), u, at) == Read(All(s), u, at) <==> (u, at) !in ExposedBy(s, FinishCompaction(input, outputs))
  {
    ExposedMember(s, FinishCompaction(input, outputs), u, at);
    ReadAfterFinish(s, input, outputs, s', u, at);
  }

  lemma ExposedMember(s: Db, ev: Event, u: UserKey, at: SequenceNumber)
    requires ev.FinishCompaction? && s.job.Some? && s.job.value.inputs.level + 1 < |s.version.files|
    requires s.job.value.smallest <= at <= s.lastSequence
    ensures (u, at) in ExposedBy(s, ev) <==> ChangedAt(s, s.job.value, u, at)
  {
  }

  lemma ReadAfterFinish(s: Db, input: seq<Entry>, outputs: seq<FileMeta>, s': Db, u: UserKey, at: SequenceNumber)
    requires LayersOk(s) && JobOk(s) && Installable(s, FinishCompaction(input, outputs), s'.version)
    requires s' == s.(job := None, version := s'.version) && s.job.value.smallest <= at
    ensures Read(All(s'), u, at) == Read(All(s), u, at) <==> !ChangedAt(s, s.job.value, u, at)
  {
    var j := s.job.value;
    FinishedVersion(s, input, outputs, s'.version);
    LayersUnique(s);
    ReadAfter(s.version, s'.version, j.inputs, input, j.smallest, Upper(s), u, at);
    AllSwapped(s);
    AllSwapped(s');
  }

  lemma AllSwapped(s: Db)
    ensures All(s) == Contents(s.version) + Upper(s)
  {
  }

  lemma ReadAfter(v: Version, v': Version, c: Inputs, input: seq<Entry>, smallest: SequenceNumber, upper: set<Entry>, u: UserKey, at: SequenceNumber)
    requires ValidVersion(v) && Fits(v, c) && IsMergeOf(input, c) && smallest <= at
    requires Contents(v') == After(v, c, input, smallest) && Contents(v') <= Contents(v)
    requires Unique(upper + Contents(v)) && NewerSet(upper, Contents(v))
    ensures Read(Contents(v') + upper, u, at) == Read(Contents(v) + upper, u, at)
            <==> Latest(upper, u, at).Some? || !ExposesAt(v, c, u, smallest, at)
  {
    assert Contents(v) + upper == upper + Contents(v);
    ReadBelow(Contents(v'), Contents(v), upper, u, at);
    ReadPreservedIff(v, c, input, smallest, u, at);
  }

  // Reads that find nothing in the upper layers are decided by the lower ones.
  lemma ReadBelow(a: set<Entry>, b: set<Entry>, upper: set<Entry>, u: UserKey, at: SequenceNumber)
    requires a <= b && Unique(b + upper) && NewerSet(upper, b)
    ensures Read(a + upper, u, at) == Read(b + upper, u, at) <==> Latest(upper, u, at).Some? || Read(a, u, at) == Read(b, u, at)
  {
    var r := Latest(upper, u, at);
    if r.Some? {
      LatestIs(a + upper, u, at, r.value);
      LatestIs(b + upper, u, at, r.value);
    } else {
      LatestOfUnion(a, upper, u, at);
      LatestOfUnion(b, upper, u, at);
    }
  }

  lemma KeptAreInputs(v: Version, c: Inputs, input: seq<Entry>, smallest: SequenceNumber, outputs: seq<FileMeta>)
    requires IsMergeOf(input, c) && ValidFiles(outputs) && Disjoint(outputs)
    requires forall e :: e in FileContents(outputs) <==> e in KeptSet(v, c, input, smallest)
    ensures OutputsOf(outputs, c)
  {
    forall o, e | o in outputs && e in o.entries
      ensures e in InputEntries(c)
    {
      assert e in FileContents(outputs);
      KeptMember(v, c.level, input, |input|, smallest, e);
    }
  }

  lemma MoveIsValid(v: Version, c: Inputs, v': Version)
    requires ValidVersion(v) && Selected(v, c) && |c.inputs0| == 1 && c.inputs1 == [] && CompactionInstalled(v, c, c.inputs0, v')
    ensures ValidVersion(v') && Contents(v') == Contents(v)
  {
    assert LevelOk(c.level, v.files[c.level]);
    assert InputEntries(c) == FileContents(c.inputs0);
    InstallKeepsValid(v, c, c.inputs0, v');
    InstalledContents(v, c, c.inputs0, v');
    RestSplit(v, c);
  }

  lemma MoveKeepsInv(s: Db, history: set<Entry>, exposed: iset<(UserKey, SequenceNumber)>, c: Inputs, s': Db, history': set<Entry>)
    requires Inv(s, history, exposed) && Next(s, history, MoveFile(c), s', history')
    ensures Inv(s', history', exposed)
  {
    MoveIsValid(s.version, c, s'.version);
    RewriteKeepsInv(s, history, exposed, s', Oldest(s), iset{}, iset{});
    assert exposed + iset{} == exposed;
  }

  lemma SnapshotKeepsInv(s: Db, history: set<Entry>, exposed: iset<(UserKey, SequenceNumber)>, ev: Event, s': Db, history': set<Entry>)
    requires ev.TakeSnapshot? || ev.ReleaseSnapshot?
    requires Inv(s, history, exposed) && Next(s, history, ev, s', history')
    ensures Inv(s', history', exposed) && Oldest(s) <= Oldest(s')
  {
    assert All(s') == All(s);
  }

  /** Every step keeps the invariant, unless it installs a compaction with an output that spans a table
      flushed meanwhile. */
  lemma StepKeepsInv(s: Db, history: set<Entry>, exposed: iset<(UserKey, SequenceNumber)>, ev: Event, s': Db, history': set<Entry>)
    requires Inv(s, history, exposed) && Next(s, history, ev, s', history') && !Spanning(s, ev)
    ensures Inv(s', history', exposed + ExposedBy(s, ev))
  {
    assert exposed + iset{} == exposed;
    match ev
    case Write(batch) => WriteKeepsInv(s, history, exposed, batch, s', history');
    case AllocateNumber => SwitchKeepsInv(s, history, exposed, ev, s', history');
    case SwitchMemTable => SwitchKeepsInv(s, history, exposed, ev, s', history');
    case Flush(table, level) => FlushKeepsInv(s, history, exposed, table, level, s', history');
    case FlushNothing => assert All(s') == All(s);
    case StartCompaction(c, manual) => StartKeepsInv(s, history, exposed, c, manual, s', history');
    case FinishCompaction(input, outputs) => FinishKeepsInv(s, history, exposed, input, outputs, s', history');
    case MoveFile(c) => MoveKeepsInv(s, history, exposed, c, s', history');
    case TakeSnapshot => SnapshotKeepsInv(s, history, exposed, ev, s', history');
    case ReleaseSnapshot(i) => SnapshotKeepsInv(s, history, exposed, ev, s', history');
  }

  /** A step leaves the engine readable if and only if it does not install an output that spans a table. */
  lemma StepValidIff(s: Db, history: set<Entry>, exposed: iset<(UserKey, SequenceNumber)>, ev: Event, s': Db, history': set<Entry>)
    requires Inv(s, history, exposed) && Next(s, history, ev, s', history')
    ensures LayersOk(s') <==> !Spanning(s, ev)
  {
    if Spanning(s, ev) {
      FinishedVersion(s, ev.input, ev.outputs, s'.version);
    } else {
      StepKeepsInv(s, history, exposed, ev, s', history');
    }
  }

  /** An automatic compaction never installs such an output, whatever was flushed while it ran. */
  lemma AutomaticNeverSpans(s: Db, history: set<Entry>, exposed: iset<(UserKey, SequenceNumber)>, ev: Event, s': Db, history': set<Entry>)
    requires Inv(s, history, exposed) && Next(s, history, ev, s', history')
    requires s.job.Some? ==> !s.job.value.manual
    ensures !Spanning(s, ev)
  {
    if ev.FinishCompaction? {
      FinishedVersion(s, ev.input, ev.outputs, s'.version);
      SelectedNeverSpans(s.version, s.job.value.inputs, ev.outputs);
    }
  }

  // ---------------------------------------------------------------- whole runs

  // A new database: file 1 and 2 were manifests, file 3 is the log
  const EMPTY_DB: Db := Db([], None, Version([[], [], [], [], [], [], []]), 0, [], 4, None)

  // The engine, everything written to it, and the reads its compactions exposed
  datatype Configuration = Configuration(db: Db, history: set<Entry>, exposed: iset<(UserKey, SequenceNumber)>)

  ghost predicate IsRun(run: seq<Configuration>, events: seq<Event>) {
    && |run| == |events| + 1 && run[0] == Configuration(EMPTY_DB, {}, iset{})
    && forall i :: 0 <= i < |events| ==>
         && Next(run[i].db, run[i].history, events[i], run[i + 1].db, run[i + 1].history)
         && run[i + 1].exposed == run[i].exposed + ExposedBy(run[i].db, events[i])
  }

  // None of the first n steps installs an output that spans a table flushed while it was written.
  ghost predicate NeverSpans(run: seq<Configuration>, events: seq<Event>, n: nat)
    requires n <= |events| < |run|
  {
    forall i :: 0 <= i < n ==> !Spanning(run[i].db, events[i])
  }

  lemma InitInv()
    ensures Inv(EMPTY_DB, {}, iset{})
  {
    assert All(EMPTY_DB) == {};
  }

  lemma {:induction false} RunInv(run: seq<Configuration>, events: seq<Event>, n: nat)
    requires IsRun(run, events) && n < |run| && NeverSpans(run, events, n)
    ensures Inv(run[n].db, run[n].history, run[n].exposed)
  {
    if n == 0 {
      InitInv();
    } else {
      RunInv(run, events, n - 1);
      StepKeepsInv(run[n - 1].db, run[n - 1].history, run[n - 1].exposed, events[n - 1], run[n].db, run[n].history);
    }
  }

  /** After every run of writes, memtable switches, flushes, compactions, moves and snapshots, in any
      interleaving, a read at any live snapshot or at the latest sequence finds exactly what it would
      find in the set of everything ever written, unless a compaction exposed the user key at or before
      that sequence and the key was not written since. */
  lemma RunsReadCorrectly(run: seq<Configuration>, events: seq<Event>, n: nat, u: UserKey, at: SequenceNumber)
    requires IsRun(run, events) && n < |run| && NeverSpans(run, events, n)
    requires (u, at) !in Broken(run[n].exposed, run[n].history) && (at in run[n].db.snapshots || at == run[n].db.lastSequence)
    ensures LayersOk(run[n].db)
    ensures Read(All(run[n].db), u, at) == Read(run[n].history, u, at)
  {
    RunInv(run, events, n);
    assert Oldest(run[n].db) <= at;
  }

  /** A run whose compactions are all automatic never installs an output that spans a table: for such runs
      the two results above hold as they stand. */
  lemma {:induction false} AutomaticRunsNeverSpan(run: seq<Configuration>, events: seq<Event>, n: nat)
    requires IsRun(run, events) && n < |run|
    requires forall i :: 0 <= i < n && events[i].StartCompaction? ==> !events[i].manual
    ensures NeverSpans(run, events, n) && (run[n].db.job.Some? ==> !run[n].db.job.value.manual)
  {
    if n > 0 {
      AutomaticRunsNeverSpan(run, events, n - 1);
      RunInv(run, events, n - 1);
      AutomaticNeverSpans(run[n - 1].db, run[n - 1].history, run[n - 1].exposed, events[n - 1], run[n].db, run[n].history);
      assert events[n - 1].StartCompaction? ==> !events[n - 1].manual;
    }
  }
}
