/** The records of the manifest (LogAndApply, WriteSnapshot and Recover in version_set.cc).  Durability holds
    the manifest as a version.  Here every record is kept as the edit it is, level by level, beside the run,
    and what Recover's one builder makes of them is proved to be that version. */
module Manifests {
  import opened Keys
  import opened Store
  import opened Versions
  import opened Selection
  import opened Builders
  import opened Installs
  import opened Flushes
  import opened Lsm
  import opened Durability

  // One edit per level
  type Record = r: seq<LevelEdit> | |r| == NUM_LEVELS witness seq(NUM_LEVELS, _ => LevelEdit({}, []))

  /** The records of the manifest that CURRENT names, and the versions they led through from an empty one. */
  datatype Book = Book(records: seq<Record>, versions: seq<Version>)

  function AtLevel(records: seq<Record>, l: nat): seq<LevelEdit>
    requires l < NUM_LEVELS
  {
    seq(|records|, i requires 0 <= i < |records| => records[i][l])
  }

  ghost predicate WholeVersions(versions: seq<Version>) {
    forall i :: 0 <= i < |versions| ==> |versions[i].files| == NUM_LEVELS
  }

  ghost function Lists(versions: seq<Version>, l: nat): seq<seq<FileMeta>>
    requires l < NUM_LEVELS && WholeVersions(versions)
  {
    seq(|versions|, i requires 0 <= i < |versions| => versions[i].files[l])
  }

  // The edit LogAndApply is given
  function EditOf(db: Db, step: Lsm.Event): Record {
    match step
    case Flush(table, level) => seq(NUM_LEVELS, l => if l == level then LevelEdit({}, [table]) else LevelEdit({}, []))
    case FinishCompaction(_, outputs) =>
      if db.job.Some? then CompactionEdit(db.job.value.inputs, outputs) else seq(NUM_LEVELS, _ => LevelEdit({}, []))
    case MoveFile(c) => CompactionEdit(c, c.inputs0)
    case _ => seq(NUM_LEVELS, _ => LevelEdit({}, []))
  }

  function CompactionLevel(c: Inputs, outputs: seq<FileMeta>, l: nat): LevelEdit {
    if l == c.level then LevelEdit(Numbers(c.inputs0), [])
    else if l == c.level + 1 then LevelEdit(Numbers(c.inputs1), outputs)
    else LevelEdit({}, [])
  }

  function CompactionEdit(c: Inputs, outputs: seq<FileMeta>): Record {
    seq(NUM_LEVELS, l requires 0 <= l < NUM_LEVELS => CompactionLevel(c, outputs, l))
  }

  // WriteSnapshot
  function SnapshotOf(v: Version): Record
    requires |v.files| == NUM_LEVELS
  {
    seq(NUM_LEVELS, l requires 0 <= l < NUM_LEVELS => LevelEdit({}, v.files[l]))
  }

  function RebuiltEdit(tables: seq<FileMeta>): Record {
    seq(NUM_LEVELS, l => if l == 0 then LevelEdit({}, tables) else LevelEdit({}, []))
  }

  ghost predicate LevelBookOk(b: Book, l: nat)
    requires l < NUM_LEVELS && WholeVersions(b.versions)
  {
    InstalledInTurn(Lists(b.versions, l), AtLevel(b.records, l)) && FreshNumbers({}, AtLevel(b.records, l))
  }

  ghost predicate BookOk(b: Book) {
    && |b.versions| == |b.records| + 1 && WholeVersions(b.versions)
    && forall l: nat {:trigger LevelBookOk(b, l)} :: l < NUM_LEVELS ==> LevelBookOk(b, l)
  }

  ghost function Last(b: Book): Version
    requires b.versions != []
  {
    b.versions[|b.versions| - 1]
  }

  // ---------------------------------------------------------------- one more record

  lemma LevelPush(b: Book, r: Record, v: Version, l: nat)
    requires |b.versions| == |b.records| + 1 && WholeVersions(b.versions) && |v.files| == NUM_LEVELS && l < NUM_LEVELS
    requires LevelBookOk(b, l)
    requires SortedBySmallest(v.files[l]) && LevelInstalled(Last(b).files[l], r[l], v.files[l])
    requires DistinctNumbers(r[l].added)
    requires forall f, g :: f in AllAdded(AtLevel(b.records, l)) && g in r[l].added ==> f.number != g.number
    ensures WholeVersions(b.versions + [v]) && LevelBookOk(Book(b.records + [r], b.versions + [v]), l)
    ensures AllAdded(AtLevel(b.records + [r], l)) == AllAdded(AtLevel(b.records, l)) + AsSet(r[l].added)
  {
    var edits, edits' := AtLevel(b.records, l), AtLevel(b.records + [r], l);
    assert edits' == edits + [r[l]] && edits'[..|edits|] == edits;
    var lists, lists' := Lists(b.versions, l), Lists(b.versions + [v], l);
    assert lists' == lists + [v.files[l]];
    InTurnPush(lists, edits, v.files[l], r[l]);
  }

  lemma InTurnPush(lists: seq<seq<FileMeta>>, edits: seq<LevelEdit>, files: seq<FileMeta>, edit: LevelEdit)
    requires InstalledInTurn(lists, edits) && SortedBySmallest(files) && LevelInstalled(lists[|lists| - 1], edit, files)
    ensures InstalledInTurn(lists + [files], edits + [edit])
  {
    var lists', edits' := lists + [files], edits + [edit];
    forall i: nat | i < |edits'|
      ensures InstalledAt(lists', edits', i)
    {
      if i < |edits| {
        assert InstalledAt(lists, edits, i);
      }
    }
  }

  lemma ReplacedInstalls(base: seq<FileMeta>, removed: seq<FileMeta>, added: seq<FileMeta>, files: seq<FileMeta>)
    requires ValidFiles(base) && SortedBySmallest(base) && Subset(removed, base)
    requires LevelReplaced(base, removed, added, files) && SortedBySmallest(files)
    ensures LevelInstalled(base, LevelEdit(Numbers(removed), added), files)
  {
    forall f | f in base
      ensures f.number in Numbers(removed) <==> f in removed
    {
    }
    if Numbers(removed) == {} && added == [] {
      NothingRemoved(removed);
      assert forall f :: f in base <==> f in files;
      SortedListUnique(files, base);
    }
  }

  lemma NothingRemoved(removed: seq<FileMeta>)
    ensures Numbers(removed) == {} ==> removed == []
  {
    if removed != [] {
      assert removed[0].number in Numbers(removed);
    }
  }

  /** The edits the code composes lead from version to version as the engine's steps do. */
  lemma StepInstalls(db: Db, step: Lsm.Event, v: Version, l: nat)
    requires ValidVersion(db.version) && LevelsSorted(db.version) && Installable(db, step, v) && JobOk(db) && l < NUM_LEVELS
    ensures SortedBySmallest(v.files[l]) && LevelInstalled(db.version.files[l], EditOf(db, step)[l], v.files[l])
  {
    assert LevelOk(l, db.version.files[l]) && Numbers([]) == {};
    match step
    case Flush(table, level) =>
      if l == level {
        ReplacedInstalls(db.version.files[l], [], [table], v.files[l]);
      }
    case FinishCompaction(input, outputs) => CompactionInstalls(db.version, db.job.value.inputs, outputs, v, l);
    case MoveFile(c) => CompactionInstalls(db.version, c, c.inputs0, v, l);
    case FlushNothing =>
  }

  lemma CompactionInstalls(v: Version, c: Inputs, outputs: seq<FileMeta>, v': Version, l: nat)
    requires ValidVersion(v) && LevelsSorted(v) && Fits(v, c) && CompactionInstalled(v, c, outputs, v') && l < NUM_LEVELS
    ensures SortedBySmallest(v'.files[l]) && LevelInstalled(v.files[l], CompactionEdit(c, outputs)[l], v'.files[l])
  {
    assert LevelOk(l, v.files[l]);
    if l == c.level {
      ReplacedInstalls(v.files[l], c.inputs0, [], v'.files[l]);
    } else if l == c.level + 1 {
      ReplacedInstalls(v.files[l], c.inputs1, outputs, v'.files[l]);
    }
  }

  // ---------------------------------------------------------------- numbers do not come back

  // n was added at level l by one of the records.
  ghost predicate WasAdded(b: Book, l: nat, n: nat)
    requires l < NUM_LEVELS
  {
    exists f :: f in AllAdded(AtLevel(b.records, l)) && f.number == n
  }

  // A number that was added at a level is not about to be used again, and its file, if there is one, is
  // at that level or deeper.
  ghost predicate Spent(e: Engine, v: Version, l: nat, n: nat) {
    && n < e.db.nextFile
    && (n in e.outputs ==> (e.phase.Logged? || e.phase.Failed?) && e.phase.step.FinishCompaction?)
    && !(e.phase.Building? && e.phase.number == n) && !(e.phase.Built? && e.phase.number == n)
    && !(e.phase.Applying? && e.phase.step.Flush? && e.phase.step.table.number == n)
    && forall k, f :: 0 <= k < |v.files| && f in v.files[k] && f.number == n ==> l <= k
  }

  ghost predicate NumbersSpent(e: Engine, b: Book)
    requires b.versions != []
  {
    && (forall l: nat, n: nat {:trigger WasAdded(b, l, n)} :: l < NUM_LEVELS && WasAdded(b, l, n) ==> Spent(e, Last(b), l, n))
    && (e.phase.Applying? && e.phase.step.FinishCompaction? ==> forall f :: f in e.phase.step.outputs ==> f.number in e.outputs)
  }

  // ---------------------------------------------------------------- the run and its manifest

  ghost predicate Records(s: State, ev: Durability.Event) {
    s.Up? && (ev.WriteManifest? || (ev.FailManifest? && ev.written)) && s.engine.phase.Applying?
  }

  ghost predicate BookNext(s: State, h: History, b: Book, ev: Durability.Event, s': State, h': History, b': Book) {
    && Durability.Next(s, h, ev, s', h')
    && if Records(s, ev) then
         b' == Book(b.records + [EditOf(s.engine.db, s.engine.phase.step)], b.versions + [s.engine.phase.edit.version])
       else if ev.FinishOpen? then
         // LogAndApply of a new incarnation starts a manifest with a snapshot of the recovered version.
         && |s.disk.manifest.version.files| == NUM_LEVELS && s.Down?
         && b' == Book([SnapshotOf(s.disk.manifest.version), RebuiltEdit(s.recovery.rebuilt)],
                       [EMPTY_VERSION, s.disk.manifest.version, ev.version])
       else b' == b
  }

  ghost predicate Inv(s: State, h: History, b: Book) {
    && Durability.Inv(s, h) && BookOk(b) && Last(b) == s.disk.manifest.version
    && (s.Up? ==> NumbersSpent(s.engine, b))
  }

  // What the edit adds at a level was never added there.
  lemma AddsFresh(e: Engine, b: Book, l: nat)
    requires e.phase.Applying? && Installable(e.db, e.phase.step, e.phase.edit.version)
    requires b.versions != [] && Last(b) == e.db.version && NumbersSpent(e, b) && l < NUM_LEVELS
    ensures var added := EditOf(e.db, e.phase.step)[l].added;
            DistinctNumbers(added) && forall g :: g in added ==> !WasAdded(b, l, g.number)
  {
    var step := e.phase.step;
    match step
    case Flush(table, level) =>
    case FinishCompaction(input, outputs) =>
    case MoveFile(c) =>
      assert c.inputs0[0] in e.db.version.files[c.level];
    case FlushNothing =>
  }

  lemma RecordKeepsBook(d: Disk, e: Engine, h: History, b: Book, b': Book)
    requires UpInv(d, e, h) && BookOk(b) && Last(b) == d.manifest.version && NumbersSpent(e, b) && e.phase.Applying?
    requires b' == Book(b.records + [EditOf(e.db, e.phase.step)], b.versions + [e.phase.edit.version])
    ensures BookOk(b')
    ensures forall l: nat, n: nat :: l < NUM_LEVELS && WasAdded(b', l, n) ==>
              WasAdded(b, l, n) || exists f :: f in EditOf(e.db, e.phase.step)[l].added && f.number == n
  {
    var r, v := EditOf(e.db, e.phase.step), e.phase.edit.version;
    assert |v.files| == NUM_LEVELS;
    forall l: nat | l < NUM_LEVELS
      ensures LevelBookOk(b', l)
      ensures AllAdded(AtLevel(b'.records, l)) == AllAdded(AtLevel(b.records, l)) + AsSet(r[l].added)
    {
      StepInstalls(e.db, e.phase.step, v, l);
      AddsFresh(e, b, l);
      assert LevelBookOk(b, l);
      forall f, g | f in AllAdded(AtLevel(b.records, l)) && g in r[l].added
        ensures f.number != g.number
      {
        assert !WasAdded(b, l, g.number);
      }
      LevelPush(b, r, v, l);
    }
  }

  // Files of one version with the same number are at the same level.
  lemma NumberTellsLevel(tables: map<nat, seq<Entry>>, v: Version, k: nat, f: FileMeta, l: nat, g: FileMeta)
    requires OnDisk(tables, v) && ValidVersion(v) && k < NUM_LEVELS && l < NUM_LEVELS
    requires f in v.files[k] && g in v.files[l] && f.number == g.number
    ensures k == l
  {
    if k < l {
      LevelsDiffer(v, k, f, l, g);
    } else if l < k {
      LevelsDiffer(v, l, g, k, f);
    }
  }

  lemma LevelsDiffer(v: Version, k: nat, f: FileMeta, l: nat, g: FileMeta)
    requires ValidVersion(v) && k < l < NUM_LEVELS && f in v.files[k] && g in v.files[l]
    ensures f.entries != g.entries
  {
    assert LevelOk(k, v.files[k]) && AllNewer(v.files[k], v.files[l]) && Newer(f, g);
    var e := f.entries[0];
    assert e in f.entries;
  }

  // The file an edit adds at a level is at that level of the new version.
  lemma AddedIsThere(db: Db, step: Lsm.Event, v: Version, l: nat, f: FileMeta)
    requires Installable(db, step, v) && l < NUM_LEVELS && f in EditOf(db, step)[l].added
    ensures f in v.files[l]
  {
  }

  // A file of the new version was added by the edit, or was there before, at the same level or above.
  lemma WasAbove(db: Db, step: Lsm.Event, v: Version, k: nat, f: FileMeta) returns (m: nat)
    requires Installable(db, step, v) && JobOk(db) && |db.version.files| == NUM_LEVELS
    requires k < |v.files| && f in v.files[k]
    requires !(step.Flush? && f == step.table) && !(step.FinishCompaction? && f in step.outputs)
    ensures m <= k && f in db.version.files[m]
  {
    m := k;
    if k >= NUM_LEVELS || f !in db.version.files[k] {
      m := step.inputs.level;
    }
  }

  lemma RecordSpends(d: Disk, e: Engine, h: History, b: Book, b': Book, e': Engine, l: nat, n: nat)
    requires UpInv(d, e, h) && BookOk(b) && Last(b) == d.manifest.version && NumbersSpent(e, b) && e.phase.Applying?
    requires b'.versions == b.versions + [e.phase.edit.version] && l < NUM_LEVELS
    requires e' == e.(phase := e'.phase) && e'.phase in {Logged(e.phase.edit, e.phase.step), Failed(e.phase.edit, e.phase.step)}
    requires WasAdded(b, l, n) || exists f :: f in EditOf(e.db, e.phase.step)[l].added && f.number == n
    ensures Spent(e', Last(b'), l, n)
  {
    var step, v := e.phase.step, e.phase.edit.version;
    Lsm.StepKeepsInv(e.db, h.acked, h.exposed, step, AfterInstall(e.db, step, v), h.acked);
    assert ValidVersion(v) && Last(b') == v;
    if WasAdded(b, l, n) {
      assert Spent(e, Last(b), l, n);
      OldSpent(e, h, v, l, n);
    } else {
      var f :| f in EditOf(e.db, step)[l].added && f.number == n;
      AddedIsThere(e.db, step, v, l, f);
      assert Uses(v, n);
      forall k, g | 0 <= k < NUM_LEVELS && g in v.files[k] && g.number == n
        ensures l <= k
      {
        NumberTellsLevel(d.tables, v, k, g, l, f);
      }
    }
  }

  lemma OldSpent(e: Engine, h: History, v: Version, l: nat, n: nat)
    requires Lsm.Inv(e.db, h.acked, h.exposed) && e.phase.Applying? && Installable(e.db, e.phase.step, v)
    requires Spent(e, e.db.version, l, n)
    requires e.phase.step.FinishCompaction? ==> forall f :: f in e.phase.step.outputs ==> f.number in e.outputs
    ensures forall k, f :: 0 <= k < |v.files| && f in v.files[k] && f.number == n ==> l <= k
  {
    forall k, f | 0 <= k < |v.files| && f in v.files[k] && f.number == n
      ensures l <= k
    {
      var m := WasAbove(e.db, e.phase.step, v, k, f);
    }
  }

  // ---------------------------------------------------------------- every step

  lemma RecordKeepsInv(s: State, h: History, b: Book, ev: Durability.Event, s': State, h': History, b': Book)
    requires Inv(s, h, b) && BookNext(s, h, b, ev, s', h', b') && Records(s, ev)
    ensures Inv(s', h', b')
  {
    Durability.StepKeepsInv(s, h, ev, s', h');
    RecordKeepsBook(s.disk, s.engine, h, b, b');
    forall l: nat, n: nat | l < NUM_LEVELS && WasAdded(b', l, n)
      ensures Spent(s'.engine, Last(b'), l, n)
    {
      RecordSpends(s.disk, s.engine, h, b, b', s'.engine, l, n);
    }
  }

  lemma OtherKeepsSpent(d: Disk, e: Engine, h: History, b: Book, ev: Durability.Event, d': Disk, e': Engine, h': History)
    requires b.versions != [] && NumbersSpent(e, b) && UpInv(d, e, h)
    requires if IsFront(ev) then FrontNext(d, e, h, ev, d', e', h') else WorkNext(d, e, h, ev, d', e', h')
    requires !(ev.WriteManifest? || (ev.FailManifest? && ev.written))
    ensures NumbersSpent(e', b)
  {
    forall l: nat, n: nat | l < NUM_LEVELS && WasAdded(b, l, n)
      ensures Spent(e', Last(b), l, n)
    {
      assert Spent(e, Last(b), l, n);
    }
  }

  /** The manifest a recovery ends with starts with a snapshot. */
  lemma OpenKeepsBook(d: Disk, r: Recovery, h: History, v: Version)
    requires Durable(d, h) && RecoveryOk(d, r) && RebuiltInstalled(d.manifest.version, r.rebuilt, v)
    ensures BookOk(Book([SnapshotOf(d.manifest.version), RebuiltEdit(r.rebuilt)], [EMPTY_VERSION, d.manifest.version, v]))
    ensures forall l: nat, n: nat ::
              l < NUM_LEVELS && WasAdded(Book([SnapshotOf(d.manifest.version), RebuiltEdit(r.rebuilt)], [EMPTY_VERSION, d.manifest.version, v]), l, n)
              ==> exists f :: f in v.files[l] && f.number == n
  {
    var base, snapshot, rebuilt := d.manifest.version, SnapshotOf(d.manifest.version), RebuiltEdit(r.rebuilt);
    var b0 := Book([], [EMPTY_VERSION]);
    var b1 := Book([snapshot], [EMPTY_VERSION, base]);
    var b2 := Book([snapshot, rebuilt], [EMPTY_VERSION, base, v]);
    assert b1.records == b0.records + [snapshot] && b1.versions == b0.versions + [base];
    assert b2.records == b1.records + [rebuilt] && b2.versions == b1.versions + [v];
    forall l: nat | l < NUM_LEVELS
      ensures LevelBookOk(b2, l)
      ensures forall n: nat :: WasAdded(b2, l, n) ==> exists f :: f in v.files[l] && f.number == n
    {
      EmptyBookOk(l);
      assert LevelOk(l, base.files[l]);
      SnapshotInstalls(base.files[l]);
      LevelPush(b0, snapshot, base, l);
      RebuiltInstalls(d, r, v, l);
      LevelPush(b1, rebuilt, v, l);
      assert AllAdded(AtLevel(b0.records, l)) == {};
    }
  }

  lemma EmptyBookOk(l: nat)
    requires l < NUM_LEVELS
    ensures WholeVersions([EMPTY_VERSION]) && LevelBookOk(Book([], [EMPTY_VERSION]), l) && AllAdded(AtLevel([], l)) == {}
  {
    assert EMPTY_VERSION.files[l] == [];
  }

  lemma SnapshotInstalls(files: seq<FileMeta>)
    requires ValidFiles(files)
    ensures LevelInstalled([], LevelEdit({}, files), files) && DistinctNumbers(files)
  {
  }

  lemma RebuiltInstalls(d: Disk, r: Recovery, v: Version, l: nat)
    requires ValidVersion(d.manifest.version) && NumbersOk(d.manifest.version, d.manifest.nextFile) && RecoveryOk(d, r)
    requires RebuiltInstalled(d.manifest.version, r.rebuilt, v) && l < NUM_LEVELS
    ensures SortedBySmallest(v.files[l]) && LevelInstalled(d.manifest.version.files[l], RebuiltEdit(r.rebuilt)[l], v.files[l])
    ensures DistinctNumbers(RebuiltEdit(r.rebuilt)[l].added)
    ensures forall f, g :: f in AsSet(d.manifest.version.files[l]) && g in RebuiltEdit(r.rebuilt)[l].added ==> f.number != g.number
  {
    assert LevelOk(l, d.manifest.version.files[l]) && Numbers([]) == {};
    if l == 0 {
      ReplacedInstalls(d.manifest.version.files[0], [], r.rebuilt, v.files[0]);
    }
  }

  lemma OpenKeepsInv(s: State, h: History, b: Book, ev: Durability.Event, s': State, h': History, b': Book)
    requires Inv(s, h, b) && BookNext(s, h, b, ev, s', h', b') && ev.FinishOpen?
    ensures Inv(s', h', b')
  {
    Durability.StepKeepsInv(s, h, ev, s', h');
    OpenKeepsBook(s.disk, s.recovery, h, ev.version);
    var v := ev.version;
    forall l: nat, n: nat | l < NUM_LEVELS && WasAdded(b', l, n)
      ensures Spent(s'.engine, Last(b'), l, n)
    {
      var f :| f in v.files[l] && f.number == n;
      forall k, g | 0 <= k < NUM_LEVELS && g in v.files[k] && g.number == n
        ensures l <= k
      {
        NumberTellsLevel(s'.disk.tables, v, k, g, l, f);
      }
    }
  }

  lemma StepKeepsInv(s: State, h: History, b: Book, ev: Durability.Event, s': State, h': History, b': Book)
    requires Inv(s, h, b) && BookNext(s, h, b, ev, s', h', b') && !ComposesSpanning(s, ev)
    ensures Inv(s', h', b')
  {
    if Records(s, ev) {
      RecordKeepsInv(s, h, b, ev, s', h', b');
    } else if ev.FinishOpen? {
      OpenKeepsInv(s, h, b, ev, s', h', b');
    } else {
      OtherKeepsInv(s, h, b, ev, s', h', b');
    }
  }

  lemma OtherKeepsInv(s: State, h: History, b: Book, ev: Durability.Event, s': State, h': History, b': Book)
    requires Inv(s, h, b) && BookNext(s, h, b, ev, s', h', b') && !ComposesSpanning(s, ev) && !Records(s, ev) && !ev.FinishOpen?
    ensures Inv(s', h', b')
  {
    Durability.StepKeepsInv(s, h, ev, s', h');
    SameManifest(s, h, ev, s', h');
    if s'.Up? {
      OtherKeepsSpent(s.disk, s.engine, h, b, ev, s'.disk, s'.engine, h');
    }
  }

  lemma SameManifest(s: State, h: History, ev: Durability.Event, s': State, h': History)
    requires Durability.Next(s, h, ev, s', h') && !Records(s, ev) && !ev.FinishOpen?
    ensures s'.disk.manifest == s.disk.manifest
  {
  }

  // ---------------------------------------------------------------- recovery

  /** VersionSet::Recover: what one builder per level makes of the records is the version the last of them
      led to. */
  method Recover(records: seq<Record>, ghost versions: seq<Version>) returns (v: Version)
    requires BookOk(Book(records, versions))
    ensures v == versions[|versions| - 1]
  {
    ghost var b := Book(records, versions);
    var files := [];
    for l := 0 to NUM_LEVELS
      invariant |files| == l && forall k :: 0 <= k < l ==> files[k] == Last(b).files[k]
    {
      assert LevelBookOk(b, l);
      var level := RecoverLevel(AtLevel(records, l), Lists(versions, l));
      files := files + [level];
    }
    assert files == Last(b).files;
    v := Version(files);
  }

  // A state of the durable engine with its history and its manifest
  datatype Configuration = Configuration(state: State, history: History, book: Book)

  const NEW_BOOK: Book := Book([], [EMPTY_VERSION])

  ghost predicate IsRun(run: seq<Configuration>, events: seq<Durability.Event>) {
    && |run| == |events| + 1 && run[0] == Configuration.Configuration(NEW_STATE, NEW_HISTORY, NEW_BOOK)
    && forall i :: 0 <= i < |events| ==>
         BookNext(run[i].state, run[i].history, run[i].book, events[i], run[i + 1].state, run[i + 1].history, run[i + 1].book)
  }

  lemma NewBookOk()
    ensures Inv(NEW_STATE, NEW_HISTORY, NEW_BOOK)
  {
    NewInv();
    forall l: nat | l < NUM_LEVELS
      ensures LevelBookOk(NEW_BOOK, l)
    {
      EmptyBookOk(l);
    }
  }

  lemma {:induction false} RunInv(run: seq<Configuration>, events: seq<Durability.Event>, n: nat)
    requires IsRun(run, events) && n < |run|
    requires forall i :: 0 <= i < n ==> !ComposesSpanning(run[i].state, events[i])
    ensures Inv(run[n].state, run[n].history, run[n].book)
  {
    if n == 0 {
      NewBookOk();
    } else {
      RunInv(run, events, n - 1);
      StepKeepsInv(run[n - 1].state, run[n - 1].history, run[n - 1].book, events[n - 1], run[n].state, run[n].history, run[n].book);
    }
  }

  /** In every run, whenever it stops: replaying the records of the manifest gives the version the results on
      crashes take it for. */
  method RecoverAfterRun(run: seq<Configuration>, ghost events: seq<Durability.Event>, n: nat) returns (v: Version)
    requires IsRun(run, events) && n < |run|
    requires forall i :: 0 <= i < n ==> !ComposesSpanning(run[i].state, events[i])
    ensures v == run[n].state.disk.manifest.version
  {
    RunInv(run, events, n);
    v := Recover(run[n].book.records, run[n].book.versions);
  }
}
