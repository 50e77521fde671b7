/** What survives a crash (db_impl.cc, LogAndApply and Recover in version_set.cc).

    The engine of Lsm on a disk of numbered tables, numbered logs and a manifest.  The steps are those of
    the writers and of the one background thread between two points at which the mutex is released, of a
    crash at any of them, and of the recovery that follows.  Writing the manifest is not atomic with
    installing the new version.  The manifest is held as the version its records lead to, which is what
    Recover makes of them (Manifests); bytes appended to a file are durable. */
module Durability {
  import opened Keys
  import opened Store
  import opened Versions
  import opened Selection
  import opened Builders
  import opened Installs
  import opened Flushes
  import opened LogFiles
  import opened Lsm

  datatype Manifest = Manifest(version: Version, logNumber: nat, nextFile: nat, lastSequence: SequenceNumber)

  datatype Disk = Disk(tables: map<nat, seq<Entry>>, logs: seq<LogFile>, manifest: Manifest)

  /** What the background thread is doing.  Building and Built: a table for the immutable memtable.
      Applying and Logged: inside LogAndApply, before and after the manifest record is written.  Failed
      and Stopped: it met an error, with the record of the edit written or without. */
  datatype Phase =
    | Idle
    | Building(number: nat)
    | Built(number: nat)
    | Applying(edit: Manifest, step: Lsm.Event)
    | Logged(edit: Manifest, step: Lsm.Event)
    | Failed(edit: Manifest, step: Lsm.Event)
    | Stopped

  datatype Engine = Engine(
    db: Db,
    memLog: nat,                      // logfile_number_
    logNumber: nat,                   // of the installed version
    pinned: seq<Version>,             // older versions still referenced by readers
    pending: set<nat>,                // pending_outputs_
    outputs: set<nat>,                // file numbers the compaction under way has taken
    phase: Phase,
    inflight: Option<seq<Entry>>)     // logged by a writer, not yet in the memtable

  /** DB::Open under way: how much of the logs has been read, the tables written from it, the next file
      number, and the new log once there is one. */
  datatype Recovery = Recovery(read: nat, rebuilt: seq<FileMeta>, nextFile: nat, log: Option<nat>)

  datatype State = Up(disk: Disk, engine: Engine) | Down(disk: Disk, recovery: Recovery)

  // Acknowledged writes, and the reads compactions exposed
  datatype History = History(acked: set<Entry>, exposed: iset<(UserKey, SequenceNumber)>)

  // The log entries a recovery reads
  ghost function Tail(disk: Disk): seq<Entry> {
    Replay(disk.logs, disk.manifest.logNumber)
  }

  /** What DB::Open finds: the tables of the manifest's version, and the logs numbered from its log number. */
  ghost function Recovered(disk: Disk): set<Entry> {
    Contents(disk.manifest.version) + AsEntries(Tail(disk))
  }

  // Recover's last sequence: the manifest's, or the largest in the logs it reads.
  ghost function RecoveredSequence(disk: Disk): SequenceNumber {
    TailLast(Tail(disk), disk.manifest.lastSequence)
  }

  ghost function Flight(e: Engine): set<Entry> {
    if e.inflight.Some? then AsEntries(e.inflight.value) else {}
  }

  ghost predicate Uses(v: Version, n: nat) {
    exists l, f :: 0 <= l < |v.files| && f in v.files[l] && f.number == n
  }

  /** Every table of v is there, with its entries. */
  ghost predicate OnDisk(tables: map<nat, seq<Entry>>, v: Version) {
    forall l, f :: 0 <= l < |v.files| && f in v.files[l] ==> f.number in tables && tables[f.number] == f.entries
  }

  // ---------------------------------------------------------------- the steps

  datatype Event =
    | Append(batch: seq<Entry>)
    | Commit
    | Switch
    | Snapshot(step: Lsm.Event)
    | BeginTable
    | FinishTable
    | Select(inputs: Inputs, manual: bool)
    | BeginOutput
    | WriteOutput(number: nat, entries: seq<Entry>)
    | Compose(step: Lsm.Event, version: Version)
    | WriteManifest
    | FailManifest(written: bool)
    | StopWork
    | Install
    | DeleteObsoleteFiles
    | Pin
    | Unpin(index: nat)
    | Crash
    | RebuildTable(count: nat, table: FileMeta)
    | MakeLog(number: nat)
    | FinishOpen(version: Version)

  // A batch carries the next sequence numbers.
  ghost predicate IsBatch(batch: seq<Entry>, last: SequenceNumber) {
    last + |batch| <= MAX_SEQUENCE && forall i :: 0 <= i < |batch| ==> batch[i].key.sequence == last + 1 + i
  }

  // Whether the background thread has come to the point at which it composes the edit of the step
  ghost predicate Ready(d: Disk, e: Engine, step: Lsm.Event) {
    match step
    case Flush(table, level) => e.phase == Built(table.number)
    case FlushNothing => e.phase.Built?
    case FinishCompaction(input, outputs) =>
      e.phase.Idle? && forall f :: f in outputs ==> f.number in e.outputs && f.number in d.tables && d.tables[f.number] == f.entries
    case _ => e.phase.Idle?
  }

  predicate IsFlush(step: Lsm.Event) {
    step.Flush? || step.FlushNothing?
  }

  function EditFor(e: Engine, step: Lsm.Event, v: Version): Manifest {
    Manifest(v, if IsFlush(step) then e.memLog else e.logNumber, e.db.nextFile, e.db.lastSequence)
  }

  // A number is taken.
  function Take(db: Db): Db {
    db.(nextFile := db.nextFile + 1)
  }

  ghost predicate Live(e: Engine, n: nat) {
    n in e.pending || Uses(e.db.version, n) || exists i :: 0 <= i < |e.pinned| && Uses(e.pinned[i], n)
  }

  // Steps of writers and readers
  predicate IsFront(ev: Event) {
    ev.Append? || ev.Commit? || ev.Switch? || ev.Snapshot? || ev.Pin? || ev.Unpin?
  }

  ghost predicate FrontNext(d: Disk, e: Engine, h: History, ev: Event, d': Disk, e': Engine, h': History)
    requires IsFront(ev)
  {
    match ev
    case Append(batch) =>
      && e.inflight.None? && IsBatch(batch, e.db.lastSequence) && d.logs != []
      && d' == d.(logs := AppendTo(d.logs, batch)) && e' == e.(inflight := Some(batch)) && h' == h
    case Commit =>
      && e.inflight.Some? && Lsm.Next(e.db, h.acked, Write(e.inflight.value), e'.db, h'.acked)
      && d' == d && e' == e.(inflight := None, db := e'.db) && h'.exposed == h.exposed
    case Switch =>
      && e.inflight.None? && e.db.imm.None? && !e.phase.Failed? && !e.phase.Stopped?
      && d' == d.(logs := d.logs + [LogFile(e.db.nextFile, [])])
      && e' == e.(db := Take(e.db).(mem := [], imm := Some(e.db.mem)), memLog := e.db.nextFile) && h' == h
    case Snapshot(step) =>
      && (step.TakeSnapshot? || step.ReleaseSnapshot?) && Lsm.Next(e.db, h.acked, step, e'.db, h.acked)
      && d' == d && e' == e.(db := e'.db) && h' == h
    case Pin =>
      d' == d && e' == e.(pinned := e.pinned + [e.db.version]) && h' == h
    case Unpin(i) =>
      i < |e.pinned| && d' == d && e' == e.(pinned := e.pinned[..i] + e.pinned[i + 1..]) && h' == h
  }

  ghost predicate WorkNext(d: Disk, e: Engine, h: History, ev: Event, d': Disk, e': Engine, h': History) {
    match ev
    case BeginTable =>
      && e.db.imm.Some? && e.phase.Idle?
      && d' == d && e' == e.(phase := Building(e.db.nextFile), pending := e.pending + {e.db.nextFile}, db := Take(e.db)) && h' == h
    case FinishTable =>
      // BuildTable leaves no file of an empty memtable.
      && e.db.imm.Some? && e.phase.Building?
      && d' == (if e.db.imm.value == [] then d else d.(tables := d.tables[e.phase.number := e.db.imm.value]))
      && e' == e.(phase := Built(e.phase.number), pending := e.pending - {e.phase.number}) && h' == h
    case Select(c, manual) =>
      && e.phase.Idle? && Lsm.Next(e.db, h.acked, StartCompaction(c, manual), e'.db, h.acked)
      && d' == d && e' == e.(db := e'.db, outputs := {}) && h' == h
    case BeginOutput =>
      && e.db.job.Some? && e.phase.Idle?
      && d' == d && e' == e.(outputs := e.outputs + {e.db.nextFile}, pending := e.pending + {e.db.nextFile}, db := Take(e.db)) && h' == h
    case WriteOutput(n, entries) =>
      && n in e.outputs && e.phase.Idle?
      && d' == d.(tables := d.tables[n := entries]) && e' == e && h' == h
    case Compose(step, v) =>
      && Installable(e.db, step, v) && Ready(d, e, step)
      && d' == d && e' == e.(phase := Applying(EditFor(e, step, v), step)) && h' == h
    case WriteManifest =>
      && e.phase.Applying?
      && d' == d.(manifest := e.phase.edit) && e' == e.(phase := Logged(e.phase.edit, e.phase.step)) && h' == h
    case FailManifest(written) =>
      && e.phase.Applying?
      && d' == (if written then d.(manifest := e.phase.edit) else d)
      && e' == e.(phase := if written then Failed(e.phase.edit, e.phase.step) else Stopped) && h' == h
    case StopWork =>
      (e.phase.Idle? || e.phase.Building? || e.phase.Built?) && d' == d && e' == e.(phase := Stopped) && h' == h
    case Install =>
      && e.phase.Logged?
      && var db := AfterInstall(e.db, e.phase.step, e.phase.edit.version);
      && d' == d && h' == h.(exposed := h.exposed + ExposedBy(e.db, e.phase.step))
      && e' == (if e.phase.step.FinishCompaction? then
                  e.(phase := Idle, db := db, logNumber := e.phase.edit.logNumber, outputs := {}, pending := e.pending - e.outputs)
                else e.(phase := Idle, db := db, logNumber := e.phase.edit.logNumber))
    case DeleteObsoleteFiles =>
      && e.phase.Idle?
      && d' == d.(tables := map n | n in d.tables && Live(e, n) :: d.tables[n], logs := KeepFrom(d.logs, e.logNumber))
      && e' == e && h' == h
    case _ => false
  }

  /** What a crash makes of the history: a batch that was logged counts as written from now on, and so do the
      reads exposed by an edit whose record is in the manifest. */
  ghost function AfterCrash(e: Engine, h: History): History {
    History(h.acked + Flight(e),
            h.exposed + if e.phase.Logged? || e.phase.Failed? then ExposedBy(e.db, e.phase.step) else iset{})
  }

  // The history if the machine stops now
  ghost function IfCrashed(s: State, h: History): History {
    if s.Up? then AfterCrash(s.engine, h) else h
  }

  // Recovery starts from the manifest; file number nextFile is for the next manifest.
  function Reopening(d: Disk): Recovery {
    Recovery(0, [], d.manifest.nextFile + 1, None)
  }

  ghost predicate Rebuilds(t: seq<Entry>, r: Recovery, count: nat, table: FileMeta) {
    && r.read + count <= |t| && ValidFile(table)
    && AsEntries(table.entries) == AsEntries(t[r.read..r.read + count])
    && r.nextFile <= table.number
  }

  // Steps of DB::Open
  predicate IsRecovery(ev: Event) {
    ev.RebuildTable? || ev.MakeLog? || ev.FinishOpen?
  }

  ghost predicate DownNext(d: Disk, r: Recovery, ev: Event, s': State) {
    match ev
    case RebuildTable(count, table) =>
      // RecoverLogFile: a memtable of the records read since the last table is written at level 0.
      && r.log.None? && Rebuilds(Tail(d), r, count, table)
      && s'.Down? && s'.recovery.nextFile > table.number
      && s' == Down(d.(tables := d.tables[table.number := table.entries]),
                    r.(read := r.read + count, rebuilt := r.rebuilt + [table], nextFile := s'.recovery.nextFile))
    case MakeLog(n) =>
      // The numbers of the logs that were read have been marked as used.
      && r.log.None? && r.read == |Tail(d)| && r.nextFile <= n && (forall i :: 0 <= i < |d.logs| ==> d.logs[i].number < n)
      && s' == Down(d.(logs := d.logs + [LogFile(n, [])]), r.(log := Some(n), nextFile := n + 1))
    case FinishOpen(v) =>
      && r.log.Some? && RebuiltInstalled(d.manifest.version, r.rebuilt, v)
      && s' == Opened(d, r, v)
    case _ => false
  }

  ghost function Opened(d: Disk, r: Recovery, v: Version): State
    requires r.log.Some?
  {
    var last := RecoveredSequence(d);
    Up(d.(manifest := Manifest(v, r.log.value, r.nextFile, last)),
       Engine(Db([], None, v, last, [], r.nextFile, None), r.log.value, r.log.value, [], {}, {}, Idle, None))
  }

  ghost predicate Next(s: State, h: History, ev: Event, s': State, h': History) {
    if ev.Crash? then
      s' == Down(s.disk, Reopening(s.disk)) && h' == IfCrashed(s, h)
    else if IsRecovery(ev) then
      s.Down? && DownNext(s.disk, s.recovery, ev, s') && h' == h
    else
      && s.Up? && s'.Up?
      && if IsFront(ev) then FrontNext(s.disk, s.engine, h, ev, s'.disk, s'.engine, h')
         else WorkNext(s.disk, s.engine, h, ev, s'.disk, s'.engine, h')
  }

  // ---------------------------------------------------------------- the invariant

  ghost predicate LogsOk(d: Disk, e: Engine) {
    && NumbersAscend(d.logs) && d.logs != [] && d.logs[|d.logs| - 1].number == e.memLog && e.logNumber <= e.memLog < e.db.nextFile
    && Ascending(Replay(d.logs, e.logNumber))
    && AsEntries(Replay(d.logs, e.logNumber)) == Upper(e.db) + Flight(e)
    && AsEntries(Replay(d.logs, e.memLog)) == AsEntries(e.db.mem) + Flight(e)
    && (e.inflight.Some? ==> IsBatch(e.inflight.value, e.db.lastSequence) && EndsWith(d.logs[|d.logs| - 1].entries, e.inflight.value))
  }

  ghost predicate EndsWith(es: seq<Entry>, batch: seq<Entry>) {
    batch != [] ==> es != [] && es[|es| - 1] == batch[|batch| - 1]
  }

  // A version a reader or the engine holds
  ghost predicate Held(d: Disk, e: Engine, v: Version) {
    && OnDisk(d.tables, v) && (forall n: nat :: Uses(v, n) ==> n < e.db.nextFile && n !in e.outputs)
  }

  ghost predicate TablesOk(d: Disk, e: Engine) {
    && Held(d, e, e.db.version) && (forall i :: 0 <= i < |e.pinned| ==> Held(d, e, e.pinned[i]))
    && e.outputs <= e.pending && (forall n :: n in e.pending ==> n < e.db.nextFile)
    && match e.phase {
         case Building(n) => e.db.imm.Some? && n in e.pending && NewTable(e, n)
         case Built(n) => e.db.imm.Some? && NewTable(e, n) && (e.db.imm.value != [] ==> n in d.tables && d.tables[n] == e.db.imm.value)
         case _ => true
       }
  }

  // A number taken after those of all tables any version has
  ghost predicate NewTable(e: Engine, n: nat) {
    && n < e.db.nextFile && n !in e.outputs && NumbersOk(e.db.version, n)
    && forall i :: 0 <= i < |e.pinned| ==> !Uses(e.pinned[i], n)
  }

  // What a recovery from log number `from` takes for the last sequence is not below the published one.
  ghost predicate Reaches(d: Disk, e: Engine, from: nat, base: SequenceNumber) {
    e.db.lastSequence <= TailLast(Replay(d.logs, from), base)
  }

  ghost predicate EditOk(d: Disk, e: Engine, edit: Manifest, step: Lsm.Event) {
    && Installable(e.db, step, edit.version) && !Spanning(e.db, step)
    && OnDisk(d.tables, edit.version) && NumbersOk(edit.version, edit.nextFile) && edit.nextFile <= e.db.nextFile
    && (!step.FinishCompaction? ==> forall n: nat :: Uses(edit.version, n) ==> n !in e.outputs)
    && edit.logNumber == (if IsFlush(step) then e.memLog else e.logNumber)
    && Reaches(d, e, edit.logNumber, edit.lastSequence)
  }

  // The manifest describes the installed version and its logs.
  ghost predicate ManifestCurrent(d: Disk, e: Engine) {
    var m := d.manifest;
    && m.version == e.db.version && m.logNumber == e.logNumber && m.nextFile <= e.db.nextFile
    && NumbersOk(m.version, m.nextFile) && Reaches(d, e, m.logNumber, m.lastSequence)
  }

  ghost predicate ManifestOk(d: Disk, e: Engine) {
    match e.phase
    case Applying(edit, step) => ManifestCurrent(d, e) && EditOk(d, e, edit, step)
    case Logged(edit, step) => d.manifest == edit && EditOk(d, e, edit, step)
    case Failed(edit, step) => d.manifest == edit && EditOk(d, e, edit, step)
    case _ => ManifestCurrent(d, e)
  }

  ghost predicate UpInv(d: Disk, e: Engine, h: History) {
    Lsm.Inv(e.db, h.acked, h.exposed) && LogsOk(d, e) && TablesOk(d, e) && ManifestOk(d, e)
  }

  /** What a disk must hold for nothing to be lost. */
  ghost predicate Durable(d: Disk, h: History) {
    var m := d.manifest;
    && ValidVersion(m.version) && NumbersOk(m.version, m.nextFile) && OnDisk(d.tables, m.version)
    && NumbersAscend(d.logs) && Ascending(Tail(d)) && NewerSet(AsEntries(Tail(d)), Contents(m.version))
    && Recovered(d) <= h.acked && Unique(h.acked)
    && (forall e :: e in h.acked ==> e.key.sequence <= RecoveredSequence(d))
    && SameReads(Recovered(d), h.acked, RecoveredSequence(d), Broken(h.exposed, h.acked))
  }

  // How far a recovery has come
  ghost predicate RecoveryOk(d: Disk, r: Recovery) {
    && r.read <= |Tail(d)| && InOrder(r.rebuilt) && FileContents(r.rebuilt) == AsEntries(Tail(d)[..r.read])
    && d.manifest.nextFile <= r.nextFile
    && (forall t :: t in r.rebuilt ==> d.manifest.nextFile <= t.number < r.nextFile && t.number in d.tables && d.tables[t.number] == t.entries)
    && (r.log.Some? ==>
          && r.read == |Tail(d)| && d.logs != [] && d.logs[|d.logs| - 1] == LogFile(r.log.value, []) && r.log.value < r.nextFile)
  }

  ghost predicate Inv(s: State, h: History) {
    if s.Up? then UpInv(s.disk, s.engine, h)
    else Durable(s.disk, h) && RecoveryOk(s.disk, s.recovery)
  }

  // ---------------------------------------------------------------- steps of writers and readers

  // A step of the engine that leaves versions, job and immutable memtable alone
  ghost predicate Beside(db: Db, db': Db) {
    db'.version == db.version && db'.job == db.job && db'.imm == db.imm && db.nextFile <= db'.nextFile
  }

  /** What the background thread is about to install stays installable while writers and readers go on. */
  lemma StillInstallable(db: Db, db': Db, step: Lsm.Event, v: Version)
    requires Installable(db, step, v) && (Beside(db, db') || (!IsFlush(step) && Beside(db, db'.(imm := db.imm))))
    ensures Installable(db', step, v)
    ensures Spanning(db', step) <==> Spanning(db, step)
  {
  }

  lemma FrontKeepsManifest(d: Disk, e: Engine, d': Disk, e': Engine)
    requires ManifestOk(d, e) && TablesOk(d, e)
    requires d'.tables == d.tables && d'.manifest == d.manifest
    requires e'.phase == e.phase && e'.logNumber == e.logNumber && e'.outputs == e.outputs
    requires Beside(e.db, e'.db) && e'.memLog == e.memLog
    requires forall from: nat, base: SequenceNumber {:trigger Reaches(d', e', from, base)} ::
               from <= e.memLog && Reaches(d, e, from, base) ==> Reaches(d', e', from, base)
    requires e.logNumber <= e.memLog
    ensures ManifestOk(d', e')
  {
    if e.phase.Applying? || e.phase.Logged? || e.phase.Failed? {
      StillInstallable(e.db, e'.db, e.phase.step, e.phase.edit.version);
    }
  }

  lemma FrontKeepsTables(d: Disk, e: Engine, d': Disk, e': Engine)
    requires TablesOk(d, e)
    requires d'.tables == d.tables && Beside(e.db, e'.db)
    requires e' == e.(db := e'.db, memLog := e'.memLog, inflight := e'.inflight)
    ensures TablesOk(d', e')
  {
  }

  lemma AppendKeepsLogs(d: Disk, e: Engine, h: History, batch: seq<Entry>, d': Disk, e': Engine)
    requires LogsOk(d, e) && e.inflight.None? && IsBatch(batch, e.db.lastSequence)
    requires forall x :: x in Upper(e.db) ==> x.key.sequence <= e.db.lastSequence
    requires d' == d.(logs := AppendTo(d.logs, batch)) && e' == e.(inflight := Some(batch))
    ensures LogsOk(d', e')
  {
    ReplayAppend(d.logs, batch, e.logNumber);
    ReplayAppend(d.logs, batch, e.memLog);
    var t := Replay(d.logs, e.logNumber);
    assert forall x :: x in t ==> x in AsEntries(t);
    assert Ascending(t + batch);
    assert AsEntries(t + batch) == AsEntries(t) + AsEntries(batch);
    var m := Replay(d.logs, e.memLog);
    assert AsEntries(m + batch) == AsEntries(m) + AsEntries(batch);
  }

  lemma AppendKeepsInv(d: Disk, e: Engine, h: History, batch: seq<Entry>, d': Disk, e': Engine, h': History)
    requires UpInv(d, e, h) && FrontNext(d, e, h, Append(batch), d', e', h')
    ensures UpInv(d', e', h')
  {
    assert Upper(e.db) <= All(e.db);
    AppendKeepsLogs(d, e, h, batch, d', e');
    forall from: nat, base: SequenceNumber | from <= e.memLog && Reaches(d, e, from, base)
      ensures Reaches(d', e', from, base)
    {
      ReplayAppend(d.logs, batch, from);
    }
    FrontKeepsManifest(d, e, d', e');
    FrontKeepsTables(d, e, d', e');
  }

  lemma CommitKeepsInv(d: Disk, e: Engine, h: History, d': Disk, e': Engine, h': History)
    requires UpInv(d, e, h) && FrontNext(d, e, h, Commit, d', e', h')
    ensures UpInv(d', e', h')
  {
    var batch := e.inflight.value;
    Lsm.StepKeepsInv(e.db, h.acked, h.exposed, Write(batch), e'.db, h'.acked);
    assert h.exposed + iset{} == h.exposed;
    CommitKeepsLogs(d, e, batch, e');
    FrontKeepsManifest(d, e, d', e');
    FrontKeepsTables(d, e, d', e');
  }

  lemma CommitKeepsLogs(d: Disk, e: Engine, batch: seq<Entry>, e': Engine)
    requires LogsOk(d, e) && e.inflight == Some(batch)
    requires e' == e.(inflight := None, db := e'.db) && e'.db == e.db.(mem := e'.db.mem, lastSequence := e.db.lastSequence + |batch|)
    requires AsEntries(e'.db.mem) == AsEntries(e.db.mem) + AsEntries(batch)
    ensures LogsOk(d, e')
    ensures forall from: nat, base: SequenceNumber {:trigger Reaches(d, e', from, base)} ::
              from <= e.memLog && Reaches(d, e, from, base) ==> Reaches(d, e', from, base)
  {
    assert Upper(e'.db) + {} == Upper(e.db) + AsEntries(batch);
    forall from: nat, base: SequenceNumber | from <= e.memLog && Reaches(d, e, from, base)
      ensures Reaches(d, e', from, base)
    {
      LastOfReplay(d.logs, from);
    }
  }

  // A replay ends as the last log does.
  lemma LastOfReplay(logs: seq<LogFile>, from: nat)
    requires NumbersAscend(logs) && logs != [] && from <= logs[|logs| - 1].number
    ensures var es, t := logs[|logs| - 1].entries, Replay(logs, from);
            es != [] ==> t != [] && t[|t| - 1] == es[|es| - 1]
  {
  }

  lemma SwitchKeepsInv(d: Disk, e: Engine, h: History, d': Disk, e': Engine, h': History)
    requires UpInv(d, e, h) && FrontNext(d, e, h, Switch, d', e', h')
    ensures UpInv(d', e', h')
  {
    Lsm.StepKeepsInv(e.db, h.acked, h.exposed, SwitchMemTable, e'.db, h.acked);
    assert h.exposed + iset{} == h.exposed;
    SwitchKeepsLogs(d, e, d', e');
    SwitchKeepsTables(d, e, d', e');
    forall from: nat
      ensures Replay(d'.logs, from) == Replay(d.logs, from)
    {
      ReplayPush(d.logs, LogFile(e.db.nextFile, []), from);
    }
    SwitchKeepsManifest(d, e, d', e');
  }

  lemma SwitchKeepsLogs(d: Disk, e: Engine, d': Disk, e': Engine)
    requires LogsOk(d, e) && e.inflight.None? && e.db.imm.None?
    requires d' == d.(logs := d.logs + [LogFile(e.db.nextFile, [])])
    requires e' == e.(db := Take(e.db).(mem := [], imm := Some(e.db.mem)), memLog := e.db.nextFile)
    ensures LogsOk(d', e')
  {
    var n := e.db.nextFile;
    ReplayPush(d.logs, LogFile(n, []), e.logNumber);
    assert d'.logs[|d'.logs| - 1] == LogFile(n, []);
    forall i | 0 <= i < |d.logs|
      ensures d.logs[i].number < n
    {
    }
    ReplayLast(d'.logs);
    assert Upper(e'.db) + {} == Upper(e.db) + {};
  }

  lemma SwitchKeepsTables(d: Disk, e: Engine, d': Disk, e': Engine)
    requires TablesOk(d, e) && e.db.imm.None? && d'.tables == d.tables
    requires e' == e.(db := Take(e.db).(mem := [], imm := Some(e.db.mem)), memLog := e.db.nextFile)
    ensures TablesOk(d', e')
  {
  }

  lemma SwitchKeepsManifest(d: Disk, e: Engine, d': Disk, e': Engine)
    requires ManifestOk(d, e) && e.db.imm.None? && !e.phase.Failed?
    requires d'.tables == d.tables && d'.manifest == d.manifest && forall from: nat :: Replay(d'.logs, from) == Replay(d.logs, from)
    requires e' == e.(db := Take(e.db).(mem := [], imm := Some(e.db.mem)), memLog := e'.memLog)
    ensures ManifestOk(d', e')
  {
    if e.phase.Applying? || e.phase.Logged? {
      StillInstallable(e.db, e'.db, e.phase.step, e.phase.edit.version);
    }
  }

  lemma SnapshotKeepsInv(d: Disk, e: Engine, h: History, ev: Event, d': Disk, e': Engine, h': History)
    requires ev.Snapshot? && UpInv(d, e, h) && FrontNext(d, e, h, ev, d', e', h')
    ensures UpInv(d', e', h')
  {
    Lsm.StepKeepsInv(e.db, h.acked, h.exposed, ev.step, e'.db, h.acked);
    assert h.exposed + iset{} == h.exposed;
    assert e'.db == e.db.(snapshots := e'.db.snapshots);
    SnapshotKeepsLogs(d, e, e');
    FrontKeepsManifest(d, e, d', e');
    FrontKeepsTables(d, e, d', e');
  }

  lemma SnapshotKeepsLogs(d: Disk, e: Engine, e': Engine)
    requires LogsOk(d, e) && e' == e.(db := e.db.(snapshots := e'.db.snapshots))
    ensures LogsOk(d, e')
    ensures forall from: nat, base: SequenceNumber {:trigger Reaches(d, e', from, base)} :: Reaches(d, e, from, base) ==> Reaches(d, e', from, base)
  {
    assert Upper(e'.db) == Upper(e.db);
  }

  lemma PinKeepsInv(d: Disk, e: Engine, h: History, ev: Event, d': Disk, e': Engine, h': History)
    requires ev.Pin? || ev.Unpin?
    requires UpInv(d, e, h) && FrontNext(d, e, h, ev, d', e', h')
    ensures UpInv(d', e', h')
  {
    PinKeepsTables(d, e, e');
    assert e'.db == e.db && e'.phase == e.phase;
    assert Upper(e'.db) + Flight(e') == Upper(e.db) + Flight(e);
    PinKeepsManifest(d, e, e');
  }

  lemma PinKeepsManifest(d: Disk, e: Engine, e': Engine)
    requires ManifestOk(d, e) && e' == e.(pinned := e'.pinned)
    ensures ManifestOk(d, e')
  {
  }

  lemma PinKeepsTables(d: Disk, e: Engine, e': Engine)
    requires TablesOk(d, e) && e' == e.(pinned := e'.pinned)
    requires forall i :: 0 <= i < |e'.pinned| ==> e'.pinned[i] == e.db.version || e'.pinned[i] in e.pinned
    ensures TablesOk(d, e')
  {
    forall i | 0 <= i < |e'.pinned|
      ensures Held(d, e', e'.pinned[i])
    {
      if e'.pinned[i] != e.db.version {
        var j :| 0 <= j < |e.pinned| && e.pinned[j] == e'.pinned[i];
        assert Held(d, e, e.pinned[j]);
      }
    }
    assert Held(d, e, e.db.version);
  }

  // ---------------------------------------------------------------- steps of the background thread

  // A file number is taken, and nothing else of the engine's state that the invariant speaks of changes.
  lemma TakeKeepsInv(d: Disk, e: Engine, h: History, e': Engine)
    requires UpInv(d, e, h) && e.phase.Idle? && ManifestCurrent(d, e)
    requires e'.db == Take(e.db) && e' == e.(db := e'.db, phase := e'.phase, pending := e.pending + {e.db.nextFile}, outputs := e'.outputs)
    requires e'.phase == Idle || (e'.phase == Building(e.db.nextFile) && e.db.imm.Some?)
    requires e'.outputs == e.outputs || (e'.outputs == e.outputs + {e.db.nextFile} && e'.phase == Idle)
    ensures UpInv(d, e', h)
  {
    Lsm.StepKeepsInv(e.db, h.acked, h.exposed, AllocateNumber, e'.db, h.acked);
    assert h.exposed + iset{} == h.exposed;
    TakeKeepsTables(d, e, e');
  }

  lemma TakeKeepsTables(d: Disk, e: Engine, e': Engine)
    requires TablesOk(d, e) && e.phase.Idle? && NumbersOk(e.db.version, e.db.nextFile)
    requires e'.db == Take(e.db) && e' == e.(db := e'.db, phase := e'.phase, pending := e.pending + {e.db.nextFile}, outputs := e'.outputs)
    requires e'.phase == Idle || (e'.phase == Building(e.db.nextFile) && e.db.imm.Some?)
    requires e'.outputs == e.outputs || (e'.outputs == e.outputs + {e.db.nextFile} && e'.phase == Idle)
    ensures TablesOk(d, e')
  {
    assert Held(d, e, e.db.version);
    forall i | 0 <= i < |e.pinned|
      ensures Held(d, e', e.pinned[i])
    {
      assert Held(d, e, e.pinned[i]);
    }
  }

  // A table file is written whose number no version uses.
  lemma WriteKeepsDisk(d: Disk, n: nat, entries: seq<Entry>, v: Version)
    requires OnDisk(d.tables, v) && !Uses(v, n)
    ensures OnDisk(d.tables[n := entries], v)
  {
  }

  lemma WriteKeepsInv(d: Disk, e: Engine, h: History, ev: Event, d': Disk, e': Engine, h': History)
    requires ev.FinishTable? || ev.WriteOutput?
    requires UpInv(d, e, h) && WorkNext(d, e, h, ev, d', e', h')
    ensures UpInv(d', e', h')
  {
    WriteKeepsTables(d, e, h, ev, d', e', h');
  }

  lemma WriteKeepsTables(d: Disk, e: Engine, h: History, ev: Event, d': Disk, e': Engine, h': History)
    requires ev.FinishTable? || ev.WriteOutput?
    requires TablesOk(d, e) && WorkNext(d, e, h, ev, d', e', h')
    ensures TablesOk(d', e')
  {
    var n := if ev.FinishTable? then e.phase.number else ev.number;
    var entries := if ev.FinishTable? then e.db.imm.value else ev.entries;
    assert Held(d, e, e.db.version);
    assert !Uses(e.db.version, n);
    WriteKeepsDisk(d, n, entries, e.db.version);
    forall i | 0 <= i < |e.pinned|
      ensures Held(d', e', e.pinned[i])
    {
      assert Held(d, e, e.pinned[i]);
      assert !Uses(e.pinned[i], n);
      WriteKeepsDisk(d, n, entries, e.pinned[i]);
    }
  }

  lemma SelectKeepsInv(d: Disk, e: Engine, h: History, ev: Event, d': Disk, e': Engine, h': History)
    requires ev.Select? && UpInv(d, e, h) && WorkNext(d, e, h, ev, d', e', h')
    ensures UpInv(d', e', h')
  {
    Lsm.StepKeepsInv(e.db, h.acked, h.exposed, StartCompaction(ev.inputs, ev.manual), e'.db, h.acked);
    assert h.exposed + iset{} == h.exposed;
  }

  /** Every table of the version an edit leads to is on disk before the edit is written. */
  lemma EditOnDisk(d: Disk, e: Engine, step: Lsm.Event, v: Version)
    requires TablesOk(d, e) && Installable(e.db, step, v) && Ready(d, e, step)
    ensures OnDisk(d.tables, v)
  {
    assert Held(d, e, e.db.version);
    forall l, f | 0 <= l < |v.files| && f in v.files[l]
      ensures f.number in d.tables && d.tables[f.number] == f.entries
    {
      var m, g := Source(e.db, step, v, l, f);
    }
  }

  // A file of the new version was in the old one, or the step made it.
  lemma Source(db: Db, step: Lsm.Event, v: Version, l: nat, f: FileMeta) returns (m: nat, made: bool)
    requires Installable(db, step, v) && l < |v.files| && f in v.files[l]
    ensures !made ==> m < |db.version.files| && f in db.version.files[m]
    ensures made ==> (step.Flush? && f == step.table) || (step.FinishCompaction? && f in step.outputs)
  {
    m, made := l, false;
    match step
    case Flush(table, level) => made := f !in db.version.files[l];
    case FlushNothing =>
    case FinishCompaction(input, outputs) => made := f !in db.version.files[l];
    case MoveFile(c) => if f !in db.version.files[l] { m := c.level; }
  }

  lemma EditNumbers(d: Disk, e: Engine, step: Lsm.Event, v: Version)
    requires TablesOk(d, e) && Installable(e.db, step, v) && Ready(d, e, step) && NumbersOk(e.db.version, e.db.nextFile)
    ensures NumbersOk(v, e.db.nextFile)
    ensures !step.FinishCompaction? ==> forall n: nat :: Uses(v, n) ==> n !in e.outputs
  {
    assert Held(d, e, e.db.version);
    forall l, f | 0 <= l < |v.files| && f in v.files[l]
      ensures f.number < e.db.nextFile
      ensures !step.FinishCompaction? ==> f.number !in e.outputs
    {
      var m, made := Source(e.db, step, v, l, f);
      if !made {
        assert Uses(e.db.version, f.number);
      }
    }
  }

  lemma ComposeKeepsInv(d: Disk, e: Engine, h: History, ev: Event, d': Disk, e': Engine, h': History)
    requires ev.Compose? && UpInv(d, e, h) && WorkNext(d, e, h, ev, d', e', h') && !Spanning(e.db, ev.step)
    ensures UpInv(d', e', h')
  {
    EditOnDisk(d, e, ev.step, ev.version);
    EditNumbers(d, e, ev.step, ev.version);
    assert EditOk(d', e', EditFor(e, ev.step, ev.version), ev.step);
  }

  lemma ManifestKeepsInv(d: Disk, e: Engine, h: History, ev: Event, d': Disk, e': Engine, h': History)
    requires ev.WriteManifest? || ev.FailManifest? || ev.StopWork?
    requires UpInv(d, e, h) && WorkNext(d, e, h, ev, d', e', h')
    ensures UpInv(d', e', h')
  {
    PhaseKeeps(d, e, h, d', e');
  }

  // Only the phase and the manifest change.
  lemma PhaseKeeps(d: Disk, e: Engine, h: History, d': Disk, e': Engine)
    requires UpInv(d, e, h) && d' == d.(manifest := d'.manifest) && e' == e.(phase := e'.phase)
    requires !e'.phase.Building? && !e'.phase.Built? && ManifestOk(d', e')
    ensures UpInv(d', e', h)
  {
  }

  lemma InstallKeepsInv(d: Disk, e: Engine, h: History, d': Disk, e': Engine, h': History)
    requires UpInv(d, e, h) && WorkNext(d, e, h, Install, d', e', h')
    ensures UpInv(d', e', h')
  {
    var edit, step := e.phase.edit, e.phase.step;
    Lsm.StepKeepsInv(e.db, h.acked, h.exposed, step, e'.db, h.acked);
    InstallKeepsLogs(d, e, e');
    InstallKeepsTables(d, e, e');
    assert ManifestCurrent(d, e');
  }

  lemma InstallKeepsLogs(d: Disk, e: Engine, e': Engine)
    requires LogsOk(d, e) && e.phase.Logged? && EditOk(d, e, e.phase.edit, e.phase.step)
    requires e'.db == AfterInstall(e.db, e.phase.step, e.phase.edit.version) && e'.logNumber == e.phase.edit.logNumber
    requires e'.memLog == e.memLog && e'.inflight == e.inflight
    ensures LogsOk(d, e')
  {
    if IsFlush(e.phase.step) {
      var p := ReplaySuffix(d.logs, e.logNumber, e.memLog);
      AscendingSuffix(p, Replay(d.logs, e.memLog));
      assert Upper(e'.db) == AsEntries(e.db.mem);
    } else {
      assert Upper(e'.db) == Upper(e.db);
    }
  }

  lemma InstallKeepsTables(d: Disk, e: Engine, e': Engine)
    requires TablesOk(d, e) && e.phase.Logged? && EditOk(d, e, e.phase.edit, e.phase.step)
    requires e' == (if e.phase.step.FinishCompaction? then
                      e.(phase := Idle, db := e'.db, logNumber := e'.logNumber, outputs := {}, pending := e.pending - e.outputs)
                    else e.(phase := Idle, db := e'.db, logNumber := e'.logNumber))
    requires e'.db.version == e.phase.edit.version && e'.db.nextFile == e.db.nextFile
    ensures TablesOk(d, e')
  {
    assert Held(d, e', e'.db.version);
    forall i | 0 <= i < |e.pinned|
      ensures Held(d, e', e.pinned[i])
    {
      assert Held(d, e, e.pinned[i]);
    }
  }

  /** The tables of the installed version and of versions readers hold and the outputs being written stay, and no
      other; the logs a recovery would read stay, and no other. */
  lemma DeleteKeepsLive(d: Disk, e: Engine, h: History, d': Disk, e': Engine, h': History)
    requires UpInv(d, e, h) && WorkNext(d, e, h, DeleteObsoleteFiles, d', e', h')
    ensures forall n :: n in d.tables && Live(e, n) ==> n in d'.tables && d'.tables[n] == d.tables[n]
    ensures forall n :: n in d'.tables ==> n in d.tables && (n in e.pending || InUse(e, n))
    ensures forall log :: log in d'.logs <==> log in d.logs && log.number >= e.logNumber
    ensures OnDisk(d'.tables, e.db.version) && OnDisk(d'.tables, d'.manifest.version)
    ensures forall i :: 0 <= i < |e.pinned| ==> OnDisk(d'.tables, e.pinned[i])
    ensures forall from: nat :: e.logNumber <= from ==> Replay(d'.logs, from) == Replay(d.logs, from)
    ensures Tail(d') == Tail(d) && d'.manifest == d.manifest
  {
    assert Held(d, e, e.db.version);
    KeptNumbers(d.logs, e.logNumber);
    LiveStay(d, e, d', e.db.version);
    forall i | 0 <= i < |e.pinned|
      ensures OnDisk(d'.tables, e.pinned[i])
    {
      assert Held(d, e, e.pinned[i]);
      LiveStay(d, e, d', e.pinned[i]);
    }
    forall from: nat | e.logNumber <= from
      ensures Replay(d'.logs, from) == Replay(d.logs, from)
    {
      KeptReplay(d.logs, e.logNumber, from);
    }
  }

  // A level of the installed version or of one a reader holds has a file of that number.
  ghost predicate InUse(e: Engine, n: nat) {
    exists v {:trigger Uses(v, n)} :: (v == e.db.version || v in e.pinned) && Uses(v, n)
  }

  lemma LiveStay(d: Disk, e: Engine, d': Disk, v: Version)
    requires OnDisk(d.tables, v) && (v == e.db.version || exists i :: 0 <= i < |e.pinned| && e.pinned[i] == v)
    requires d'.tables == map n | n in d.tables && Live(e, n) :: d.tables[n]
    ensures OnDisk(d'.tables, v)
  {
    forall l, f | 0 <= l < |v.files| && f in v.files[l]
      ensures f.number in d'.tables && d'.tables[f.number] == f.entries
    {
      assert Uses(v, f.number);
    }
  }

  lemma DeleteKeepsInv(d: Disk, e: Engine, h: History, d': Disk, e': Engine, h': History)
    requires UpInv(d, e, h) && WorkNext(d, e, h, DeleteObsoleteFiles, d', e', h')
    ensures UpInv(d', e', h')
  {
    DeleteKeepsLive(d, e, h, d', e', h');
    KeptNumbers(d.logs, e.logNumber);
    forall i | 0 <= i < |e.pinned|
      ensures Held(d', e', e.pinned[i])
    {
      assert Held(d, e, e.pinned[i]);
    }
    assert Held(d, e, e.db.version);
  }

  // ---------------------------------------------------------------- crash and recovery

  // The engine as the manifest on disk describes it
  ghost function AsWritten(e: Engine): Db {
    if e.phase.Logged? || e.phase.Failed? then AfterInstall(e.db, e.phase.step, e.phase.edit.version) else e.db
  }

  lemma AsWrittenInv(d: Disk, e: Engine, h: History)
    requires UpInv(d, e, h)
    ensures Lsm.Inv(AsWritten(e), h.acked, AfterCrash(e, h).exposed)
    ensures d.manifest.version == AsWritten(e).version && AsWritten(e).lastSequence == e.db.lastSequence
    ensures AsEntries(Tail(d)) == Upper(AsWritten(e)) + Flight(e) && Ascending(Tail(d))
    ensures e.db.lastSequence <= RecoveredSequence(d)
    ensures NumbersOk(d.manifest.version, d.manifest.nextFile) && OnDisk(d.tables, d.manifest.version)
    ensures d.manifest.logNumber <= e.memLog
  {
    if e.phase.Logged? || e.phase.Failed? {
      Lsm.StepKeepsInv(e.db, h.acked, h.exposed, e.phase.step, AsWritten(e), h.acked);
      if IsFlush(e.phase.step) {
        var p := ReplaySuffix(d.logs, e.logNumber, e.memLog);
        AscendingSuffix(p, Replay(d.logs, e.memLog));
        assert Upper(AsWritten(e)) == AsEntries(e.db.mem);
      } else {
        assert Upper(AsWritten(e)) == Upper(e.db);
      }
    } else {
      assert Held(d, e, e.db.version);
      assert h.exposed + iset{} == h.exposed;
    }
  }

  // What was logged since the last published sequence number is newer than everything else.
  lemma FlightIsNewer(d: Disk, e: Engine, h: History)
    requires UpInv(d, e, h)
    ensures forall x :: x in Flight(e) ==> e.db.lastSequence < x.key.sequence <= RecoveredSequence(d)
    ensures Unique(Flight(e)) && Unique(h.acked + Flight(e))
  {
    AsWrittenInv(d, e, h);
    TailBound(Tail(d), d.manifest.lastSequence);
    assert Flight(e) <= AsEntries(Tail(d));
    BatchIsNewer(e.inflight, e.db.lastSequence, h.acked);
  }

  lemma BatchIsNewer(inflight: Option<seq<Entry>>, last: SequenceNumber, acked: set<Entry>)
    requires inflight.Some? ==> IsBatch(inflight.value, last)
    requires Unique(acked) && forall e :: e in acked ==> e.key.sequence <= last
    ensures var flight := if inflight.Some? then AsEntries(inflight.value) else {};
            Unique(flight) && Unique(acked + flight) && forall x :: x in flight ==> last < x.key.sequence
  {
  }

  lemma FlightDurable(db: Db, acked: set<Entry>, exposed: iset<(UserKey, SequenceNumber)>, flight: set<Entry>, last: SequenceNumber)
    requires Lsm.Inv(db, acked, exposed) && db.lastSequence <= last
    requires Unique(acked + flight) && forall x :: x in flight ==> db.lastSequence < x.key.sequence
    ensures SameReads(All(db) + flight, acked + flight, last, Broken(exposed, acked + flight))
    ensures NewerSet(Upper(db) + flight, Contents(db.version)) && All(db) + flight <= acked + flight
  {
    HealedByWrite(acked, flight, exposed);
    assert Unique(All(db) + flight);
    GrowTogether(All(db), acked, flight, Oldest(db), Broken(exposed, acked), Broken(exposed, acked + flight));
  }

  /** Whatever the moment of a crash, the tables the manifest names are all there, and they and the logs
      numbered from its log number hold, for reads, every acknowledged write and the one batch that may
      have been logged without being acknowledged. */
  lemma RecoveryFindsEverything(d: Disk, e: Engine, h: History)
    requires UpInv(d, e, h)
    ensures Durable(d, AfterCrash(e, h)) && e.db.lastSequence <= RecoveredSequence(d)
    ensures var h' := AfterCrash(e, h);
            && OnDisk(d.tables, d.manifest.version)
            && SameReads(Recovered(d), h.acked + Flight(e), RecoveredSequence(d), Broken(h'.exposed, h'.acked))
  {
    AsWrittenInv(d, e, h);
    FlightIsNewer(d, e, h);
    var db, h' := AsWritten(e), AfterCrash(e, h);
    FlightDurable(db, h.acked, h'.exposed, Flight(e), RecoveredSequence(d));
    assert Recovered(d) == All(db) + Flight(e);
  }

  /** The sequence number a recovery goes on from is not below that of any write it finds, nor below the last
      one published. */
  lemma SequenceRecovered(d: Disk, e: Engine, h: History)
    requires UpInv(d, e, h)
    ensures e.db.lastSequence <= RecoveredSequence(d)
    ensures forall x :: x in h.acked + Flight(e) ==> x.key.sequence <= RecoveredSequence(d)
  {
    RecoveryFindsEverything(d, e, h);
  }

  lemma CrashKeepsInv(s: State, h: History, s': State, h': History)
    requires Inv(s, h) && Next(s, h, Crash, s', h')
    ensures Inv(s', h')
  {
    if s.Up? {
      RecoveryFindsEverything(s.disk, s.engine, h);
    }
    assert FileContents([]) == {} == AsEntries(Tail(s.disk)[..0]);
  }

  // A table of the log entries read next is newer than the ones rebuilt before.
  lemma RebuiltInOrder(t: seq<Entry>, r: Recovery, count: nat, table: FileMeta)
    requires Ascending(t) && r.read <= |t| && InOrder(r.rebuilt) && FileContents(r.rebuilt) == AsEntries(t[..r.read])
    requires (forall f :: f in r.rebuilt ==> f.number < r.nextFile) && Rebuilds(t, r, count, table)
    ensures InOrder(r.rebuilt + [table]) && FileContents(r.rebuilt + [table]) == AsEntries(t[..r.read + count])
  {
    forall i | 0 <= i < |r.rebuilt|
      ensures Newer(table, r.rebuilt[i])
    {
      LaterIsNewer(t, r, count, table, r.rebuilt[i]);
    }
    var after := r.rebuilt + [table];
    forall i, j | 0 <= i < j < |after|
      ensures Newer(after[j], after[i])
    {
      if j < |r.rebuilt| {
        assert Newer(r.rebuilt[j], r.rebuilt[i]);
      }
    }
    assert t[..r.read + count] == t[..r.read] + t[r.read..r.read + count];
    assert FileContents(after) == FileContents(r.rebuilt) + AsEntries(table.entries);
    assert AsEntries(t[..r.read] + t[r.read..r.read + count]) == AsEntries(t[..r.read]) + AsEntries(t[r.read..r.read + count]);
  }

  lemma LaterIsNewer(t: seq<Entry>, r: Recovery, count: nat, table: FileMeta, f: FileMeta)
    requires Ascending(t) && r.read <= |t| && FileContents(r.rebuilt) == AsEntries(t[..r.read])
    requires Rebuilds(t, r, count, table) && f in r.rebuilt
    ensures Newer(table, f)
  {
    forall e, x | e in table.entries && x in f.entries
      ensures e.key.sequence > x.key.sequence
    {
      assert e in AsEntries(t[r.read..r.read + count]);
      assert x in FileContents(r.rebuilt) && x in AsEntries(t[..r.read]);
      var i :| r.read <= i < r.read + count && t[i] == e;
      var j :| 0 <= j < r.read && t[j] == x;
    }
  }

  lemma StaysDurable(d: Disk, d': Disk, h: History)
    requires Durable(d, h) && d'.manifest == d.manifest && Tail(d') == Tail(d)
    requires OnDisk(d'.tables, d.manifest.version) && NumbersAscend(d'.logs)
    ensures Durable(d', h)
  {
  }

  lemma RebuildKeepsInv(d: Disk, r: Recovery, h: History, count: nat, table: FileMeta, s': State)
    requires Durable(d, h) && RecoveryOk(d, r) && DownNext(d, r, RebuildTable(count, table), s')
    ensures Inv(s', h)
  {
    RebuiltInOrder(Tail(d), r, count, table);
    assert !Uses(d.manifest.version, table.number);
    WriteKeepsDisk(d, table.number, table.entries, d.manifest.version);
    StaysDurable(d, s'.disk, h);
  }

  lemma MakeLogKeepsInv(d: Disk, r: Recovery, h: History, n: nat, s': State)
    requires Durable(d, h) && RecoveryOk(d, r) && DownNext(d, r, MakeLog(n), s')
    ensures Inv(s', h)
  {
    ReplayPush(d.logs, LogFile(n, []), d.manifest.logNumber);
    StaysDurable(d, s'.disk, h);
  }

  /** The engine DB::Open ends with satisfies the invariant of running engines: its version is valid and
      everything it holds reads as what was written before. */
  lemma OpenedInv(d: Disk, r: Recovery, h: History, v: Version)
    requires Durable(d, h) && RecoveryOk(d, r) && r.log.Some? && RebuiltInstalled(d.manifest.version, r.rebuilt, v)
    ensures Lsm.Inv(Opened(d, r, v).engine.db, h.acked, h.exposed)
    ensures Contents(v) == Recovered(d) && NumbersOk(v, r.nextFile)
  {
    var m := d.manifest;
    assert Tail(d)[..r.read] == Tail(d);
    forall t | t in r.rebuilt
      ensures NewerThanVersion(t, m.version)
    {
      RebuiltIsNewer(d, r, t);
    }
    RebuiltKeepsValid(m.version, r.rebuilt, v);
    var db := Opened(d, r, v).engine.db;
    assert All(db) == Recovered(d);
  }

  lemma RebuiltIsNewer(d: Disk, r: Recovery, t: FileMeta)
    requires NewerSet(AsEntries(Tail(d)), Contents(d.manifest.version)) && FileContents(r.rebuilt) == AsEntries(Tail(d)) && t in r.rebuilt
    ensures NewerThanVersion(t, d.manifest.version)
  {
    var v := d.manifest.version;
    forall l, g | 0 <= l < |v.files| && g in v.files[l]
      ensures Newer(t, g)
    {
      forall e, x | e in t.entries && x in g.entries && e.key.user == x.key.user
        ensures e.key.sequence > x.key.sequence
      {
        assert e in FileContents(r.rebuilt);
        InContents(v, l, g, x);
      }
    }
  }

  lemma OpenedOnDisk(d: Disk, r: Recovery, v: Version)
    requires RecoveryOk(d, r) && OnDisk(d.tables, d.manifest.version) && RebuiltInstalled(d.manifest.version, r.rebuilt, v)
    ensures OnDisk(d.tables, v)
  {
    forall l, f | 0 <= l < |v.files| && f in v.files[l]
      ensures f.number in d.tables && d.tables[f.number] == f.entries
    {
      assert f in d.manifest.version.files[l] || f in r.rebuilt;
    }
  }

  lemma FinishOpenKeepsInv(d: Disk, r: Recovery, h: History, v: Version, s': State)
    requires Durable(d, h) && RecoveryOk(d, r) && DownNext(d, r, FinishOpen(v), s')
    ensures Inv(s', h)
  {
    OpenedInv(d, r, h, v);
    OpenedOnDisk(d, r, v);
    OpenedLogs(s', r);
  }

  lemma OpenedLogs(s: State, r: Recovery)
    requires s.Up? && r.log.Some? && NumbersAscend(s.disk.logs) && s.disk.logs != []
    requires s.disk.logs[|s.disk.logs| - 1] == LogFile(r.log.value, []) && r.log.value < s.engine.db.nextFile
    requires s.engine.memLog == s.engine.logNumber == r.log.value && s.engine.inflight.None? && s.engine.db.mem == [] && s.engine.db.imm.None?
    ensures LogsOk(s.disk, s.engine)
  {
    ReplayLast(s.disk.logs);
  }

  // The step composes a compaction of whose outputs one spans a table flushed meanwhile.
  ghost predicate ComposesSpanning(s: State, ev: Event) {
    s.Up? && ev.Compose? && Spanning(s.engine.db, ev.step)
  }

  lemma FrontKeepsInv(d: Disk, e: Engine, h: History, ev: Event, d': Disk, e': Engine, h': History)
    requires IsFront(ev) && UpInv(d, e, h) && FrontNext(d, e, h, ev, d', e', h')
    ensures UpInv(d', e', h')
  {
    match ev
    case Append(batch) => AppendKeepsInv(d, e, h, batch, d', e', h');
    case Commit => CommitKeepsInv(d, e, h, d', e', h');
    case Switch => SwitchKeepsInv(d, e, h, d', e', h');
    case Snapshot(step) => SnapshotKeepsInv(d, e, h, ev, d', e', h');
    case Pin => PinKeepsInv(d, e, h, ev, d', e', h');
    case Unpin(i) => PinKeepsInv(d, e, h, ev, d', e', h');
  }

  lemma BeginKeepsInv(d: Disk, e: Engine, h: History, ev: Event, d': Disk, e': Engine, h': History)
    requires ev.BeginTable? || ev.BeginOutput?
    requires UpInv(d, e, h) && WorkNext(d, e, h, ev, d', e', h')
    ensures UpInv(d', e', h')
  {
    TakeKeepsInv(d, e, h, e');
  }

  lemma WorkKeepsInv(d: Disk, e: Engine, h: History, ev: Event, d': Disk, e': Engine, h': History)
    requires UpInv(d, e, h) && WorkNext(d, e, h, ev, d', e', h') && !(ev.Compose? && Spanning(e.db, ev.step))
    ensures UpInv(d', e', h')
  {
    if ev.BeginTable? || ev.BeginOutput? {
      BeginKeepsInv(d, e, h, ev, d', e', h');
    } else if ev.FinishTable? || ev.WriteOutput? {
      WriteKeepsInv(d, e, h, ev, d', e', h');
    } else if ev.Select? {
      SelectKeepsInv(d, e, h, ev, d', e', h');
    } else if ev.Compose? {
      ComposeKeepsInv(d, e, h, ev, d', e', h');
    } else if ev.Install? {
      InstallKeepsInv(d, e, h, d', e', h');
    } else if ev.DeleteObsoleteFiles? {
      DeleteKeepsInv(d, e, h, d', e', h');
    } else {
      ManifestKeepsInv(d, e, h, ev, d', e', h');
    }
  }

  lemma DownKeepsInv(d: Disk, r: Recovery, h: History, ev: Event, s': State)
    requires Durable(d, h) && RecoveryOk(d, r) && DownNext(d, r, ev, s')
    ensures Inv(s', h)
  {
    if ev.RebuildTable? {
      RebuildKeepsInv(d, r, h, ev.count, ev.table, s');
    } else if ev.MakeLog? {
      MakeLogKeepsInv(d, r, h, ev.number, s');
    } else {
      FinishOpenKeepsInv(d, r, h, ev.version, s');
    }
  }

  lemma StepKeepsInv(s: State, h: History, ev: Event, s': State, h': History)
    requires Inv(s, h) && Next(s, h, ev, s', h') && !ComposesSpanning(s, ev)
    ensures Inv(s', h')
  {
    if ev.Crash? {
      CrashKeepsInv(s, h, s', h');
    } else if IsRecovery(ev) {
      DownKeepsInv(s.disk, s.recovery, h, ev, s');
    } else if IsFront(ev) {
      FrontKeepsInv(s.disk, s.engine, h, ev, s'.disk, s'.engine, h');
    } else {
      WorkKeepsInv(s.disk, s.engine, h, ev, s'.disk, s'.engine, h');
    }
  }

  /** The flush the code composes is one the engine can take: the table it has written, at the level it
      picked, in the version LogAndApply makes (Flushes.CompactMemTable). */
  lemma FlushIsReady(d: Disk, e: Engine, h: History, table: FileMeta, level: nat, v: Version)
    requires UpInv(d, e, h) && e.phase == Built(table.number) && ValidFile(table) && table.entries == e.db.imm.value
    requires FlushInstalled(e.db.version, table, level, v)
    requires level > 0 ==> ClearUpTo(e.db.version, level, table.smallest.user, table.largest.user)
    ensures Installable(e.db, Flush(table, level), v) && Ready(d, e, Flush(table, level)) && !Spanning(e.db, Flush(table, level))
  {
  }

  // ---------------------------------------------------------------- whole runs

  const EMPTY_VERSION: Version := Version([[], [], [], [], [], [], []])

  // A new database: DBImpl::NewDB has written manifest 1, and DB::Open is under way.
  const NEW_DISK: Disk := Disk(map[], [], Manifest(EMPTY_VERSION, 0, 2, 0))
  const NEW_STATE: State := Down(NEW_DISK, Recovery(0, [], 3, None))
  const NEW_HISTORY: History := History({}, iset{})

  ghost predicate IsRun(run: seq<(State, History)>, events: seq<Event>) {
    && |run| == |events| + 1 && run[0] == (NEW_STATE, NEW_HISTORY)
    && forall i :: 0 <= i < |events| ==> Next(run[i].0, run[i].1, events[i], run[i + 1].0, run[i + 1].1)
  }

  ghost predicate NeverSpans(run: seq<(State, History)>, events: seq<Event>, n: nat)
    requires n <= |events| < |run|
  {
    forall i :: 0 <= i < n ==> !ComposesSpanning(run[i].0, events[i])
  }

  lemma NewInv()
    ensures Inv(NEW_STATE, NEW_HISTORY)
  {
    assert Recovered(NEW_DISK) == {};
    assert FileContents([]) == {} == AsEntries(Tail(NEW_DISK)[..0]);
  }

  lemma {:induction false} RunInv(run: seq<(State, History)>, events: seq<Event>, n: nat)
    requires IsRun(run, events) && n < |run| && NeverSpans(run, events, n)
    ensures Inv(run[n].0, run[n].1)
  {
    if n == 0 {
      NewInv();
    } else {
      RunInv(run, events, n - 1);
      StepKeepsInv(run[n - 1].0, run[n - 1].1, events[n - 1], run[n].0, run[n].1);
    }
  }

  /** In every run of writes, memtable switches, flushes, compactions, failures, file deletions, crashes and
      recoveries, themselves interrupted or not: a crash now loses no acknowledged write.  What the next
      open finds answers every read at or after the sequence it recovers, which is not below the last one
      published, as the acknowledged writes do, together with the whole of the batch that was being
      committed if it had been logged; except of user keys a compaction exposed and that were not written
      since. */
  lemma NothingAcknowledgedIsLost(run: seq<(State, History)>, events: seq<Event>, n: nat, u: UserKey, at: SequenceNumber)
    requires IsRun(run, events) && n < |run| && NeverSpans(run, events, n)
    ensures var s, h := run[n].0, IfCrashed(run[n].0, run[n].1);
            && run[n].1.acked <= h.acked && ValidVersion(s.disk.manifest.version) && OnDisk(s.disk.tables, s.disk.manifest.version)
            && (s.Up? ==> s.engine.db.lastSequence <= RecoveredSequence(s.disk))
            && (RecoveredSequence(s.disk) <= at && (u, at) !in Broken(h.exposed, h.acked) ==>
                  Read(Recovered(s.disk), u, at) == Read(h.acked, u, at))
  {
    RunInv(run, events, n);
    if run[n].0.Up? {
      RecoveryFindsEverything(run[n].0.disk, run[n].0.engine, run[n].1);
    }
  }

  /** A lookup in an engine that has come up, after however many crashes: it finds what a read of every
      write ever acknowledged, or logged at a crash, would find. */
  method GetAfterRun(run: seq<(State, History)>, ghost events: seq<Event>, n: nat, u: UserKey, snapshot: Option<SequenceNumber>)
    returns (r: Option<string>)
    requires IsRun(run, events) && n < |run| && NeverSpans(run, events, n) && run[n].0.Up?
    requires snapshot.Some? ==> snapshot.value in run[n].0.engine.db.snapshots
    ensures var at := if snapshot.Some? then snapshot.value else run[n].0.engine.db.lastSequence;
            (u, at) !in Broken(run[n].1.exposed, run[n].1.acked) ==> r == Read(run[n].1.acked, u, at)
  {
    RunInv(run, events, n);
    var db := run[n].0.engine.db;
    var at := if snapshot.Some? then snapshot.value else db.lastSequence;
    r := Lsm.Get(db, u, at);
    assert Oldest(db) <= at;
  }

  /** Without manual compactions no output ever spans a table. */
  lemma {:induction false} AutomaticRunsNeverSpan(run: seq<(State, History)>, events: seq<Event>, n: nat)
    requires IsRun(run, events) && n < |run|
    requires forall i :: 0 <= i < n && events[i].Select? ==> !events[i].manual
    ensures NeverSpans(run, events, n) && Automatic(run[n].0)
  {
    if n > 0 {
      AutomaticRunsNeverSpan(run, events, n - 1);
      RunInv(run, events, n - 1);
      assert events[n - 1].Select? ==> !events[n - 1].manual;
      AutomaticStep(run[n - 1].0, run[n - 1].1, events[n - 1], run[n].0, run[n].1);
    }
  }

  // No caller asked for the compaction under way.
  ghost predicate Automatic(s: State) {
    s.Up? && s.engine.db.job.Some? ==> !s.engine.db.job.value.manual
  }

  lemma AutomaticStep(s: State, h: History, ev: Event, s': State, h': History)
    requires Inv(s, h) && Next(s, h, ev, s', h') && (ev.Select? ==> !ev.manual) && Automatic(s)
    ensures !ComposesSpanning(s, ev) && Automatic(s')
  {
    if s.Up? && ev.Compose? {
      AutomaticCompose(s.disk, s.engine, h, ev.step, ev.version);
    }
    StaysAutomatic(s, h, ev, s', h');
  }

  lemma AutomaticCompose(d: Disk, e: Engine, h: History, step: Lsm.Event, v: Version)
    requires UpInv(d, e, h) && Installable(e.db, step, v) && (e.db.job.Some? ==> !e.db.job.value.manual)
    ensures !Spanning(e.db, step)
  {
    AutomaticNeverSpans(e.db, h.acked, h.exposed, step, AfterInstall(e.db, step, v), h.acked);
  }

  lemma StaysAutomatic(s: State, h: History, ev: Event, s': State, h': History)
    requires Next(s, h, ev, s', h') && (ev.Select? ==> !ev.manual) && Automatic(s)
    ensures Automatic(s')
  {
  }
}
