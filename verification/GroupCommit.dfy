/** The write queue (DBImpl::Write and BuildBatchGroup).  The writer at the front of the queue commits its
    own batch together with those of the writers behind it; the mutex is released while the group is
    logged and applied, and further writers may queue up meanwhile. */
module GroupCommit {
  import opened Keys
  import opened Store
  import Lsm
  import Background
  import Durability

  datatype Op = Op(user: UserKey, vtype: ValueType, value: string)

  // A null batch only forces a memtable switch.
  datatype Writer = Writer(id: nat, batch: Option<seq<Op>>, sync: bool)

  const MAX_GROUP: nat := 0x10_0000
  const SMALL_WRITE: nat := 0x2_0000

  function Ops(ws: seq<Writer>): seq<Op> {
    if ws == [] then []
    else Ops(ws[..|ws| - 1]) + if ws[|ws| - 1].batch.Some? then ws[|ws| - 1].batch.value else []
  }

  // WriteBatchInternal::ByteSize of every batch, added up
  function TotalSize(byteSize: seq<Op> -> nat, ws: seq<Writer>): nat {
    if ws == [] then 0
    else TotalSize(byteSize, ws[..|ws| - 1]) + if ws[|ws| - 1].batch.Some? then byteSize(ws[|ws| - 1].batch.value) else 0
  }

  function MaxSize(byteSize: seq<Op> -> nat, first: seq<Op>): nat {
    if byteSize(first) <= SMALL_WRITE then byteSize(first) + SMALL_WRITE else MAX_GROUP
  }

  // The writer ends the group in front of it.
  predicate Stops(byteSize: seq<Op> -> nat, ws: seq<Writer>, n: nat)
    requires 0 < n < |ws| && ws[0].batch.Some?
  {
    || (ws[n].sync && !ws[0].sync)
    || (ws[n].batch.Some? && TotalSize(byteSize, ws[..n + 1]) > MaxSize(byteSize, ws[0].batch.value))
  }

  /** The first n writers form the group led by the first: the longest prefix of the queue that stays within
      the size limit and, unless the leader syncs, has no writer that asked for a sync. */
  predicate IsGroup(byteSize: seq<Op> -> nat, ws: seq<Writer>, n: nat) {
    && 0 < n <= |ws| && ws[0].batch.Some?
    && (forall i: nat :: 0 < i < n ==> !Stops(byteSize, ws, i))
    && (n < |ws| ==> Stops(byteSize, ws, n))
  }

  method BuildBatchGroup(byteSize: seq<Op> -> nat, ws: seq<Writer>) returns (result: seq<Op>, n: nat)
    requires ws != [] && ws[0].batch.Some?
    ensures IsGroup(byteSize, ws, n) && result == Ops(ws[..n])
    ensures forall i :: 0 <= i < n && ws[i].sync ==> ws[0].sync
  {
    result := ws[0].batch.value;
    var size := byteSize(ws[0].batch.value);
    var maxSize := MAX_GROUP;
    if size <= SMALL_WRITE {
      maxSize := size + SMALL_WRITE;
    }
    n := 1;
    assert ws[..1][..0] == [];
    while n < |ws|
      invariant 0 < n <= |ws| && result == Ops(ws[..n]) && size == TotalSize(byteSize, ws[..n])
      invariant forall i: nat :: 0 < i < n ==> !Stops(byteSize, ws, i)
    {
      assert ws[..n + 1][..n] == ws[..n];
      if ws[n].sync && !ws[0].sync {
        break;
      }
      if ws[n].batch.Some? {
        size := size + byteSize(ws[n].batch.value);
        if size > maxSize {
          break;
        }
        result := result + ws[n].batch.value;
      }
      n := n + 1;
    }
    forall i | 0 <= i < n && ws[i].sync
      ensures ws[0].sync
    {
      assert i == 0 || !Stops(byteSize, ws, i);
    }
  }

  lemma GroupUnique(byteSize: seq<Op> -> nat, ws: seq<Writer>, m: nat, n: nat)
    requires IsGroup(byteSize, ws, m) && IsGroup(byteSize, ws, n)
    ensures m == n
  {
  }

  // WriteBatchInternal::SetSequence and InsertInto: the operations of a group as entries
  function Numbered(ops: seq<Op>, last: nat): (r: seq<Entry>)
    requires last + |ops| <= MAX_SEQUENCE
    ensures |r| == |ops| && forall i :: 0 <= i < |r| ==> r[i].key.sequence == last + 1 + i
  {
    seq(|ops|, i requires 0 <= i < |ops| => Entry(InternalKey(ops[i].user, last + 1 + i, ops[i].vtype), ops[i].value))
  }

  /** The engine can always take a group: its numbered operations are a batch for the log, and there is a
      memtable that holds them beside what was there, which makes them a write step. */
  lemma GroupIsBatch(s: Lsm.Db, history: set<Entry>, exposed: iset<(UserKey, SequenceNumber)>, ops: seq<Op>) returns (s': Lsm.Db)
    requires Lsm.Inv(s, history, exposed) && s.lastSequence + |ops| <= MAX_SEQUENCE
    ensures var batch := Numbered(ops, s.lastSequence);
            && Durability.IsBatch(batch, s.lastSequence)
            && Lsm.Next(s, history, Lsm.Write(batch), s', history + AsEntries(batch))
  {
    var batch := Numbered(ops, s.lastSequence);
    var es := AsEntries(s.mem) + AsEntries(batch);
    assert AsEntries(s.mem) <= Lsm.All(s);
    assert Unique(es);
    var mem := Background.SortedListing(es);
    assert AsEntries(mem) == es;
    s' := s.(mem := mem, lastSequence := s.lastSequence + |ops|);
  }

  // ---------------------------------------------------------------- the queue over time

  /** A finished writer: the sequence numbers first .. first + count - 1 were used for its operations, and
      its log record, if it has one, is record number of the log. */
  datatype Finished = Finished(writer: Writer, first: nat, count: nat, ok: bool, record: Option<nat>)

  // A log record: the operations of one group, from sequence number first, and whether it has been synced
  datatype Record = Record(first: nat, ops: seq<Op>, synced: bool)

  datatype State = State(
    arrived: seq<Writer>,          // every writer that ever queued up, in order
    queue: seq<Writer>,
    group: Option<nat>,            // how many writers the group being committed has
    log: seq<Record>,
    lastSequence: nat,
    done: seq<Finished>,
    boundaries: seq<nat>,          // every last sequence ever published
    snapshots: seq<nat>)

  datatype Event =
    | Enqueue(w: Writer)
    | Begin(n: nat)                // BuildBatchGroup, and the record appended to the log
    | Finish(ok: bool)             // synced if asked, applied, published, and the group woken
    | Alone(ok: bool)              // no group: a null batch, or MakeRoomForWrite failed
    | Snapshot

  function Batch(w: Writer): seq<Op> {
    if w.batch.Some? then w.batch.value else []
  }

  function Completions(ws: seq<Writer>, first: nat, ok: bool, record: nat): (r: seq<Finished>)
    ensures |r| == |ws|
  {
    if ws == [] then []
    else
      var w, rest := ws[|ws| - 1], ws[..|ws| - 1];
      Completions(rest, first, ok, record) + [Finished(w, first + |Ops(rest)|, |Batch(w)|, ok, Some(record))]
  }

  ghost predicate Next(byteSize: seq<Op> -> nat, s: State, ev: Event, s': State) {
    match ev
    case Enqueue(w) =>
      s' == s.(arrived := s.arrived + [w], queue := s.queue + [w])
    case Begin(n) =>
      && s.group.None? && s.queue != [] && s.queue[0].batch.Some? && IsGroup(byteSize, s.queue, n)
      && s' == s.(group := Some(n), log := s.log + [Record(s.lastSequence + 1, Ops(s.queue[..n]), false)])
    case Finish(ok) =>
      && s.group.Some? && 0 < s.group.value <= |s.queue| && s.log != []
      && var n, k := s.group.value, |s.log| - 1;
      && var r := s.log[k];
      && s' == s.(group := None, queue := s.queue[n..], lastSequence := s.lastSequence + |r.ops|,
                  log := s.log[k := r.(synced := ok && s.queue[0].sync)],
                  done := s.done + Completions(s.queue[..n], r.first, ok, k),
                  boundaries := s.boundaries + [s.lastSequence + |r.ops|])
    case Alone(ok) =>
      && s.group.None? && s.queue != [] && (ok ==> s.queue[0].batch.None?)
      && s' == s.(queue := s.queue[1..], done := s.done + [Finished(s.queue[0], s.lastSequence + 1, 0, ok, None)])
    case Snapshot =>
      s' == s.(snapshots := s.snapshots + [s.lastSequence])
  }

  function Writers(done: seq<Finished>): (r: seq<Writer>)
    ensures |r| == |done|
  {
    seq(|done|, i requires 0 <= i < |done| => done[i].writer)
  }

  /** The finished writers used the sequence numbers 1 .. last, one after the other and each once, in the
      order in which they finished. */
  predicate NumbersOk(done: seq<Finished>, last: nat) {
    if done == [] then last == 0
    else
      var f := done[|done| - 1];
      f.first + f.count == last + 1 && 0 < f.first && NumbersOk(done[..|done| - 1], f.first - 1)
  }

  // The operations of writer w lie where its completion says in the log record.
  predicate Recorded(log: seq<Record>, f: Finished) {
    if f.record.None? then f.count == 0 && !(f.ok && f.writer.batch.Some?)
    else
      && f.record.value < |log|
      && var r := log[f.record.value];
      && r.first <= f.first && f.first - r.first + f.count <= |r.ops| && f.count == |Batch(f.writer)|
      && r.ops[f.first - r.first..f.first - r.first + f.count] == Batch(f.writer)
      && (f.ok && f.writer.sync ==> r.synced)
  }

  // A reader at last sequence b sees all of the group of a log record, or nothing of it.
  predicate SeesWhole(r: Record, b: nat) {
    b < r.first || r.first + |r.ops| <= b + 1
  }

  predicate RecordsOk(log: seq<Record>, done: seq<Finished>) {
    forall f :: f in done ==> Recorded(log, f)
  }

  ghost predicate ReadersOk(s: State) {
    && (forall b, k :: b in s.boundaries && 0 <= k < |s.log| ==> SeesWhole(s.log[k], b))
    && s.lastSequence in s.boundaries && (forall b :: b in s.boundaries ==> b <= s.lastSequence)
    && (forall b :: b in s.snapshots ==> b in s.boundaries)
  }

  ghost predicate Inv(s: State) {
    && s.arrived == Writers(s.done) + s.queue && NumbersOk(s.done, s.lastSequence)
    && RecordsOk(s.log, s.done) && ReadersOk(s) && GroupOk(s)
  }

  ghost predicate GroupOk(s: State) {
    && (forall k :: 0 <= k < |s.log| && (s.group.Some? ==> k < |s.log| - 1) ==> s.log[k].first + |s.log[k].ops| <= s.lastSequence + 1)
    && (s.group.Some? ==>
          && 0 < s.group.value <= |s.queue| && s.log != []
          && (forall i :: 0 <= i < s.group.value && s.queue[i].sync ==> s.queue[0].sync)
          && s.log[|s.log| - 1] == Record(s.lastSequence + 1, Ops(s.queue[..s.group.value]), false)
          && (forall f :: f in s.done && f.record.Some? ==> f.record.value < |s.log| - 1))
  }

  // ---------------------------------------------------------------- proofs

  lemma {:induction false} NumbersExtend(done: seq<Finished>, last: nat, ws: seq<Writer>, ok: bool, k: nat)
    requires NumbersOk(done, last)
    ensures NumbersOk(done + Completions(ws, last + 1, ok, k), last + |Ops(ws)|)
    decreases |ws|
  {
    var fs := Completions(ws, last + 1, ok, k);
    if ws == [] {
      assert done + fs == done;
    } else {
      var rest := ws[..|ws| - 1];
      NumbersExtend(done, last, rest, ok, k);
      assert (done + fs)[..|done + fs| - 1] == done + Completions(rest, last + 1, ok, k);
    }
  }

  lemma {:induction false} WritersExtend(done: seq<Finished>, ws: seq<Writer>, first: nat, ok: bool, k: nat)
    ensures Writers(done + Completions(ws, first, ok, k)) == Writers(done) + ws
    decreases |ws|
  {
    if ws == [] {
      assert done + [] == done;
    } else {
      var rest, f := done + Completions(ws[..|ws| - 1], first, ok, k), Completions(ws, first, ok, k)[|ws| - 1];
      WritersExtend(done, ws[..|ws| - 1], first, ok, k);
      assert done + Completions(ws, first, ok, k) == rest + [f];
      assert Writers(rest + [f]) == Writers(rest) + [ws[|ws| - 1]];
    }
  }

  lemma {:induction false} GroupRecorded(log: seq<Record>, ws: seq<Writer>, ok: bool, k: nat)
    requires k < |log| && Ops(ws) <= log[k].ops
    requires forall w :: w in ws && ok && w.sync ==> log[k].synced
    ensures forall f :: f in Completions(ws, log[k].first, ok, k) ==> Recorded(log, f)
    decreases |ws|
  {
    if ws != [] {
      var rest, w := ws[..|ws| - 1], ws[|ws| - 1];
      GroupRecorded(log, rest, ok, k);
      var n := |Ops(rest)|;
      assert log[k].ops[n..n + |Batch(w)|] == Ops(ws)[n..n + |Batch(w)|] == Batch(w);
    }
  }

  lemma BeginKeepsInv(byteSize: seq<Op> -> nat, s: State, n: nat, s': State)
    requires Inv(s) && Next(byteSize, s, Begin(n), s')
    ensures Inv(s')
  {
    forall i | 0 <= i < n && s.queue[i].sync
      ensures s.queue[0].sync
    {
      assert i == 0 || !Stops(byteSize, s.queue, i);
    }
  }

  lemma FinishKeepsReaders(byteSize: seq<Op> -> nat, s: State, ok: bool, s': State)
    requires ReadersOk(s) && GroupOk(s) && Next(byteSize, s, Finish(ok), s')
    ensures ReadersOk(s') && GroupOk(s')
  {
    forall k | 0 <= k < |s.log|
      ensures s'.log[k].first == s.log[k].first && s'.log[k].ops == s.log[k].ops
      ensures s.log[k].first + |s.log[k].ops| <= s'.lastSequence + 1
    {
    }
  }

  lemma FinishKeepsRecords(byteSize: seq<Op> -> nat, s: State, ok: bool, s': State)
    requires RecordsOk(s.log, s.done) && GroupOk(s) && Next(byteSize, s, Finish(ok), s')
    ensures RecordsOk(s'.log, s'.done)
  {
    var ws, k := s.queue[..s.group.value], |s.log| - 1;
    GroupRecorded(s'.log, ws, ok, k);
    forall f | f in s.done
      ensures Recorded(s'.log, f)
    {
    }
  }

  lemma FinishIs(byteSize: seq<Op> -> nat, s: State, ok: bool, s': State) returns (ws: seq<Writer>, rest: seq<Writer>, k: nat)
    requires GroupOk(s) && Next(byteSize, s, Finish(ok), s')
    ensures s.queue == ws + rest && s'.queue == rest && s'.arrived == s.arrived
    ensures s'.done == s.done + Completions(ws, s.lastSequence + 1, ok, k) && s'.lastSequence == s.lastSequence + |Ops(ws)|
  {
    var n := s.group.value;
    ws, rest, k := s.queue[..n], s.queue[n..], |s.log| - 1;
  }

  lemma FinishKeepsNumbers(done: seq<Finished>, last: nat, ws: seq<Writer>, rest: seq<Writer>, ok: bool, k: nat, arrived: seq<Writer>)
    requires arrived == Writers(done) + (ws + rest) && NumbersOk(done, last)
    ensures var done' := done + Completions(ws, last + 1, ok, k);
            arrived == Writers(done') + rest && NumbersOk(done', last + |Ops(ws)|)
  {
    NumbersExtend(done, last, ws, ok, k);
    WritersExtend(done, ws, last + 1, ok, k);
  }

  lemma FinishKeepsInv(byteSize: seq<Op> -> nat, s: State, ok: bool, s': State)
    requires Inv(s) && Next(byteSize, s, Finish(ok), s')
    ensures Inv(s')
  {
    var ws, rest, k := FinishIs(byteSize, s, ok, s');
    FinishKeepsNumbers(s.done, s.lastSequence, ws, rest, ok, k, s.arrived);
    FinishKeepsReaders(byteSize, s, ok, s');
    FinishKeepsRecords(byteSize, s, ok, s');
  }

  lemma AloneKeepsInv(byteSize: seq<Op> -> nat, s: State, ok: bool, s': State)
    requires Inv(s) && Next(byteSize, s, Alone(ok), s')
    ensures Inv(s')
  {
    var f := Finished(s.queue[0], s.lastSequence + 1, 0, ok, None);
    assert s.queue == [s.queue[0]] + s.queue[1..];
    assert s'.done[..|s'.done| - 1] == s.done;
    assert Writers(s'.done) == Writers(s.done) + [s.queue[0]];
  }

  lemma StepKeepsInv(byteSize: seq<Op> -> nat, s: State, ev: Event, s': State)
    requires Inv(s) && Next(byteSize, s, ev, s')
    ensures Inv(s')
  {
    match ev
    case Enqueue(w) =>
      assert s.group.Some? ==> s'.queue[..s.group.value] == s.queue[..s.group.value];
    case Begin(n) => BeginKeepsInv(byteSize, s, n, s');
    case Finish(ok) => FinishKeepsInv(byteSize, s, ok, s');
    case Alone(ok) => AloneKeepsInv(byteSize, s, ok, s');
    case Snapshot =>
  }

  // ---------------------------------------------------------------- whole runs

  const NEW_STATE: State := State([], [], None, [], 0, [], [0], [])

  ghost predicate IsRun(byteSize: seq<Op> -> nat, run: seq<State>, events: seq<Event>) {
    && |run| == |events| + 1 && run[0] == NEW_STATE
    && forall i :: 0 <= i < |events| ==> Next(byteSize, run[i], events[i], run[i + 1])
  }

  lemma {:induction false} RunInv(byteSize: seq<Op> -> nat, run: seq<State>, events: seq<Event>, n: nat)
    requires IsRun(byteSize, run, events) && n < |run|
    ensures Inv(run[n])
  {
    if n > 0 {
      RunInv(byteSize, run, events, n - 1);
      StepKeepsInv(byteSize, run[n - 1], events[n - 1], run[n]);
    }
  }

  /** In every run: writers finish exactly once, in the order they queued up; their operations get
      consecutive sequence numbers in that order, none of them used twice; a snapshot sees all of a group
      or nothing of it; and a writer that asked for a sync and succeeded has had its log record synced. */
  lemma QueueIsFair(byteSize: seq<Op> -> nat, run: seq<State>, events: seq<Event>, n: nat)
    requires IsRun(byteSize, run, events) && n < |run|
    ensures var s := run[n];
            && s.arrived == Writers(s.done) + s.queue
            && (forall i, j :: 0 <= i < j < |s.done| ==> s.done[i].first + s.done[i].count <= s.done[j].first)
            && NumbersOk(s.done, s.lastSequence)
            && (forall b, f :: b in s.snapshots && f in s.done ==> b < f.first || f.first + f.count <= b + 1)
            && (forall b, k :: b in s.snapshots && 0 <= k < |s.log| ==> SeesWhole(s.log[k], b))
            && (forall f :: f in s.done && f.ok && f.writer.batch.Some? ==>
                  f.record.Some? && f.record.value < |s.log| && (f.writer.sync ==> s.log[f.record.value].synced))
  {
    RunInv(byteSize, run, events, n);
    InOrder(run[n].done, run[n].lastSequence);
    WholeBatches(run[n]);
  }

  lemma {:induction false} InOrder(done: seq<Finished>, last: nat)
    requires NumbersOk(done, last)
    ensures forall i, j :: 0 <= i < j < |done| ==> done[i].first + done[i].count <= done[j].first
    ensures forall f :: f in done ==> f.first + f.count <= last + 1
  {
    if done != [] {
      var rest := done[..|done| - 1];
      InOrder(rest, done[|done| - 1].first - 1);
      assert forall i :: 0 <= i < |rest| ==> done[i] == rest[i] && rest[i] in rest;
    }
  }

  lemma WholeBatches(s: State)
    requires RecordsOk(s.log, s.done) && ReadersOk(s)
    ensures forall b, f :: b in s.snapshots && f in s.done ==> b < f.first || f.first + f.count <= b + 1
  {
    forall b, f | b in s.snapshots && f in s.done
      ensures b < f.first || f.first + f.count <= b + 1
    {
      assert Recorded(s.log, f);
      if f.record.Some? {
        assert SeesWhole(s.log[f.record.value], b);
      }
    }
  }
}
