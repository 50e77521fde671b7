/** The work of a compaction (db_impl.cc, version_set.cc): merging the inputs, dropping entries no
    reader can see, and splitting the rest into new tables. */
module Compactions {
  import opened Keys
  import opened Store
  import opened Versions
  import opened Selection
  import opened Cuts

  // No file below the output level has u in its range.
  ghost predicate BaseLevel(v: Version, level: nat, u: UserKey) {
    forall l, f :: level + 2 <= l < |v.files| && f in v.files[l] ==> !(f.smallest.user <= u <= f.largest.user)
  }

  // A deletion every reader already sees, with nothing below for it to hide.
  ghost predicate Obsolete(v: Version, level: nat, e: Entry, smallest: SequenceNumber) {
    e.key.vtype.Deletion? && e.key.sequence <= smallest && BaseLevel(v, level, e.key.user)
  }

  class Compaction {
    const version: Version
    const inputs: Inputs
    const maxFileSize: nat
    // per level, the first file that can still contain a key the merge has not passed
    const levelPtrs: array<nat>
    var grandparentIndex: nat
    var seenKey: bool
    var overlappedBytes: nat

    constructor (version: Version, inputs: Inputs, maxFileSize: nat)
      requires ValidVersion(version) && inputs.level + 1 < NUM_LEVELS
      ensures Valid() && fresh(levelPtrs) && AtStart()
      ensures this.version == version && this.inputs == inputs && this.maxFileSize == maxFileSize
    {
      this.version, this.inputs, this.maxFileSize := version, inputs, maxFileSize;
      levelPtrs := new nat[NUM_LEVELS](_ => 0);
      grandparentIndex, seenKey, overlappedBytes := 0, false, 0;
    }

    ghost predicate Valid()
      reads this, levelPtrs
    {
      && ValidVersion(version) && inputs.level + 1 < NUM_LEVELS && levelPtrs.Length == NUM_LEVELS
      && (forall l :: 0 <= l < NUM_LEVELS ==> levelPtrs[l] <= |version.files[l]|)
      && grandparentIndex <= |inputs.grandparents|
    }

    // Every file a pointer has passed ends before u.
    ghost predicate PointersBehind(u: UserKey)
      reads levelPtrs
    {
      forall l, j :: 0 <= l < levelPtrs.Length && l < |version.files| && 0 <= j < levelPtrs[l] && j < |version.files[l]|
        ==> version.files[l][j].largest.user < u
    }

    ghost predicate AtStart()
      reads this, levelPtrs
    {
      (forall l :: 0 <= l < levelPtrs.Length ==> levelPtrs[l] == 0) && CountedTo([], 0)
    }

    // What has been counted of the grandparents when the merge has come to input[i]
    ghost predicate CountedTo(input: seq<Entry>, i: nat)
      requires i <= |input|
      reads this
    {
      && seenKey == (i > 0)
      && grandparentIndex == (if i == 0 then 0 else Passed(inputs.grandparents, input[i - 1].key))
      && overlappedBytes == OverlapSoFar(inputs.grandparents, input, 10 * maxFileSize, i)
    }

    /** Whether no deeper level can hold u.  The pointers only move forward, so the answer is right as
        long as the keys asked about never decrease. */
    method IsBaseLevelForKey(u: UserKey) returns (r: bool)
      requires Valid() && PointersBehind(u)
      modifies levelPtrs
      ensures Valid() && PointersBehind(u)
      ensures r <==> BaseLevel(version, inputs.level, u)
    {
      for lvl := inputs.level + 2 to NUM_LEVELS
        invariant Valid() && PointersBehind(u)
        invariant forall l, f :: inputs.level + 2 <= l < lvl && f in version.files[l] ==> !(f.smallest.user <= u <= f.largest.user)
      {
        var files := version.files[lvl];
        assert LevelOk(lvl, files);
        while levelPtrs[lvl] < |files|
          invariant Valid() && PointersBehind(u)
          decreases |files| - levelPtrs[lvl]
        {
          var f := files[levelPtrs[lvl]];
          if u <= f.largest.user {
            // advanced far enough
            if u >= f.smallest.user {
              return false;
            }
            break;
          }
          levelPtrs[lvl] := levelPtrs[lvl] + 1;
        }
        PointerDecides(files, levelPtrs[lvl], u);
      }
      return true;
    }

    /** Whether the merge drops e, given the sequence of the entry before it on the same user key. */
    method ShouldDrop(e: Entry, lastSequence: SequenceNumber, smallest: SequenceNumber) returns (drop: bool)
      requires Valid() && PointersBehind(e.key.user)
      modifies levelPtrs
      ensures Valid() && PointersBehind(e.key.user)
      ensures drop <==> lastSequence <= smallest || Obsolete(version, inputs.level, e, smallest)
    {
      if lastSequence <= smallest {
        return true;
      } else if e.key.vtype.Deletion? && e.key.sequence <= smallest {
        drop := IsBaseLevelForKey(e.key.user);
      } else {
        return false;
      }
    }

    /** Whether the current output should end before the next key of the merge because, since the last such key,
        too many bytes of the level after next have been left behind. */
    method ShouldStopBefore(key: InternalKey, ghost input: seq<Entry>, ghost i: nat) returns (r: bool)
      requires Valid() && Sorted(input) && i < |input| && key == input[i].key && CountedTo(input, i)
      modifies this
      ensures Valid() && CountedTo(input, i + 1)
      ensures r <==> StopsBefore(inputs.grandparents, input, 10 * maxFileSize, i)
    {
      ghost var start := grandparentIndex;
      while grandparentIndex < |inputs.grandparents| && Before(inputs.grandparents[grandparentIndex].largest, key)
        invariant Valid() && start <= grandparentIndex && seenKey == old(seenKey)
        invariant forall i :: start <= i < grandparentIndex ==> Before(inputs.grandparents[i].largest, key)
        invariant overlappedBytes == old(overlappedBytes) + if seenKey then SumSizes(inputs.grandparents[start..grandparentIndex]) else 0
      {
        if seenKey {
          overlappedBytes := overlappedBytes + inputs.grandparents[grandparentIndex].size;
        }
        grandparentIndex := grandparentIndex + 1;
        assert inputs.grandparents[start..grandparentIndex][..grandparentIndex - start - 1] == inputs.grandparents[start..grandparentIndex - 1];
      }
      StopsAsCounted(inputs.grandparents, input, 10 * maxFileSize, i, start, grandparentIndex);
      seenKey := true;
      if overlappedBytes > 10 * maxFileSize {
        overlappedBytes := 0;
        return true;
      }
      return false;
    }
  }

  // The overlap counted since the last stop when the merge has come to input[i]
  ghost function OverlapSoFar(grandparents: seq<FileMeta>, input: seq<Entry>, limit: nat, i: nat): nat
    requires i <= |input|
  {
    if i == 0 then 0 else Overlap(grandparents, input[LastStop(grandparents, input, limit, i - 1)].key, input[i - 1].key)
  }

  // Counting on from the grandparents passed before gives the overlap since the last stop.
  lemma StopsAsCounted(grandparents: seq<FileMeta>, input: seq<Entry>, limit: nat, i: nat, start: nat, index: nat)
    requires Sorted(input) && i < |input| && start <= index <= |grandparents|
    requires start == if i == 0 then 0 else Passed(grandparents, input[i - 1].key)
    requires forall j :: start <= j < index ==> Before(grandparents[j].largest, input[i].key)
    requires index < |grandparents| ==> !Before(grandparents[index].largest, input[i].key)
    ensures index == Passed(grandparents, input[i].key)
    ensures var total := OverlapSoFar(grandparents, input, limit, i) + if i > 0 then SumSizes(grandparents[start..index]) else 0;
            && (StopsBefore(grandparents, input, limit, i) <==> total > limit)
            && OverlapSoFar(grandparents, input, limit, i + 1) == if total > limit then 0 else total
  {
    if i > 0 {
      PassedAre(grandparents, input[i - 1].key, 0);
      PassedIs(grandparents, input[i].key, 0, index);
      var s := LastStop(grandparents, input, limit, i - 1);
      OverlapJoin(grandparents, input[s].key, input[i - 1].key, input[i].key);
    } else {
      PassedIs(grandparents, input[i].key, 0, index);
    }
  }

  lemma PointerDecides(files: seq<FileMeta>, p: nat, u: UserKey)
    requires ValidFiles(files) && Disjoint(files) && p <= |files|
    requires forall j :: 0 <= j < p ==> files[j].largest.user < u
    requires p < |files| ==> u < files[p].smallest.user
    ensures forall f :: f in files ==> !(f.smallest.user <= u <= f.largest.user)
  {
    forall f | f in files
      ensures !(f.smallest.user <= u <= f.largest.user)
    {
      var i :| 0 <= i < |files| && files[i] == f;
      if i > p {
        FileRange(files[p]);
      }
    }
  }

  // ---------------------------------------------------------------- the drop rule

  // Rule (A): a newer entry of the same user key is already visible to every reader.
  predicate Hidden(input: seq<Entry>, i: nat, smallest: SequenceNumber)
    requires i < |input|
  {
    i > 0 && input[i - 1].key.user == input[i].key.user && input[i - 1].key.sequence <= smallest
  }

  ghost predicate Dropped(v: Version, level: nat, input: seq<Entry>, i: nat, smallest: SequenceNumber)
    requires i < |input|
  {
    Hidden(input, i, smallest) || Obsolete(v, level, input[i], smallest)
  }

  // What the merge of input[..n] keeps.
  ghost function Kept(v: Version, level: nat, input: seq<Entry>, n: nat, smallest: SequenceNumber): seq<Entry>
    requires n <= |input|
  {
    if n == 0 then []
    else Kept(v, level, input, n - 1, smallest)
         + (if Dropped(v, level, input, n - 1, smallest) then [] else [input[n - 1]])
  }

  // The positions in input[..n] of what the merge keeps
  ghost function KeptAt(v: Version, level: nat, input: seq<Entry>, n: nat, smallest: SequenceNumber): seq<nat>
    requires n <= |input|
  {
    if n == 0 then []
    else KeptAt(v, level, input, n - 1, smallest)
         + (if Dropped(v, level, input, n - 1, smallest) then [] else [n - 1])
  }

  /** Kept and KeptAt agree; the positions ascend. */
  lemma {:induction false} KeptIsAt(v: Version, level: nat, input: seq<Entry>, n: nat, smallest: SequenceNumber)
    requires n <= |input|
    ensures var at := KeptAt(v, level, input, n, smallest);
            var kept := Kept(v, level, input, n, smallest);
            && |kept| == |at| && (forall p :: 0 <= p < |at| ==> at[p] < n && kept[p] == input[at[p]])
            && (forall p, q :: 0 <= p < q < |at| ==> at[p] < at[q])
  {
    if n > 0 {
      KeptIsAt(v, level, input, n - 1, smallest);
    }
  }

  // The entries of a list of files, in order
  function Flatten(files: seq<FileMeta>): seq<Entry> {
    if files == [] then [] else Flatten(files[..|files| - 1]) + files[|files| - 1].entries
  }

  lemma FlattenAppend(files: seq<FileMeta>, f: FileMeta)
    ensures Flatten(files + [f]) == Flatten(files) + f.entries
  {
    assert (files + [f])[..|files|] == files;
  }

  lemma {:induction false} FlattenMember(files: seq<FileMeta>, e: Entry)
    ensures e in Flatten(files) <==> e in FileContents(files)
  {
    if files != [] {
      var prefix, last := files[..|files| - 1], files[|files| - 1];
      FlattenMember(prefix, e);
      assert forall f :: f in files <==> f in prefix || f == last;
    }
  }

  lemma SortedConcat(a: seq<Entry>, b: seq<Entry>)
    requires Sorted(a) && Sorted(b) && forall x, y :: x in a && y in b ==> Before(x.key, y.key)
    ensures Sorted(a + b)
  {
  }

  lemma {:induction false} FlattenSorted(files: seq<FileMeta>)
    requires Disjoint(files) && forall f :: f in files ==> ValidFile(f)
    ensures Sorted(Flatten(files))
  {
    if files != [] {
      var prefix, last := files[..|files| - 1], files[|files| - 1];
      FlattenSorted(prefix);
      assert last in files && ValidFile(last);
      forall e, x | e in Flatten(prefix) && x in last.entries
        ensures Before(e.key, x.key)
      {
        FlattenMember(prefix, e);
        var f :| f in prefix && e in f.entries;
        WithinFile(f, e);
        WithinFile(last, x);
        assert Before(f.largest, last.smallest);
      }
      SortedConcat(Flatten(prefix), last.entries);
    }
  }

  /** The tables finished so far and the one being built (DBImpl::CompactionState). */
  datatype CompactionState = CompactionState(outputs: seq<FileMeta>, builder: Builder, nextNumber: nat)

  datatype Builder = Idle | Building(number: nat, smallest: InternalKey, largest: InternalKey, entries: seq<Entry>)

  ghost function Written(st: CompactionState): seq<Entry> {
    Flatten(st.outputs) + if st.builder.Building? then st.builder.entries else []
  }

  ghost predicate BuilderOk(b: Builder) {
    b.Building? ==> |b.entries| > 0 && b.smallest == b.entries[0].key && b.largest == b.entries[|b.entries| - 1].key
  }

  ghost predicate Numbered(st: CompactionState, first: nat) {
    && (forall i :: 0 <= i < |st.outputs| ==> first <= st.outputs[i].number < st.nextNumber)
    && (forall i, j :: 0 <= i < j < |st.outputs| ==> st.outputs[i].number < st.outputs[j].number)
    && (st.builder.Building? ==> first <= st.builder.number < st.nextNumber
                                 && forall i :: 0 <= i < |st.outputs| ==> st.outputs[i].number < st.builder.number)
  }

  predicate BoundsOk(f: FileMeta) {
    |f.entries| > 0 && f.smallest == f.entries[0].key && f.largest == f.entries[|f.entries| - 1].key
  }

  ghost predicate StateOk(st: CompactionState, first: nat) {
    && Numbered(st, first) && BuilderOk(st.builder) && first <= st.nextNumber
    && (forall f :: f in st.outputs ==> BoundsOk(f))
  }

  /** FinishCompactionOutputFile; the table's size comes from the table format. */
  function FinishOutput(st: CompactionState, tableSize: seq<Entry> -> nat): CompactionState {
    if st.builder.Idle? then st
    else
      var b := st.builder;
      st.(outputs := st.outputs + [FileMeta(b.number, tableSize(b.entries), b.smallest, b.largest, b.entries)],
          builder := Idle)
  }

  // Adds an entry, opening a table with a fresh number if none is open.
  function AddOutput(st: CompactionState, e: Entry): CompactionState {
    if st.builder.Building? then
      st.(builder := st.builder.(largest := e.key, entries := st.builder.entries + [e]))
    else
      st.(builder := Building(st.nextNumber, e.key, e.key, [e]), nextNumber := st.nextNumber + 1)
  }

  lemma FinishOutputNumbered(st: CompactionState, first: nat, tableSize: seq<Entry> -> nat)
    requires Numbered(st, first)
    ensures Numbered(FinishOutput(st, tableSize), first)
  {
  }

  lemma FinishOutputOk(st: CompactionState, first: nat, tableSize: seq<Entry> -> nat)
    requires StateOk(st, first)
    ensures var r := FinishOutput(st, tableSize); StateOk(r, first) && Written(r) == Written(st) == Flatten(r.outputs)
  {
    var r := FinishOutput(st, tableSize);
    FinishOutputNumbered(st, first, tableSize);
    assert Flatten(r.outputs) + [] == Flatten(r.outputs);
    if st.builder.Building? {
      var f := r.outputs[|st.outputs|];
      assert r.outputs == st.outputs + [f] && BoundsOk(f);
      FlattenAppend(st.outputs, f);
    }
  }

  lemma AddOutputOk(st: CompactionState, first: nat, e: Entry)
    requires StateOk(st, first)
    ensures var r := AddOutput(st, e); StateOk(r, first) && r.builder.Building? && Written(r) == Written(st) + [e]
  {
  }

  // ---------------------------------------------------------------- cutting the outputs

  ghost predicate Sized(tables: seq<FileMeta>, tableSize: seq<Entry> -> nat) {
    forall f :: f in tables ==> f.size == tableSize(f.entries)
  }

  // The entries at the given positions have been written, and the merge has come to its i-th entry: every
  // finished table has a reason to end where it does, or nothing follows, and the open one has none yet.
  ghost predicate CutTo(rule: Rule, at: seq<nat>, i: nat, st: CompactionState) {
    OpenTo(rule, at, i, st) && (st.builder.Building? ==> !rule.Large(st.builder.entries))
  }

  ghost predicate OpenTo(rule: Rule, at: seq<nat>, i: nat, st: CompactionState) {
    && (forall p :: 0 <= p < |at| ==> at[p] < i)
    && TablesOk(rule, at, st.outputs)
    && |at| == Start(st.outputs, |st.outputs|) + |OpenEntries(st)|
    && Joined(rule, at, Start(st.outputs, |st.outputs|), OpenEntries(st))
    && (st.builder.Building? ==> |at| > 0 && !rule.Stopped(at[|at| - 1], i - 1))
    && (st.builder.Idle? && st.outputs != [] && |at| > 0
        ==> rule.Large(st.outputs[|st.outputs| - 1].entries) || rule.Stopped(at[|at| - 1], i - 1))
  }

  ghost function OpenEntries(st: CompactionState): seq<Entry> {
    if st.builder.Building? then st.builder.entries else []
  }

  lemma FinishCuts(rule: Rule, at: seq<nat>, i: nat, st: CompactionState, tableSize: seq<Entry> -> nat)
    requires OpenTo(rule, at, i, st) && st.builder.Building? && st.builder.entries != []
    ensures var r := FinishOutput(st, tableSize);
            && TablesOk(rule, at, r.outputs) && |at| == Start(r.outputs, |r.outputs|)
  {
    var r := FinishOutput(st, tableSize);
    assert OneTable(rule, at, Start(st.outputs, |st.outputs|), OpenEntries(st));
    AppendTable(rule, at, st.outputs, r.outputs[|st.outputs|]);
  }

  lemma StopCuts(rule: Rule, at: seq<nat>, i: nat, st: CompactionState, tableSize: seq<Entry> -> nat)
    requires CutTo(rule, at, i, st) && BuilderOk(st.builder) && i < |rule.stops|
    ensures CutTo(rule, at, i + 1, if rule.stops[i] then FinishOutput(st, tableSize) else st)
  {
    assert rule.StopAt(i) == rule.stops[i];
    if rule.stops[i] && st.builder.Building? {
      FinishCuts(rule, at, i, st, tableSize);
    }
  }

  lemma AddCuts(rule: Rule, at: seq<nat>, i: nat, st: CompactionState, e: Entry)
    requires CutTo(rule, at, i + 1, st) && BuilderOk(st.builder) && i < |rule.stops| && forall p :: 0 <= p < |at| ==> at[p] < i
    ensures OpenTo(rule, at + [i], i + 1, AddOutput(st, e))
  {
    AppendPosition(rule, at, i, st.outputs);
    JoinedAppend(rule, at, i, Start(st.outputs, |st.outputs|), OpenEntries(st), e);
  }

  lemma JoinedAppend(rule: Rule, at: seq<nat>, i: nat, start: nat, entries: seq<Entry>, e: Entry)
    requires Joined(rule, at, start, entries) && start + |entries| == |at|
    requires entries != [] ==> !rule.Large(entries) && !rule.Stopped(at[|at| - 1], i)
    ensures Joined(rule, at + [i], start, entries + [e])
  {
    forall q: nat | 0 < q < |entries + [e]|
      ensures GoesOn(rule, at + [i], start, entries + [e], q)
    {
      assert (entries + [e])[..q] == entries[..q];
      if q < |entries| {
        assert GoesOn(rule, at, start, entries, q);
      } else {
        assert entries[..q] == entries;
      }
    }
  }

  lemma LargeCuts(rule: Rule, at: seq<nat>, i: nat, st: CompactionState, tableSize: seq<Entry> -> nat)
    requires OpenTo(rule, at, i, st) && st.builder.Building? && BuilderOk(st.builder)
    ensures CutTo(rule, at, i, if rule.Large(st.builder.entries) then FinishOutput(st, tableSize) else st)
  {
    if rule.Large(st.builder.entries) {
      FinishCuts(rule, at, i, st, tableSize);
    }
  }

  ghost predicate OutputOk(rule: Rule, at: seq<nat>, i: nat, st: CompactionState, first: nat, tableSize: seq<Entry> -> nat) {
    StateOk(st, first) && Sized(st.outputs, tableSize) && CutTo(rule, at, i, st)
  }

  method StopOutput(st: CompactionState, ghost first: nat, stop: bool, tableSize: seq<Entry> -> nat,
                    ghost rule: Rule, ghost at: seq<nat>, ghost i: nat) returns (r: CompactionState)
    requires OutputOk(rule, at, i, st, first, tableSize) && i < |rule.stops| && stop == rule.stops[i]
    ensures OutputOk(rule, at, i + 1, r, first, tableSize) && Written(r) == Written(st)
  {
    r := st;
    StopCuts(rule, at, i, st, tableSize);
    if stop {
      FinishOutputOk(r, first, tableSize);
      r := FinishOutput(r, tableSize);
    }
  }

  method AddEntry(st: CompactionState, ghost first: nat, e: Entry, maxFileSize: nat,
                  builtSize: seq<Entry> -> nat, tableSize: seq<Entry> -> nat, ghost rule: Rule, ghost at: seq<nat>, ghost i: nat)
    returns (r: CompactionState)
    requires OutputOk(rule, at, i + 1, st, first, tableSize) && i < |rule.stops| && forall p :: 0 <= p < |at| ==> at[p] < i
    requires rule.builtSize == builtSize && rule.maxFileSize == maxFileSize
    ensures OutputOk(rule, at + [i], i + 1, r, first, tableSize) && Written(r) == Written(st) + [e]
  {
    AddCuts(rule, at, i, st, e);
    AddOutputOk(st, first, e);
    r := AddOutput(st, e);
    LargeCuts(rule, at + [i], i + 1, r, tableSize);
    if builtSize(r.builder.entries) >= maxFileSize {
      FinishOutputOk(r, first, tableSize);
      r := FinishOutput(r, tableSize);
    }
  }

  /** Puts one entry of the merge where the drop and split decisions send it. */
  method Emit(st: CompactionState, ghost first: nat, e: Entry, stop: bool, drop: bool, maxFileSize: nat,
              builtSize: seq<Entry> -> nat, tableSize: seq<Entry> -> nat, ghost rule: Rule, ghost at: seq<nat>, ghost i: nat)
    returns (r: CompactionState)
    requires OutputOk(rule, at, i, st, first, tableSize) && i < |rule.stops| && stop == rule.stops[i]
    requires rule.builtSize == builtSize && rule.maxFileSize == maxFileSize
    ensures OutputOk(rule, if drop then at else at + [i], i + 1, r, first, tableSize)
    ensures Written(r) == Written(st) + if drop then [] else [e]
  {
    r := StopOutput(st, first, stop, tableSize, rule, at, i);
    if !drop {
      r := AddEntry(r, first, e, maxFileSize, builtSize, tableSize, rule, at, i);
    }
    assert Written(st) + [] == Written(st);
  }

  // Which entries of the merge no output goes on across
  ghost function Stops(grandparents: seq<FileMeta>, input: seq<Entry>, limit: nat): (r: seq<bool>)
    ensures |r| == |input| && forall i :: 0 <= i < |input| ==> r[i] == StopsBefore(grandparents, input, limit, i)
  {
    seq(|input|, i requires 0 <= i < |input| => StopsBefore(grandparents, input, limit, i))
  }

  // When a compaction ends an output table: the files it writes are at most a little larger than maxFileSize
  // and overlap at most a little more than ten times as much of the level after next.
  ghost function CutRule(inputs: Inputs, maxFileSize: nat, input: seq<Entry>, builtSize: seq<Entry> -> nat): Rule {
    Rule(Stops(inputs.grandparents, input, 10 * maxFileSize), builtSize, maxFileSize)
  }

  // The merge has come to its i-th entry: what it keeps of those before has been written, and cut rightly.
  ghost predicate WorkedTo(v: Version, level: nat, input: seq<Entry>, smallest: SequenceNumber, rule: Rule,
                           i: nat, st: CompactionState, first: nat, tableSize: seq<Entry> -> nat)
    requires i <= |input|
  {
    Written(st) == Kept(v, level, input, i, smallest) && OutputOk(rule, KeptAt(v, level, input, i, smallest), i, st, first, tableSize)
  }

  lemma WorkStarts(v: Version, level: nat, input: seq<Entry>, smallest: SequenceNumber, rule: Rule, first: nat, tableSize: seq<Entry> -> nat)
    ensures WorkedTo(v, level, input, smallest, rule, 0, CompactionState([], Idle, first), first, tableSize)
  {
    assert Flatten([]) == [];
  }

  method Take(ghost v: Version, ghost level: nat, ghost input: seq<Entry>, ghost smallest: SequenceNumber, ghost rule: Rule, ghost i: nat,
              st: CompactionState, ghost first: nat, e: Entry, stop: bool, drop: bool, maxFileSize: nat,
              builtSize: seq<Entry> -> nat, tableSize: seq<Entry> -> nat) returns (r: CompactionState)
    requires i < |input| == |rule.stops| && WorkedTo(v, level, input, smallest, rule, i, st, first, tableSize)
    requires e == input[i] && stop == rule.stops[i] && (drop <==> Dropped(v, level, input, i, smallest))
    requires rule.builtSize == builtSize && rule.maxFileSize == maxFileSize
    ensures WorkedTo(v, level, input, smallest, rule, i + 1, r, first, tableSize)
  {
    ghost var at := KeptAt(v, level, input, i, smallest);
    assert at + [] == at;
    r := Emit(st, first, e, stop, drop, maxFileSize, builtSize, tableSize, rule, at, i);
  }

  method LastOutput(st: CompactionState, ghost first: nat, tableSize: seq<Entry> -> nat, ghost rule: Rule, ghost at: seq<nat>, ghost i: nat)
    returns (outputs: seq<FileMeta>, nextNumber: nat)
    requires OutputOk(rule, at, i, st, first, tableSize) && Sorted(Written(st))
    ensures Flatten(outputs) == Written(st) && ValidFiles(outputs) && Disjoint(outputs) && Sized(outputs, tableSize)
    ensures forall f :: f in outputs ==> first <= f.number < nextNumber
    ensures CutRightly(rule, at, outputs)
  {
    FinishOutputOk(st, first, tableSize);
    if st.builder.Building? {
      FinishCuts(rule, at, i, st, tableSize);
    }
    var r := FinishOutput(st, tableSize);
    outputs, nextNumber := r.outputs, r.nextNumber;
    OutputsDisjoint(outputs);
  }

  /** DoCompactionWork: one pass over the merged input, remembering only the current user key and
      the sequence of its last entry, writes exactly the entries the drop rule keeps, in order, to
      well-formed tables with fresh numbers and disjoint ranges, which end exactly where they are
      large enough or would overlap too much of the level after next. */
  method DoCompactionWork(c: Compaction, input: seq<Entry>, smallest: SequenceNumber, nextNumber: nat,
                          builtSize: seq<Entry> -> nat, tableSize: seq<Entry> -> nat)
    returns (outputs: seq<FileMeta>, nextNumber': nat)
    requires c.Valid() && c.AtStart()
    requires Sorted(input) && smallest < MAX_SEQUENCE
    modifies c, c.levelPtrs
    ensures Flatten(outputs) == Kept(c.version, c.inputs.level, input, |input|, smallest)
    ensures ValidFiles(outputs) && Disjoint(outputs) && Sized(outputs, tableSize)
    ensures forall f :: f in outputs ==> nextNumber <= f.number < nextNumber'
    ensures CutRightly(CutRule(c.inputs, c.maxFileSize, input, builtSize),
                       KeptAt(c.version, c.inputs.level, input, |input|, smallest), outputs)
  {
    var st := CompactionState([], Idle, nextNumber);
    ghost var v, level, rule := c.version, c.inputs.level, CutRule(c.inputs, c.maxFileSize, input, builtSize);
    WorkStarts(v, level, input, smallest, rule, nextNumber, tableSize);
    var currentUserKey: Option<UserKey> := None;
    var lastSequence: SequenceNumber := MAX_SEQUENCE;
    for i := 0 to |input|
      invariant c.Valid() && c.CountedTo(input, i) && if i == 0 then c.AtStart() else c.PointersBehind(input[i - 1].key.user)
      invariant currentUserKey == if i == 0 then None else Some(input[i - 1].key.user)
      invariant i > 0 ==> lastSequence == input[i - 1].key.sequence
      invariant WorkedTo(v, level, input, smallest, rule, i, st, nextNumber, tableSize)
    {
      var e := input[i];
      assert i > 0 ==> Before(input[i - 1].key, e.key);
      var stop := c.ShouldStopBefore(e.key, input, i);
      if currentUserKey != Some(e.key.user) {
        currentUserKey := Some(e.key.user);
        lastSequence := MAX_SEQUENCE;
      }
      var drop := c.ShouldDrop(e, lastSequence, smallest);
      lastSequence := e.key.sequence;
      st := Take(v, level, input, smallest, rule, i, st, nextNumber, e, stop, drop, c.maxFileSize, builtSize, tableSize);
    }
    KeptSorted(v, level, input, |input|, smallest);
    outputs, nextNumber' := LastOutput(st, nextNumber, tableSize, rule, KeptAt(v, level, input, |input|, smallest), |input|);
  }

  lemma {:induction false} FlattenHolds(tables: seq<FileMeta>)
    ensures |Flatten(tables)| == Start(tables, |tables|) && Holds(tables, Flatten(tables))
  {
    if tables != [] {
      var prefix, last := tables[..|tables| - 1], tables[|tables| - 1];
      FlattenHolds(prefix);
      assert prefix + [last] == tables;
      forall x: nat | x < |tables|
        ensures Start(tables, x) == Start(prefix, x)
      {
        StartAppend(prefix, last, x);
      }
      assert Holds(prefix, Flatten(prefix));
      forall x: nat | x < |tables|
        ensures Start(tables, x) + |tables[x].entries| <= |Flatten(tables)|
        ensures Flatten(tables)[Start(tables, x)..Start(tables, x) + |tables[x].entries|] == tables[x].entries
      {
        if x < |prefix| {
          assert Start(prefix, x) + |prefix[x].entries| <= |Flatten(prefix)|;
        }
      }
    }
  }

  /** The cut rule leaves no choice: whatever entries are written, there is one way to cut them into tables. */
  lemma CutsUnique(rule: Rule, at: seq<nat>, a: seq<FileMeta>, b: seq<FileMeta>)
    requires CutRightly(rule, at, a) && CutRightly(rule, at, b) && Flatten(a) == Flatten(b)
    ensures |a| == |b| && forall x :: 0 <= x < |a| ==> a[x].entries == b[x].entries
  {
    FlattenHolds(a);
    FlattenHolds(b);
    SameCuts(rule, at, a, b, Flatten(a), 0);
  }

  lemma {:induction false} KeptSorted(v: Version, level: nat, input: seq<Entry>, n: nat, smallest: SequenceNumber)
    requires Sorted(input) && n <= |input|
    ensures Sorted(Kept(v, level, input, n, smallest))
    ensures forall e :: e in Kept(v, level, input, n, smallest) ==> e in input[..n]
  {
    if n > 0 {
      KeptSorted(v, level, input, n - 1, smallest);
      var prefix := Kept(v, level, input, n - 1, smallest);
      forall i | 0 <= i < |prefix|
        ensures Before(prefix[i].key, input[n - 1].key)
      {
        assert prefix[i] in input[..n - 1];
      }
      assert input[..n] == input[..n - 1] + [input[n - 1]];
    }
  }

  lemma {:induction false} OutputsDisjoint(files: seq<FileMeta>)
    requires Sorted(Flatten(files))
    requires forall f :: f in files ==> BoundsOk(f)
    ensures Disjoint(files)
    ensures forall f :: f in files ==> ValidFile(f)
    ensures forall f, e :: f in files && e in f.entries ==> e in Flatten(files)
  {
    if files != [] {
      var prefix, last := files[..|files| - 1], files[|files| - 1];
      var all := Flatten(files);
      var k := |Flatten(prefix)|;
      SortedSplit(Flatten(prefix), last.entries);
      OutputsDisjoint(prefix);
      assert last in files;
      forall f | f in prefix
        ensures Before(f.largest, last.smallest)
      {
        assert f in files;
        var e := f.entries[|f.entries| - 1];
        assert e in Flatten(prefix);
      }
    }
  }

  lemma SortedSplit(a: seq<Entry>, b: seq<Entry>)
    requires Sorted(a + b)
    ensures Sorted(a) && Sorted(b)
    ensures forall x, y :: x in a && y in b ==> Before(x.key, y.key)
  {
    var all := a + b;
    assert forall i :: 0 <= i < |a| ==> all[i] == a[i];
    assert forall i :: 0 <= i < |b| ==> all[|a| + i] == b[i];
  }
}
