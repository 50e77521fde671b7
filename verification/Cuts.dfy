/** Where a compaction ends one output table and starts the next (db_impl.cc, version_set.cc): a table ends when
    it has become large enough, and before any key at which the output since the last such key would overlap
    too many bytes of the level after next. */
module Cuts {
  import opened Keys
  import opened Store
  import opened Versions
  import opened Selection

  // ---------------------------------------------------------------- overlap with the grandparents

  // The number of grandparents, counted from g on, that a merge leaves behind when it comes to key
  ghost function PassedFrom(grandparents: seq<FileMeta>, key: InternalKey, g: nat): (r: nat)
    requires g <= |grandparents|
    ensures g <= r <= |grandparents|
    decreases |grandparents| - g
  {
    if g < |grandparents| && Before(grandparents[g].largest, key) then PassedFrom(grandparents, key, g + 1) else g
  }

  ghost function Passed(grandparents: seq<FileMeta>, key: InternalKey): (r: nat)
    ensures r <= |grandparents|
  {
    PassedFrom(grandparents, key, 0)
  }

  /** The bytes of the grandparents a merge leaves behind on the way from one key to another. */
  ghost function Overlap(grandparents: seq<FileMeta>, start: InternalKey, key: InternalKey): nat {
    var a, b := Passed(grandparents, start), Passed(grandparents, key);
    if a <= b then SumSizes(grandparents[a..b]) else 0
  }

  /** The output must not go on across input[i]: since the last such entry, or since the first entry of all,
      the merge has left too much of the grandparents behind. */
  ghost predicate StopsBefore(grandparents: seq<FileMeta>, input: seq<Entry>, limit: nat, i: nat)
    requires i < |input|
    decreases i, 0
  {
    i > 0 && Overlap(grandparents, input[LastStop(grandparents, input, limit, i - 1)].key, input[i].key) > limit
  }

  ghost function LastStop(grandparents: seq<FileMeta>, input: seq<Entry>, limit: nat, i: nat): (s: nat)
    requires i < |input|
    ensures s <= i
    decreases i, 1
  {
    if i == 0 || StopsBefore(grandparents, input, limit, i) then i else LastStop(grandparents, input, limit, i - 1)
  }

  lemma {:induction false} PassedIs(grandparents: seq<FileMeta>, key: InternalKey, g: nat, n: nat)
    requires g <= n <= |grandparents| && forall j :: g <= j < n ==> Before(grandparents[j].largest, key)
    requires n < |grandparents| ==> !Before(grandparents[n].largest, key)
    ensures PassedFrom(grandparents, key, g) == n
    decreases n - g
  {
    if g < n {
      PassedIs(grandparents, key, g + 1, n);
    }
  }

  lemma {:induction false} PassedAre(grandparents: seq<FileMeta>, key: InternalKey, g: nat)
    requires g <= |grandparents|
    ensures var n := PassedFrom(grandparents, key, g);
            && (forall j :: g <= j < n ==> Before(grandparents[j].largest, key))
            && (n < |grandparents| ==> !Before(grandparents[n].largest, key))
    decreases |grandparents| - g
  {
    if g < |grandparents| && Before(grandparents[g].largest, key) {
      PassedAre(grandparents, key, g + 1);
    }
  }

  lemma PassedRises(grandparents: seq<FileMeta>, a: InternalKey, b: InternalKey)
    requires a == b || Before(a, b)
    ensures Passed(grandparents, a) <= Passed(grandparents, b)
  {
    PassedAre(grandparents, a, 0);
    PassedAre(grandparents, b, 0);
    var n := Passed(grandparents, b);
    assert n < |grandparents| ==> !Before(grandparents[n].largest, a);
  }

  lemma {:induction false} SumSizesJoin(fs: seq<FileMeta>, a: nat, b: nat, c: nat)
    requires a <= b <= c <= |fs|
    ensures SumSizes(fs[a..c]) == SumSizes(fs[a..b]) + SumSizes(fs[b..c])
    decreases c
  {
    if b < c {
      SumSizesJoin(fs, a, b, c - 1);
      assert fs[a..c][..c - 1 - a] == fs[a..c - 1];
      assert fs[b..c][..c - 1 - b] == fs[b..c - 1];
    } else {
      assert fs[b..c] == [];
    }
  }

  lemma OverlapJoin(grandparents: seq<FileMeta>, a: InternalKey, b: InternalKey, c: InternalKey)
    requires (a == b || Before(a, b)) && (b == c || Before(b, c))
    ensures Passed(grandparents, b) <= Passed(grandparents, c)
    ensures Overlap(grandparents, a, c) == Overlap(grandparents, a, b) + SumSizes(grandparents[Passed(grandparents, b)..Passed(grandparents, c)])
  {
    PassedRises(grandparents, a, b);
    PassedRises(grandparents, b, c);
    SumSizesJoin(grandparents, Passed(grandparents, a), Passed(grandparents, b), Passed(grandparents, c));
  }

  // ---------------------------------------------------------------- the cuts

  /** The reasons to end a table: stops[k] says that no table goes on across the k-th entry of the merge, and a
      table is large enough when what has been written of it reaches maxFileSize. */
  datatype Rule = Rule(stops: seq<bool>, builtSize: seq<Entry> -> nat, maxFileSize: nat) {
    ghost predicate Stopped(a: int, b: int) {
      exists k: int {:trigger StopAt(k)} :: a < k <= b && StopAt(k)
    }

    ghost predicate StopAt(k: int) {
      0 <= k < |stops| && stops[k]
    }

    ghost predicate Large(entries: seq<Entry>) {
      builtSize(entries) >= maxFileSize
    }
  }

  // How many entries lie before the x-th table
  ghost function Start(tables: seq<FileMeta>, x: nat): nat
    requires x <= |tables|
  {
    if x == 0 then 0 else Start(tables, x - 1) + |tables[x - 1].entries|
  }

  // A table that starts with the entry at at[start] of the merge has no reason to end after q entries.
  ghost predicate GoesOn(rule: Rule, at: seq<nat>, start: nat, entries: seq<Entry>, q: nat)
    requires 0 < q < |entries| && start + |entries| <= |at|
  {
    !rule.Large(entries[..q]) && !rule.Stopped(at[start + q - 1], at[start + q])
  }

  ghost predicate Joined(rule: Rule, at: seq<nat>, start: nat, entries: seq<Entry>) {
    && start + |entries| <= |at|
    && forall q: nat {:trigger GoesOn(rule, at, start, entries, q)} :: 0 < q < |entries| ==> GoesOn(rule, at, start, entries, q)
  }

  // A table has a reason to end where it does, unless nothing follows.
  ghost predicate EndsRightly(rule: Rule, at: seq<nat>, end: nat, entries: seq<Entry>) {
    0 < end < |at| ==> rule.Large(entries) || rule.Stopped(at[end - 1], at[end])
  }

  ghost predicate OneTable(rule: Rule, at: seq<nat>, start: nat, entries: seq<Entry>) {
    entries != [] && Joined(rule, at, start, entries) && EndsRightly(rule, at, start + |entries|, entries)
  }

  ghost predicate TableOk(rule: Rule, at: seq<nat>, tables: seq<FileMeta>, x: nat)
    requires x < |tables|
  {
    OneTable(rule, at, Start(tables, x), tables[x].entries)
  }

  lemma IsTable(rule: Rule, at: seq<nat>, tables: seq<FileMeta>, x: nat, start: nat, entries: seq<Entry>)
    requires x < |tables| && Start(tables, x) == start && tables[x].entries == entries && OneTable(rule, at, start, entries)
    ensures TableOk(rule, at, tables, x)
  {
  }

  ghost predicate TablesOk(rule: Rule, at: seq<nat>, tables: seq<FileMeta>) {
    forall x: nat {:trigger TableOk(rule, at, tables, x)} :: x < |tables| ==> TableOk(rule, at, tables, x)
  }

  /** The entries at the given positions of a merge are cut into tables that end exactly where there is a reason to. */
  ghost predicate CutRightly(rule: Rule, at: seq<nat>, tables: seq<FileMeta>) {
    TablesOk(rule, at, tables) && Start(tables, |tables|) == |at|
  }

  lemma {:induction false} StartAppend(tables: seq<FileMeta>, f: FileMeta, x: nat)
    requires x <= |tables|
    ensures Start(tables + [f], x) == Start(tables, x)
  {
    if x > 0 {
      StartAppend(tables, f, x - 1);
    }
  }

  lemma AppendTable(rule: Rule, at: seq<nat>, tables: seq<FileMeta>, f: FileMeta)
    requires TablesOk(rule, at, tables) && OneTable(rule, at, Start(tables, |tables|), f.entries)
    ensures TablesOk(rule, at, tables + [f])
    ensures Start(tables + [f], |tables| + 1) == Start(tables, |tables|) + |f.entries|
  {
    StartAppend(tables, f, |tables|);
    var longer := tables + [f];
    forall x: nat | x < |longer|
      ensures TableOk(rule, at, longer, x)
    {
      StartAppend(tables, f, x);
      if x < |tables| {
        assert TableOk(rule, at, tables, x);
        IsTable(rule, at, longer, x, Start(tables, x), tables[x].entries);
      } else {
        IsTable(rule, at, longer, x, Start(tables, x), f.entries);
      }
    }
  }

  // One more entry is written: only a table that ended with the last one must have had a reason to.
  lemma AppendPosition(rule: Rule, at: seq<nat>, i: nat, tables: seq<FileMeta>)
    requires TablesOk(rule, at, tables)
    requires tables != [] && Start(tables, |tables|) == |at| ==> EndsRightly(rule, at + [i], |at|, tables[|tables| - 1].entries)
    ensures TablesOk(rule, at + [i], tables)
  {
    forall x: nat | x < |tables|
      ensures TableOk(rule, at + [i], tables, x)
    {
      assert TableOk(rule, at, tables, x);
      NextStartsBefore(rule, at, tables, x);
      EndsStay(rule, at, i, Start(tables, x), tables[x].entries);
      IsTable(rule, at + [i], tables, x, Start(tables, x), tables[x].entries);
    }
  }

  lemma NextStartsBefore(rule: Rule, at: seq<nat>, tables: seq<FileMeta>, x: nat)
    requires TablesOk(rule, at, tables) && x < |tables|
    ensures x + 1 < |tables| ==> Start(tables, x) + |tables[x].entries| < |at|
  {
    if x + 1 < |tables| {
      assert TableOk(rule, at, tables, x + 1);
    }
  }

  lemma EndsStay(rule: Rule, at: seq<nat>, i: nat, start: nat, entries: seq<Entry>)
    requires OneTable(rule, at, start, entries)
    requires start + |entries| == |at| ==> EndsRightly(rule, at + [i], |at|, entries)
    ensures OneTable(rule, at + [i], start, entries)
  {
    assert forall p: nat :: p < |at| ==> (at + [i])[p] == at[p];
    forall q: nat | 0 < q < |entries|
      ensures GoesOn(rule, at + [i], start, entries, q)
    {
      assert GoesOn(rule, at, start, entries, q);
    }
  }

  // The rule leaves no choice: the longest common beginning of two cuts cannot end.
  lemma {:induction false} SameCuts(rule: Rule, at: seq<nat>, a: seq<FileMeta>, b: seq<FileMeta>, written: seq<Entry>, x: nat)
    requires CutRightly(rule, at, a) && CutRightly(rule, at, b) && x <= |a| && x <= |b|
    requires Holds(a, written) && Holds(b, written) && |written| == |at|
    requires forall y :: 0 <= y < x ==> a[y].entries == b[y].entries
    requires Start(a, x) == Start(b, x)
    ensures |a| == |b| && forall y :: 0 <= y < |a| ==> a[y].entries == b[y].entries
    decreases |a| - x
  {
    if x < |a| && x < |b| {
      SameTable(rule, at, a, b, written, x);
      SameCuts(rule, at, a, b, written, x + 1);
    } else if x < |a| {
      NothingFollows(rule, at, a, x);
    } else if x < |b| {
      NothingFollows(rule, at, b, x);
    }
  }

  // The tables hold what was written, in order.
  ghost predicate Holds(tables: seq<FileMeta>, written: seq<Entry>) {
    forall x: nat {:trigger Start(tables, x)} :: x < |tables| ==>
      Start(tables, x) + |tables[x].entries| <= |written| && written[Start(tables, x)..Start(tables, x) + |tables[x].entries|] == tables[x].entries
  }

  lemma NothingFollows(rule: Rule, at: seq<nat>, tables: seq<FileMeta>, x: nat)
    requires CutRightly(rule, at, tables) && x < |tables|
    ensures Start(tables, x) < |at|
  {
    assert TableOk(rule, at, tables, x);
  }

  lemma SameTable(rule: Rule, at: seq<nat>, a: seq<FileMeta>, b: seq<FileMeta>, written: seq<Entry>, x: nat)
    requires CutRightly(rule, at, a) && CutRightly(rule, at, b) && x < |a| && x < |b|
    requires Holds(a, written) && Holds(b, written) && |written| == |at| && Start(a, x) == Start(b, x)
    ensures a[x].entries == b[x].entries && Start(a, x + 1) == Start(b, x + 1)
  {
    var n, m := |a[x].entries|, |b[x].entries|;
    assert TableOk(rule, at, a, x) && TableOk(rule, at, b, x);
    var s := Start(a, x);
    assert a[x].entries == written[s..s + n] && b[x].entries == written[s..s + m];
    if n <= m {
      assert b[x].entries[..n] == a[x].entries;
      NotCutEarlier(rule, at, s, a[x].entries, b[x].entries);
    }
    if m <= n {
      assert a[x].entries[..m] == b[x].entries;
      NotCutEarlier(rule, at, s, b[x].entries, a[x].entries);
    }
  }

  lemma NotCutEarlier(rule: Rule, at: seq<nat>, start: nat, shorter: seq<Entry>, longer: seq<Entry>)
    requires Joined(rule, at, start, longer) && EndsRightly(rule, at, start + |shorter|, shorter)
    requires shorter != [] && |shorter| <= |longer| && longer[..|shorter|] == shorter
    ensures shorter == longer
  {
    var n := |shorter|;
    assert n < |longer| ==> GoesOn(rule, at, start, longer, n);
  }
}
