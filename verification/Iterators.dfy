/** DBImpl::NewIterator: the layers of the database become the children of a merging iterator, and the
    DBIter over it shows exactly what reads at its sequence find. */
module Iterators {
  import opened Keys
  import opened Store
  import opened Versions
  import opened Compactions
  import opened CompactionReads
  import opened Lsm
  import opened Mergers
  import opened Background
  import opened DbIters

  // The lists are sorted, share no entry, and hold exactly es.
  ghost predicate Partition(lists: seq<seq<Entry>>, es: set<Entry>) {
    && (forall k :: 0 <= k < |lists| ==> Sorted(lists[k]))
    && (forall k, e :: 0 <= k < |lists| && e in lists[k] ==> e in es)
    && (forall e :: e in es ==> exists k :: 0 <= k < |lists| && e in lists[k])
    && (forall k, m, e :: 0 <= k < m < |lists| && e in lists[k] ==> e !in lists[m])
  }

  lemma AddChild(lists: seq<seq<Entry>>, es: set<Entry>, list: seq<Entry>, more: set<Entry>)
    requires Partition(lists, es) && Sorted(list) && es !! more && forall e :: e in list <==> e in more
    ensures Partition(lists + [list], es + more)
  {
    var after := lists + [list];
    assert after[|lists|] == list;
    forall e | e in es + more
      ensures exists k :: 0 <= k < |after| && e in after[k]
    {
      if e in es {
        var k :| 0 <= k < |lists| && e in lists[k];
        assert e in after[k];
      }
    }
  }

  // Everything in the first n levels
  ghost function Above(v: Version, n: nat): set<Entry>
    requires n <= |v.files|
  {
    set l, e | 0 <= l < n && e in FileContents(v.files[l]) :: e
  }

  lemma LevelApart(v: Version, n: nat)
    requires ValidVersion(v) && n < NUM_LEVELS
    ensures Above(v, n) !! FileContents(v.files[n])
    ensures Above(v, n + 1) == Above(v, n) + FileContents(v.files[n])
    ensures Above(v, n + 1) <= Contents(v)
  {
    forall e | e in Above(v, n)
      ensures e !in FileContents(v.files[n])
    {
      var l, f :| 0 <= l < n && f in v.files[l] && e in f.entries;
      forall g | g in v.files[n]
        ensures e !in g.entries
      {
        OneFilePerEntry(v, n, g, l, f, e);
      }
    }
  }

  lemma LevelZeroApart(v: Version, i: nat)
    requires ValidVersion(v) && i < |v.files[0]|
    ensures FileContents(v.files[0][..i]) !! AsEntries(v.files[0][i].entries)
    ensures FileContents(v.files[0][..i + 1]) == FileContents(v.files[0][..i]) + AsEntries(v.files[0][i].entries)
    ensures FileContents(v.files[0][..i + 1]) <= Contents(v) && ValidFile(v.files[0][i])
  {
    var files := v.files[0];
    assert LevelOk(0, files) && files[..i + 1] == files[..i] + [files[i]];
    forall e | e in FileContents(files[..i])
      ensures e !in files[i].entries
    {
      var f :| f in files[..i] && e in f.entries;
      OneFilePerEntry(v, 0, files[i], 0, f, e);
    }
    forall e | e in FileContents(files[..i + 1])
      ensures e in Contents(v)
    {
      assert e in FileContents(files);
    }
  }

  lemma LayersApart(s: Db, es: set<Entry>)
    requires LayersOk(s) && es <= Contents(s.version)
    ensures AsEntries(s.mem) !! ImmEntries(s)
    ensures AsEntries(s.mem) + ImmEntries(s) !! es
  {
  }

  // NewInternalIterator and Version::AddIterators: the children of the internal iterator
  method AddIterators(s: Db) returns (list: seq<seq<Entry>>)
    requires LayersOk(s)
    ensures Partition(list, All(s))
  {
    ghost var layers, v := AsEntries(s.mem) + ImmEntries(s), s.version;
    LayersApart(s, Contents(v));
    list := [];
    AddChild(list, {}, s.mem, AsEntries(s.mem));
    list := list + [s.mem];
    if s.imm.Some? {
      AddChild(list, AsEntries(s.mem), s.imm.value, ImmEntries(s));
      list := list + [s.imm.value];
    }
    assert Partition(list, layers + FileContents(v.files[0][..0]));
    for i := 0 to |s.version.files[0]|
      invariant Partition(list, layers + FileContents(v.files[0][..i]))
    {
      LevelZeroApart(v, i);
      AddChild(list, layers + FileContents(v.files[0][..i]), s.version.files[0][i].entries, AsEntries(s.version.files[0][i].entries));
      list := list + [s.version.files[0][i].entries];
      assert layers + FileContents(v.files[0][..i + 1]) == layers + FileContents(v.files[0][..i]) + AsEntries(v.files[0][i].entries);
    }
    assert v.files[0][..|v.files[0]|] == v.files[0] && Above(v, 1) == FileContents(v.files[0]);
    for level := 1 to NUM_LEVELS
      invariant Partition(list, layers + Above(v, level))
    {
      LevelApart(v, level);
      if s.version.files[level] != [] {
        AddLevel(s, level, list);
        list := list + [Flatten(s.version.files[level])];
      } else {
        assert layers + Above(v, level + 1) == layers + Above(v, level);
      }
    }
    assert layers + Above(v, NUM_LEVELS) == All(s);
  }

  lemma AddLevel(s: Db, level: nat, list: seq<seq<Entry>>)
    requires LayersOk(s) && 0 < level < NUM_LEVELS
    requires Partition(list, AsEntries(s.mem) + ImmEntries(s) + Above(s.version, level))
    ensures Partition(list + [Flatten(s.version.files[level])], AsEntries(s.mem) + ImmEntries(s) + Above(s.version, level + 1))
  {
    var v, layers := s.version, AsEntries(s.mem) + ImmEntries(s);
    var files := v.files[level];
    assert LevelOk(level, files);
    LevelApart(v, level);
    LayersApart(s, FileContents(files));
    FlattenSorted(files);
    forall e
      ensures e in Flatten(files) <==> e in FileContents(files)
    {
      FlattenMember(files, e);
    }
    AddChild(list, layers + Above(v, level), Flatten(files), FileContents(files));
    assert layers + Above(v, level + 1) == layers + Above(v, level) + FileContents(files);
  }

  /** A new iterator's view is, in ascending order, exactly the keys and values that reads at its
      sequence find in the database. */
  method NewIterator(s: Db, snapshot: Option<SequenceNumber>) returns (it: DBIter)
    requires LayersOk(s)
    ensures it.Valid() && !it.valid && it.sequence == (if snapshot.Some? then snapshot.value else s.lastSequence)
    ensures forall p, q :: 0 <= p < q < |it.Visible()| ==> it.Visible()[p].0 < it.Visible()[q].0
    ensures forall u, v :: (u, v) in it.Visible() <==> Read(All(s), u, it.sequence) == Some(v)
  {
    var list := AddIterators(s);
    LayersUnique(s);
    ghost var union := SortedListing(All(s));
    var internal := new MergingIterator(list, union);
    var at := if snapshot.Some? then snapshot.value else s.lastSequence;
    it := new DBIter(internal, at);
    ViewIsReads(union, at);
    assert AsEntries(union) == All(s);
  }

  /** In every run, an iterator opened at a live snapshot or at the latest sequence lists, of the user keys
      whose read there no compaction broke, exactly what reads of everything ever written would find. */
  method IterateAfterRun(run: seq<Configuration>, ghost events: seq<Event>, n: nat, snapshot: Option<SequenceNumber>) returns (it: DBIter)
    requires IsRun(run, events) && n < |run| && (snapshot.Some? ==> snapshot.value in run[n].db.snapshots) && NeverSpans(run, events, n)
    ensures it.Valid() && it.sequence == (if snapshot.Some? then snapshot.value else run[n].db.lastSequence)
    ensures forall u, v :: (u, it.sequence) !in Broken(run[n].exposed, run[n].history) ==>
              ((u, v) in it.Visible() <==> Read(run[n].history, u, it.sequence) == Some(v))
  {
    RunInv(run, events, n);
    it := NewIterator(run[n].db, snapshot);
    forall u | (u, it.sequence) !in Broken(run[n].exposed, run[n].history)
      ensures Read(All(run[n].db), u, it.sequence) == Read(run[n].history, u, it.sequence)
    {
      RunsReadCorrectly(run, events, n, u, it.sequence);
    }
  }
}
