/** Writing a memtable out as a table (PickLevelForMemTableOutput in version_set.cc, CompactMemTable
    in db_impl.cc). */
module Flushes {
  import opened Keys
  import opened Store
  import opened Versions
  import opened Selection
  import opened Builders
  import opened Installs

  const MAX_MEM_COMPACT_LEVEL: nat := 2

  ghost predicate ClearUpTo(v: Version, level: nat, small: UserKey, large: UserKey)
    requires level < |v.files|
  {
    forall l, f :: 0 <= l <= level && f in v.files[l] ==> !Overlaps(f, Some(small), Some(large))
  }

  // A table over [small, large] may sink from level to the one below: it meets nothing there, and not
  // too many bytes of the level after.
  ghost predicate Sinks(v: Version, level: nat, small: UserKey, large: UserKey, maxFileSize: nat)
    requires level + 1 < |v.files|
  {
    && Clear(v.files[level + 1], small, large)
    && (level + 2 < |v.files| ==> SumSizes(Overlapping(v.files[level + 2], Some(small), Some(large))) <= 10 * maxFileSize)
  }

  /** The level a flushed table goes to: level 0 if it meets a table there, and otherwise the deepest one, up
      to level 2, it sinks to. */
  method PickLevelForMemTableOutput(v: Version, small: UserKey, large: UserKey, maxFileSize: nat) returns (level: nat)
    requires ValidVersion(v) && small <= large
    ensures level <= MAX_MEM_COMPACT_LEVEL
    ensures level > 0 ==> ClearUpTo(v, level, small, large)
    ensures !Clear(v.files[0], small, large) ==> level == 0
    ensures Clear(v.files[0], small, large) ==>
              && (forall l: nat :: l < level ==> Sinks(v, l, small, large, maxFileSize))
              && (level < MAX_MEM_COMPACT_LEVEL ==> !Sinks(v, level, small, large, maxFileSize))
  {
    level := 0;
    assert LevelOk(0, v.files[0]);
    var overlap := SomeFileOverlapsRange(false, v.files[0], Some(small), Some(large));
    if !overlap {
      while level < MAX_MEM_COMPACT_LEVEL
        invariant level <= MAX_MEM_COMPACT_LEVEL
        invariant ClearUpTo(v, level, small, large)
        invariant forall l: nat :: l < level ==> Sinks(v, l, small, large, maxFileSize)
      {
        assert LevelOk(level + 1, v.files[level + 1]);
        overlap := SomeFileOverlapsRange(true, v.files[level + 1], Some(small), Some(large));
        if overlap {
          break;
        }
        if level + 2 < NUM_LEVELS {
          assert LevelOk(level + 2, v.files[level + 2]);
          var overlaps := GetOverlappingInputs(level + 2, v.files[level + 2], Some(small), Some(large));
          var sum := TotalFileSize(overlaps);
          if sum > 10 * maxFileSize {
            break;
          }
        }
        level := level + 1;
      }
    }
  }

  ghost predicate FlushInstalled(v: Version, table: FileMeta, level: nat, v': Version) {
    && |v.files| == NUM_LEVELS == |v'.files| && LevelsSorted(v') && level < NUM_LEVELS
    && (forall l :: 0 <= l < NUM_LEVELS && l != level ==> v'.files[l] == v.files[l])
    && LevelReplaced(v.files[level], [], [table], v'.files[level])
  }

  /** The flush of a table: picks its level and installs the version that has it there. */
  method CompactMemTable(v: Version, table: FileMeta, maxFileSize: nat) returns (level: nat, r: Version)
    requires ValidVersion(v) && LevelsSorted(v) && ValidFile(table)
    requires forall l, f :: 0 <= l < NUM_LEVELS && f in v.files[l] ==> f.number < table.number
    ensures FlushInstalled(v, table, level, r)
    ensures level > 0 ==> ClearUpTo(v, level, table.smallest.user, table.largest.user)
  {
    FileRange(table);
    level := PickLevelForMemTableOutput(v, table.smallest.user, table.largest.user, maxFileSize);
    var edit := seq(NUM_LEVELS, l => if l == level then LevelEdit({}, [table]) else LevelEdit({}, []));
    r := LogAndApply(v, edit);
    assert LevelOk(level, v.files[level]);
    assert LevelInstalled(v.files[level], edit[level], r.files[level]);
    assert Numbers(v.files[level]) !! Numbers([table]) && Numbers([]) == {};
    DeletedByNumber(v.files[level], [], [table], r.files[level]);
    forall l | 0 <= l < NUM_LEVELS && l != level
      ensures r.files[l] == v.files[l]
    {
      assert LevelInstalled(v.files[l], edit[l], r.files[l]);
    }
  }

  ghost predicate NewerThanVersion(table: FileMeta, v: Version) {
    forall l, g :: 0 <= l < |v.files| && g in v.files[l] ==> Newer(table, g)
  }

  lemma ClearIsNewer(level: nat, files: seq<FileMeta>, table: FileMeta, f: FileMeta)
    requires LevelOk(level, files) && f in files && ValidFile(table)
    requires !Overlaps(f, Some(table.smallest.user), Some(table.largest.user))
    ensures Newer(f, table)
    ensures level > 0 ==> Before(f.largest, table.smallest) || Before(table.largest, f.smallest)
  {
    forall e, x | e in f.entries && x in table.entries
      ensures e.key.user != x.key.user
    {
      WithinFile(f, e);
      WithinFile(table, x);
    }
  }

  /** A flushed table lands where it keeps the invariant: nothing above it shares its user keys, and
      it is newer than everything below. */
  lemma FlushKeepsValid(v: Version, table: FileMeta, level: nat, v': Version)
    requires ValidVersion(v) && ValidFile(table) && FlushInstalled(v, table, level, v')
    requires forall l, f :: 0 <= l < NUM_LEVELS && f in v.files[l] ==> f.number < table.number
    requires NewerThanVersion(table, v)
    requires level > 0 ==> ClearUpTo(v, level, table.smallest.user, table.largest.user)
    ensures ValidVersion(v')
    ensures Contents(v') == Contents(v) + set e | e in table.entries
  {
    forall l | 0 <= l < NUM_LEVELS
      ensures LevelOk(l, v'.files[l])
    {
      assert LevelOk(l, v.files[l]);
      if l == level {
        FlushedLevelOk(v, table, level, v');
      }
    }
    forall i, j, f, g | 0 <= i < j < NUM_LEVELS && f in v'.files[i] && g in v'.files[j]
      ensures Newer(f, g)
    {
      if f in v.files[i] && g in v.files[j] {
        assert AllNewer(v.files[i], v.files[j]);
      } else if f in v.files[i] {
        assert LevelOk(i, v.files[i]);
        ClearIsNewer(i, v.files[i], table, f);
      }
    }
    FlushedContents(v, table, level, v');
  }

  lemma FlushedLevelOk(v: Version, table: FileMeta, level: nat, v': Version)
    requires ValidVersion(v) && ValidFile(table) && FlushInstalled(v, table, level, v')
    requires forall l, f :: 0 <= l < NUM_LEVELS && f in v.files[l] ==> f.number < table.number
    requires NewerThanVersion(table, v)
    requires level > 0 ==> ClearUpTo(v, level, table.smallest.user, table.largest.user)
    ensures LevelOk(level, v'.files[level])
  {
    var base, files := v.files[level], v'.files[level];
    assert LevelOk(level, base);
    if level == 0 {
      forall f, g | f in files && g in files && f.number > g.number
        ensures Newer(f, g)
      {
        assert g in base;
      }
    } else {
      forall f, g | f in files && g in files && f != g
        ensures Before(f.largest, g.smallest) || Before(g.largest, f.smallest)
      {
        if f in base && g in base {
          DisjointPair(base, f, g);
        } else {
          ClearIsNewer(level, base, table, if f in base then f else g);
        }
      }
      SortedPairwiseIsDisjoint(files);
    }
  }

  lemma FlushedContents(v: Version, table: FileMeta, level: nat, v': Version)
    requires FlushInstalled(v, table, level, v')
    ensures Contents(v') == Contents(v) + set e | e in table.entries
  {
    forall e | e in Contents(v')
      ensures e in Contents(v) || e in table.entries
    {
      var l, f := Locate(v', e);
      if f != table || l != level {
        InContents(v, l, f, e);
      }
    }
    forall e | e in Contents(v) || e in table.entries
      ensures e in Contents(v')
    {
      if e in table.entries {
        InContents(v', level, table, e);
      } else {
        var l, f := Locate(v, e);
        InContents(v', l, f, e);
      }
    }
  }

  // ---------------------------------------------------------------- tables a recovery rebuilds

  /** v' is v with the tables added to level 0. */
  ghost predicate RebuiltInstalled(v: Version, tables: seq<FileMeta>, v': Version) {
    && |v.files| == NUM_LEVELS == |v'.files| && LevelsSorted(v')
    && (forall l :: 0 < l < NUM_LEVELS ==> v'.files[l] == v.files[l])
    && LevelReplaced(v.files[0], [], tables, v'.files[0])
  }

  // Recovery writes its tables at level 0 (WriteLevel0Table without a base version) and installs them in
  // one edit.
  method InstallRebuilt(v: Version, tables: seq<FileMeta>) returns (r: Version)
    requires ValidVersion(v) && LevelsSorted(v)
    requires DistinctNumbers(tables) && Numbers(v.files[0]) !! Numbers(tables)
    ensures RebuiltInstalled(v, tables, r)
  {
    var edit := seq(NUM_LEVELS, l => if l == 0 then LevelEdit({}, tables) else LevelEdit({}, []));
    r := LogAndApply(v, edit);
    assert LevelOk(0, v.files[0]) && LevelInstalled(v.files[0], edit[0], r.files[0]);
    assert Numbers([]) == {};
    DeletedByNumber(v.files[0], [], tables, r.files[0]);
    forall l | 0 < l < NUM_LEVELS
      ensures r.files[l] == v.files[l]
    {
      assert LevelInstalled(v.files[l], edit[l], r.files[l]);
    }
  }

  // A later table has a larger number and newer entries.
  ghost predicate InOrder(tables: seq<FileMeta>) {
    && (forall t :: t in tables ==> ValidFile(t))
    && (forall i, j :: 0 <= i < j < |tables| ==> tables[i].number < tables[j].number)
    && (forall i, j {:trigger Newer(tables[j], tables[i])} :: 0 <= i < j < |tables| ==> Newer(tables[j], tables[i]))
  }

  /** Adding the rebuilt tables keeps a version valid and adds exactly their entries. */
  lemma RebuiltKeepsValid(v: Version, tables: seq<FileMeta>, v': Version)
    requires ValidVersion(v) && RebuiltInstalled(v, tables, v') && InOrder(tables)
    requires forall t :: t in tables ==> NewerThanVersion(t, v)
    requires forall t, f :: t in tables && f in v.files[0] ==> f.number < t.number
    ensures ValidVersion(v') && Contents(v') == Contents(v) + FileContents(tables)
  {
    RebuiltLevelOk(v, tables, v');
    forall l | 0 <= l < NUM_LEVELS
      ensures LevelOk(l, v'.files[l])
    {
      assert LevelOk(l, v.files[l]);
    }
    forall i, j, f, g | 0 <= i < j < NUM_LEVELS && f in v'.files[i] && g in v'.files[j]
      ensures Newer(f, g)
    {
      if f in v.files[i] {
        assert AllNewer(v.files[i], v.files[j]);
      } else {
        assert NewerThanVersion(f, v);
      }
    }
    RebuiltContents(v, tables, v');
  }

  lemma RebuiltLevelOk(v: Version, tables: seq<FileMeta>, v': Version)
    requires ValidVersion(v) && RebuiltInstalled(v, tables, v') && InOrder(tables)
    requires forall t :: t in tables ==> NewerThanVersion(t, v)
    requires forall t, f :: t in tables && f in v.files[0] ==> f.number < t.number
    ensures LevelOk(0, v'.files[0])
  {
    assert LevelOk(0, v.files[0]);
    forall f, g | f in v'.files[0] && g in v'.files[0] && f.number > g.number
      ensures Newer(f, g)
    {
      if f in tables && g in tables {
        var i :| 0 <= i < |tables| && tables[i] == g;
        var j :| 0 <= j < |tables| && tables[j] == f;
        assert i < j && Newer(tables[j], tables[i]);
      } else if f in tables {
        assert NewerThanVersion(f, v);
      }
    }
  }

  lemma RebuiltContents(v: Version, tables: seq<FileMeta>, v': Version)
    requires RebuiltInstalled(v, tables, v')
    ensures Contents(v') == Contents(v) + FileContents(tables)
  {
    forall e | e in Contents(v')
      ensures e in Contents(v) + FileContents(tables)
    {
      var l, f := Locate(v', e);
      if f in v.files[l] {
        InContents(v, l, f, e);
      }
    }
    forall e | e in Contents(v) + FileContents(tables)
      ensures e in Contents(v')
    {
      if e in FileContents(tables) {
        var f :| f in tables && e in f.entries;
        InContents(v', 0, f, e);
      } else {
        var l, f := Locate(v, e);
        InContents(v', l, f, e);
      }
    }
  }
}
