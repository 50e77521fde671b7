/** Automatic compactions of a level take turns (version_set.cc): the compaction pointer that PickCompaction
    starts from and SetupOtherInputs moves makes successive picks go round all files of the level. */
module Rounds {
  import opened Keys
  import opened Store
  import opened Versions
  import opened Selection

  // One automatic pick and where it leaves the compaction pointer
  datatype Pick = Pick(inputs0: seq<FileMeta>, after: Option<InternalKey>)

  ghost function PointerAt(pointer: Option<InternalKey>, picks: seq<Pick>, t: nat): Option<InternalKey>
    requires t <= |picks|
  {
    if t == 0 then pointer else picks[t - 1].after
  }

  ghost predicate PicksAt(level: nat, files: seq<FileMeta>, pointer: Option<InternalKey>, picks: seq<Pick>, t: nat)
    requires t < |picks|
  {
    IsPick(level, files, PointerAt(pointer, picks, t), picks[t].inputs0, picks[t].after)
  }

  /** Automatic picks of a level that does not change, one after the other. */
  ghost predicate Picks(level: nat, files: seq<FileMeta>, pointer: Option<InternalKey>, picks: seq<Pick>) {
    forall t: nat {:trigger PicksAt(level, files, pointer, picks, t)} :: t < |picks| ==> PicksAt(level, files, pointer, picks, t)
  }

  // The order in which the list of a level is kept
  ghost predicate StartsRise(files: seq<FileMeta>) {
    forall i, j :: 0 <= i < j < |files| ==> !Before(files[j].smallest, files[i].smallest)
  }

  // The files that end after one key and not after the other
  ghost function EndsBetween(files: seq<FileMeta>, after: Option<InternalKey>, upTo: Option<InternalKey>): set<FileMeta> {
    set f | f in files && (after.Some? ==> Before(after.value, f.largest)) && (upTo.Some? ==> !Before(upTo.value, f.largest))
  }

  ghost predicate Taken(picks: seq<Pick>, n: nat, f: FileMeta) {
    exists t :: 0 <= t < |picks| && t < n && f in picks[t].inputs0
  }

  // A file in the list after the picked one that is not taken lies behind all that is taken.
  lemma LaterLiesBehind(level: nat, files: seq<FileMeta>, fs: seq<FileMeta>, i: nat, j: nat, m: FileMeta)
    requires LevelOk(level, files) && StartsRise(files) && Subset(fs, files) && Whole(level, files, fs)
    requires i < j < |files| && files[i] in fs && files[j] !in fs && m in fs
    ensures Before(m.largest, files[j].largest)
  {
    var f, g := files[i], files[j];
    FileRange(f);
    FileRange(g);
    FileRange(m);
    if level == 0 {
      assert !Touching(f, g) && !Touching(m, g);
    } else {
      DisjointPair(files, m, g);
    }
  }

  // A pick passes over no file: whatever ends after the old pointer is taken or ends after the new one.
  lemma PickPassesNone(level: nat, files: seq<FileMeta>, before: Option<InternalKey>, p: Pick, g: FileMeta)
    requires LevelOk(level, files) && StartsRise(files) && IsPick(level, files, before, p.inputs0, p.after)
    requires g in EndsBetween(files, before, None) && g !in p.inputs0
    ensures g in EndsBetween(files, p.after, None)
  {
    var i: nat :| IsFirstAfter(files, before, i) && files[i] in p.inputs0;
    var j :| 0 <= j < |files| && files[j] == g;
    var m :| m in p.inputs0 && m.largest == p.after.value;
    assert i < j;
    LaterLiesBehind(level, files, p.inputs0, i, j, m);
  }

  // As long as a file of a stretch is left, every pick takes the stretch a file further.
  lemma PickAdvances(level: nat, files: seq<FileMeta>, before: Option<InternalKey>, p: Pick, upTo: Option<InternalKey>)
    requires LevelOk(level, files) && StartsRise(files) && IsPick(level, files, before, p.inputs0, p.after)
    requires EndsBetween(files, before, upTo) != {}
    ensures EndsBetween(files, p.after, upTo) < EndsBetween(files, before, upTo)
    ensures forall g :: g in EndsBetween(files, before, upTo) - EndsBetween(files, p.after, upTo) ==> g in p.inputs0
  {
    var rest, left := EndsBetween(files, before, upTo), EndsBetween(files, p.after, upTo);
    var i: nat :| IsFirstAfter(files, before, i) && files[i] in p.inputs0;
    var g :| g in rest;
    assert before.None? || Before(before.value, files[i].largest);
    assert !Before(p.after.value, files[i].largest);
    assert left <= rest;
    if files[i] in rest {
      assert files[i] !in left;
    } else {
      assert g !in left;
    }
    forall g | g in rest - left
      ensures g in p.inputs0
    {
      if g !in p.inputs0 {
        PickPassesNone(level, files, before, p, g);
      }
    }
  }

  lemma PicksRest(level: nat, files: seq<FileMeta>, pointer: Option<InternalKey>, picks: seq<Pick>, n: nat)
    requires Picks(level, files, pointer, picks) && n <= |picks|
    ensures Picks(level, files, PointerAt(pointer, picks, n), picks[n..])
  {
    forall t: nat | t < |picks[n..]|
      ensures PicksAt(level, files, PointerAt(pointer, picks, n), picks[n..], t)
    {
      assert PicksAt(level, files, pointer, picks, n + t);
    }
  }

  // A stretch of the level is taken within as many picks as it has files.
  lemma {:induction false} Sweep(level: nat, files: seq<FileMeta>, pointer: Option<InternalKey>, picks: seq<Pick>, upTo: Option<InternalKey>)
    returns (n: nat)
    requires LevelOk(level, files) && StartsRise(files) && Picks(level, files, pointer, picks)
    requires |EndsBetween(files, pointer, upTo)| <= |picks|
    ensures n <= |EndsBetween(files, pointer, upTo)| && EndsBetween(files, PointerAt(pointer, picks, n), upTo) == {}
    ensures forall g {:trigger Taken(picks, n, g)} :: g in EndsBetween(files, pointer, upTo) ==> Taken(picks, n, g)
    decreases |picks|
  {
    var stretch := EndsBetween(files, pointer, upTo);
    if stretch == {} {
      n := 0;
    } else {
      var p, rest := picks[0], picks[1..];
      assert PicksAt(level, files, pointer, picks, 0);
      PickAdvances(level, files, pointer, p, upTo);
      PicksRest(level, files, pointer, picks, 1);
      var left := EndsBetween(files, p.after, upTo);
      Smaller(left, stretch);
      n := Sweep(level, files, p.after, rest, upTo);
      assert PointerAt(p.after, rest, n) == PointerAt(pointer, picks, n + 1);
      forall g | g in stretch
        ensures Taken(picks, n + 1, g)
      {
        TakenLater(picks, n, g, g in left);
      }
      n := n + 1;
    }
  }

  lemma Smaller(a: set<FileMeta>, b: set<FileMeta>)
    requires a < b
    ensures |a| < |b|
  {
    assert b == a + (b - a);
  }

  lemma TakenLater(picks: seq<Pick>, n: nat, g: FileMeta, later: bool)
    requires picks != [] && if later then Taken(picks[1..], n, g) else g in picks[0].inputs0
    ensures Taken(picks, n + 1, g)
  {
    if later {
      var t :| 0 <= t < |picks[1..]| && t < n && g in picks[1..][t].inputs0;
      assert g in picks[t + 1].inputs0;
    }
  }

  // When nothing ends after the pointer, the next pick starts from the first file.
  lemma WrapsAround(level: nat, files: seq<FileMeta>, pointer: Option<InternalKey>, picks: seq<Pick>)
    requires Picks(level, files, pointer, picks) && EndsBetween(files, pointer, None) == {}
    ensures Picks(level, files, None, picks)
  {
    forall t: nat | t < |picks|
      ensures PicksAt(level, files, None, picks, t)
    {
      assert PicksAt(level, files, pointer, picks, t);
      if t == 0 {
        var i: nat :| IsFirstAfter(files, pointer, i) && files[i] in picks[0].inputs0;
        assert files[i] !in EndsBetween(files, pointer, None);
        assert IsFirstAfter(files, None, i);
      }
    }
  }

  lemma {:induction false} AtMostLength(files: seq<FileMeta>)
    ensures |set f | f in files| <= |files|
  {
    if files != [] {
      var rest, last := files[..|files| - 1], files[|files| - 1];
      AtMostLength(rest);
      assert (set f | f in files) == (set f | f in rest) + {last};
    }
  }

  lemma SplitAt(files: seq<FileMeta>, pointer: Option<InternalKey>)
    requires pointer.Some?
    ensures |EndsBetween(files, pointer, None)| + |EndsBetween(files, None, pointer)| <= |files|
  {
    AtMostLength(files);
    assert EndsBetween(files, pointer, None) + EndsBetween(files, None, pointer) == set f | f in files;
  }

  /** From any compaction pointer, successive picks of an unchanged level reach every file of it
      within as many picks as it has files. */
  lemma PicksGoRound(level: nat, files: seq<FileMeta>, pointer: Option<InternalKey>, picks: seq<Pick>, g: FileMeta)
    requires LevelOk(level, files) && StartsRise(files) && Picks(level, files, pointer, picks)
    requires |picks| >= |files| && g in files
    ensures exists t :: 0 <= t < |files| && g in picks[t].inputs0
  {
    AtMostLength(files);
    assert EndsBetween(files, None, None) == set f | f in files;
    if pointer.None? {
      var n := Sweep(level, files, None, picks, None);
      assert Taken(picks, n, g);
    } else {
      SplitAt(files, pointer);
      var n := Sweep(level, files, pointer, picks, None);
      if g in EndsBetween(files, pointer, None) {
        assert Taken(picks, n, g);
      } else {
        var rest := picks[n..];
        PicksRest(level, files, pointer, picks, n);
        WrapsAround(level, files, PointerAt(pointer, picks, n), rest);
        var m := Sweep(level, files, None, rest, pointer);
        assert Taken(rest, m, g);
        var t :| 0 <= t < |rest| && t < m && g in rest[t].inputs0;
        assert g in picks[n + t].inputs0;
      }
    }
  }
}
