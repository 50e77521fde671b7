/** DBIter (db/db_iter.cc): the iterator a user sees.  It drives the merging iterator over internal
    entries and shows, of each user key, the newest entry at or below its sequence number, unless
    that entry is a deletion.  Whatever mix of moves is made, it stands where a cursor on the sorted
    list of visible keys and values would stand. */
module DbIters {
  import opened Keys
  import opened Store
  import opened Versions
  import opened Mergers

  // es[j] is what a read of its user key at sequence s finds, and is not a deletion.
  predicate Shown(es: seq<Entry>, s: SequenceNumber, j: nat)
    requires j < |es|
  {
    && es[j].key.sequence <= s && es[j].key.vtype.Value?
    && forall k: nat :: k < j && es[k].key.user == es[j].key.user ==> es[k].key.sequence > s
  }

  // The keys and values visible at s among the first n entries
  function ViewUpTo(es: seq<Entry>, s: SequenceNumber, n: nat): (r: seq<(UserKey, string)>)
    requires n <= |es|
  {
    if n == 0 then []
    else ViewUpTo(es, s, n - 1) + if Shown(es, s, n - 1) then [(es[n - 1].key.user, es[n - 1].value)] else []
  }

  function View(es: seq<Entry>, s: SequenceNumber): seq<(UserKey, string)> {
    ViewUpTo(es, s, |es|)
  }

  // No entry with index in [from, to) is shown.
  predicate NoneShown(es: seq<Entry>, s: SequenceNumber, from: nat, to: nat)
    requires to <= |es|
  {
    forall k: nat {:trigger Shown(es, s, k)} :: from <= k < to ==> !Shown(es, s, k)
  }

  predicate AllUnseen(es: seq<Entry>, s: SequenceNumber, from: nat, to: nat)
    requires to <= |es|
  {
    forall k: nat :: from <= k < to ==> es[k].key.sequence > s
  }

  // The place of entry j in the view
  function Rank(es: seq<Entry>, s: SequenceNumber, j: nat): nat
    requires j <= |es|
  {
    |ViewUpTo(es, s, j)|
  }

  lemma {:induction false} ViewGrows(es: seq<Entry>, s: SequenceNumber, a: nat, b: nat)
    requires a <= b <= |es|
    ensures ViewUpTo(es, s, a) <= ViewUpTo(es, s, b)
    ensures NoneShown(es, s, a, b) <==> Rank(es, s, a) == Rank(es, s, b)
    decreases b
  {
    if a < b {
      ViewGrows(es, s, a, b - 1);
    }
  }

  lemma RankShown(es: seq<Entry>, s: SequenceNumber, j: nat)
    requires j < |es| && Shown(es, s, j)
    ensures Rank(es, s, j) < |View(es, s)| && Rank(es, s, j + 1) == Rank(es, s, j) + 1
    ensures View(es, s)[Rank(es, s, j)] == (es[j].key.user, es[j].value)
  {
    ViewGrows(es, s, j + 1, |es|);
  }

  lemma {:induction false} ViewMember(es: seq<Entry>, s: SequenceNumber, n: nat, p: nat) returns (j: nat)
    requires n <= |es| && p < Rank(es, s, n)
    ensures j < n && Shown(es, s, j) && Rank(es, s, j) == p
    ensures ViewUpTo(es, s, n)[p] == (es[j].key.user, es[j].value)
  {
    if p < Rank(es, s, n - 1) {
      j := ViewMember(es, s, n - 1, p);
    } else {
      j := n - 1;
    }
  }

  lemma ViewAscends(es: seq<Entry>, s: SequenceNumber, p: nat, q: nat)
    requires Sorted(es) && p < q < |View(es, s)|
    ensures View(es, s)[p].0 < View(es, s)[q].0
  {
    var i := ViewMember(es, s, |es|, p);
    var j := ViewMember(es, s, |es|, q);
    ViewGrows(es, s, if i < j then i else j, if i < j then j else i);
    assert i < j && es[i].key.user != es[j].key.user;
  }

  lemma ShownIsLatest(es: seq<Entry>, s: SequenceNumber, j: nat)
    requires Sorted(es) && j < |es| && Shown(es, s, j)
    ensures Latest(AsEntries(es), es[j].key.user, s) == Some(es[j])
  {
    var u := es[j].key.user;
    forall x | x in AsEntries(es) && VisibleTo(x, u, s)
      ensures x.key.sequence <= es[j].key.sequence
    {
      var k :| 0 <= k < |es| && es[k] == x;
      assert k < j ==> es[k].key.sequence > s;
    }
    LatestIs(AsEntries(es), u, s, es[j]);
  }

  lemma LatestIsShown(es: seq<Entry>, u: UserKey, s: SequenceNumber) returns (j: nat)
    requires Sorted(es) && Read(AsEntries(es), u, s).Some?
    ensures j < |es| && Shown(es, s, j) && es[j].key.user == u && Read(AsEntries(es), u, s) == Some(es[j].value)
  {
    var e := Latest(AsEntries(es), u, s).value;
    j :| 0 <= j < |es| && es[j] == e;
    forall k: nat | k < j && es[k].key.user == u
      ensures es[k].key.sequence > s
    {
      assert Before(es[k].key, es[j].key) && es[k] in AsEntries(es);
    }
  }

  /** The view is strictly ascending in user keys, and holds exactly what reads at s find. */
  lemma ViewIsReads(es: seq<Entry>, s: SequenceNumber)
    requires Sorted(es)
    ensures forall p, q :: 0 <= p < q < |View(es, s)| ==> View(es, s)[p].0 < View(es, s)[q].0
    ensures forall u, v :: (u, v) in View(es, s) <==> Read(AsEntries(es), u, s) == Some(v)
  {
    forall p, q | 0 <= p < q < |View(es, s)|
      ensures View(es, s)[p].0 < View(es, s)[q].0
    {
      ViewAscends(es, s, p, q);
    }
    forall u, v
      ensures (u, v) in View(es, s) <==> Read(AsEntries(es), u, s) == Some(v)
    {
      ViewHoldsReads(es, s, u, v);
    }
  }

  lemma ViewHoldsReads(es: seq<Entry>, s: SequenceNumber, u: UserKey, v: string)
    requires Sorted(es)
    ensures (u, v) in View(es, s) <==> Read(AsEntries(es), u, s) == Some(v)
  {
    if (u, v) in View(es, s) {
      var p :| 0 <= p < |View(es, s)| && View(es, s)[p] == (u, v);
      var j := ViewMember(es, s, |es|, p);
      ShownIsLatest(es, s, j);
    }
    if Read(AsEntries(es), u, s) == Some(v) {
      var j := LatestIsShown(es, u, s);
      RankShown(es, s, j);
    }
  }

  // An internal iterator at position i is on the near side of the entries of j's user key.
  predicate JustBefore(es: seq<Entry>, s: SequenceNumber, i: nat, j: nat)
    requires j < |es|
  {
    if i < |es| then i < j && es[i].key.user < es[j].key.user && AllUnseen(es, s, i + 1, j)
    else AllUnseen(es, s, 0, j)
  }

  // Entry k comes after the key being skipped.
  predicate PastSkip(es: seq<Entry>, k: nat, skipping: bool, skip: Option<UserKey>)
    requires k < |es|
  {
    skipping ==> skip.Some? && skip.value < es[k].key.user
  }

  // Entry k keeps a later entry m of the same user key from being shown.
  predicate Hides(es: seq<Entry>, s: SequenceNumber, k: nat, m: nat)
    requires k < |es| && m < |es|
  {
    es[k].key.sequence <= s && es[k].key.user == es[m].key.user
  }

  // A forward scan may start here: the skipped key is not past any entry it will see, and what lies
  // behind hides nothing it may yield.
  predicate CanScan(es: seq<Entry>, s: SequenceNumber, start: nat, skipping: bool, skip: Option<UserKey>) {
    && (skipping ==> skip.Some? && forall k: nat :: start <= k < |es| && es[k].key.sequence <= s ==> skip.value <= es[k].key.user)
    && forall k: nat, m: nat :: k < start <= m < |es| && Hides(es, s, k, m) ==> !PastSkip(es, m, skipping, skip)
  }

  // What FindNextUserEntry knows once it has looked at the entries with index in [start, i)
  ghost predicate ScannedForward(es: seq<Entry>, s: SequenceNumber, start: nat, i: nat, skipping0: bool, skip0: Option<UserKey>,
                                 skipping: bool, skip: Option<UserKey>)
    requires start <= i <= |es|
  {
    && (skipping ==> skip.Some?) && (skipping0 ==> skipping && skip0.Some? && skip0.value <= skip.value)
    && (skipping ==> (skipping0 && skip == skip0)
                     || exists d: nat :: start <= d < i && es[d].key.sequence <= s && skip == Some(es[d].key.user))
    && (forall k: nat :: start <= k < i && es[k].key.sequence <= s ==> skipping && es[k].key.user <= skip.value)
    && (forall k: nat :: start <= k < i && PastSkip(es, k, skipping0, skip0) ==> !Shown(es, s, k))
  }

  // An entry FindNextUserEntry passes over
  lemma SkipEntry(es: seq<Entry>, s: SequenceNumber, start: nat, i: nat, skipping0: bool, skip0: Option<UserKey>,
                  skipping: bool, skip: Option<UserKey>, skipping': bool, skip': Option<UserKey>)
    requires Sorted(es) && start <= i < |es| && CanScan(es, s, start, skipping0, skip0)
    requires ScannedForward(es, s, start, i, skipping0, skip0, skipping, skip)
    requires if es[i].key.sequence <= s && es[i].key.vtype.Deletion? then skipping' && skip' == Some(es[i].key.user)
             else skipping' == skipping && skip' == skip
                  && (es[i].key.sequence <= s ==> skipping && es[i].key.user <= skip.value)
    ensures ScannedForward(es, s, start, i + 1, skipping0, skip0, skipping', skip')
  {
    assert forall k: nat :: start <= k < i ==> Before(es[k].key, es[i].key);
  }

  // The entry FindNextUserEntry stops at
  lemma StopEntry(es: seq<Entry>, s: SequenceNumber, start: nat, i: nat, skipping0: bool, skip0: Option<UserKey>,
                  skipping: bool, skip: Option<UserKey>)
    requires Sorted(es) && start <= i < |es| && CanScan(es, s, start, skipping0, skip0)
    requires ScannedForward(es, s, start, i, skipping0, skip0, skipping, skip)
    requires es[i].key.sequence <= s && es[i].key.vtype.Value? && !(skipping && es[i].key.user <= skip.value)
    ensures Shown(es, s, i) && PastSkip(es, i, skipping0, skip0)
  {
    assert PastSkip(es, i, skipping0, skip0);
    forall k: nat | k < i && es[k].key.user == es[i].key.user
      ensures es[k].key.sequence > s
    {
      assert k < start ==> !Hides(es, s, k, i);
    }
  }

  // What FindPrevUserEntry knows once it has looked at the entries with index in [n, hi)
  predicate ScannedBack(es: seq<Entry>, s: SequenceNumber, n: nat, hi: nat, vtype: ValueType, c: nat, key: Option<UserKey>, value: string)
    requires hi <= |es|
  {
    if vtype.Deletion? then NoneShown(es, s, n, hi)
    else
      && n <= c < hi && es[c].key.sequence <= s && es[c].key.vtype.Value?
      && key == Some(es[c].key.user) && value == es[c].value
      && AllUnseen(es, s, n, c) && NoneShown(es, s, c + 1, hi)
  }

  // An entry FindPrevUserEntry takes into account
  lemma TakeEntry(es: seq<Entry>, s: SequenceNumber, i: nat, hi: nat, vtype: ValueType, c: nat, key: Option<UserKey>, value: string)
    requires Sorted(es) && i < hi <= |es| && ScannedBack(es, s, i + 1, hi, vtype, c, key, value)
    requires es[i].key.sequence <= s && !(vtype.Value? && es[i].key.user < key.value)
    ensures NoneShown(es, s, i + 1, hi)
  {
    if vtype.Value? {
      assert Before(es[i].key, es[c].key);
    }
  }

  // Where FindPrevUserEntry stops with a value, that value is shown.
  lemma StopBack(es: seq<Entry>, s: SequenceNumber, n: nat, hi: nat, c: nat, key: Option<UserKey>, value: string)
    requires Sorted(es) && hi <= |es| && ScannedBack(es, s, n, hi, Value, c, key, value)
    requires n == 0 || es[n - 1].key.user < key.value
    ensures Shown(es, s, c)
  {
    assert forall k: nat :: k < n - 1 ==> Before(es[k].key, es[n - 1].key);
    forall k: nat | k < c && es[k].key.user == es[c].key.user
      ensures n <= k && es[k].key.sequence > s
    {
    }
    assert es[c].key.vtype.Value? && es[c].key.sequence <= s;
  }

  class DBIter {
    const iter: MergingIterator
    const sequence: SequenceNumber
    var savedKey: Option<UserKey>
    var savedValue: string
    var direction: Direction
    var valid: bool
    ghost var at: nat      // where the internal iterator stands

    constructor (iter: MergingIterator, s: SequenceNumber)
      requires iter.Valid()
      ensures Valid() && !valid && this.iter == iter && sequence == s
    {
      this.iter, sequence := iter, s;
      savedKey, savedValue := None, "";
      direction, valid := Forward, false;
      at := var i :| iter.At(i); i;
      new;
      assert Shows(|iter.union|) && At(Rank(iter.union, sequence, |iter.union|));
    }

    ghost predicate Ready()
      reads this, iter, iter.pos
    {
      iter.At(at)
    }

    // The iterator shows entry j of the internal entries; j == |union| means it is not valid.
    ghost predicate Shows(j: nat)
      reads this, iter, iter.pos
    {
      && Ready() && j <= |iter.union| && (valid <==> j < |iter.union|)
      && (j < |iter.union| ==>
            && Shown(iter.union, sequence, j)
            && if direction.Forward? then at == j
               else JustBefore(iter.union, sequence, at, j) && savedKey == Some(iter.union[j].key.user) && savedValue == iter.union[j].value)
    }

    /** The iterator stands at place p of the view; p == |view| means it is not valid. */
    ghost predicate At(p: nat)
      reads this, iter, iter.pos
    {
      exists j: nat :: Shows(j) && p == Rank(iter.union, sequence, j)
    }

    ghost predicate Valid()
      reads this, iter, iter.pos
    {
      exists p: nat :: At(p)
    }

    ghost function Visible(): seq<(UserKey, string)>
      reads this
    {
      View(iter.union, sequence)
    }

    // iter_->key() and iter_->value() together
    function Current(): (e: Entry)
      requires Ready() && at < |iter.union|
      reads this, iter, iter.pos
      ensures e == iter.union[at]
    {
      iter.lists[iter.current.value][iter.pos[iter.current.value]]
    }

    method Key(ghost p: nat) returns (u: UserKey)
      requires At(p) && valid
      ensures p < |Visible()| && u == Visible()[p].0
    {
      ghost var j: nat :| Shows(j) && p == Rank(iter.union, sequence, j);
      RankShown(iter.union, sequence, j);
      u := if direction.Forward? then Current().key.user else savedKey.value;
    }

    method GetValue(ghost p: nat) returns (v: string)
      requires At(p) && valid
      ensures p < |Visible()| && v == Visible()[p].1
    {
      ghost var j: nat :| Shows(j) && p == Rank(iter.union, sequence, j);
      RankShown(iter.union, sequence, j);
      v := if direction.Forward? then Current().value else savedValue;
    }

    // The internal iterator's own moves
    method IterNext()
      requires Ready() && at < |iter.union|
      modifies this`at, iter, iter.pos
      ensures Ready() && at == old(at) + 1
    {
      iter.Next(at);
      at := at + 1;
    }

    method IterPrev()
      requires Ready() && at < |iter.union|
      modifies this`at, iter, iter.pos
      ensures Ready() && at == if old(at) == 0 then |iter.union| else old(at) - 1
    {
      iter.Prev(at);
      at := if at == 0 then |iter.union| else at - 1;
    }

    /** Stops at the first shown entry from here on that is past the skipped key. */
    method FindNextUserEntry(skipping0: bool)
      requires Ready() && at < |iter.union| && direction.Forward?
      requires CanScan(iter.union, sequence, at, skipping0, savedKey)
      modifies this, iter, iter.pos
      ensures direction == old(direction) && old(at) <= at && Shows(at)
      ensures forall k: nat :: old(at) <= k < at && PastSkip(iter.union, k, skipping0, old(savedKey)) ==> !Shown(iter.union, sequence, k)
      ensures at < |iter.union| ==> PastSkip(iter.union, at, skipping0, old(savedKey))
    {
      ghost var es, s, start, skip0 := iter.union, sequence, at, savedKey;
      var skipping := skipping0;
      while true
        invariant Ready() && start <= at < |es| && direction.Forward?
        invariant ScannedForward(es, s, start, at, skipping0, skip0, skipping, savedKey)
        decreases |es| - at
      {
        var e := Current();
        ghost var wasSkipping, skip := skipping, savedKey;
        if e.key.sequence <= sequence {
          if e.key.vtype.Deletion? {
            savedKey := Some(e.key.user);
            skipping := true;
          } else if skipping && e.key.user <= savedKey.value {
            // hidden by a newer entry of its user key, or its key is being skipped
          } else {
            StopEntry(es, s, start, at, skipping0, skip0, skipping, savedKey);
            valid := true;
            savedKey := None;
            return;
          }
        }
        SkipEntry(es, s, start, at, skipping0, skip0, wasSkipping, skip, skipping, savedKey);
        IterNext();
        if iter.current.None? { break; }
      }
      savedKey := None;
      valid := false;
    }

    // The index one past the entries the internal iterator has yet to yield going backwards
    ghost function Ahead(): (n: nat)
      requires Ready()
      reads this, iter, iter.pos
      ensures n <= |iter.union|
    {
      if at == |iter.union| then 0 else at + 1
    }

    /** Stops at the last shown entry from here backwards. */
    method FindPrevUserEntry() returns (ghost j: nat)
      requires Ready() && direction.Reverse?
      modifies this, iter, iter.pos
      ensures Shows(j)
      ensures if j < |iter.union| then j < old(Ahead()) && NoneShown(iter.union, sequence, j + 1, old(Ahead()))
              else NoneShown(iter.union, sequence, 0, old(Ahead()))
    {
      ghost var es, s, hi := iter.union, sequence, Ahead();
      var valueType := Deletion;
      j := 0;
      while iter.current.Some?
        invariant Ready() && Ahead() <= hi && direction.Reverse?
        invariant ScannedBack(es, s, Ahead(), hi, valueType, j, savedKey, savedValue)
        decreases Ahead()
      {
        var e := Current();
        if e.key.sequence <= sequence {
          if valueType.Value? && e.key.user < savedKey.value {
            break;
          }
          TakeEntry(es, s, at, hi, valueType, j, savedKey, savedValue);
          valueType := e.key.vtype;
          if valueType.Deletion? {
            savedKey, savedValue := None, "";
          } else {
            savedKey, savedValue := Some(e.key.user), e.value;
            j := at;
          }
        }
        IterPrev();
      }
      if valueType.Deletion? {
        valid, savedKey, savedValue, direction := false, None, "", Forward;
        j := |es|;
      } else {
        StopBack(es, s, Ahead(), hi, j, savedKey, savedValue);
        valid := true;
      }
    }

    // Next's change of direction: the internal iterator steps over what lies between the previous
    // visible key and entry j, and the forward scan will skip j's user key.
    method TurnForward(ghost j: nat)
      requires Shows(j) && valid
      modifies this, iter, iter.pos
      ensures direction.Forward? && Ready() && at <= j && CanScan(iter.union, sequence, at, true, savedKey)
      ensures savedKey == Some(iter.union[j].key.user)
    {
      if direction.Reverse? {
        direction := Forward;
        if iter.current.None? {
          iter.SeekToFirst();
          at := 0;
        } else {
          IterNext();
        }
        // The source gives up here if the internal iterator is exhausted; entry j lies ahead, so it never is.
        assert iter.current.Some?;
      } else {
        savedKey := Some(Current().key.user);
      }
      TurnedForward(iter.union, sequence, at, j);
    }

    /** Moves to the next place of the view, whatever the direction so far. */
    method Next(ghost p: nat)
      requires At(p) && valid
      modifies this, iter, iter.pos
      ensures p < |Visible()| && At(p + 1)
    {
      ghost var j: nat :| Shows(j) && p == Rank(iter.union, sequence, j);
      TurnForward(j);
      ghost var start := at;
      FindNextUserEntry(true);
      NextPlace(iter.union, sequence, start, j, at);
    }

    // Prev's change of direction: scan backwards until the user key changes.
    method TurnBack(ghost j: nat) returns (more: bool)
      requires Shows(j) && valid
      modifies this, iter, iter.pos
      ensures Ready() && NoneShown(iter.union, sequence, Ahead(), j) && Ahead() <= j
      ensures if more then direction.Reverse? else !valid && Ahead() == 0
    {
      more := true;
      if direction.Forward? {
        savedKey := Some(Current().key.user);
        while true
          invariant Ready() && at <= j && direction.Forward?
          invariant savedKey == Some(iter.union[j].key.user) && iter.union[at].key.user == iter.union[j].key.user
          invariant NoneShown(iter.union, sequence, at, j)
          decreases at
        {
          IterPrev();
          if iter.current.None? {
            valid, savedKey, savedValue := false, None, "";
            return false;
          }
          if Current().key.user < savedKey.value { break; }
        }
        direction := Reverse;
      }
    }

    /** Moves to the previous place of the view, whatever the direction so far. */
    method Prev(ghost p: nat)
      requires At(p) && valid
      modifies this, iter, iter.pos
      ensures p < |Visible()| && At(if p == 0 then |Visible()| else p - 1)
    {
      ghost var j: nat :| Shows(j) && p == Rank(iter.union, sequence, j);
      RankShown(iter.union, sequence, j);
      var more := TurnBack(j);
      ghost var hi, j' := Ahead(), |iter.union|;
      if more {
        j' := FindPrevUserEntry();
      }
      PrevPlace(iter.union, sequence, j, hi, j');
    }

    /** Moves to the first visible key at or after target. */
    method Seek(target: UserKey) returns (ghost p: nat)
      requires Valid()
      modifies this, iter, iter.pos
      ensures At(p) && p <= |Visible()|
      ensures forall q :: 0 <= q < |Visible()| ==> (q < p <==> Visible()[q].0 < target)
    {
      ghost var es, s := iter.union, sequence;
      direction, savedValue, savedKey := Forward, "", None;
      iter.Seek(SeekKey(target, sequence));
      at := SeekIndex(es, SeekKey(target, sequence));
      ghost var start := at;
      if iter.current.Some? {
        FindNextUserEntry(false);
      } else {
        valid := false;
      }
      p := Rank(es, s, at);
      SeekPlace(es, s, target, start, at);
    }

    method SeekToFirst()
      requires Valid()
      modifies this, iter, iter.pos
      ensures At(0)
    {
      direction, savedValue := Forward, "";
      iter.SeekToFirst();
      at := 0;
      if iter.current.Some? {
        FindNextUserEntry(false);
      } else {
        valid := false;
      }
      ViewGrows(iter.union, sequence, 0, at);
    }

    method SeekToLast()
      requires Valid()
      modifies this, iter, iter.pos
      ensures At(if Visible() == [] then 0 else |Visible()| - 1)
    {
      ghost var es, s := iter.union, sequence;
      direction, savedValue := Reverse, "";
      iter.SeekToLast();
      at := if es == [] then 0 else |es| - 1;
      ghost var j := FindPrevUserEntry();
      LastPlace(es, s, j);
    }
  }

  lemma TurnedForward(es: seq<Entry>, s: SequenceNumber, at: nat, j: nat)
    requires Sorted(es) && at <= j < |es| && Shown(es, s, j) && AllUnseen(es, s, at, j)
    requires at == 0 || at == j || es[at - 1].key.user < es[j].key.user
    ensures CanScan(es, s, at, true, Some(es[j].key.user))
  {
    forall k: nat, m: nat | k < at <= m < |es| && Hides(es, s, k, m)
      ensures es[m].key.user <= es[j].key.user
    {
    }
  }

  lemma NextPlace(es: seq<Entry>, s: SequenceNumber, start: nat, j: nat, j': nat)
    requires Sorted(es) && j < |es| && Shown(es, s, j) && start <= j && start <= j' <= |es|
    requires j' < |es| ==> PastSkip(es, j', true, Some(es[j].key.user))
    requires forall k: nat :: start <= k < j' && PastSkip(es, k, true, Some(es[j].key.user)) ==> !Shown(es, s, k)
    ensures Rank(es, s, j) < |View(es, s)| && Rank(es, s, j') == Rank(es, s, j) + 1
  {
    RankShown(es, s, j);
    forall k: nat | j < k < j'
      ensures !Shown(es, s, k)
    {
      assert Before(es[j].key, es[k].key);
    }
    ViewGrows(es, s, j + 1, j');
  }

  lemma PrevPlace(es: seq<Entry>, s: SequenceNumber, j: nat, hi: nat, j': nat)
    requires j < |es| && Shown(es, s, j) && hi <= j && NoneShown(es, s, hi, j) && j' <= |es|
    requires if j' < |es| then j' < hi && Shown(es, s, j') && NoneShown(es, s, j' + 1, hi) else NoneShown(es, s, 0, hi)
    ensures Rank(es, s, j') == if Rank(es, s, j) == 0 then |View(es, s)| else Rank(es, s, j) - 1
  {
    ViewGrows(es, s, hi, j);
    if j' < |es| {
      RankShown(es, s, j');
      ViewGrows(es, s, j' + 1, hi);
    } else {
      ViewGrows(es, s, 0, hi);
    }
  }

  lemma LastPlace(es: seq<Entry>, s: SequenceNumber, j: nat)
    requires j <= |es| && if j < |es| then Shown(es, s, j) && NoneShown(es, s, j + 1, |es|) else NoneShown(es, s, 0, |es|)
    ensures Rank(es, s, j) == if View(es, s) == [] then 0 else |View(es, s)| - 1
  {
    if j < |es| {
      RankShown(es, s, j);
      ViewGrows(es, s, j + 1, |es|);
    } else {
      ViewGrows(es, s, 0, |es|);
    }
  }

  lemma SeekPlace(es: seq<Entry>, s: SequenceNumber, target: UserKey, start: nat, j: nat)
    requires Sorted(es) && start == SeekIndex(es, SeekKey(target, s)) && start <= j <= |es|
    requires NoneShown(es, s, start, j)
    ensures Rank(es, s, j) <= |View(es, s)|
    ensures forall q :: 0 <= q < |View(es, s)| ==> (q < Rank(es, s, j) <==> View(es, s)[q].0 < target)
  {
    ViewGrows(es, s, start, j);
    ViewGrows(es, s, j, |es|);
    forall q | 0 <= q < |View(es, s)|
      ensures q < Rank(es, s, j) <==> View(es, s)[q].0 < target
    {
      var m := ViewMember(es, s, |es|, q);
      if m < start {
        assert Before(es[m].key, SeekKey(target, s));
        RankShown(es, s, m);
        ViewGrows(es, s, m + 1, start);
      } else {
        assert !Before(es[m].key, SeekKey(target, s));
        ViewGrows(es, s, start, m);
      }
    }
  }
}
