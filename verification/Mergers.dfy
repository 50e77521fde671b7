/** MergingIterator (table/merger.cc): a bidirectional cursor over the sorted union of its children.

    A child is an iterator over a sorted list of entries, held by its position; the position just
    past the end stands for every invalid state of the child. */
module Mergers {
  import opened Keys
  import opened Store
  import opened Versions

  datatype Direction = Forward | Reverse

  // Iterator::Prev and SeekToLast of a child
  function PrevPos(list: seq<Entry>, p: nat): nat { if p == 0 then |list| else p - 1 }
  function LastPos(list: seq<Entry>): nat { if list == [] then 0 else |list| - 1 }

  /** union is the sorted union of the lists, which share no entry. */
  ghost predicate IsUnion(lists: seq<seq<Entry>>, union: seq<Entry>) {
    && Sorted(union) && (forall k :: 0 <= k < |lists| ==> Sorted(lists[k]))
    && (forall k, e :: 0 <= k < |lists| && e in lists[k] ==> e in union)
    && (forall e :: e in union ==> exists k :: 0 <= k < |lists| && e in lists[k])
    && (forall k, m, e :: 0 <= k < m < |lists| && e in lists[k] ==> e !in lists[m])
  }

  // e comes before position i of the union.
  ghost predicate Earlier(e: Entry, union: seq<Entry>, i: nat)
    requires i <= |union|
  {
    i == |union| || Before(e.key, union[i].key)
  }

  // p cuts the list where position i cuts the union.
  ghost predicate Split(list: seq<Entry>, p: nat, union: seq<Entry>, i: nat)
    requires i <= |union|
  {
    p <= |list| && forall j :: 0 <= j < |list| ==> (j < p <==> Earlier(list[j], union, i))
  }

  // p is the last position of the list before position i of the union, or invalid.
  ghost predicate SplitBefore(list: seq<Entry>, p: nat, union: seq<Entry>, i: nat)
    requires i <= |union|
  {
    p <= |list| && Split(list, if p == |list| then 0 else p + 1, union, i)
  }

  class MergingIterator {
    ghost const union: seq<Entry>
    const lists: seq<seq<Entry>>
    const pos: array<nat>
    var current: Option<nat>
    var direction: Direction

    constructor (lists: seq<seq<Entry>>, ghost union: seq<Entry>)
      requires IsUnion(lists, union)
      ensures Valid() && fresh(pos) && this.lists == lists && this.union == union && current.None?
    {
      this.lists, this.union := lists, union;
      pos := new nat[|lists|](i requires 0 <= i < |lists| => |lists[i]|);
      current, direction := None, Forward;
      new;
      assert At(|union|);
    }

    ghost predicate Base()
      reads this, pos
    {
      && IsUnion(lists, union) && pos.Length == |lists|
      && (forall k :: 0 <= k < |lists| ==> pos[k] <= |lists[k]|)
      && (current.Some? ==> current.value < |lists| && pos[current.value] < |lists[current.value]|)
    }

    // The children other than the current one stand just after it, or just before it.
    ghost predicate Placed(i: nat)
      requires Base() && i < |union|
      reads this, pos
    {
      forall k :: 0 <= k < |lists| ==>
        if direction.Forward? || current == Some(k) then Split(lists[k], pos[k], union, i)
        else SplitBefore(lists[k], pos[k], union, i)
    }

    /** The iterator stands at entry i of the union; i == |union| means it is invalid. */
    ghost predicate At(i: nat)
      reads this, pos
    {
      && Base()
      && (if i < |union| then
            current.Some? && lists[current.value][pos[current.value]] == union[i] && Placed(i)
          else i == |union| && current.None?)
    }

    ghost predicate Valid()
      reads this, pos
    {
      exists i :: At(i)
    }

    method FindSmallest(ghost i: nat)
      requires Base() && direction.Forward? && i <= |union|
      requires forall k :: 0 <= k < |lists| ==> Split(lists[k], pos[k], union, i)
      modifies this`current
      ensures At(i)
    {
      var smallest: Option<nat> := None;
      for k := 0 to |lists|
        invariant smallest.None? ==> forall m :: 0 <= m < k ==> pos[m] == |lists[m]|
        invariant smallest.Some? ==> smallest.value < k && pos[smallest.value] < |lists[smallest.value]|
        invariant smallest.Some? ==> forall m :: 0 <= m < k && pos[m] < |lists[m]| ==>
                    !Before(lists[m][pos[m]].key, lists[smallest.value][pos[smallest.value]].key)
      {
        if pos[k] < |lists[k]| {
          if smallest.None? || Before(lists[k][pos[k]].key, lists[smallest.value][pos[smallest.value]].key) {
            smallest := Some(k);
          }
        }
      }
      SmallestIsNext(lists, pos[..], union, i, smallest);
      current := smallest;
    }

    method FindLargest(ghost i: nat)
      requires Base() && direction.Reverse? && i <= |union|
      requires forall k :: 0 <= k < |lists| ==> SplitBefore(lists[k], pos[k], union, i)
      modifies this`current
      ensures At(if i == 0 then |union| else i - 1)
    {
      var largest: Option<nat> := None;
      var k := |lists|;
      while k > 0
        invariant Base() && 0 <= k <= |lists|
        invariant largest.None? ==> forall m :: k <= m < |lists| ==> pos[m] == |lists[m]|
        invariant largest.Some? ==> k <= largest.value < |lists| && pos[largest.value] < |lists[largest.value]|
        invariant largest.Some? ==> forall m :: k <= m < |lists| && pos[m] < |lists[m]| ==>
                    !Before(lists[largest.value][pos[largest.value]].key, lists[m][pos[m]].key)
      {
        k := k - 1;
        if pos[k] < |lists[k]| {
          if largest.None? || Before(lists[largest.value][pos[largest.value]].key, lists[k][pos[k]].key) {
            largest := Some(k);
          }
        }
      }
      LargestIsPrevious(lists, pos[..], union, i, largest);
      current := largest;
    }

    method SeekToFirst()
      requires Valid()
      modifies this, pos
      ensures At(0)
    {
      for k := 0 to |lists|
        invariant Base() || current.Some?
        invariant IsUnion(lists, union) && pos.Length == |lists|
        invariant forall m :: 0 <= m < k ==> pos[m] == 0
      {
        pos[k] := 0;
      }
      current, direction := None, Forward;
      NothingEarlier(lists, union);
      FindSmallest(0);
    }

    method SeekToLast()
      requires Valid()
      modifies this, pos
      ensures At(if union == [] then 0 else |union| - 1)
    {
      for k := 0 to |lists|
        invariant IsUnion(lists, union) && pos.Length == |lists|
        invariant forall m :: 0 <= m < k ==> pos[m] == LastPos(lists[m])
      {
        pos[k] := LastPos(lists[k]);
      }
      current, direction := None, Reverse;
      forall k | 0 <= k < |lists|
        ensures SplitBefore(lists[k], pos[k], union, |union|)
      {
      }
      FindLargest(|union|);
    }

    /** Stands at the first entry of the union at or after target. */
    method Seek(target: InternalKey)
      requires Valid()
      modifies this, pos
      ensures At(SeekIndex(union, target))
    {
      for k := 0 to |lists|
        invariant IsUnion(lists, union) && pos.Length == |lists|
        invariant forall m :: 0 <= m < k ==> pos[m] == SeekIndex(lists[m], target)
      {
        pos[k] := SeekIndex(lists[k], target);
      }
      current, direction := None, Forward;
      forall k | 0 <= k < |lists|
        ensures Split(lists[k], pos[k], union, SeekIndex(union, target))
      {
        SeekSplits(lists, k, union, target);
      }
      FindSmallest(SeekIndex(union, target));
    }

    /** Moves to the next entry of the union, whatever the direction so far. */
    method Next(ghost i: nat)
      requires At(i) && i < |union|
      modifies this, pos
      ensures At(i + 1)
    {
      var cur := current.value;
      if direction.Reverse? {
        for k := 0 to |lists|
          invariant Base() && current == Some(cur) && lists[cur][pos[cur]] == union[i] && direction.Reverse?
          invariant forall m :: 0 <= m < k || m == cur ==> Split(lists[m], pos[m], union, i)
        {
          if k != cur {
            var p := SeekIndex(lists[k], lists[cur][pos[cur]].key);
            SeekSplits(lists, k, union, union[i].key);
            SeekUnion(union, i);
            KeyNotInOther(lists, union, cur, k, i);
            if p < |lists[k]| && lists[k][p].key == lists[cur][pos[cur]].key {
              p := p + 1;
            }
            pos[k] := p;
          }
        }
        direction := Forward;
      }
      forall k | 0 <= k < |lists|
        ensures Split(lists[k], if k == cur then pos[k] + 1 else pos[k], union, i + 1)
      {
        StepSplit(lists, union, cur, pos[cur], k, pos[k], i);
      }
      pos[cur] := pos[cur] + 1;
      current := None;
      FindSmallest(i + 1);
    }

    /** Moves to the previous entry of the union, whatever the direction so far. */
    method Prev(ghost i: nat)
      requires At(i) && i < |union|
      modifies this, pos
      ensures At(if i == 0 then |union| else i - 1)
    {
      var cur := current.value;
      if direction.Forward? {
        for k := 0 to |lists|
          invariant Base() && current == Some(cur) && lists[cur][pos[cur]] == union[i] && direction.Forward?
          invariant Split(lists[cur], pos[cur], union, i)
          invariant forall m :: 0 <= m < k && m != cur ==> SplitBefore(lists[m], pos[m], union, i)
        {
          if k != cur {
            var p := SeekIndex(lists[k], lists[cur][pos[cur]].key);
            SeekSplits(lists, k, union, union[i].key);
            SeekUnion(union, i);
            pos[k] := if p < |lists[k]| then PrevPos(lists[k], p) else LastPos(lists[k]);
          }
        }
        direction := Reverse;
      }
      pos[cur] := PrevPos(lists[cur], pos[cur]);
      current := None;
      FindLargest(i);
    }
  }

  lemma Locate(lists: seq<seq<Entry>>, union: seq<Entry>, e: Entry) returns (k: nat, j: nat)
    requires IsUnion(lists, union) && e in union
    ensures k < |lists| && j < |lists[k]| && lists[k][j] == e
  {
    k :| 0 <= k < |lists| && e in lists[k];
    j :| 0 <= j < |lists[k]| && lists[k][j] == e;
  }

  lemma SmallestIsNext(lists: seq<seq<Entry>>, pos: seq<nat>, union: seq<Entry>, i: nat, smallest: Option<nat>)
    requires IsUnion(lists, union) && |pos| == |lists| && i <= |union|
    requires forall k :: 0 <= k < |lists| ==> Split(lists[k], pos[k], union, i)
    requires smallest.None? ==> forall m :: 0 <= m < |lists| ==> pos[m] == |lists[m]|
    requires smallest.Some? ==> smallest.value < |lists| && pos[smallest.value] < |lists[smallest.value]|
    requires smallest.Some? ==> forall m :: 0 <= m < |lists| && pos[m] < |lists[m]| ==>
               !Before(lists[m][pos[m]].key, lists[smallest.value][pos[smallest.value]].key)
    ensures smallest.Some? <==> i < |union|
    ensures smallest.Some? ==> lists[smallest.value][pos[smallest.value]] == union[i]
  {
    if i < |union| {
      var k, j := Locate(lists, union, union[i]);
      assert Split(lists[k], pos[k], union, i) && pos[k] <= j;
      var s := smallest.value;
      assert Split(lists[s], pos[s], union, i);
      SameEntry(union, union[i], lists[s][pos[s]]);
    }
  }

  lemma SameEntry(union: seq<Entry>, a: Entry, b: Entry)
    requires Sorted(union) && a in union && b in union
    requires !Before(a.key, b.key) && !Before(b.key, a.key)
    ensures a == b
  {
  }

  lemma LastEarlier(union: seq<Entry>, e: Entry, i: nat)
    requires Sorted(union) && i <= |union| && e in union && Earlier(e, union, i)
    ensures i > 0 && (e == union[i - 1] || Before(e.key, union[i - 1].key))
  {
  }

  lemma LargestIsPrevious(lists: seq<seq<Entry>>, pos: seq<nat>, union: seq<Entry>, i: nat, largest: Option<nat>)
    requires IsUnion(lists, union) && |pos| == |lists| && i <= |union|
    requires forall k :: 0 <= k < |lists| ==> SplitBefore(lists[k], pos[k], union, i)
    requires largest.None? ==> forall m :: 0 <= m < |lists| ==> pos[m] == |lists[m]|
    requires largest.Some? ==> largest.value < |lists| && pos[largest.value] < |lists[largest.value]|
    requires largest.Some? ==> forall m :: 0 <= m < |lists| && pos[m] < |lists[m]| ==>
               !Before(lists[largest.value][pos[largest.value]].key, lists[m][pos[m]].key)
    ensures largest.Some? <==> i > 0
    ensures largest.Some? ==> lists[largest.value][pos[largest.value]] == union[i - 1]
    ensures i > 0 ==> forall k :: 0 <= k < |lists| ==>
              if largest == Some(k) then Split(lists[k], pos[k], union, i - 1) else SplitBefore(lists[k], pos[k], union, i - 1)
  {
    if i > 0 {
      var k, j := Locate(lists, union, union[i - 1]);
      assert Earlier(lists[k][j], union, i);
      assert SplitBefore(lists[k], pos[k], union, i) && j <= pos[k] < |lists[k]|;
      var s := largest.value;
      var e := lists[s][pos[s]];
      assert SplitBefore(lists[s], pos[s], union, i) && Earlier(e, union, i);
      LastEarlier(union, e, i);
      assert j < pos[k] ==> Before(union[i - 1].key, lists[k][pos[k]].key);
      SameEntry(union, union[i - 1], e);
      forall m | 0 <= m < |lists|
        ensures if m == s then Split(lists[m], pos[m], union, i - 1) else SplitBefore(lists[m], pos[m], union, i - 1)
      {
        StepBack(lists, union, s, m, pos[m], i);
      }
    } else {
      NothingEarlier(lists, union);
    }
  }

  lemma NothingEarlier(lists: seq<seq<Entry>>, union: seq<Entry>)
    requires IsUnion(lists, union)
    ensures forall k, p: nat :: 0 <= k < |lists| && SplitBefore(lists[k], p, union, 0) ==> p == |lists[k]|
    ensures forall k :: 0 <= k < |lists| ==> Split(lists[k], 0, union, 0)
  {
    forall k, j | 0 <= k < |lists| && 0 <= j < |lists[k]|
      ensures !Earlier(lists[k][j], union, 0)
    {
      assert lists[k][j] in union;
    }
    forall k, p: nat | 0 <= k < |lists| && SplitBefore(lists[k], p, union, 0)
      ensures p == |lists[k]|
    {
      SplitUnique(lists[k], 0, if p == |lists[k]| then 0 else p + 1, union, 0);
    }
  }

  lemma SplitUnique(list: seq<Entry>, a: nat, b: nat, union: seq<Entry>, i: nat)
    requires i <= |union| && Split(list, a, union, i) && Split(list, b, union, i)
    ensures a == b
  {
    assert a < |list| ==> (a < b <==> Earlier(list[a], union, i));
    assert b < |list| ==> (b < a <==> Earlier(list[b], union, i));
  }

  lemma StepBack(lists: seq<seq<Entry>>, union: seq<Entry>, s: nat, m: nat, p: nat, i: nat)
    requires IsUnion(lists, union) && s < |lists| && m < |lists| && 0 < i <= |union|
    requires union[i - 1] in lists[s] && SplitBefore(lists[m], p, union, i)
    requires m == s ==> p < |lists[m]| && lists[m][p] == union[i - 1]
    ensures if m == s then Split(lists[m], p, union, i - 1) else SplitBefore(lists[m], p, union, i - 1)
  {
    forall j | 0 <= j < |lists[m]|
      ensures Earlier(lists[m][j], union, i - 1) <==> Earlier(lists[m][j], union, i) && lists[m][j] != union[i - 1]
    {
      var e := lists[m][j];
      assert e in union;
      if Earlier(e, union, i) {
        LastEarlier(union, e, i);
      }
    }
    if m != s {
      assert forall e :: e in lists[m] ==> e != union[i - 1];
    }
  }

  lemma SeekSplits(lists: seq<seq<Entry>>, k: nat, union: seq<Entry>, target: InternalKey)
    requires IsUnion(lists, union) && k < |lists|
    ensures Split(lists[k], SeekIndex(lists[k], target), union, SeekIndex(union, target))
  {
    var i := SeekIndex(union, target);
    forall j | 0 <= j < |lists[k]|
      ensures Earlier(lists[k][j], union, i) <==> Before(lists[k][j].key, target)
    {
      assert lists[k][j] in union;
      var m :| 0 <= m < |union| && union[m] == lists[k][j];
      assert m < i <==> Before(union[m].key, target);
    }
  }

  lemma SeekUnion(union: seq<Entry>, i: nat)
    requires Sorted(union) && i < |union|
    ensures SeekIndex(union, union[i].key) == i
  {
    var p := SeekIndex(union, union[i].key);
    assert p <= i && !Before(union[p].key, union[i].key);
  }

  lemma KeyNotInOther(lists: seq<seq<Entry>>, union: seq<Entry>, cur: nat, k: nat, i: nat)
    requires IsUnion(lists, union) && cur < |lists| && k < |lists| && k != cur && i < |union| && union[i] in lists[cur]
    ensures forall e :: e in lists[k] ==> e.key != union[i].key
  {
    forall e | e in lists[k]
      ensures e.key != union[i].key
    {
      assert e in union && e != union[i];
    }
  }

  lemma StepSplit(lists: seq<seq<Entry>>, union: seq<Entry>, cur: nat, c: nat, k: nat, p: nat, i: nat)
    requires IsUnion(lists, union) && cur < |lists| && k < |lists| && i < |union|
    requires c < |lists[cur]| && lists[cur][c] == union[i] && (k == cur ==> p == c)
    requires Split(lists[k], p, union, i)
    ensures Split(lists[k], if k == cur then p + 1 else p, union, i + 1)
  {
    forall j | 0 <= j < |lists[k]|
      ensures Earlier(lists[k][j], union, i + 1) <==> Earlier(lists[k][j], union, i) || lists[k][j] == union[i]
    {
      var e := lists[k][j];
      assert e in union;
      if Earlier(e, union, i + 1) {
        LastEarlier(union, e, i + 1);
      }
    }
    forall j | 0 <= j < |lists[k]|
      ensures lists[k][j] == union[i] <==> k == cur && j == p
    {
      assert lists[k][j] in lists[k] && union[i] in lists[cur];
      if k == cur {
        assert j < p ==> Before(lists[k][j].key, lists[k][p].key);
        assert p < j ==> Before(lists[k][p].key, lists[k][j].key);
      }
    }
  }
}
