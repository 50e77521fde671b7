/** The reference-counted LRU cache (util/cache.cc): a shard's two lists, its own hash table and the
    counting of references.  The circular lists and the hash chains are sequences here. */
module Caches {
  type Key = string

  class Handle {
    const key: Key
    const hash: nat
    const value: string
    const charge: nat
    var inCache: bool
    var refs: nat      // including the cache's own reference, if present

    constructor (key: Key, hash: nat, value: string, charge: nat)
      ensures this.key == key && this.hash == hash && this.value == value && this.charge == charge
      ensures !inCache && refs == 1
    {
      this.key, this.hash, this.value, this.charge := key, hash, value, charge;
      inCache, refs := false, 1;
    }
  }

  // ---------------------------------------------------------------- lists of handles

  ghost predicate NoDuplicates(hs: seq<Handle>) {
    hs == [] || (hs[|hs| - 1] !in hs[..|hs| - 1] && NoDuplicates(hs[..|hs| - 1]))
  }

  ghost predicate Distinct(hs: seq<Handle>) {
    forall i, j :: 0 <= i < j < |hs| ==> hs[i] != hs[j]
  }

  lemma {:induction false} NoDuplicatesIsDistinct(hs: seq<Handle>)
    ensures NoDuplicates(hs) <==> Distinct(hs)
  {
    if hs != [] {
      var rest := hs[..|hs| - 1];
      NoDuplicatesIsDistinct(rest);
      assert hs[|hs| - 1] in rest <==> exists i :: 0 <= i < |rest| && hs[i] == hs[|hs| - 1];
    }
  }

  ghost function AsSet(hs: seq<Handle>): set<Handle> {
    set h | h in hs
  }

  function RemoveAt(hs: seq<Handle>, k: nat): seq<Handle>
    requires k < |hs|
  {
    hs[..k] + hs[k + 1..]
  }

  lemma {:induction false} DropMiddle(a: seq<Handle>, h: Handle, c: seq<Handle>)
    requires NoDuplicates(a + [h] + c)
    ensures NoDuplicates(a + c) && h !in a && h !in c
    decreases |c|
  {
    if c == [] {
      assert a + [h] + c == a + [h] && a + c == a && (a + [h])[..|a|] == a;
    } else {
      var rest, last := c[..|c| - 1], c[|c| - 1];
      assert (a + [h] + c)[..|a + c|] == a + [h] + rest && (a + c)[..|a + rest|] == a + rest;
      DropMiddle(a, h, rest);
      assert last !in a + [h] + rest;
      assert h in a + [h] + rest && c == rest + [last];
    }
  }

  lemma RemoveAtFacts(hs: seq<Handle>, k: nat)
    requires NoDuplicates(hs) && k < |hs|
    ensures NoDuplicates(RemoveAt(hs, k)) && AsSet(RemoveAt(hs, k)) == AsSet(hs) - {hs[k]}
  {
    var a, h, c := hs[..k], hs[k], hs[k + 1..];
    SplitAt(hs, k);
    DropMiddle(a, h, c);
    MiddleSet(a, h, c);
  }

  lemma SplitAt(hs: seq<Handle>, k: nat)
    requires k < |hs|
    ensures hs == hs[..k] + [hs[k]] + hs[k + 1..]
  {
  }

  lemma MiddleSet(a: seq<Handle>, h: Handle, c: seq<Handle>)
    requires h !in a && h !in c
    ensures AsSet(a + c) == AsSet(a + [h] + c) - {h}
  {
  }

  // The list that is left when e has been taken out
  ghost function Without(hs: seq<Handle>, e: Handle): seq<Handle> {
    if hs == [] then [] else Without(hs[..|hs| - 1], e) + if hs[|hs| - 1] == e then [] else [hs[|hs| - 1]]
  }

  lemma {:induction false} WithoutOther(hs: seq<Handle>, e: Handle)
    requires e !in hs
    ensures Without(hs, e) == hs
  {
    if hs != [] {
      WithoutOther(hs[..|hs| - 1], e);
    }
  }

  lemma {:induction false} WithoutAt(hs: seq<Handle>, k: nat)
    requires NoDuplicates(hs) && k < |hs|
    ensures Without(hs, hs[k]) == RemoveAt(hs, k)
  {
    var prefix, last := hs[..|hs| - 1], hs[|hs| - 1];
    if k == |hs| - 1 {
      WithoutOther(prefix, last);
    } else {
      WithoutAt(prefix, k);
      assert prefix[k] in prefix && last != hs[k];
      assert RemoveAt(hs, k) == RemoveAt(prefix, k) + [last];
    }
  }

  lemma AppendFacts(hs: seq<Handle>, h: Handle)
    requires NoDuplicates(hs) && h !in hs
    ensures NoDuplicates(hs + [h]) && AsSet(hs + [h]) == AsSet(hs) + {h}
  {
    assert (hs + [h])[..|hs|] == hs;
  }

  ghost function Charges(hs: set<Handle>): nat {
    if hs == {} then 0 else var h :| h in hs; h.charge + Charges(hs - {h})
  }

  lemma {:induction false} ChargesRemove(hs: set<Handle>, h: Handle)
    requires h in hs
    ensures Charges(hs) == h.charge + Charges(hs - {h})
  {
    var x :| x in hs && Charges(hs) == x.charge + Charges(hs - {x});
    if x != h {
      ChargesRemove(hs - {x}, h);
      ChargesRemove(hs - {h}, x);
      assert hs - {x} - {h} == hs - {h} - {x};
    }
  }

  // ---------------------------------------------------------------- the hash table

  ghost predicate IndexOk(f: (nat, nat) -> nat) {
    forall hash, length :: length > 0 ==> f(hash, length) < length
  }

  // The bucket of a hash; the source takes its low bits, lengths being powers of two
  type BucketIndex = f: (nat, nat) -> nat | IndexOk(f) witness (hash, length) => 0

  class HandleTable {
    var list: array<seq<Handle>>   // list_[i] is the chain of bucket i
    var elems: nat
    const index: BucketIndex
    ghost var members: set<Handle>

    constructor (index: BucketIndex)
      ensures Valid() && members == {} && fresh(list)
    {
      list := new seq<Handle>[4](_ => []);
      elems, members := 0, {};
      this.index := index;
      new;
      assert forall i :: 0 <= i < list.Length ==> list[i] == [];
    }

    /** The table holds exactly its members, which have distinct keys, each in its bucket. */
    ghost predicate Valid()
      reads this, list
    {
      list.Length > 0 && elems == |members| && InBuckets(index, list[..], members) && DistinctKeys(members)
    }

    // FindPointer: where in its chain a handle with this key is, or the end of the chain
    method FindPointer(key: Key, hash: nat) returns (b: nat, i: nat)
      requires Valid() && HashesAgree(members, key, hash)
      ensures b == index(hash, list.Length) && i <= |list[b]|
      ensures i < |list[b]| ==> list[b][i] in members && list[b][i].key == key
      ensures i == |list[b]| ==> forall h :: h in members ==> h.key != key
    {
      b, i := index(hash, list.Length), 0;
      while i < |list[b]| && (list[b][i].hash != hash || list[b][i].key != key)
        invariant i <= |list[b]|
        invariant forall j :: 0 <= j < i ==> list[b][j].hash != hash || list[b][j].key != key
      {
        i := i + 1;
      }
      assert list[..][b] == list[b];
      forall h | h in members && i == |list[b]|
        ensures h.key != key
      {
        assert h in list[..][index(h.hash, list.Length)];
      }
    }

    method Lookup(key: Key, hash: nat) returns (h: Handle?)
      requires Valid() && HashesAgree(members, key, hash)
      ensures h != null ==> h in members && h.key == key
      ensures forall x :: x in members && x.key == key ==> h == x
    {
      var b, i := FindPointer(key, hash);
      h := if i < |list[b]| then list[b][i] else null;
    }

    // Puts h where FindPointer has found room for it.
    method Chain(h: Handle, b: nat, i: nat) returns (previous: Handle?)
      requires Valid() && h !in members && b == index(h.hash, list.Length) && i <= |list[b]|
      requires i < |list[b]| ==> list[b][i] in members && list[b][i].key == h.key
      requires i == |list[b]| ==> forall x :: x in members ==> x.key != h.key
      modifies this, list
      ensures Valid() && list == old(list) && members == (if previous == null then old(members) else old(members) - {previous}) + {h}
      ensures if i == |old(list[b])| then previous == null else previous == old(list[b])[i]
    {
      ghost var before := list[..];
      if i < |list[b]| {
        previous := list[b][i];
        list[b] := list[b][i := h];
        ReplaceInBucket(index, before, members, b, i, h);
        assert list[..] == before[b := before[b][i := h]];
        members := members - {previous} + {h};
      } else {
        previous := null;
        list[b] := list[b] + [h];
        AddToBucket(index, before, members, b, h);
        assert list[..] == before[b := before[b] + [h]];
        elems := elems + 1;
        members := members + {h};
      }
    }

    /** Adds h in place of the handle with its key, which is returned. */
    method Insert(h: Handle) returns (previous: Handle?)
      requires Valid() && h !in members && HashesAgree(members, h.key, h.hash)
      modifies this, list
      ensures previous != null ==> previous in old(members) && previous.key == h.key
      ensures forall x :: x in old(members) && x.key == h.key ==> previous == x
      ensures Valid() && members == (if previous == null then old(members) else old(members) - {previous}) + {h}
      ensures list == old(list) || fresh(list)
      ensures previous == null ==> elems <= list.Length
    {
      var b, i := FindPointer(h.key, h.hash);
      previous := Chain(h, b, i);
      if previous == null && elems > list.Length {
        Resize();
      }
    }

    method Remove(key: Key, hash: nat) returns (h: Handle?)
      requires Valid() && HashesAgree(members, key, hash)
      modifies this, list
      ensures h != null ==> h in old(members) && h.key == key
      ensures forall x :: x in old(members) && x.key == key ==> h == x
      ensures Valid() && members == (if h == null then old(members) else old(members) - {h})
      ensures list == old(list)
    {
      var b, i := FindPointer(key, hash);
      ghost var before := list[..];
      if i < |list[b]| {
        h := list[b][i];
        list[b] := list[b][..i] + list[b][i + 1..];
        RemoveFromBucket(index, before, members, b, i);
        assert list[..] == before[b := before[b][..i] + before[b][i + 1..]];
        elems := elems - 1;
        members := members - {h};
      } else {
        h := null;
      }
    }

    /** Moves every handle to the bucket it belongs to in a larger table. */
    method Resize()
      requires Valid()
      modifies this
      ensures Valid() && fresh(list) && elems == old(elems) && members == old(members) && elems <= list.Length
    {
      var newLength := 4;
      while newLength < elems {
        newLength := newLength * 2;
      }
      var newList := new seq<Handle>[newLength](_ => []);
      ghost var moved: set<Handle> := {};
      ghost var chains := list[..];
      assert forall b :: 0 <= b < newLength ==> newList[..][b] == [];
      for i := 0 to list.Length
        invariant newList.Length == newLength && fresh(newList) && list == old(list) && list[..] == chains && elems == old(elems)
        invariant members == old(members) && InBuckets(index, newList[..], moved)
        invariant forall h :: h in moved <==> exists b :: 0 <= b < i && h in chains[b]
      {
        var chain, j := list[i], 0;
        assert chain == chains[i] && chain[..0] == [];
        while j < |chain|
          invariant j <= |chain| && newList.Length == newLength && fresh(newList) && list == old(list) && list[..] == chains && elems == old(elems)
          invariant members == old(members) && InBuckets(index, newList[..], moved)
          invariant forall h :: h in moved <==> (exists b :: 0 <= b < i && h in chains[b]) || h in chain[..j]
        {
          var h := chain[j];
          var b := index(h.hash, newLength);
          ghost var before := newList[..];
          NotMovedTwice(index, chains, members, i, j);
          newList[b] := [h] + newList[b];
          PrependToBucket(index, before, moved, b, h);
          assert newList[..] == before[b := [h] + before[b]];
          moved := moved + {h};
          j := j + 1;
        }
        assert chains[i][..|chains[i]|] == chains[i];
      }
      forall h | h in members
        ensures h in moved
      {
        assert h in chains[index(h.hash, |chains|)];
      }
      assert moved == members;
      list := newList;
    }
  }

  ghost predicate DistinctKeys(members: set<Handle>) {
    forall x, y {:trigger x.key, y.key} :: x in members && y in members && x.key == y.key ==> x == y
  }

  // e is the only handle with its key.
  ghost predicate Sole(hs: set<Handle>, e: Handle) {
    forall x {:trigger x.key} :: x in hs && x.key == e.key ==> x == e
  }

  // A handle with this key has this hash: hashes are computed from keys.
  ghost predicate HashesAgree(members: set<Handle>, key: Key, hash: nat) {
    forall h :: h in members && h.key == key ==> h.hash == hash
  }

  ghost predicate InBuckets(index: BucketIndex, buckets: seq<seq<Handle>>, members: set<Handle>) {
    && |buckets| > 0
    && (forall h {:trigger index(h.hash, |buckets|)} :: h in members ==> h in buckets[index(h.hash, |buckets|)])
    && (forall b, h :: 0 <= b < |buckets| && h in buckets[b] ==> h in members && index(h.hash, |buckets|) == b)
    && (forall b :: 0 <= b < |buckets| ==> NoDuplicates(buckets[b]))
  }

  lemma ReplaceInBucket(index: BucketIndex, buckets: seq<seq<Handle>>, members: set<Handle>, b: nat, i: nat, h: Handle)
    requires InBuckets(index, buckets, members) && b < |buckets| && i < |buckets[b]| && h !in members && index(h.hash, |buckets|) == b
    ensures InBuckets(index, buckets[b := buckets[b][i := h]], members - {buckets[b][i]} + {h})
  {
    var chain, o := buckets[b], buckets[b][i];
    NoDuplicatesIsDistinct(chain);
    NoDuplicatesIsDistinct(chain[i := h]);
    assert forall x :: x in chain[i := h] <==> x == h || (x in chain && x != o) by {
      assert chain[i := h][i] == h;
      forall x | x in chain && x != o
        ensures x in chain[i := h]
      {
        var k :| 0 <= k < |chain| && chain[k] == x;
        assert chain[i := h][k] == x;
      }
    }
    assert NoDuplicates(chain[i := h]) && o in chain && index(o.hash, |buckets|) == b;
    var after := buckets[b := chain[i := h]];
    forall x | x in members - {o} + {h}
      ensures x in after[index(x.hash, |after|)]
    {
      assert x == h || x in buckets[index(x.hash, |buckets|)];
    }
  }

  lemma AddToBucket(index: BucketIndex, buckets: seq<seq<Handle>>, members: set<Handle>, b: nat, h: Handle)
    requires InBuckets(index, buckets, members) && b < |buckets| && h !in members && index(h.hash, |buckets|) == b
    ensures InBuckets(index, buckets[b := buckets[b] + [h]], members + {h})
  {
    NoDuplicatesIsDistinct(buckets[b]);
    NoDuplicatesIsDistinct(buckets[b] + [h]);
  }

  lemma PrependToBucket(index: BucketIndex, buckets: seq<seq<Handle>>, members: set<Handle>, b: nat, h: Handle)
    requires InBuckets(index, buckets, members) && b < |buckets| && h !in members && index(h.hash, |buckets|) == b
    ensures InBuckets(index, buckets[b := [h] + buckets[b]], members + {h})
  {
    NoDuplicatesIsDistinct(buckets[b]);
    NoDuplicatesIsDistinct([h] + buckets[b]);
  }

  lemma RemoveFromBucket(index: BucketIndex, buckets: seq<seq<Handle>>, members: set<Handle>, b: nat, i: nat)
    requires InBuckets(index, buckets, members) && b < |buckets| && i < |buckets[b]|
    ensures InBuckets(index, buckets[b := buckets[b][..i] + buckets[b][i + 1..]], members - {buckets[b][i]})
  {
    var chain, h := buckets[b], buckets[b][i];
    NoDuplicatesIsDistinct(chain);
    NoDuplicatesIsDistinct(chain[..i] + chain[i + 1..]);
    forall x
      ensures x in chain[..i] + chain[i + 1..] <==> x in chain && x != h
    {
      if x in chain && x != h {
        var k :| 0 <= k < |chain| && chain[k] == x;
        assert k < i ==> chain[..i][k] == x;
        assert k > i ==> chain[i + 1..][k - i - 1] == x;
      }
    }
    assert NoDuplicates(chain[..i] + chain[i + 1..]);
    var after := buckets[b := chain[..i] + chain[i + 1..]];
    assert index(h.hash, |buckets|) == b;
    forall x | x in members - {h}
      ensures x in after[index(x.hash, |after|)]
    {
      assert x in buckets[index(x.hash, |buckets|)];
    }
  }

  lemma NotMovedTwice(index: BucketIndex, buckets: seq<seq<Handle>>, members: set<Handle>, i: nat, j: nat)
    requires InBuckets(index, buckets, members) && i < |buckets| && j < |buckets[i]|
    ensures buckets[i][j] !in buckets[i][..j] && buckets[i][j] in members
    ensures forall b :: 0 <= b < i ==> buckets[i][j] !in buckets[b]
  {
    NoDuplicatesIsDistinct(buckets[i]);
  }

  lemma FirstOf(lru: seq<Handle>, waiting: seq<Handle>, n: nat)
    requires n <= |waiting| && lru == waiting[n..] && lru != []
    ensures n < |waiting| && lru[0] == waiting[n] && lru[1..] == waiting[n + 1..]
  {
  }

  // What an insertion makes of the lists before the cache shrinks: e joins those in use, and the entry it
  // replaces, if there is one, leaves its list.
  ghost predicate Joined(lru: seq<Handle>, inUse: set<Handle>, e: Handle, previous: Handle?, lru': seq<Handle>, inUse': set<Handle>) {
    if previous == null then
      lru' == lru && inUse' == inUse + {e} && forall x :: x in AsSet(lru) + inUse ==> x.key != e.key
    else
      && previous in AsSet(lru) + inUse && previous.key == e.key
      && lru' == Without(lru, previous) && inUse' == inUse + {e} - {previous}
  }

  // ---------------------------------------------------------------- the cache

  class LRUCache {
    const capacity: nat
    const hashOf: Key -> nat
    var usage: nat
    var lru: seq<Handle>       // lru_, oldest first
    var inUse: set<Handle>     // in_use_, in no particular order
    const table: HandleTable
    var deleted: set<Handle>   // the handles passed to their deleters, and freed
    ghost var live: set<Handle>
    ghost var held: multiset<Handle>   // the references clients have

    constructor (capacity: nat, hashOf: Key -> nat, index: BucketIndex)
      ensures Valid() && Cached() == {} && held == multiset{} && this.capacity == capacity && this.hashOf == hashOf
      ensures fresh(table) && fresh(table.list)
    {
      this.capacity, this.hashOf := capacity, hashOf;
      usage, lru, inUse, deleted, live, held := 0, [], {}, {}, {}, multiset{};
      table := new HandleTable(index);
      new;
      assert Cached() - {} == {};
    }

    ghost function Cached(): set<Handle>
      reads this
    {
      AsSet(lru) + inUse
    }

    // References are counted right; extra, if any, has one reference that is about to be given up.
    ghost predicate Counted(h: Handle, extra: Handle?)
      reads this, h
    {
      && h.refs == held[h] + (if h.inCache then 1 else 0) + (if h == extra then 1 else 0)
      && h.refs > 0 && (h.inCache <==> h in Cached()) && h.hash == hashOf(h.key)
      && (h in AsSet(lru) ==> h.refs == 1) && (h in inUse ==> h.refs >= 2)
    }

    ghost predicate ListsOk(extra: Handle?)
      reads this, live
    {
      && NoDuplicates(lru) && AsSet(lru) !! inUse && usage == Charges(Cached()) && Cached() <= live
      && (forall h :: h in held ==> h in live)
      && (forall h {:trigger Counted(h, extra)} :: h in live ==> Counted(h, extra))
      && deleted !! live
    }

    /** missing have already left the table but not yet the lists. */
    ghost predicate Inv(missing: set<Handle>, extra: Handle?)
      reads this, live, table, table.list
    {
      ListsOk(extra) && missing <= Cached() && table.Valid() && table.members == Cached() - missing
    }

    /** In-cache entries lie in exactly one list, the one that fits their references; the hash table holds
        exactly those; usage is the sum of their charges; no live entry has been freed. */
    ghost predicate Valid()
      reads this, live, table, table.list
    {
      Inv({}, null)
    }

    // LRU_Remove
    method LRURemove(e: Handle)
      requires NoDuplicates(lru) && AsSet(lru) !! inUse && e in Cached()
      modifies this`lru, this`inUse
      ensures NoDuplicates(lru) && AsSet(lru) == old(AsSet(lru)) - {e} && inUse == old(inUse) - {e}
      ensures lru == Without(old(lru), e)
      ensures old(lru) != [] && e == old(lru)[0] ==> lru == old(lru)[1..]
      ensures e !in old(lru) ==> lru == old(lru)
    {
      if e in lru {
        var k: nat :| k < |lru| && lru[k] == e;
        RemoveAtFacts(lru, k);
        WithoutAt(lru, k);
        lru := RemoveAt(lru, k);
      } else {
        WithoutOther(lru, e);
        inUse := inUse - {e};
      }
    }

    // LRU_Append to lru_
    method Append(e: Handle)
      requires NoDuplicates(lru) && e !in lru
      modifies this`lru
      ensures NoDuplicates(lru) && lru == old(lru) + [e] && AsSet(lru) == old(AsSet(lru)) + {e}
    {
      AppendFacts(lru, e);
      lru := lru + [e];
    }

    // From lru_ to in_use_
    method Use(e: Handle)
      requires NoDuplicates(lru) && AsSet(lru) !! inUse && e in Cached()
      modifies this`lru, this`inUse
      ensures NoDuplicates(lru) && AsSet(lru) !! inUse && Cached() == old(Cached())
      ensures lru == Without(old(lru), e) && e !in lru && inUse == old(inUse) + {e} && AsSet(lru) == old(AsSet(lru)) - {e}
    {
      LRURemove(e);
      inUse := inUse + {e};
    }

    method Ref(e: Handle)
      requires ListsOk(null) && e in live
      modifies this`lru, this`inUse, this`held, e
      ensures ListsOk(null) && held == old(held) + multiset{e} && Cached() == old(Cached())
      ensures lru == Without(old(lru), e) && inUse == old(inUse) + if e in Cached() then {e} else {}
    {
      assert Counted(e, null);
      if e.refs == 1 && e.inCache {
        Use(e);
      }
      WithoutOther(lru, e);
      e.refs := e.refs + 1;
      held := held + multiset{e};
      assert Cached() == old(Cached());
      forall h | h in live
        ensures Counted(h, null)
      {
        assert old(Counted(h, null));
      }
    }

    /** Gives up the reference of e that is no longer counted; frees e exactly if it was the last. */
    method Unref(e: Handle)
      requires ListsOk(e) && e in live
      modifies this`lru, this`inUse, this`live, this`deleted, e
      ensures ListsOk(null) && Cached() == old(Cached())
      ensures if old(e.refs) == 1 then live == old(live) - {e} && deleted == old(deleted) + {e}
              else live == old(live) && deleted == old(deleted)
      ensures e.inCache == old(e.inCache)
      ensures lru == old(lru) + (if e.inCache && old(e.refs) == 2 then [e] else [])
      ensures inUse == old(inUse) - (if e.inCache && old(e.refs) == 2 then {e} else {})
    {
      assert Counted(e, e);
      e.refs := e.refs - 1;
      if e.refs == 0 {
        deleted := deleted + {e};
        live := live - {e};
      } else if e.inCache && e.refs == 1 {
        LRURemove(e);
        Append(e);
        assert Cached() == old(Cached());
      }
      forall h | h in live
        ensures Counted(h, null)
      {
        assert old(Counted(h, e));
      }
    }

    lemma HashesAgreeWithTable(key: Key)
      requires Valid()
      ensures HashesAgree(table.members, key, hashOf(key))
    {
      forall h | h in table.members && h.key == key
        ensures h.hash == hashOf(key)
      {
        assert Counted(h, null);
      }
    }

    /** The cached handle with this key, with one more reference, if there is one. */
    method Lookup(key: Key, hash: nat) returns (e: Handle?)
      requires Valid() && hash == hashOf(key)
      modifies this`lru, this`inUse, this`held, live
      ensures Valid() && Cached() == old(Cached())
      ensures forall x :: x in Cached() && x.key == key ==> e == x
      ensures if e == null then held == old(held) && lru == old(lru) && inUse == old(inUse)
              else e in Cached() && e.key == key && held == old(held) + multiset{e}
                   && lru == Without(old(lru), e) && inUse == old(inUse) + {e}
    {
      HashesAgreeWithTable(key);
      assert Cached() - {} == Cached();
      e := table.Lookup(key, hash);
      if e != null {
        Ref(e);
      }
    }

    method GiveBack(e: Handle)
      requires ListsOk(null) && e in held
      modifies this`lru, this`inUse, this`live, this`deleted, this`held, e
      ensures ListsOk(null) && Cached() == old(Cached()) && held == old(held) - multiset{e}
      ensures lru == old(lru) + (if e !in held && e in Cached() then [e] else [])
      ensures inUse == old(inUse) - (if e !in held && e in Cached() then {e} else {})
      ensures if e !in held && e !in Cached() then live == old(live) - {e} && deleted == old(deleted) + {e}
              else live == old(live) && deleted == old(deleted)
    {
      assert Counted(e, null);
      held := held - multiset{e};
      forall h | h in live
        ensures Counted(h, e)
      {
        assert old(Counted(h, null));
      }
      assert e.refs == held[e] + (if e.inCache then 1 else 0) + 1;
      Unref(e);
    }

    /** A client gives a reference back.  The entry is freed exactly if that was the last reference to it; a
        cached entry no client holds any more becomes the newest of those that may be evicted. */
    method Release(e: Handle)
      requires Valid() && e in held
      modifies this`lru, this`inUse, this`live, this`deleted, this`held, e
      ensures Valid() && Cached() == old(Cached()) && held == old(held) - multiset{e}
      ensures lru == old(lru) + (if e !in held && e in Cached() then [e] else [])
      ensures inUse == old(inUse) - (if e !in held && e in Cached() then {e} else {})
      ensures if e !in held && e !in Cached() then live == old(live) - {e} && deleted == old(deleted) + {e}
              else live == old(live) && deleted == old(deleted)
    {
      GiveBack(e);
    }

    // The cache gives up its own reference.
    method Evict(e: Handle)
      requires ListsOk(null) && e in Cached()
      modifies this`lru, this`inUse, this`usage, this`live, this`deleted, e
      ensures ListsOk(null) && Cached() == old(Cached()) - {e} && usage == old(usage) - e.charge
      ensures inUse == old(inUse) - {e} && AsSet(lru) == old(AsSet(lru)) - {e}
      ensures if e in held then live == old(live) && deleted == old(deleted) else live == old(live) - {e} && deleted == old(deleted) + {e}
      ensures lru == Without(old(lru), e)
      ensures old(lru) != [] && e == old(lru)[0] ==> lru == old(lru)[1..]
      ensures e !in old(lru) ==> lru == old(lru)
    {
      assert Counted(e, null);
      ChargesRemove(Cached(), e);
      LRURemove(e);
      e.inCache := false;
      usage := usage - e.charge;
      assert Cached() == old(Cached()) - {e};
      forall h | h in live
        ensures Counted(h, e)
      {
        assert old(Counted(h, null));
      }
      Unref(e);
    }

    // FinishErase of an entry that has left the table; the source does nothing for a null entry.
    method FinishErase(e: Handle)
      requires Inv({e}, null)
      modifies this`lru, this`inUse, this`usage, this`live, this`deleted, e
      ensures Valid() && Cached() == old(Cached()) - {e} && usage == old(usage) - e.charge && inUse == old(inUse) - {e}
      ensures AsSet(lru) == old(AsSet(lru)) - {e}
      ensures if e in held then live == old(live) && deleted == old(deleted) else live == old(live) - {e} && deleted == old(deleted) + {e}
      ensures lru == Without(old(lru), e)
      ensures old(lru) != [] && e == old(lru)[0] ==> lru == old(lru)[1..]
      ensures e !in old(lru) ==> lru == old(lru)
    {
      ghost var others := Cached() - {e};
      Evict(e);
      assert others == others - {};
    }

    /** Drops the entry with this key from the cache; clients may still hold it. */
    method Erase(key: Key, hash: nat)
      requires Valid() && hash == hashOf(key)
      modifies this`lru, this`inUse, this`usage, this`live, this`deleted, table, table.list, live
      ensures Valid() && held == old(held) && old(deleted) <= deleted
      ensures forall x :: x in Cached() <==> x in old(Cached()) && x.key != key
      ensures forall e :: e in old(Cached()) && e.key == key ==> lru == Without(old(lru), e) && inUse == old(inUse) - {e}
      ensures (forall e :: e in old(Cached()) ==> e.key != key) ==> lru == old(lru) && inUse == old(inUse)
    {
      HashesAgreeWithTable(key);
      assert Cached() - {} == Cached();
      var e := table.Remove(key, hash);
      if e != null {
        FinishErase(e);
      }
    }

    // table_.Remove
    method Unlist(h: Handle)
      requires Valid() && h in Cached()
      modifies table, table.list
      ensures Inv({h}, null) && table.list == old(table.list)
    {
      assert Counted(h, null) && Cached() - {} == Cached();
      HashesAgreeWithTable(h.key);
      var removed := table.Remove(h.key, h.hash);
    }

    // One turn of the loops of Insert and Prune
    method EvictOldest()
      requires Valid() && lru != []
      modifies this`lru, this`inUse, this`usage, this`live, this`deleted, table, table.list, lru[0]
      ensures Valid() && lru == old(lru)[1..] && inUse == old(inUse)
      ensures old(lru)[0] !in held && deleted == old(deleted) + {old(lru)[0]} && live == old(live) - {old(lru)[0]}
      ensures usage == old(usage) - old(lru)[0].charge && table.list == old(table.list)
    {
      assert Counted(lru[0], null);
      Unlist(lru[0]);
      FinishErase(lru[0]);
    }

    // The loop of Insert: drops the oldest entries while the cache is over its capacity.
    method Shrink() returns (ghost n: nat)
      requires Valid()
      modifies this`lru, this`inUse, this`usage, this`live, this`deleted, table, table.list, live
      ensures Valid() && inUse == old(inUse) && old(deleted) <= deleted
      ensures usage <= capacity || lru == []
      ensures n <= |old(lru)| && lru == old(lru)[n..] && (n > 0 ==> usage + old(lru)[n - 1].charge > capacity)
    {
      n := 0;
      ghost var waiting, using := lru, inUse;
      while usage > capacity && lru != []
        invariant Valid() && inUse == using && old(deleted) <= deleted && live <= old(live) && table.list == old(table.list)
        invariant n <= |waiting| && lru == waiting[n..] && (n > 0 ==> usage + waiting[n - 1].charge > capacity)
        decreases |lru|
      {
        FirstOf(lru, waiting, n);
        assert lru[0] in AsSet(lru) && lru[0] in Cached();
        EvictOldest();
        n := n + 1;
      }
    }

    /** Adds an entry in place of the one with its key, and drops unreferenced ones while the cache is over
        its capacity: the oldest of those waiting first, and no more of them than that takes.  All others
        stay where they are. */
    method Insert(key: Key, hash: nat, value: string, charge: nat)
      returns (e: Handle, ghost previous: Handle?, ghost waiting: seq<Handle>, ghost n: nat)
      requires Valid() && hash == hashOf(key)
      modifies this`lru, this`inUse, this`usage, this`live, this`deleted, this`held, table, table.list, live
      ensures Valid() && fresh(e) && e.key == key && e.value == value && e.charge == charge
      ensures held == old(held) + multiset{e} && old(deleted) <= deleted
      ensures capacity == 0 ==> lru == old(lru) && inUse == old(inUse)
      ensures capacity > 0 ==>
                && Sole(Cached(), e) && (usage <= capacity || lru == [])
                && Joined(old(lru), old(inUse), e, previous, waiting, inUse)
                && n <= |waiting| && lru == waiting[n..] && (n > 0 ==> usage + waiting[n - 1].charge > capacity)
    {
      e := new Handle(key, hash, value, charge);
      previous, waiting, n := null, [], 0;
      AddLive(e);
      assert lru == old(lru) && deleted == old(deleted);
      if capacity > 0 {
        previous, waiting, n := EnterAndShrink(e);
      }
    }

    method EnterAndShrink(e: Handle) returns (ghost previous: Handle?, ghost waiting: seq<Handle>, ghost n: nat)
      requires Valid() && e in live && e !in Cached() && e in held
      modifies this`lru, this`inUse, this`usage, this`live, this`deleted, table, table.list, live
      ensures Valid() && old(deleted) <= deleted && Joined(old(lru), old(inUse), e, previous, waiting, inUse)
      ensures Sole(Cached(), e) && (usage <= capacity || lru == [])
      ensures n <= |waiting| && lru == waiting[n..] && (n > 0 ==> usage + waiting[n - 1].charge > capacity)
    {
      previous := Enter(e);
      waiting := lru;
      n := Shrink();
      assert AsSet(lru) <= AsSet(waiting);
    }

    method AddLive(e: Handle)
      requires Valid() && e !in live && e !in held && e !in deleted && !e.inCache && e.refs == 1 && e.hash == hashOf(e.key)
      modifies this`live, this`held
      ensures Valid() && live == old(live) + {e} && held == old(held) + multiset{e} && Cached() == old(Cached())
    {
      live := live + {e};
      held := held + multiset{e};
      forall h | h in live
        ensures Counted(h, null)
      {
        assert h != e ==> old(Counted(h, null));
      }
    }

    // Insert's part for a cache that is on: the entry joins the in-use list and the hash table.
    method Enter(e: Handle) returns (ghost previous: Handle?)
      requires Valid() && e in live && e !in Cached() && e in held
      modifies this`lru, this`inUse, this`usage, this`live, this`deleted, table, table.list, live
      ensures Valid() && e in inUse && held == old(held) && old(deleted) <= deleted && live <= old(live)
      ensures Joined(old(lru), old(inUse), e, previous, lru, inUse) && Sole(Cached(), e)
      ensures table.list == old(table.list) || fresh(table.list)
    {
      var replaced := EnterTable(e);
      previous := replaced;
      Replace(replaced, e);
    }

    method EnterTable(e: Handle) returns (previous: Handle?)
      requires Valid() && e in live && e !in Cached() && e in held
      modifies this`inUse, this`usage, table, table.list, e
      ensures if previous == null then Valid() else Inv({previous}, null) && previous != e
      ensures e in inUse && lru == old(lru) && inUse == old(inUse) + {e} && Sole(table.members, e)
      ensures if previous == null then forall x :: x in AsSet(old(lru)) + old(inUse) ==> x.key != e.key
              else previous in AsSet(old(lru)) + old(inUse) && previous.key == e.key && previous in live
      ensures table.list == old(table.list) || fresh(table.list)
    {
      JoinLists(e);
      previous := Enroll(e);
    }

    // FinishErase of the entry that e replaces in the table, if there is one
    method Replace(previous: Handle?, e: Handle)
      requires if previous == null then Valid() else Inv({previous}, null) && previous != e
      requires e in inUse && Sole(table.members, e)
      modifies this`lru, this`inUse, this`usage, this`live, this`deleted, if previous == null then {} else {previous}
      ensures Valid() && e in inUse && old(deleted) <= deleted && live <= old(live) && Sole(Cached(), e)
      ensures if previous == null then lru == old(lru) && inUse == old(inUse)
              else lru == Without(old(lru), previous) && inUse == old(inUse) - {previous}
    {
      if previous != null {
        FinishErase(previous);
      }
      assert Cached() - {} == Cached();
    }

    method JoinLists(e: Handle)
      requires Valid() && e in live && e !in Cached() && e in held
      modifies this`inUse, this`usage, e
      ensures Inv({e}, null) && Cached() == old(Cached()) + {e} && inUse == old(inUse) + {e}
      ensures table.members == old(Cached())
    {
      assert Cached() - {} == Cached();
      Join(e);
      assert old(Cached()) == Cached() - {e};
    }

    // table_.Insert
    method Enroll(e: Handle) returns (previous: Handle?)
      requires Inv({e}, null) && e in inUse
      modifies table, table.list
      ensures if previous == null then Valid() else Inv({previous}, null) && previous != e
      ensures if previous == null then forall x :: x in old(table.members) ==> x.key != e.key
              else previous in old(table.members) && previous.key == e.key
      ensures e in table.members && Sole(table.members, e)
      ensures table.list == old(table.list) || fresh(table.list)
    {
      assert Counted(e, null);
      forall h | h in table.members && h.key == e.key
        ensures h.hash == e.hash
      {
        assert Counted(h, null);
      }
      ghost var cached := Cached();
      previous := table.Insert(e);
      if previous == null {
        assert cached - {e} + {e} == cached - {};
      } else {
        assert cached - {e} - {previous} + {e} == cached - {previous};
      }
    }

    method Join(e: Handle)
      requires ListsOk(null) && e in live && e !in Cached() && e in held
      modifies this`inUse, this`usage, e
      ensures ListsOk(null) && Cached() == old(Cached()) + {e} && inUse == old(inUse) + {e}
    {
      assert Counted(e, null);
      e.refs := e.refs + 1;
      e.inCache := true;
      inUse := inUse + {e};
      usage := usage + e.charge;
      assert Cached() == old(Cached()) + {e} && Cached() - {e} == old(Cached());
      ChargesRemove(Cached(), e);
      forall h | h in live
        ensures Counted(h, null)
      {
        assert old(Counted(h, null));
      }
    }

    /** Drops every entry no client holds. */
    method Prune()
      requires Valid()
      modifies this`lru, this`inUse, this`usage, this`live, this`deleted, table, table.list, live
      ensures Valid() && lru == [] && inUse == old(inUse) && held == old(held)
    {
      while lru != []
        invariant Valid() && held == old(held) && live <= old(live) && table.list == old(table.list) && inUse == old(inUse)
        decreases |lru|
      {
        EvictOldest();
      }
    }
  }
}
