/** The skip list of the memtable (db/skiplist.h).  A search may run while one Insert at a time is under
    way: between any two stores the list is a skip list of the keys before or of those and the new one,
    and a search answers for the keys that are there when it makes its last load.

    Keys are points of the real line, compared by its order. */
module SkipLists {
  type Key = real

  const MAX_HEIGHT: nat := 12

  class Node {
    const key: Key
    // As long as the node is high
    var next: seq<Node?>
    // The levels at which the node can be reached
    ghost var linked: nat

    constructor (key: Key, height: nat)
      ensures this.key == key && next == seq(height, _ => null) && linked == 0
    {
      this.key, next, linked := key, seq(height, _ => null), 0;
    }
  }

  ghost function KeysOf(nodes: set<Node>): set<Key> {
    set x <- nodes :: x.key
  }

  lemma KeysOfMore(nodes: set<Node>, x: Node)
    ensures KeysOf(nodes + {x}) == KeysOf(nodes) + {x.key}
  {
  }

  // The store that links x behind prev
  datatype Store = Store(x: Node, prev: Node, level: nat)

  class SkipList {
    const head: Node
    var maxHeight: nat
    // All nodes that can be reached, but not head
    ghost var nodes: set<Node>

    ghost predicate Precedes(x: Node, y: Node) {
      x == head || x.key < y.key
    }

    ghost predicate NodeOk(x: Node)
      reads this, x
    {
      1 <= x.linked <= |x.next| <= MAX_HEIGHT && x.linked <= maxHeight
    }

    // The link of x at a level leads to the next node that has the level.
    ghost predicate LinkOk(x: Node, level: nat)
      requires level < |x.next|
      reads this, x, nodes
    {
      var n := x.next[level];
      && (n != null ==> n in nodes && level < n.linked && Precedes(x, n))
      && forall y {:trigger y in nodes} :: y in nodes && level < y.linked && Precedes(x, y) ==> n != null && n.key <= y.key
    }

    ghost predicate Valid()
      reads this, head, nodes
    {
      && head !in nodes && |head.next| == head.linked == MAX_HEIGHT && 1 <= maxHeight <= MAX_HEIGHT
      && (forall x {:trigger NodeOk(x)} {:trigger x in nodes} :: x in nodes ==> NodeOk(x))
      && (forall x, y {:trigger x in nodes, y in nodes} :: x in nodes && y in nodes && x.key == y.key ==> x == y)
      && (forall level: nat {:trigger LinkOk(head, level)} :: level < MAX_HEIGHT ==> LinkOk(head, level))
      && (forall x, level: nat {:trigger LinkOk(x, level)} :: x in nodes && level < x.linked && level < |x.next| ==> LinkOk(x, level))
    }

    /** The set that the list stands for */
    ghost function Keys(): set<Key>
      reads this
    {
      KeysOf(nodes)
    }

    constructor ()
      ensures Valid() && Keys() == {}
      ensures fresh(head)
    {
      var h := new Node(0.0, MAX_HEIGHT);
      head := h;
      maxHeight := 1;
      nodes := {};
      new;
      head.linked := MAX_HEIGHT;
    }

    // A place a search can be at: a node below the key, at a level it has.
    ghost predicate Below(x: Node, level: nat, key: Key)
      reads this, x
    {
      (x == head || (x in nodes && x.key < key)) && level < x.linked
    }

    // next is the node with the least key that is at least key; null if there is none.
    ghost predicate IsFirst(key: Key, next: Node?)
      reads this
    {
      && (next != null ==> next in nodes && key <= next.key)
      && forall y {:trigger y in nodes} :: y in nodes && key <= y.key ==> next != null && next.key <= y.key
    }

    ghost function After(x: Node): set<Node>
      reads this
    {
      set y | y in nodes && Precedes(x, y)
    }

    predicate KeyIsAfterNode(key: Key, n: Node?) {
      n != null && n.key < key
    }

    // x is the last node of the level below key.
    ghost predicate IsPrev(key: Key, x: Node, level: nat)
      reads this, x, nodes
    {
      Below(x, level, key) && level < |x.next| && !KeyIsAfterNode(key, x.next[level])
    }

    ghost predicate PrevOk(key: Key, prev: seq<Node>, level: nat)
      requires level < |prev|
      reads this, prev, nodes
    {
      IsPrev(key, prev[level], level)
    }

    method FindGreaterOrEqual(key: Key) returns (next: Node?, prev: seq<Node>)
      requires Valid()
      ensures IsFirst(key, next)
      ensures |prev| == MAX_HEIGHT && forall l: nat {:trigger PrevOk(key, prev, l)} :: l < maxHeight ==> PrevOk(key, prev, l)
    {
      prev := seq(MAX_HEIGHT, _ => head);
      var x: Node := head;
      var level := maxHeight - 1;
      while true
        invariant 0 <= level < maxHeight && Below(x, level, key) && |prev| == MAX_HEIGHT
        invariant forall l: nat {:trigger PrevOk(key, prev, l)} :: level < l < maxHeight ==> PrevOk(key, prev, l)
        decreases level, After(x)
      {
        assert LinkOk(x, level);
        next := x.next[level];
        if KeyIsAfterNode(key, next) {
          assert next in After(x) && next !in After(next);
          x := next;
        } else {
          ghost var was := prev;
          prev := prev[level := x];
          forall l: nat | level <= l < maxHeight
            ensures PrevOk(key, prev, l)
          {
            assert l > level ==> PrevOk(key, was, l);
          }
          if level == 0 {
            return;
          }
          level := level - 1;
        }
      }
    }

    // x is the node with the greatest key below key; head if there is none.
    ghost predicate IsLastBelow(key: Key, x: Node)
      reads this
    {
      && (x == head || (x in nodes && x.key < key))
      && forall y {:trigger y in nodes} :: y in nodes && y.key < key ==> x != head && y.key <= x.key
    }

    method FindLessThan(key: Key) returns (x: Node)
      requires Valid()
      ensures IsLastBelow(key, x)
    {
      x := head;
      var level := maxHeight - 1;
      while true
        invariant 0 <= level < maxHeight && Below(x, level, key)
        decreases level, After(x)
      {
        assert LinkOk(x, level);
        var next := x.next[level];
        if next == null || next.key >= key {
          if level == 0 {
            return;
          }
          level := level - 1;
        } else {
          assert next in After(x) && next !in After(next);
          x := next;
        }
      }
    }

    method FindLast() returns (x: Node)
      requires Valid()
      ensures x == head || x in nodes
      ensures forall y {:trigger y in nodes} :: y in nodes ==> x != head && y.key <= x.key
    {
      x := head;
      var level := maxHeight - 1;
      while true
        invariant 0 <= level < maxHeight && (x == head || x in nodes) && level < x.linked
        decreases level, After(x)
      {
        assert LinkOk(x, level);
        var next := x.next[level];
        if next == null {
          if level == 0 {
            return;
          }
          level := level - 1;
        } else {
          assert next in After(x) && next !in After(next);
          x := next;
        }
      }
    }

    method Contains(key: Key) returns (r: bool)
      requires Valid()
      ensures r <==> key in Keys()
    {
      var x, _ := FindGreaterOrEqual(key);
      r := x != null && key == x.key;
    }

    // ---------------------------------------------------------------- Insert, store by store

    // What a store of Insert does to the nodes that can be reached
    twostate predicate Grown()
      reads this, head, nodes
    {
      && old(nodes) <= nodes && head.linked == old(head.linked) && maxHeight >= old(maxHeight)
      && forall y {:trigger y in old(nodes)} :: y in old(nodes) ==> y.linked >= old(y.linked)
    }

    /** max_height_ is raised before the new levels are linked: searches find them empty. */
    method RaiseHeight(height: nat)
      requires Valid() && maxHeight < height <= MAX_HEIGHT
      modifies this`maxHeight
      ensures Valid() && maxHeight == height && nodes == old(nodes) && Keys() == old(Keys()) && Grown()
    {
      maxHeight := height;
      forall x | x in nodes
        ensures NodeOk(x)
      {
        assert old(NodeOk(x));
      }
      LinksStay();
    }

    // Links stay right where neither the links nor the nodes change.
    twostate lemma LinksStay()
      requires old(Valid()) && nodes == old(nodes) && head !in nodes
      requires forall y {:trigger y in nodes} :: (y in nodes || y == head) ==>
          y.linked == old(y.linked) && |y.next| == old(|y.next|) && forall l: nat :: l < y.linked && l < |y.next| ==> y.next[l] == old(y.next[l])
      ensures forall l: nat {:trigger LinkOk(head, l)} :: l < MAX_HEIGHT ==> LinkOk(head, l)
      ensures forall x, l: nat {:trigger LinkOk(x, l)} :: x in nodes && l < x.linked && l < |x.next| ==> LinkOk(x, l)
    {
      forall l: nat | l < MAX_HEIGHT
        ensures LinkOk(head, l)
      {
        assert old(LinkOk(head, l));
      }
      forall x, l: nat | x in nodes && l < x.linked && l < |x.next|
        ensures LinkOk(x, l)
      {
        assert old(LinkOk(x, l));
      }
    }

    // x waits to be linked after prev at the level; below that, it is linked already.
    ghost predicate CanLink(x: Node, prev: Node, level: nat)
      reads this, head, nodes, x, prev
    {
      && x != head && x.linked == level < |x.next| <= maxHeight <= MAX_HEIGHT && (level > 0 <==> x in nodes)
      && IsPrev(x.key, prev, level) && prev != x
      && forall y {:trigger y in nodes} :: y in nodes && y.key == x.key ==> y == x
    }

    /** NoBarrier_SetNext: no search can see this store. */
    method SetOwnLink(x: Node, prev: Node, level: nat)
      requires Valid() && CanLink(x, prev, level)
      modifies x`next
      ensures Valid() && CanLink(x, prev, level) && |x.next| == old(|x.next|) && x.next[level] == prev.next[level]
      ensures Keys() == old(Keys()) && Grown()
    {
      x.next := x.next[level := prev.next[level]];
      forall y | y in nodes
        ensures NodeOk(y)
      {
        assert old(NodeOk(y));
      }
      LinksStay();
    }

    /** SetNext: from now on the node can be reached at the level. */
    method Publish(x: Node, prev: Node, level: nat)
      requires Valid() && CanLink(x, prev, level) && x.next[level] == prev.next[level]
      modifies this`nodes, prev`next, x`linked
      ensures Valid() && nodes == old(nodes) + {x} && x.linked == level + 1 && prev.next == old(prev.next)[level := x]
      ensures Keys() == old(Keys()) + {x.key} && Grown()
    {
      prev.next := prev.next[level := x];
      x.linked := level + 1;
      KeysOfMore(nodes, x);
      nodes := nodes + {x};
      Published(Store(x, prev, level));
    }

    twostate predicate Stored(s: Store)
      reads this, head, nodes, s.x, s.prev
    {
      && s.level < |old(s.prev.next)|
      && nodes == old(nodes) + {s.x} && s.x.linked == s.level + 1 && s.prev.next == old(s.prev.next)[s.level := s.x]
      && maxHeight == old(maxHeight)
      && head.linked == old(head.linked) && (head != s.prev ==> head.next == old(head.next))
      && forall z {:trigger z in nodes} :: z in nodes ==>
           (z != s.x ==> z.linked == old(z.linked)) && (z != s.prev ==> z.next == old(z.next))
    }

    // The link of one node at one level, after the store
    twostate lemma LinkAfter(p: (Store, Node, nat))
      requires var s := p.0; old(Valid()) && old(CanLink(s.x, s.prev, s.level)) && old(s.x.next[s.level]) == old(s.prev.next[s.level])
      requires Stored(p.0)
      requires (p.1 == head || p.1 in nodes) && p.2 < p.1.linked && p.2 < |p.1.next|
      ensures LinkOk(p.1, p.2)
    {
      var (s, y, l) := p;
      if l == s.level {
        assert old(LinkOk(s.prev, l));
      }
      if y != s.x || l != s.level {
        assert old(LinkOk(y, l));
      }
    }

    twostate lemma Published(s: Store)
      requires old(Valid()) && old(CanLink(s.x, s.prev, s.level)) && old(s.x.next[s.level]) == old(s.prev.next[s.level])
      requires Stored(s)
      ensures Valid()
    {
      forall y | y in nodes
        ensures NodeOk(y)
      {
        assert y != s.x ==> old(NodeOk(y));
      }
      forall l: nat | l < MAX_HEIGHT
        ensures LinkOk(head, l)
      {
        LinkAfter((s, head, l));
      }
      forall y, l: nat | y in nodes && l < y.linked && l < |y.next|
        ensures LinkOk(y, l)
      {
        LinkAfter((s, y, l));
      }
    }

    // No node has the levels above maxHeight.
    lemma HeadIsPrev(key: Key, level: nat)
      requires Valid() && maxHeight <= level < MAX_HEIGHT
      ensures IsPrev(key, head, level)
    {
      assert LinkOk(head, level);
    }

    ghost predicate IsFirstKey(key: Key, next: Node?, keys: set<Key>) {
      && (next != null ==> next.key in keys && key <= next.key)
      && forall k {:trigger k in keys} :: k in keys && key <= k ==> next != null && next.key <= k
    }

    lemma FirstOfKeys(key: Key, next: Node?)
      requires IsFirst(key, next)
      ensures IsFirstKey(key, next, Keys())
    {
    }
  }

  /** Insert as the stores it makes, one a step */
  class Inserter {
    const list: SkipList
    const node: Node
    const height: nat
    const prev: seq<Node>
    var raised: bool
    var level: nat
    var ownLinkSet: bool
    // The keys before Insert
    ghost const before: set<Key>

    predicate Done()
      reads this
    {
      level == height
    }

    ghost predicate Ok()
      reads this, list, list.head, list.nodes, node, prev
    {
      && list.Valid()
      && node != list.head && 1 <= height == |node.next| == |prev| <= MAX_HEIGHT && level <= height && node.linked == level
      && (level > 0 <==> node in list.nodes)
      && (forall y {:trigger y in list.nodes} :: y in list.nodes && y.key == node.key ==> y == node)
      && (if raised then height <= list.maxHeight else level == 0)
      && (forall l: nat {:trigger prev[l]} :: level <= l < height ==> list.IsPrev(node.key, prev[l], l) && prev[l] != node)
      && (ownLinkSet ==> raised && level < height && node.next[level] == prev[level].next[level])
      && node.key !in before
      && list.Keys() == if level == 0 then before else before + {node.key}
    }

    // The search of Insert, and the new node
    constructor (list: SkipList, key: Key, height: nat)
      requires list.Valid() && key !in list.Keys() && 1 <= height <= MAX_HEIGHT
      ensures Ok() && !Done() && this.list == list && node.key == key && before == list.Keys() && fresh(node)
    {
      var x, p := list.FindGreaterOrEqual(key);
      this.list, this.height := list, height;
      var top, head := list.maxHeight, list.head;
      prev := seq(height, l requires 0 <= l < height => if l < top then p[l] else head);
      node := new Node(key, height);
      raised, level, ownLinkSet := false, 0, false;
      before := list.Keys();
      new;
      forall l: nat | l < height
        ensures list.IsPrev(key, prev[l], l) && prev[l] != node
      {
        if l < list.maxHeight {
          assert list.PrevOk(key, p, l);
        } else {
          list.HeadIsPrev(key, l);
        }
      }
    }

    method PublishLevel()
      requires Ok() && !Done() && ownLinkSet
      modifies this, list, node, prev
      ensures Ok() && list.Grown() && level == old(level) + 1
    {
      list.Publish(node, prev[level], level);
      level, ownLinkSet := level + 1, false;
    }

    // Stores that are left
    ghost function Left(): nat
      requires level <= height
      reads this
    {
      2 * (height - level) + (if raised then 0 else 1) + if ownLinkSet then 0 else 1
    }

    /** One store.  Between any two of them the list holds the keys before, or those and the new one. */
    method Step()
      requires Ok() && !Done()
      modifies this, list, node, prev
      ensures Ok() && list.Grown() && Left() < old(Left())
    {
      if !raised {
        if height > list.maxHeight {
          list.RaiseHeight(height);
        }
        raised := true;
      } else if !ownLinkSet {
        list.SetOwnLink(node, prev[level], level);
        ownLinkSet := true;
      } else {
        PublishLevel();
      }
    }
  }

  /** Insert, with the height that RandomHeight chose */
  method Insert(list: SkipList, key: Key, height: nat)
    requires list.Valid() && key !in list.Keys() && 1 <= height <= MAX_HEIGHT
    modifies list, list.head, list.nodes
    ensures list.Valid() && list.Keys() == old(list.Keys()) + {key}
  {
    var inserter := new Inserter(list, key, height);
    while !inserter.Done()
      invariant inserter.Ok() && inserter.list == list && inserter.node.key == key && fresh(inserter) && fresh(inserter.node)
      invariant inserter.before == old(list.Keys())
      invariant forall l: nat {:trigger inserter.prev[l]} :: l < |inserter.prev| ==> inserter.prev[l] == list.head || inserter.prev[l] in old(list.nodes)
      decreases inserter.Left()
    {
      inserter.Step();
    }
  }

  // ---------------------------------------------------------------- a search beside Insert

  /** FindGreaterOrEqual as the loads it makes, one a step */
  class Search {
    const list: SkipList
    const key: Key
    var x: Node
    var level: nat
    var done: bool
    var result: Node?
    // The keys that were there at the last load
    ghost var seen: set<Key>

    ghost predicate Ok()
      reads this, list, x
    {
      if done then list.IsFirstKey(key, result, seen) else list.Below(x, level, key)
    }

    constructor (list: SkipList, key: Key)
      requires list.Valid()
      ensures Ok() && !done && this.list == list && this.key == key
    {
      this.list, this.key, x, level := list, key, list.head, list.maxHeight - 1;
      done, result, seen := false, null, {};
    }

    /** One load, which takes the search a node further or a level down, or ends it. */
    method Step()
      requires list.Valid() && Ok() && !done
      modifies this
      ensures Ok() && (done ==> seen == list.Keys())
      ensures done || (x == old(x) && level + 1 == old(level)) || (level == old(level) && list.After(x) < list.After(old(x)))
    {
      assert list.LinkOk(x, level);
      var next := x.next[level];
      if list.KeyIsAfterNode(key, next) {
        assert next in list.After(x) && next !in list.After(next);
        x := next;
      } else if level == 0 {
        list.FirstOfKeys(key, next);
        done, result, seen := true, next, list.Keys();
      } else {
        level := level - 1;
      }
    }
  }

  /** Whatever the schedule, a search beside Insert answers for the keys before it or for those and the new one. */
  method Race(inserter: Inserter, search: Search, schedule: seq<bool>)
    requires inserter.Ok() && search.list == inserter.list && search.Ok() && !search.done
    modifies search, inserter, inserter.list, inserter.node, inserter.prev
    ensures inserter.Ok()
    ensures search.done ==>
              && inserter.list.IsFirstKey(search.key, search.result, search.seen)
              && (search.seen == inserter.before || search.seen == inserter.before + {inserter.node.key})
  {
    for i := 0 to |schedule|
      invariant inserter.Ok() && search.Ok()
      invariant search.done ==> search.seen == inserter.before || search.seen == inserter.before + {inserter.node.key}
    {
      if schedule[i] && !inserter.Done() {
        inserter.Step();
      } else if !search.done {
        search.Step();
      }
    }
  }

  // ---------------------------------------------------------------- Iterator

  class ListIterator {
    const list: SkipList
    var node: Node?

    ghost predicate Ok()
      reads this, list
    {
      node != null ==> node in list.nodes
    }

    constructor (list: SkipList)
      ensures Ok() && this.list == list && node == null
    {
      this.list, node := list, null;
    }

    /** To the next key upwards */
    method Next()
      requires list.Valid() && Ok() && node != null
      modifies this
      ensures Ok() && list.IsFirstKey(old(node.key), node, list.Keys() - {old(node.key)})
    {
      assert list.LinkOk(node, 0);
      node := node.next[0];
    }

    /** To the next key downwards */
    method Prev()
      requires list.Valid() && Ok() && node != null
      modifies this
      ensures Ok() && IsLastKeyBelow(old(node.key), node, list.Keys())
    {
      node := list.FindLessThan(node.key);
      if node == list.head {
        node := null;
      }
    }

    method Seek(target: Key)
      requires list.Valid()
      modifies this
      ensures Ok() && list.IsFirstKey(target, node, list.Keys())
    {
      var prev;
      node, prev := list.FindGreaterOrEqual(target);
      list.FirstOfKeys(target, node);
    }

    method SeekToFirst()
      requires list.Valid()
      modifies this
      ensures Ok() && (node == null <==> list.Keys() == {})
      ensures node != null ==> node.key in list.Keys() && forall k {:trigger k in list.Keys()} :: k in list.Keys() ==> node.key <= k
    {
      assert list.LinkOk(list.head, 0);
      node := list.head.next[0];
      assert node != null ==> node.key in list.Keys();
    }

    method SeekToLast()
      requires list.Valid()
      modifies this
      ensures Ok() && (node == null <==> list.Keys() == {})
      ensures node != null ==> node.key in list.Keys() && forall k {:trigger k in list.Keys()} :: k in list.Keys() ==> k <= node.key
    {
      node := list.FindLast();
      if node == list.head {
        node := null;
      }
      assert node != null ==> node.key in list.Keys();
    }
  }

  ghost predicate IsLastKeyBelow(key: Key, node: Node?, keys: set<Key>) {
    && (node != null ==> node.key in keys && node.key < key)
    && forall k {:trigger k in keys} :: k in keys && k < key ==> node != null && k <= node.key
  }
}
