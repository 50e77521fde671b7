/** Comparators on byte strings (util/comparator.cc) and on internal keys (db/dbformat.cc): the orders,
    and the short keys that separate one block of a table from the next. */
module Comparators {
  import opened Coding

  // Compare(a, b) < 0
  type Less = (Bytes, Bytes) -> bool

  ghost predicate StrictOrder(less: Less) {
    && (forall a: Bytes, b: Bytes :: less(a, b) ==> !less(b, a))
    && (forall a: Bytes, b: Bytes, c: Bytes :: less(a, b) && less(b, c) ==> less(a, c))
  }

  ghost predicate Total(less: Less) {
    forall a: Bytes, b: Bytes :: a == b || less(a, b) || less(b, a)
  }

  /** A user comparator, with FindShortestSeparator and FindShortSuccessor as functions from the old
      string to the new one. */
  datatype Comparator = Comparator(less: Less, separator: (Bytes, Bytes) -> Bytes, successor: Bytes -> Bytes)

  // What include/leveldb/comparator.h asks of a comparator, and that nothing separates a key from itself.
  ghost predicate ComparatorOk(c: Comparator) {
    && StrictOrder(c.less) && Total(c.less)
    && (forall start: Bytes, limit: Bytes {:trigger c.separator(start, limit)} :: c.less(start, limit) ==>
          !c.less(c.separator(start, limit), start) && c.less(c.separator(start, limit), limit))
    && (forall start: Bytes {:trigger c.separator(start, start)} :: c.separator(start, start) == start)
    && (forall k: Bytes {:trigger c.successor(k)} :: !c.less(c.successor(k), k))
  }

  // ---------------------------------------------------------------- BytewiseComparator

  predicate BytewiseLess(a: Bytes, b: Bytes) {
    |b| > 0 && (|a| == 0 || a[0] < b[0] || (a[0] == b[0] && BytewiseLess(a[1..], b[1..])))
  }

  function Common(a: Bytes, b: Bytes): (r: nat)
    ensures r <= |a| && r <= |b| && a[..r] == b[..r]
    ensures r < |a| && r < |b| ==> a[r] != b[r]
  {
    if |a| > 0 && |b| > 0 && a[0] == b[0] then 1 + Common(a[1..], b[1..]) else 0
  }

  lemma {:induction false} LongestIsCommon(a: Bytes, b: Bytes, n: nat)
    requires n <= |a| && n <= |b| && a[..n] == b[..n] && (n == |a| || n == |b| || a[n] != b[n])
    ensures n == Common(a, b)
    decreases n
  {
    if n > 0 {
      assert a[0] == a[..n][0] == b[..n][0] == b[0];
      assert a[1..][..n - 1] == a[..n][1..] && b[1..][..n - 1] == b[..n][1..];
      LongestIsCommon(a[1..], b[1..], n - 1);
    }
  }

  lemma {:induction false} BytewiseAt(a: Bytes, b: Bytes, d: nat)
    requires d < |a| && d < |b| && a[..d] == b[..d] && a[d] != b[d]
    ensures BytewiseLess(a, b) <==> a[d] < b[d]
    decreases d
  {
    if d > 0 {
      assert a[0] == a[..d][0] == b[..d][0] == b[0];
      assert a[1..][..d - 1] == a[..d][1..] && b[1..][..d - 1] == b[..d][1..];
      BytewiseAt(a[1..], b[1..], d - 1);
    }
  }

  lemma {:induction false} BytewiseAsymmetric(a: Bytes, b: Bytes)
    requires BytewiseLess(a, b)
    ensures !BytewiseLess(b, a)
    decreases |a|
  {
    if |a| > 0 && a[0] == b[0] {
      BytewiseAsymmetric(a[1..], b[1..]);
    }
  }

  lemma {:induction false} BytewiseTransitive(a: Bytes, b: Bytes, c: Bytes)
    requires BytewiseLess(a, b) && BytewiseLess(b, c)
    ensures BytewiseLess(a, c)
    decreases |a|
  {
    if |a| > 0 && a[0] == b[0] == c[0] {
      BytewiseTransitive(a[1..], b[1..], c[1..]);
    }
  }

  lemma {:induction false} BytewiseTotal(a: Bytes, b: Bytes)
    ensures a == b || BytewiseLess(a, b) || BytewiseLess(b, a)
    decreases |a|
  {
    if |a| > 0 && |b| > 0 && a[0] == b[0] {
      BytewiseTotal(a[1..], b[1..]);
      assert a == [a[0]] + a[1..] && b == [b[0]] + b[1..];
    }
  }

  function ShortestSeparator(start: Bytes, limit: Bytes): Bytes {
    var d := Common(start, limit);
    if d < |start| && d < |limit| && start[d] < 0xff && start[d] + 1 < limit[d] then start[..d] + [start[d] + 1] else start
  }

  method FindShortestSeparator(start: Bytes, limit: Bytes) returns (r: Bytes)
    ensures r == ShortestSeparator(start, limit)
  {
    r := start;
    var minLength := if |start| < |limit| then |start| else |limit|;
    var diffIndex := 0;
    while diffIndex < minLength && start[diffIndex] == limit[diffIndex]
      invariant diffIndex <= minLength && start[..diffIndex] == limit[..diffIndex]
    {
      diffIndex := diffIndex + 1;
    }
    LongestIsCommon(start, limit, diffIndex);
    if diffIndex < minLength {
      var diffByte := start[diffIndex];
      if diffByte < 0xff && diffByte + 1 < limit[diffIndex] {
        r := r[diffIndex := diffByte + 1];
        r := r[..diffIndex + 1];
      }
    }
  }

  function ShortSuccessor(key: Bytes): Bytes {
    if |key| == 0 then [] else if key[0] != 0xff then [key[0] + 1] else [0xff] + ShortSuccessor(key[1..])
  }

  method FindShortSuccessor(key: Bytes) returns (r: Bytes)
    ensures r == ShortSuccessor(key)
  {
    var i := 0;
    while i < |key|
      invariant i <= |key| && ShortSuccessor(key) == key[..i] + ShortSuccessor(key[i..])
    {
      if key[i] != 0xff {
        r := key[i := key[i] + 1];
        r := r[..i + 1];
        return;
      }
      assert key[i..][1..] == key[i + 1..] && key[..i] + [0xff] == key[..i + 1];
      i := i + 1;
    }
    r := key;
  }

  lemma SeparatorBetween(start: Bytes, limit: Bytes)
    requires BytewiseLess(start, limit)
    ensures !BytewiseLess(ShortestSeparator(start, limit), start) && BytewiseLess(ShortestSeparator(start, limit), limit)
  {
    var d := Common(start, limit);
    var r := ShortestSeparator(start, limit);
    if r != start {
      assert r[..d] == start[..d] == limit[..d];
      BytewiseAt(r, start, d);
      BytewiseAt(r, limit, d);
    } else {
      NotBelowItself(start);
    }
  }

  lemma NotBelowItself(a: Bytes)
    ensures !BytewiseLess(a, a)
  {
    if BytewiseLess(a, a) {
      BytewiseAsymmetric(a, a);
    }
  }

  lemma {:induction false} SuccessorNotBelow(key: Bytes)
    ensures !BytewiseLess(ShortSuccessor(key), key)
    decreases |key|
  {
    if |key| > 0 && key[0] == 0xff {
      SuccessorNotBelow(key[1..]);
      assert ShortSuccessor(key)[1..] == ShortSuccessor(key[1..]);
    }
  }

  function Bytewise(): Comparator {
    Comparator((a, b) => BytewiseLess(a, b), (s, l) => ShortestSeparator(s, l), k => ShortSuccessor(k))
  }

  /** The default comparator keeps its promises. */
  lemma BytewiseOk()
    ensures ComparatorOk(Bytewise())
  {
    var c := Bytewise();
    forall a: Bytes, b: Bytes
      ensures c.less(a, b) ==> !c.less(b, a)
      ensures a == b || c.less(a, b) || c.less(b, a)
    {
      BytewiseTotal(a, b);
      if c.less(a, b) {
        BytewiseAsymmetric(a, b);
      }
    }
    forall x: Bytes, y: Bytes, z: Bytes | c.less(x, y) && c.less(y, z)
      ensures c.less(x, z)
    {
      BytewiseTransitive(x, y, z);
    }
    forall start: Bytes, limit: Bytes | c.less(start, limit)
      ensures !c.less(c.separator(start, limit), start) && c.less(c.separator(start, limit), limit)
    {
      SeparatorBetween(start, limit);
    }
    forall k: Bytes
      ensures !c.less(c.successor(k), k)
    {
      SuccessorNotBelow(k);
    }
  }

  // ---------------------------------------------------------------- InternalKeyComparator

  // ExtractUserKey and the tag; a key of less than eight bytes is not an internal key.
  function User(k: Bytes): Bytes {
    if |k| < 8 then [] else k[..|k| - 8]
  }

  function Tag(k: Bytes): nat {
    if |k| < 8 then 0 else DecodeFixed64(k[|k| - 8..])
  }

  // User keys upwards, then tags downwards
  function InternalLess(c: Comparator): Less {
    (a, b) => c.less(User(a), User(b)) || (!c.less(User(b), User(a)) && Tag(a) > Tag(b))
  }

  lemma InternalOrder(c: Comparator)
    requires ComparatorOk(c)
    ensures StrictOrder(InternalLess(c))
  {
    var less := InternalLess(c);
    forall x: Bytes, y: Bytes | less(x, y)
      ensures !less(y, x)
    {
      assert c.less(User(x), User(y)) || User(x) == User(y);
    }
    forall x: Bytes, y: Bytes, z: Bytes | less(x, y) && less(y, z)
      ensures less(x, z)
    {
      assert c.less(User(x), User(y)) || User(x) == User(y);
      assert c.less(User(y), User(z)) || User(y) == User(z);
    }
  }

  // PackSequenceAndType(kMaxSequenceNumber, kValueTypeForSeek)
  const MAX_TAG: Uint64 := 0xffff_ffff_ffff_ff01

  function InternalSeparator(c: Comparator, start: Bytes, limit: Bytes): Bytes {
    var tmp := c.separator(User(start), User(limit));
    if |tmp| < |User(start)| && c.less(User(start), tmp) then tmp + EncodeFixed64(MAX_TAG) else start
  }

  function InternalSuccessor(c: Comparator, key: Bytes): Bytes {
    var tmp := c.successor(User(key));
    if |tmp| < |User(key)| && c.less(User(key), tmp) then tmp + EncodeFixed64(MAX_TAG) else key
  }

  /** The separator is the key itself or lies strictly between the two user keys; either way it is not
      below start, and below limit. */
  lemma InternalSeparates(c: Comparator, start: Bytes, limit: Bytes)
    requires ComparatorOk(c) && InternalLess(c)(start, limit)
    ensures var sep := InternalSeparator(c, start, limit);
            && (sep == start || (c.less(User(start), User(sep)) && c.less(User(sep), User(limit))))
            && !InternalLess(c)(sep, start) && InternalLess(c)(sep, limit) && |sep| <= |start|
  {
    var tmp := c.separator(User(start), User(limit));
    assert (tmp + EncodeFixed64(MAX_TAG))[..|tmp|] == tmp;
  }

  lemma InternalSucceeds(c: Comparator, key: Bytes)
    requires ComparatorOk(c)
    ensures var next := InternalSuccessor(c, key);
            && (next == key || c.less(User(key), User(next)))
            && !InternalLess(c)(next, key) && |next| <= |key|
  {
    var tmp := c.successor(User(key));
    assert (tmp + EncodeFixed64(MAX_TAG))[..|tmp|] == tmp;
  }
}
