/** Reading tables (table/table.cc, table/format.cc).  A lookup through the index, the filter and one data
    block agrees with a scan of all entries. */
module TableReads {
  import opened Keys
  import opened Coding
  import opened Comparators
  import opened Checksums
  import opened Blocks
  import opened BlockIters
  import F = FilterBlocks
  import opened Tables

  // ---------------------------------------------------------------- blocks and handles

  ghost predicate HasHandle(data: Bytes, p: nat, limit: nat, h: BlockHandle) {
    && HasVarint(data, p, limit, h.offset) && HasVarint(data, p + |Varint(h.offset)|, limit, h.size)
    && h.offset < 0x8000_0000_0000_0000 && h.size < 0x8000_0000_0000_0000
  }

  method DecodeHandle(data: Bytes, p: nat, limit: nat, ghost h: BlockHandle) returns (r: Option<(BlockHandle, nat)>)
    requires p <= limit <= |data|
    ensures r.Some? ==> p < r.value.1 <= limit
    ensures HasHandle(data, p, limit, h) ==> r == Some((h, p + |HandleBytes(h)|))
  {
    var a := GetVarint64(data, p, limit, h.offset);
    if a.None? {
      return None;
    }
    var b := GetVarint64(data, a.value.1, limit, h.size);
    if b.None? {
      return None;
    }
    return Some((BlockHandle(a.value.0, b.value.0), b.value.1));
  }

  lemma WholeHandle(h: BlockHandle)
    requires h.offset < 0x8000_0000_0000_0000 && h.size < 0x8000_0000_0000_0000
    ensures HasHandle(HandleBytes(h), 0, |HandleBytes(h)|, h)
  {
    var data := HandleBytes(h);
    Middle(data, 0, |data|, [], Varint(h.offset), Varint(h.size));
    Middle(data, 0, |data|, Varint(h.offset), Varint(h.size), []);
  }

  /** Blocks of another type are reported like damaged ones. */
  method ReadBlock(k: Checksum, file: Bytes, h: BlockHandle, verify: bool, ghost data: Bytes) returns (r: Option<Bytes>)
    ensures r.Some? ==> h.offset + h.size <= |file| && r.value == BlockData(file, h)
    ensures var size := h.offset + h.size;
            r.Some? <==> size + TRAILER_SIZE <= |file| && file[size] == NO_COMPRESSION
                         && (verify ==> k.matches(file[size + 1..size + TRAILER_SIZE], file[h.offset..size + 1]))
    ensures HasData(k, file, h, data) ==> r == Some(data)
  {
    var end := h.offset + h.size + TRAILER_SIZE;
    if end > |file| {
      return None;
    }
    var contents := file[h.offset..end];
    if HasData(k, file, h, data) {
      assert contents == Stored(k, data);
      assert contents[..h.size + 1] == data + [NO_COMPRESSION];
    }
    assert contents[h.size + 1..] == file[h.offset + h.size + 1..end] && contents[..h.size + 1] == file[h.offset..h.offset + h.size + 1];
    if verify && !k.matches(contents[h.size + 1..], contents[..h.size + 1]) {
      return None;
    }
    if contents[h.size] != NO_COMPRESSION {
      return None;
    }
    assert contents[..h.size] == BlockData(file, h);
    return Some(contents[..h.size]);
  }

  // An iterator of a block, or the iterators of an empty block and of an error.
  datatype BlockIterator = ErrorIterator | EmptyIterator | Iterating(it: BlockIter)

  // Block(contents).NewIterator(comparator)
  method NewBlockIterator(less: Less, data: Bytes, ghost l: Layout) returns (r: BlockIterator)
    ensures r.Iterating? ==> fresh(r.it) && r.it.Ok() && r.it.less == less && r.it.data == data && r.it.l == l
    ensures r.Iterating? ==> (r.it.good <==> IsBlock(data, l) && StrictOrder(less) && Ascending(less, l.es))
    ensures IsBlock(data, l) ==> r.Iterating?
  {
    if IsBlock(data, l) {
      OpenBlock(data, l);
    }
    // Offsets in a block have 32 bits.
    if |data| >= 0x1_0000_0000 {
      return ErrorIterator;
    }
    match BlockIters.Open(data)
    case BadBlock =>
      r := ErrorIterator;
    case EmptyBlock =>
      r := EmptyIterator;
    case Block(restarts, numRestarts) =>
      var it := NewIterator(less, data, restarts, numRestarts, l);
      r := Iterating(it);
  }

  /** BlockReader: from a value of the index block to an iterator of the data block. */
  method BlockReader(less: Less, k: Checksum, file: Bytes, indexValue: Bytes, verify: bool, ghost h: BlockHandle, ghost l: Layout)
    returns (r: BlockIterator)
    requires StrictOrder(less)
    ensures r.Iterating? ==> fresh(r.it) && r.it.Ok() && r.it.less == less && r.it.l == l
    ensures indexValue == HandleBytes(h) && HasBlock(k, file, h, l) && |file| < 0x8000_0000_0000_0000 && Ascending(less, l.es) ==>
              r.Iterating? && r.it.good
  {
    if HasBlock(k, file, h, l) && |file| < 0x8000_0000_0000_0000 {
      WholeHandle(h);
    }
    var handle := DecodeHandle(indexValue, 0, |indexValue|, h);
    if handle.None? {
      return ErrorIterator;
    }
    var block := ReadBlock(k, file, handle.value.0, verify, if h.offset + h.size <= |file| then BlockData(file, h) else []);
    if block.None? {
      return ErrorIterator;
    }
    r := NewBlockIterator(less, block.value, l);
  }

  // ---------------------------------------------------------------- the first entry from a key on

  ghost predicate IsFirst(less: Less, es: seq<Pair>, target: Bytes, i: nat) {
    && i <= |es|
    && (forall j: nat {:trigger es[j]} :: j < i ==> less(es[j].key, target))
    && (forall j: nat {:trigger es[j]} :: i <= j < |es| ==> !less(es[j].key, target))
  }

  lemma FirstByOrder(less: Less, es: seq<Pair>, target: Bytes, i: nat)
    requires StrictOrder(less) && Ascending(less, es) && i <= |es|
    requires (i > 0 ==> less(es[i - 1].key, target)) && (i < |es| ==> !less(es[i].key, target))
    ensures IsFirst(less, es, target, i)
  {
    forall j: nat | j < i
      ensures less(es[j].key, target)
    {
      if j < i - 1 {
        KeysAscend(less, es, j, i - 1);
      }
    }
    forall j: nat | i <= j < |es|
      ensures !less(es[j].key, target)
    {
      if i < j {
        KeysAscend(less, es, i, j);
      }
    }
  }

  // A separator below the target puts all entries before it below the target.
  lemma SeparatorBelowTarget(c: Comparator, es: seq<Pair>, e: nat, sep: Bytes, target: Bytes)
    requires ComparatorOk(c) && 0 < e <= |es| && Separates(c, es, e, sep) && InternalLess(c)(sep, target)
    ensures InternalLess(c)(es[e - 1].key, target)
  {
    InternalOrder(c);
  }

  // If the separator is not below the target but the entry before it is, then the entry after it has another user key.
  lemma SeparatorFromTarget(c: Comparator, es: seq<Pair>, e: nat, sep: Bytes, target: Bytes)
    requires ComparatorOk(c) && 0 < e <= |es| && Separates(c, es, e, sep)
    requires !InternalLess(c)(sep, target) && InternalLess(c)(es[e - 1].key, target)
    ensures e < |es| ==> c.less(User(target), User(es[e].key)) && User(target) != User(es[e].key) && !InternalLess(c)(es[e].key, target)
  {
    if e < |es| {
      assert !c.less(User(sep), User(target));
      assert c.less(User(target), User(sep)) || User(target) == User(sep);
    }
  }

  // Index entries below the target: so is the last entry before the next block.
  lemma BeforeBlock(c: Comparator, t: Contents, target: Bytes, b: nat)
    requires ComparatorOk(c) && Shaped(t) && b <= |t.index| && IsFirst(InternalLess(c), t.index, target, b)
    requires b > 0 ==> IndexOk(c, t, b - 1)
    ensures t.cuts[b] > 0 ==> t.cuts[b] <= |t.es| && InternalLess(c)(t.es[t.cuts[b] - 1].key, target)
  {
    if b > 0 {
      SeparatorBelowTarget(c, t.es, t.cuts[b], t.index[b - 1].key, target);
    }
  }

  // All of the index is below the target: so are all entries.
  lemma PastIndex(c: Comparator, k: Checksum, file: Bytes, groups: seq<seq<Bytes>>, t: Contents, target: Bytes)
    requires ComparatorOk(c) && ContentsOk(c, k, file, groups, [], t) && |t.index| == |t.blocks| && t.cuts[|t.blocks|] == |t.es|
    requires IsFirst(InternalLess(c), t.index, target, |t.index|)
    ensures IsFirst(InternalLess(c), t.es, target, |t.es|)
  {
    var b := |t.index|;
    InternalOrder(c);
    assert b > 0 ==> IndexOk(c, t, b - 1);
    BeforeBlock(c, t, target, b);
    FirstByOrder(InternalLess(c), t.es, target, |t.es|);
  }

  ghost predicate BeforeAndAfter(less: Less, es: seq<Pair>, target: Bytes, i: nat) {
    i <= |es| && (i > 0 ==> less(es[i - 1].key, target)) && (i < |es| ==> !less(es[i].key, target))
  }

  /** The first entry of block b from the target on is the first of all; if there is none in the block, the
      first of all has another user key. */
  lemma FirstThroughIndex(c: Comparator, k: Checksum, file: Bytes, groups: seq<seq<Bytes>>, t: Contents, target: Bytes, b: nat, i: nat)
    requires ComparatorOk(c) && ContentsOk(c, k, file, groups, [], t) && |t.index| == |t.blocks|
    requires b < |t.index| && IsFirst(InternalLess(c), t.index, target, b) && IsFirst(InternalLess(c), t.layouts[b].es, target, i)
    ensures t.cuts[b] + i <= |t.es| && IsFirst(InternalLess(c), t.es, target, t.cuts[b] + i)
    ensures i < |t.layouts[b].es| ==> t.cuts[b] + i < |t.es| && t.es[t.cuts[b] + i] == t.layouts[b].es[i]
    ensures i == |t.layouts[b].es| && t.cuts[b] + i < |t.es| ==> User(t.es[t.cuts[b] + i].key) != User(target)
  {
    assert DataBlockOk(k, file, t, b) && IndexOk(c, t, b);
    assert b > 0 ==> IndexOk(c, t, b - 1);
    BeforeBlock(c, t, target, b);
    FirstInPart(c, t.es, t.cuts[b], t.cuts[b + 1], t.layouts[b].es, target, i, t.index[b].key);
    InternalOrder(c);
    FirstByOrder(InternalLess(c), t.es, target, t.cuts[b] + i);
  }

  lemma FirstInPart(c: Comparator, es: seq<Pair>, from: nat, to: nat, block: seq<Pair>, target: Bytes, i: nat, sep: Bytes)
    requires ComparatorOk(c) && from < to <= |es| && block == es[from..to]
    requires IsFirst(InternalLess(c), block, target, i) && (from > 0 ==> InternalLess(c)(es[from - 1].key, target))
    requires Separates(c, es, to, sep) && !InternalLess(c)(sep, target)
    ensures BeforeAndAfter(InternalLess(c), es, target, from + i)
    ensures i == |block| && to < |es| ==> User(es[to].key) != User(target)
  {
    if i > 0 {
      assert es[from + i - 1] == block[i - 1];
    }
    if i < |block| {
      assert es[from + i] == block[i];
    } else {
      SeparatorFromTarget(c, es, to, sep, target);
    }
  }

  lemma {:induction false} FindFirst(less: Less, es: seq<Pair>, target: Bytes) returns (i: nat)
    requires StrictOrder(less) && Ascending(less, es)
    ensures IsFirst(less, es, target, i)
  {
    i := 0;
    while i < |es| && less(es[i].key, target)
      invariant i <= |es| && (i > 0 ==> less(es[i - 1].key, target))
    {
      i := i + 1;
    }
    FirstByOrder(less, es, target, i);
  }

  // ---------------------------------------------------------------- Table

  datatype Table = Table(file: Bytes, indexBlock: Bytes, filter: Option<F.FilterBlockReader>, metaindex: BlockHandle)

  // The table that Open makes of a finished file
  ghost predicate IsOpen(table: Table, c: Comparator, user: F.FilterPolicy, name: Bytes, k: Checksum, t: Contents, p: Places) {
    && IsTable(c, F.InternalPolicy(user), name, k, table.file, t, p)
    && table.indexBlock == BlockData(table.file, p.index)
    && table.metaindex == p.metaindex
    && (table.filter.Some? ==> table.filter.value == F.Open(F.InternalPolicy(user), BlockData(table.file, p.filter)))
  }

  /** The filter never hides an entry with the user key that is looked for. */
  lemma FilterHidesNothing(table: Table, c: Comparator, user: F.FilterPolicy, name: Bytes, k: Checksum, t: Contents, p: Places,
                           b: nat, i: nat, key: Bytes)
    requires F.PolicyOk(user) && IsOpen(table, c, user, name, k, t, p) && table.filter.Some?
    requires b < |t.blocks| && t.cuts[b] <= i < t.cuts[b + 1] && i < |t.es| && User(t.es[i].key) == User(key)
    ensures table.filter.value.KeyMayMatch(t.blocks[b].offset, key)
  {
    var policy := F.InternalPolicy(user);
    assert GroupedBlock(p.groups, [], t, b);
    var g := t.blocks[b].offset / F.FILTER_BASE;
    F.ReadsGroup(policy, BlockData(table.file, p.filter), p.groups, t.blocks[b].offset, key);
    if g < |p.groups| {
      F.InternalPolicyMatches(user, p.groups[g], t.es[i].key, key);
    }
  }

  function Found(es: seq<Pair>, i: nat): Option<Pair> {
    if i < |es| then Some(es[i]) else None
  }

  // The entry an iterator is at after Seek, and its status
  method SeekIn(blockIter: BlockIterator, key: Bytes) returns (ok: bool, r: Option<Pair>, ghost i: nat)
    requires blockIter.Iterating? ==> blockIter.it.Ok()
    modifies if blockIter.Iterating? then {blockIter.it} else {}
    ensures blockIter.Iterating? && blockIter.it.good ==>
              ok && IsFirst(blockIter.it.less, blockIter.it.l.es, key, i) && r == Found(blockIter.it.l.es, i)
  {
    match blockIter
    case ErrorIterator => return false, None, 0;
    case EmptyIterator => return true, None, 0;
    case Iterating(it) =>
      i := it.Seek(key);
      r := if it.IsValid() then Some(Pair(it.key, it.Value())) else None;
      ok := !it.corrupt;
  }

  /** Seek in the block that the index value stands for. */
  method GetFromBlock(less: Less, k: Checksum, file: Bytes, indexValue: Bytes, verify: bool, key: Bytes, ghost h: BlockHandle, ghost l: Layout)
    returns (ok: bool, r: Option<Pair>, ghost i: nat)
    requires StrictOrder(less)
    ensures indexValue == HandleBytes(h) && HasBlock(k, file, h, l) && |file| < 0x8000_0000_0000_0000 && Ascending(less, l.es) ==>
              ok && IsFirst(less, l.es, key, i) && r == Found(l.es, i)
  {
    var blockIter := BlockReader(less, k, file, indexValue, verify, h, l);
    ok, r, i := SeekIn(blockIter, key);
  }

  lemma IndexAscending(c: Comparator, k: Checksum, file: Bytes, groups: seq<seq<Bytes>>, t: Contents)
    requires ComparatorOk(c) && ContentsOk(c, k, file, groups, [], t)
    ensures Ascending(InternalLess(c), t.index)
  {
    forall b: nat | 0 < b < |t.index|
      ensures Rises(InternalLess(c), t.index, b)
    {
      IndexRises(c, k, file, groups, [], t, b);
    }
  }

  lemma BlockAscending(c: Comparator, k: Checksum, file: Bytes, groups: seq<seq<Bytes>>, t: Contents, b: nat)
    requires ContentsOk(c, k, file, groups, [], t) && b < |t.blocks|
    ensures Ascending(InternalLess(c), t.layouts[b].es) && HasBlock(k, file, t.blocks[b], t.layouts[b])
  {
    assert DataBlockOk(k, file, t, b);
    var es := t.layouts[b].es;
    forall i: nat | 0 < i < |es|
      ensures Rises(InternalLess(c), es, i)
    {
      assert Rises(InternalLess(c), t.es, t.cuts[b] + i);
    }
  }

  /** What a lookup promises: it reports the first entry from the key on, except that it may report
      nothing if that entry has another user key. */
  ghost predicate Answers(c: Comparator, es: seq<Pair>, key: Bytes, i: nat, r: Option<Pair>) {
    && IsFirst(InternalLess(c), es, key, i)
    && (r == Found(es, i) || (r == None && (i < |es| ==> User(es[i].key) != User(key))))
  }

  // The filter may answer for the block.
  method FilterSkips(table: Table, indexValue: Bytes, key: Bytes, ghost h: BlockHandle) returns (skip: bool)
    requires table.filter.Some? ==> table.filter.value.Ok()
    ensures table.filter.None? ==> !skip
    ensures table.filter.Some? && indexValue == HandleBytes(h) && h.offset + h.size < 0x8000_0000_0000_0000 ==>
              skip == !table.filter.value.KeyMayMatch(h.offset, key)
  {
    if table.filter.None? {
      return false;
    }
    if h.offset + h.size < 0x8000_0000_0000_0000 {
      WholeHandle(h);
    }
    var handle := DecodeHandle(indexValue, 0, |indexValue|, h);
    skip := handle.Some? && !table.filter.value.KeyMayMatch(handle.value.0.offset, key);
  }

  // The lookup has come to index entry b.
  ghost predicate AtIndex(table: Table, c: Comparator, user: F.FilterPolicy, name: Bytes, k: Checksum, t: Contents, p: Places,
                          key: Bytes, b: nat)
  {
    && F.PolicyOk(user) && IsOpen(table, c, user, name, k, t, p)
    && b < |t.blocks| && IsFirst(InternalLess(c), t.index, key, b)
  }

  lemma BlockAtIndex(table: Table, c: Comparator, user: F.FilterPolicy, name: Bytes, k: Checksum, t: Contents, p: Places,
                     key: Bytes, b: nat)
    returns (h: BlockHandle, l: Layout)
    requires AtIndex(table, c, user, name, k, t, p, key, b)
    ensures h == t.blocks[b] && l == t.layouts[b] && h.offset + h.size < 0x8000_0000_0000_0000
    ensures Ascending(InternalLess(c), l.es) && HasBlock(k, table.file, h, l)
  {
    BlockAscending(c, k, table.file, p.groups, t, b);
    h, l := t.blocks[b], t.layouts[b];
  }

  lemma AnswerFromBlock(table: Table, c: Comparator, user: F.FilterPolicy, name: Bytes, k: Checksum, t: Contents, p: Places,
                        key: Bytes, b: nat, j: nat)
    returns (i: nat)
    requires ComparatorOk(c) && AtIndex(table, c, user, name, k, t, p, key, b)
    requires IsFirst(InternalLess(c), t.layouts[b].es, key, j)
    ensures Answers(c, t.es, key, i, Found(t.layouts[b].es, j))
  {
    FirstThroughIndex(c, k, table.file, p.groups, t, key, b, j);
    i := t.cuts[b] + j;
  }

  // What InternalGet does with the index entry it found
  method GetThrough(table: Table, c: Comparator, k: Checksum, indexValue: Bytes, key: Bytes, verify: bool,
                    ghost user: F.FilterPolicy, ghost name: Bytes, ghost t: Contents, ghost p: Places, ghost b: nat)
    returns (ok: bool, r: Option<Pair>, ghost i: nat)
    requires ComparatorOk(c) && (table.filter.Some? ==> table.filter.value.Ok())
    ensures (AtIndex(table, c, user, name, k, t, p, key, b) && indexValue == HandleBytes(t.blocks[b])) ==> ok && Answers(c, t.es, key, i, r)
  {
    ghost var good := AtIndex(table, c, user, name, k, t, p, key, b) && indexValue == HandleBytes(t.blocks[b]);
    i := 0;
    InternalOrder(c);
    ghost var h, l := BlockHandle(0, 0), Layout([], [], [], []);
    if good {
      h, l := BlockAtIndex(table, c, user, name, k, t, p, key, b);
    }
    var skip := FilterSkips(table, indexValue, key, h);
    if skip {
      if good {
        i := SkippedRightly(table, c, user, name, k, t, p, b, key);
      }
      return true, None, i;
    }
    ghost var j;
    ok, r, j := GetFromBlock(InternalLess(c), k, table.file, indexValue, verify, key, h, l);
    if good {
      i := AnswerFromBlock(table, c, user, name, k, t, p, key, b, j);
    }
  }

  /** InternalGet reports the newest entry of the user key at or below the sequence number of the key,
      if there is one. */
  method InternalGet(table: Table, c: Comparator, k: Checksum, key: Bytes, verify: bool,
                     ghost user: F.FilterPolicy, ghost name: Bytes, ghost t: Contents, ghost p: Places)
    returns (ok: bool, r: Option<Pair>, ghost i: nat)
    requires ComparatorOk(c) && (table.filter.Some? ==> table.filter.value.Ok())
    ensures F.PolicyOk(user) && IsOpen(table, c, user, name, k, t, p) ==> ok && Answers(c, t.es, key, i, r)
  {
    InternalOrder(c);
    if IsOpen(table, c, user, name, k, t, p) {
      IndexAscending(c, k, table.file, p.groups, t);
    }
    var iiter := NewBlockIterator(InternalLess(c), table.indexBlock, p.indexLayout);
    ghost var b;
    var indexOk, entry;
    indexOk, entry, b := SeekIn(iiter, key);
    if entry.None? {
      if IsOpen(table, c, user, name, k, t, p) {
        PastIndex(c, k, table.file, p.groups, t, key);
      }
      return indexOk, None, |t.es|;
    }
    if IsOpen(table, c, user, name, k, t, p) {
      assert IndexOk(c, t, b);
    }
    ok, r, i := GetThrough(table, c, k, entry.value.value, key, verify, user, name, t, p, b);
    ok := ok && indexOk;
  }

  lemma SkippedRightly(table: Table, c: Comparator, user: F.FilterPolicy, name: Bytes, k: Checksum, t: Contents, p: Places,
                       b: nat, key: Bytes) returns (i: nat)
    requires ComparatorOk(c) && F.PolicyOk(user) && IsOpen(table, c, user, name, k, t, p) && table.filter.Some?
    requires b < |t.index| && IsFirst(InternalLess(c), t.index, key, b)
    requires !table.filter.value.KeyMayMatch(t.blocks[b].offset, key)
    ensures Answers(c, t.es, key, i, None)
  {
    InternalOrder(c);
    BlockAscending(c, k, table.file, p.groups, t, b);
    var j := FindFirst(InternalLess(c), t.layouts[b].es, key);
    FirstThroughIndex(c, k, table.file, p.groups, t, key, b, j);
    i := t.cuts[b] + j;
    assert DataBlockOk(k, table.file, t, b);
    if j < |t.layouts[b].es| && User(t.es[i].key) == User(key) {
      FilterHidesNothing(table, c, user, name, k, t, p, b, i, key);
    }
  }

  // ---------------------------------------------------------------- Table::Open

  ghost predicate HasFooter(file: Bytes, metaindex: BlockHandle, index: BlockHandle) {
    && FOOTER_LENGTH <= |file| < 0x8000_0000_0000_0000
    && metaindex.offset + metaindex.size < 0x8000_0000_0000_0000 && index.offset + index.size < 0x8000_0000_0000_0000
    && |HandleBytes(metaindex)| <= MAX_HANDLE_LENGTH && |HandleBytes(index)| <= MAX_HANDLE_LENGTH
    && file[|file| - FOOTER_LENGTH..] == FooterBytes(metaindex, index)
  }

  lemma FooterParts(file: Bytes, metaindex: BlockHandle, index: BlockHandle)
    requires HasFooter(file, metaindex, index)
    ensures var p := |file| - FOOTER_LENGTH;
            && HasHandle(file, p, |file|, metaindex) && HasHandle(file, p + |HandleBytes(metaindex)|, |file|, index)
            && DecodeFixed64(file[|file| - 8..]) == TABLE_MAGIC
  {
    var p := |file| - FOOTER_LENGTH;
    var pad := Zeros(2 * MAX_HANDLE_LENGTH - |HandleBytes(metaindex) + HandleBytes(index)|);
    FooterCut(file, p, Varint(metaindex.offset), Varint(metaindex.size), Varint(index.offset), Varint(index.size), pad, MagicBytes());
  }

  lemma FooterCut(file: Bytes, p: nat, a: Bytes, b: Bytes, c: Bytes, d: Bytes, pad: Bytes, magic: Bytes)
    requires p <= |file| && file[p..] == (a + b) + (c + d) + pad + magic
    ensures file[p..p + |a|] == a && file[p + |a|..p + |a| + |b|] == b
    ensures file[p + |a + b|..p + |a + b| + |c|] == c && file[p + |a + b| + |c|..p + |a + b| + |c| + |d|] == d
    ensures file[|file| - |magic|..] == magic
  {
    var end := |file|;
    var rest := pad + magic;
    assert file[p..end] == a + b + c + d + rest;
    Middle(file, p, end, [], a, b + c + d + rest);
    Middle(file, p, end, a, b, c + d + rest);
    Middle(file, p, end, a + b, c, d + rest);
    Middle(file, p, end, a + b + c, d, rest);
    Middle(file, p, end, a + b + c + d + pad, magic, []);
  }

  /** Footer::DecodeFrom on the last bytes of the file */
  method DecodeFooter(file: Bytes, ghost metaindex: BlockHandle, ghost index: BlockHandle) returns (r: Option<(BlockHandle, BlockHandle)>)
    requires |file| >= FOOTER_LENGTH
    ensures r.Some? ==> DecodeFixed64(file[|file| - 8..]) == 0xdb47_7524_8b80_fb57
    ensures HasFooter(file, metaindex, index) ==> r == Some((metaindex, index))
  {
    if HasFooter(file, metaindex, index) {
      FooterParts(file, metaindex, index);
    }
    if DecodeFixed64(file[|file| - 8..]) != TABLE_MAGIC {
      return None;
    }
    var m := DecodeHandle(file, |file| - FOOTER_LENGTH, |file|, metaindex);
    if m.None? {
      return None;
    }
    var i := DecodeHandle(file, m.value.1, |file|, index);
    if i.None? {
      return None;
    }
    return Some((m.value.0, i.value.0));
  }

  /** ReadMeta and ReadFilter: errors leave the table without a filter. */
  method ReadMeta(file: Bytes, k: Checksum, policy: F.FilterPolicy, name: Bytes, metaindex: BlockHandle, verify: bool,
                  ghost builtName: Bytes, ghost metaLayout: Layout, ghost filter: BlockHandle)
    returns (r: Option<F.FilterBlockReader>)
    ensures r.Some? ==> r.value.Ok()
    ensures && |file| < 0x8000_0000_0000_0000
            && HasBlock(k, file, metaindex, metaLayout) && metaLayout.es == [Pair(MetaKey(builtName), HandleBytes(filter))]
            && filter.offset + filter.size <= |file| && StoredAt(k, file, filter, BlockData(file, filter)) ==>
              r == if name == builtName then Some(F.Open(policy, BlockData(file, filter))) else None
  {
    ghost var good := && |file| < 0x8000_0000_0000_0000
                      && HasBlock(k, file, metaindex, metaLayout) && metaLayout.es == [Pair(MetaKey(builtName), HandleBytes(filter))]
                      && filter.offset + filter.size <= |file| && StoredAt(k, file, filter, BlockData(file, filter));
    var contents := ReadBlock(k, file, metaindex, verify, if good then BlockData(file, metaindex) else []);
    if contents.None? {
      return None;
    }
    BytewiseOk();
    var less: Less := Bytewise().less;
    var key := MetaKey(name);
    var iter := NewBlockIterator(less, contents.value, metaLayout);
    var _, entry, i := SeekIn(iter, key);
    if entry.None? || entry.value.key != key {
      if good {
        NotBelowItself(key);
        assert metaLayout.es[0].key == MetaKey(builtName);
      }
      return None;
    }
    if good {
      assert MetaKey(name)[7..] == name && MetaKey(builtName)[7..] == builtName;
      WholeHandle(filter);
    }
    var handleValue := entry.value.value;
    var handle := DecodeHandle(handleValue, 0, |handleValue|, filter);
    if handle.None? {
      return None;
    }
    var block := ReadBlock(k, file, handle.value.0, verify, if good then BlockData(file, filter) else []);
    if block.None? {
      return None;
    }
    return Some(F.Open(policy, block.value));
  }

  method OpenTable(file: Bytes, k: Checksum, policy: Option<F.FilterPolicy>, name: Bytes, paranoid: bool,
                   ghost c: Comparator, ghost user: F.FilterPolicy, ghost builtName: Bytes, ghost t: Contents, ghost p: Places)
    returns (r: Option<Table>)
    ensures r.Some? ==> r.value.file == file && (r.value.filter.Some? ==> r.value.filter.value.Ok())
    ensures r.Some? ==> |file| >= 48 && DecodeFixed64(file[|file| - 8..]) == 0xdb47_7524_8b80_fb57
    ensures IsTable(c, F.InternalPolicy(user), builtName, k, file, t, p) && (policy.Some? && name == builtName ==> policy.value == user) ==>
              && r.Some? && IsOpen(r.value, c, user, builtName, k, t, p)
              && (r.value.filter.Some? <==> policy.Some? && name == builtName)
  {
    if |file| < FOOTER_LENGTH {
      return None;
    }
    var footer := DecodeFooter(file, p.metaindex, p.index);
    if footer.None? {
      return None;
    }
    var indexBlock := ReadBlock(k, file, footer.value.1, paranoid,
                                if p.index.offset + p.index.size <= |file| then BlockData(file, p.index) else []);
    if indexBlock.None? {
      return None;
    }
    var filter: Option<F.FilterBlockReader> := None;
    if policy.Some? {
      filter := ReadMeta(file, k, F.InternalPolicy(policy.value), name, footer.value.0, paranoid, builtName, p.metaLayout, p.filter);
    }
    return Some(Table(file, indexBlock.value, filter, footer.value.0));
  }

  /** A lookup in a finished file answers as a scan of the added entries would. */
  method FinishAndGet(builder: TableBuilder, name: Bytes, user: F.FilterPolicy, key: Bytes, verify: bool)
    returns (ok: bool, r: Option<Pair>, ghost i: nat)
    requires builder.Valid() && !builder.closed && builder.policy == F.InternalPolicy(user) && F.PolicyOk(user)
    requires |builder.filterBlock.result| + |F.Part(builder.policy, builder.filterBlock.pending)| < 0x1_0000_0000
    requires builder.indexBlock.CurrentSizeEstimate() + |builder.lastKey| + 37 < 0x1_0000_0000
    requires |name| < 0x1000_0000 && |builder.file| < 0x1000_0000_0000_0000
    modifies builder, builder.dataBlock, builder.indexBlock, builder.filterBlock
    ensures ok && Answers(builder.c, old(builder.t.es), key, i, r)
  {
    ghost var p := builder.Finish(name);
    var table := OpenTable(builder.file, builder.k, Some(user), name, verify, builder.c, user, name, builder.t, p);
    ok, r, i := InternalGet(table.value, builder.c, builder.k, key, verify, user, name, builder.t, p);
  }
}
