/** Tables (table/format.cc, table/table_builder.cc): data blocks, a filter block and an index block.
    The index has one entry a block: a key between the last key of the block and the first key of the
    next, and the place of the block in the file.

    Blocks are stored uncompressed.  The keys are internal keys, under any user comparator. */
module Tables {
  import opened Coding
  import opened Comparators
  import opened Checksums
  import opened Blocks
  import opened FilterBlocks

  // ---------------------------------------------------------------- blocks in a file

  datatype BlockHandle = BlockHandle(offset: nat, size: nat)

  function HandleBytes(h: BlockHandle): Bytes {
    Varint(h.offset) + Varint(h.size)
  }

  const TRAILER_SIZE: nat := 5
  const NO_COMPRESSION: Byte := 0

  // The block, its type and the checksum of both
  function Stored(k: Checksum, data: Bytes): (r: Bytes)
    ensures |r| == |data| + TRAILER_SIZE
  {
    data + [NO_COMPRESSION] + k.stored(data + [NO_COMPRESSION])
  }

  ghost predicate StoredAt(k: Checksum, file: Bytes, h: BlockHandle, data: Bytes) {
    && h.size == |data| && h.offset + h.size + TRAILER_SIZE <= |file|
    && file[h.offset..h.offset + h.size + TRAILER_SIZE] == Stored(k, data)
  }

  lemma StoredStays(k: Checksum, file: Bytes, h: BlockHandle, data: Bytes, more: Bytes)
    requires StoredAt(k, file, h, data)
    ensures StoredAt(k, file + more, h, data)
  {
    var end := h.offset + h.size + TRAILER_SIZE;
    assert (file + more)[h.offset..end] == file[h.offset..end];
  }

  const MAX_HANDLE_LENGTH: nat := 20
  const FOOTER_LENGTH: nat := 48
  const TABLE_MAGIC: Uint64 := 0xdb47_7524_8b80_fb57

  function Zeros(n: nat): (r: Bytes)
    ensures |r| == n
  {
    seq(n, _ => 0)
  }

  function FooterBytes(metaindex: BlockHandle, index: BlockHandle): (r: Bytes)
    requires |HandleBytes(metaindex)| <= MAX_HANDLE_LENGTH && |HandleBytes(index)| <= MAX_HANDLE_LENGTH
    ensures |r| == FOOTER_LENGTH
  {
    var handles := HandleBytes(metaindex) + HandleBytes(index);
    handles + Zeros(2 * MAX_HANDLE_LENGTH - |handles|) + MagicBytes()
  }

  function MagicBytes(): (r: Bytes)
    ensures |r| == 8 && DecodeFixed64(r) == TABLE_MAGIC
  {
    Fixed64RoundTrip(TABLE_MAGIC);
    EncodeFixed64(TABLE_MAGIC)
  }

  // ---------------------------------------------------------------- what a table holds

  /** Entries es[cuts[b]..cuts[b + 1]] are those of block b, which is at blocks[b] with layout layouts[b];
      index holds the entries of the index block. */
  datatype Contents = Contents(es: seq<Pair>, cuts: seq<nat>, blocks: seq<BlockHandle>, layouts: seq<Layout>, index: seq<Pair>)

  ghost predicate Shaped(t: Contents) {
    && |t.cuts| == |t.blocks| + 1 && |t.layouts| == |t.blocks| && |t.index| <= |t.blocks|
    && t.cuts[0] == 0
  }

  function BlockData(file: Bytes, h: BlockHandle): Bytes
    requires h.offset + h.size <= |file|
  {
    file[h.offset..h.offset + h.size]
  }

  ghost predicate DataBlockOk(k: Checksum, file: Bytes, t: Contents, b: nat)
    requires Shaped(t) && b < |t.blocks|
  {
    var h := t.blocks[b];
    && t.cuts[b] < t.cuts[b + 1] <= |t.es|
    && h.offset + h.size <= |file| && (b > 0 ==> t.blocks[b - 1].offset < h.offset)
    && StoredAt(k, file, h, BlockData(file, h))
    && IsBlock(BlockData(file, h), t.layouts[b])
    && t.layouts[b].es == t.es[t.cuts[b]..t.cuts[b + 1]]
  }

  // sep stands between the entries before e and those from e on.
  ghost predicate Separates(c: Comparator, es: seq<Pair>, e: nat, sep: Bytes)
    requires 0 < e <= |es|
  {
    var last := es[e - 1].key;
    sep == last || (c.less(User(last), User(sep)) && (e < |es| ==> c.less(User(sep), User(es[e].key))))
  }

  ghost predicate IndexOk(c: Comparator, t: Contents, b: nat)
    requires Shaped(t) && b < |t.index|
  {
    && 0 < t.cuts[b + 1] <= |t.es|
    && Separates(c, t.es, t.cuts[b + 1], t.index[b].key)
    && t.index[b].value == HandleBytes(t.blocks[b])
  }

  // The keys of block b are in the group that the filter of its offset is made from.
  ghost predicate GroupedBlock(groups: seq<seq<Bytes>>, pending: seq<Bytes>, t: Contents, b: nat)
    requires Shaped(t) && b < |t.blocks|
  {
    forall i: nat {:trigger t.es[i]} :: t.cuts[b] <= i < t.cuts[b + 1] && i < |t.es| ==>
        t.es[i].key in GroupIn(groups, pending, t.blocks[b].offset / FILTER_BASE)
  }

  ghost predicate ContentsOk(c: Comparator, k: Checksum, file: Bytes, groups: seq<seq<Bytes>>, pending: seq<Bytes>, t: Contents) {
    && Shaped(t) && t.cuts[|t.blocks|] <= |t.es|
    && Ascending(InternalLess(c), t.es)
    && (forall b: nat {:trigger DataBlockOk(k, file, t, b)} :: b < |t.blocks| ==> DataBlockOk(k, file, t, b))
    && (forall b: nat {:trigger IndexOk(c, t, b)} :: b < |t.index| ==> IndexOk(c, t, b))
    && (forall b: nat {:trigger GroupedBlock(groups, pending, t, b)} :: b < |t.blocks| ==> GroupedBlock(groups, pending, t, b))
  }

  function MetaKey(name: Bytes): Bytes {
    // "filter."
    [102, 105, 108, 116, 101, 114, 46] + name
  }

  /** Where the other blocks of a finished table are, and what the filters were made from */
  datatype Places = Places(filter: BlockHandle, metaindex: BlockHandle, index: BlockHandle,
                           metaLayout: Layout, indexLayout: Layout, groups: seq<seq<Bytes>>)

  ghost predicate HasBlock(k: Checksum, file: Bytes, h: BlockHandle, l: Layout) {
    h.offset + h.size <= |file| && StoredAt(k, file, h, BlockData(file, h)) && IsBlock(BlockData(file, h), l)
  }

  ghost predicate HasFilter(policy: FilterPolicy, k: Checksum, file: Bytes, h: BlockHandle, groups: seq<seq<Bytes>>) {
    h.offset + h.size <= |file| && StoredAt(k, file, h, BlockData(file, h)) && IsFilterBlock(policy, BlockData(file, h), groups)
  }

  /** A finished table of the entries t.es */
  ghost predicate IsTable(c: Comparator, policy: FilterPolicy, name: Bytes, k: Checksum, file: Bytes, t: Contents, p: Places) {
    && ContentsOk(c, k, file, p.groups, [], t)
    && |t.index| == |t.blocks| && t.cuts[|t.blocks|] == |t.es|
    && HasFilter(policy, k, file, p.filter, p.groups)
    && HasBlock(k, file, p.metaindex, p.metaLayout) && p.metaLayout.es == [Pair(MetaKey(name), HandleBytes(p.filter))]
    && HasBlock(k, file, p.index, p.indexLayout) && p.indexLayout.es == t.index
    && |HandleBytes(p.metaindex)| <= MAX_HANDLE_LENGTH && |HandleBytes(p.index)| <= MAX_HANDLE_LENGTH
    && FOOTER_LENGTH <= |file| < 0x8000_0000_0000_0000
    && file[|file| - FOOTER_LENGTH..] == FooterBytes(p.metaindex, p.index)
  }

  // ---------------------------------------------------------------- steps of the builder

  function WithEntry(t: Contents, e: Pair, index: seq<Pair>): Contents {
    t.(es := t.es + [e], index := index)
  }

  lemma AddEntry(c: Comparator, k: Checksum, file: Bytes, groups: seq<seq<Bytes>>, pending: seq<Bytes>, pending': seq<Bytes>,
                 t: Contents, e: Pair, index: seq<Pair>)
    requires ContentsOk(c, k, file, groups, pending, t) && pending <= pending'
    requires |t.es| > 0 ==> InternalLess(c)(t.es[|t.es| - 1].key, e.key)
    requires |index| <= |t.blocks| && (index == t.index || (|index| == |t.index| + 1 && t.index == index[..|t.index|]))
    requires forall b: nat {:trigger t.cuts[b]} :: 0 < b <= |t.index| ==> t.cuts[b] < |t.es|
    requires |index| > |t.index| ==> IndexOk(c, WithEntry(t, e, index), |t.index|)
    ensures ContentsOk(c, k, file, groups, pending', WithEntry(t, e, index))
  {
    var t' := WithEntry(t, e, index);
    forall i: nat | 0 < i < |t'.es|
      ensures Rises(InternalLess(c), t'.es, i)
    {
      if i < |t.es| {
        assert Rises(InternalLess(c), t.es, i);
      }
    }
    forall b: nat | b < |t'.blocks|
      ensures DataBlockOk(k, file, t', b) && GroupedBlock(groups, pending', t', b)
    {
      assert DataBlockOk(k, file, t, b) && GroupedBlock(groups, pending, t, b);
      assert t'.es[t.cuts[b]..t.cuts[b + 1]] == t.es[t.cuts[b]..t.cuts[b + 1]];
      forall i: nat | t.cuts[b] <= i < t.cuts[b + 1]
        ensures t'.es[i].key in GroupIn(groups, pending', t.blocks[b].offset / FILTER_BASE)
      {
        assert t'.es[i] == t.es[i];
      }
    }
    forall b: nat | b < |t'.index|
      ensures IndexOk(c, t', b)
    {
      if b < |t.index| {
        assert IndexOk(c, t, b);
        assert t'.index[b] == t.index[b];
      }
    }
  }

  function WithBlock(t: Contents, h: BlockHandle, l: Layout): Contents {
    t.(cuts := t.cuts + [|t.es|], blocks := t.blocks + [h], layouts := t.layouts + [l])
  }

  lemma AddBlock(c: Comparator, k: Checksum, file: Bytes, groups: seq<seq<Bytes>>, pending: seq<Bytes>, t: Contents, data: Bytes, l: Layout)
    requires ContentsOk(c, k, file, groups, pending, t) && t.cuts[|t.blocks|] < |t.es|
    requires IsBlock(data, l) && l.es == t.es[t.cuts[|t.blocks|]..]
    requires forall i: nat {:trigger t.es[i]} :: t.cuts[|t.blocks|] <= i < |t.es| ==> t.es[i].key in GroupIn(groups, pending, |file| / FILTER_BASE)
    ensures ContentsOk(c, k, file + Stored(k, data), groups, pending, WithBlock(t, BlockHandle(|file|, |data|), l))
  {
    var h := BlockHandle(|file|, |data|);
    var file' := file + Stored(k, data);
    var t' := WithBlock(t, h, l);
    var n := |t.blocks|;
    assert forall b: nat :: b <= n ==> t'.cuts[b] == t.cuts[b];
    forall b: nat | b < |t'.blocks|
      ensures DataBlockOk(k, file', t', b) && GroupedBlock(groups, pending, t', b)
    {
      if b < n {
        assert DataBlockOk(k, file, t, b) && GroupedBlock(groups, pending, t, b);
        StoredStays(k, file, t.blocks[b], BlockData(file, t.blocks[b]), Stored(k, data));
        assert BlockData(file', t.blocks[b]) == BlockData(file, t.blocks[b]);
      } else {
        assert n > 0 ==> DataBlockOk(k, file, t, n - 1);
        assert BlockData(file', h) == data;
        assert file'[|file|..] == Stored(k, data);
      }
    }
    forall b: nat | b < |t'.index|
      ensures IndexOk(c, t', b)
    {
      assert IndexOk(c, t, b);
    }
  }

  lemma Regrouped(c: Comparator, k: Checksum, file: Bytes, groups: seq<seq<Bytes>>, pending: seq<Bytes>,
                  groups': seq<seq<Bytes>>, pending': seq<Bytes>, t: Contents)
    requires ContentsOk(c, k, file, groups, pending, t)
    requires forall i: nat :: GroupIn(groups', pending', i) == GroupIn(groups, pending, i)
    ensures ContentsOk(c, k, file, groups', pending', t)
  {
    forall b: nat | b < |t.blocks|
      ensures GroupedBlock(groups', pending', t, b)
    {
      assert GroupedBlock(groups, pending, t, b);
    }
  }

  lemma {:induction false} KeysAscend(less: Less, es: seq<Pair>, i: nat, j: nat)
    requires StrictOrder(less) && Ascending(less, es) && i < j < |es|
    ensures less(es[i].key, es[j].key)
    decreases j
  {
    assert Rises(less, es, j);
    if i < j - 1 {
      KeysAscend(less, es, i, j - 1);
    }
  }

  // A separator is not below the entry before it, and below the entry after it.
  lemma SeparatorOrder(c: Comparator, es: seq<Pair>, e: nat, sep: Bytes)
    requires ComparatorOk(c) && Ascending(InternalLess(c), es) && 0 < e <= |es| && Separates(c, es, e, sep)
    ensures !InternalLess(c)(sep, es[e - 1].key)
    ensures e < |es| ==> InternalLess(c)(sep, es[e].key)
  {
    InternalOrder(c);
    if e < |es| {
      assert Rises(InternalLess(c), es, e);
    }
  }

  // The index is in order too.
  lemma IndexRises(c: Comparator, k: Checksum, file: Bytes, groups: seq<seq<Bytes>>, pending: seq<Bytes>, t: Contents, b: nat)
    requires ComparatorOk(c) && ContentsOk(c, k, file, groups, pending, t) && 0 < b < |t.index|
    ensures Rises(InternalLess(c), t.index, b)
  {
    assert IndexOk(c, t, b - 1) && IndexOk(c, t, b) && DataBlockOk(k, file, t, b);
    SeparatorBelow(c, t.es, t.cuts[b], t.index[b - 1].key, t.cuts[b + 1], t.index[b].key);
  }

  lemma SeparatorBelow(c: Comparator, es: seq<Pair>, e: nat, sep: Bytes, e': nat, sep': Bytes)
    requires ComparatorOk(c) && Ascending(InternalLess(c), es) && 0 < e < e' <= |es|
    requires Separates(c, es, e, sep) && Separates(c, es, e', sep')
    ensures InternalLess(c)(sep, sep')
  {
    var less := InternalLess(c);
    InternalOrder(c);
    SeparatorOrder(c, es, e, sep);
    if e < e' - 1 {
      KeysAscend(less, es, e, e' - 1);
    }
    assert less(sep, es[e' - 1].key);
    assert sep' == es[e' - 1].key || less(es[e' - 1].key, sep');
  }

  lemma CutsBelow(c: Comparator, k: Checksum, file: Bytes, groups: seq<seq<Bytes>>, pending: seq<Bytes>, t: Contents)
    requires ContentsOk(c, k, file, groups, pending, t)
    requires |t.index| == |t.blocks| > 0 ==> t.cuts[|t.blocks|] < |t.es|
    ensures forall b: nat {:trigger t.cuts[b]} :: 0 < b <= |t.index| ==> t.cuts[b] < |t.es|
  {
    forall b: nat | 0 < b <= |t.index|
      ensures t.cuts[b] < |t.es|
    {
      if b < |t.blocks| {
        assert DataBlockOk(k, file, t, b);
      }
    }
  }

  // ---------------------------------------------------------------- TableBuilder

  method EncodeHandle(h: BlockHandle) returns (r: Bytes)
    requires h.offset < 0x8000_0000_0000_0000 && h.size < 0x8000_0000_0000_0000
    ensures r == HandleBytes(h) && |r| <= 18
  {
    var a := EncodeVarint64(h.offset);
    var b := EncodeVarint64(h.size);
    r := a + b;
    HandleLength(h);
  }

  lemma HandleLength(h: BlockHandle)
    requires h.offset < 0x8000_0000_0000_0000 && h.size < 0x8000_0000_0000_0000
    ensures |HandleBytes(h)| <= 18
  {
    assert Power(9) == 0x8000_0000_0000_0000;
    VarintBytes(h.offset, 9);
    VarintBytes(h.size, 9);
  }

  /** The fields of a builder: blockEs waits in the data block; the last block written may wait for its
      index entry. */
  datatype Fields = Fields(lastKey: Bytes, numEntries: nat, pendingIndexEntry: bool, pendingHandle: BlockHandle)

  ghost predicate FieldsOk(c: Comparator, k: Checksum, file: Bytes, groups: seq<seq<Bytes>>, pending: seq<Bytes>, t: Contents,
                           blockEs: seq<Pair>, f: Fields)
  {
    && ContentsOk(c, k, file, groups, pending, t)
    && blockEs == t.es[t.cuts[|t.blocks|]..]
    && f.lastKey == Previous(t.es, |t.es|) && f.numEntries == |t.es|
    && |groups| == |file| / FILTER_BASE
    && (forall i: nat {:trigger t.es[i]} :: t.cuts[|t.blocks|] <= i < |t.es| ==> t.es[i].key in pending)
    && if f.pendingIndexEntry then
         |t.index| + 1 == |t.blocks| && t.cuts[|t.blocks|] == |t.es| > 0 && f.pendingHandle == t.blocks[|t.blocks| - 1]
       else
         |t.index| == |t.blocks| && (|t.blocks| > 0 ==> t.cuts[|t.blocks|] < |t.es|)
  }

  // The index once the entry that waits has been added, next being the key that comes after the block
  function NextIndex(c: Comparator, t: Contents, f: Fields, next: Bytes): seq<Pair> {
    if f.pendingIndexEntry then t.index + [Pair(InternalSeparator(c, f.lastKey, next), HandleBytes(f.pendingHandle))] else t.index
  }

  lemma FieldsAdd(c: Comparator, k: Checksum, file: Bytes, groups: seq<seq<Bytes>>, pending: seq<Bytes>, t: Contents,
                  blockEs: seq<Pair>, f: Fields, e: Pair)
    requires ComparatorOk(c) && FieldsOk(c, k, file, groups, pending, t, blockEs, f)
    requires f.numEntries > 0 ==> InternalLess(c)(f.lastKey, e.key)
    ensures FieldsOk(c, k, file, groups, pending + [e.key], WithEntry(t, e, NextIndex(c, t, f, e.key)),
                     blockEs + [e], Fields(e.key, f.numEntries + 1, false, f.pendingHandle))
  {
    var index := NextIndex(c, t, f, e.key);
    var t' := WithEntry(t, e, index);
    CutsBelow(c, k, file, groups, pending, t);
    if f.pendingIndexEntry {
      assert DataBlockOk(k, file, t, |t.blocks| - 1);
      InternalSeparates(c, f.lastKey, e.key);
    }
    AddEntry(c, k, file, groups, pending, pending + [e.key], t, e, index);
    forall i: nat | t'.cuts[|t'.blocks|] <= i < |t'.es|
      ensures t'.es[i].key in pending + [e.key]
    {
      assert i < |t.es| ==> t'.es[i] == t.es[i];
    }
    assert t'.es[t.cuts[|t.blocks|]..] == blockEs + [e];
  }

  lemma FieldsFlush(c: Comparator, k: Checksum, file: Bytes, groups: seq<seq<Bytes>>, pending: seq<Bytes>, t: Contents,
                    blockEs: seq<Pair>, f: Fields, data: Bytes, l: Layout, groups': seq<seq<Bytes>>, pending': seq<Bytes>)
    requires FieldsOk(c, k, file, groups, pending, t, blockEs, f) && blockEs != []
    requires IsBlock(data, l) && l.es == blockEs
    requires forall i: nat :: GroupIn(groups', pending', i) == GroupIn(groups, pending, i)
    requires |groups'| == |file + Stored(k, data)| / FILTER_BASE
    ensures var h := BlockHandle(|file|, |data|);
            FieldsOk(c, k, file + Stored(k, data), groups', pending', WithBlock(t, h, l), [], Fields(f.lastKey, f.numEntries, true, h))
  {
    AddBlock(c, k, file, groups, pending, t, data, l);
    Regrouped(c, k, file + Stored(k, data), groups, pending, groups', pending', WithBlock(t, BlockHandle(|file|, |data|), l));
  }

  // The index entry that waits can be added to the index block.
  lemma PendingFits(c: Comparator, k: Checksum, file: Bytes, groups: seq<seq<Bytes>>, pending: seq<Bytes>, t: Contents,
                    blockEs: seq<Pair>, f: Fields, sep: Bytes)
    requires ComparatorOk(c) && FieldsOk(c, k, file, groups, pending, t, blockEs, f) && f.pendingIndexEntry
    requires sep == f.lastKey || c.less(User(f.lastKey), User(sep))
    ensures f.pendingHandle.offset + f.pendingHandle.size < |file|
    ensures |t.index| > 0 ==> InternalLess(c)(t.index[|t.index| - 1].key, sep)
  {
    assert DataBlockOk(k, file, t, |t.blocks| - 1);
    if |t.index| > 0 {
      assert IndexOk(c, t, |t.index| - 1);
      SeparatorBelow(c, t.es, t.cuts[|t.index|], t.index[|t.index| - 1].key, |t.es|, sep);
    }
  }

  // The whole index: the last entry has a successor of the last key.
  function LastIndex(c: Comparator, t: Contents, f: Fields): seq<Pair> {
    if f.pendingIndexEntry then t.index + [Pair(InternalSuccessor(c, f.lastKey), HandleBytes(f.pendingHandle))] else t.index
  }

  lemma FieldsFinish(c: Comparator, k: Checksum, file: Bytes, groups: seq<seq<Bytes>>, pending: seq<Bytes>, t: Contents, f: Fields)
    requires ComparatorOk(c) && FieldsOk(c, k, file, groups, pending, t, [], f) && (f.numEntries > 0 ==> f.pendingIndexEntry)
    ensures var t' := t.(index := LastIndex(c, t, f));
            ContentsOk(c, k, file, groups, pending, t') && |t'.index| == |t'.blocks| && t'.cuts[|t'.blocks|] == |t'.es|
  {
    var t' := t.(index := LastIndex(c, t, f));
    InternalSucceeds(c, f.lastKey);
    forall b: nat | b < |t.blocks|
      ensures DataBlockOk(k, file, t', b) && GroupedBlock(groups, pending, t', b)
    {
      assert DataBlockOk(k, file, t, b) && GroupedBlock(groups, pending, t, b);
    }
    forall b: nat | b < |t'.index|
      ensures IndexOk(c, t', b)
    {
      if b < |t.index| {
        assert IndexOk(c, t, b);
      }
    }
  }

  lemma ContentsStay(c: Comparator, k: Checksum, file: Bytes, groups: seq<seq<Bytes>>, pending: seq<Bytes>, t: Contents, more: Bytes)
    requires ContentsOk(c, k, file, groups, pending, t)
    ensures ContentsOk(c, k, file + more, groups, pending, t)
  {
    forall b: nat | b < |t.blocks|
      ensures DataBlockOk(k, file + more, t, b)
    {
      assert DataBlockOk(k, file, t, b);
      StoredStays(k, file, t.blocks[b], BlockData(file, t.blocks[b]), more);
      assert BlockData(file + more, t.blocks[b]) == BlockData(file, t.blocks[b]);
    }
  }

  ghost predicate HasData(k: Checksum, file: Bytes, h: BlockHandle, data: Bytes) {
    h.offset + h.size <= |file| && StoredAt(k, file, h, data) && BlockData(file, h) == data
  }

  lemma BlockStored(k: Checksum, file: Bytes, data: Bytes, more: Bytes)
    ensures var h := BlockHandle(|file|, |data|);
            var file' := file + Stored(k, data) + more;
            HasData(k, file', h, data)
  {
    var h := BlockHandle(|file|, |data|);
    assert (file + Stored(k, data))[|file|..] == Stored(k, data);
    StoredStays(k, file + Stored(k, data), h, data, more);
    var file' := file + Stored(k, data) + more;
    assert BlockData(file', h) == file'[h.offset..h.offset + h.size + TRAILER_SIZE][..h.size] == Stored(k, data)[..h.size];
  }

  lemma Finished(c: Comparator, policy: FilterPolicy, name: Bytes, k: Checksum, file: Bytes, t: Contents, groups: seq<seq<Bytes>>,
                 filter: Bytes, meta: Bytes, metaLayout: Layout, index: Bytes, indexLayout: Layout)
    returns (p: Places)
    requires ContentsOk(c, k, file, groups, [], t) && |t.index| == |t.blocks| && t.cuts[|t.blocks|] == |t.es|
    requires IsFilterBlock(policy, filter, groups)
    requires IsBlock(meta, metaLayout) && metaLayout.es == [Pair(MetaKey(name), HandleBytes(BlockHandle(|file|, |filter|)))]
    requires IsBlock(index, indexLayout) && indexLayout.es == t.index
    requires |file| + |filter| < 0x7000_0000_0000_0000
    ensures p.metaindex == BlockHandle(|file + Stored(k, filter)|, |meta|)
    ensures p.index == BlockHandle(|file + Stored(k, filter) + Stored(k, meta)|, |index|)
    ensures |HandleBytes(p.metaindex)| <= MAX_HANDLE_LENGTH && |HandleBytes(p.index)| <= MAX_HANDLE_LENGTH
    ensures IsTable(c, policy, name, k,
                    file + Stored(k, filter) + Stored(k, meta) + Stored(k, index) + FooterBytes(p.metaindex, p.index), t, p)
  {
    var file1 := file + Stored(k, filter);
    var file2 := file1 + Stored(k, meta);
    p := Places(BlockHandle(|file|, |filter|), BlockHandle(|file1|, |meta|), BlockHandle(|file2|, |index|), metaLayout, indexLayout, groups);
    HandleLength(p.metaindex);
    HandleLength(p.index);
    var footer := FooterBytes(p.metaindex, p.index);
    FinishedBlocks(k, file, filter, meta, index, footer);
    ContentsStay(c, k, file, groups, [], t, Stored(k, filter) + Stored(k, meta) + Stored(k, index) + footer);
  }

  lemma FinishedBlocks(k: Checksum, file: Bytes, filter: Bytes, meta: Bytes, index: Bytes, footer: Bytes)
    requires |footer| == FOOTER_LENGTH
    ensures var file1 := file + Stored(k, filter);
            var file2 := file1 + Stored(k, meta);
            var file4 := file2 + Stored(k, index) + footer;
            && file4 == file + (Stored(k, filter) + Stored(k, meta) + Stored(k, index) + footer)
            && file4[|file4| - FOOTER_LENGTH..] == footer
            && HasData(k, file4, BlockHandle(|file|, |filter|), filter)
            && HasData(k, file4, BlockHandle(|file1|, |meta|), meta)
            && HasData(k, file4, BlockHandle(|file2|, |index|), index)
  {
    var a, b, d := Stored(k, filter), Stored(k, meta), Stored(k, index);
    FourParts(file, a, b, d, footer);
    BlockStored(k, file, filter, b + d + footer);
    BlockStored(k, file + a, meta, d + footer);
    BlockStored(k, file + a + b, index, footer);
  }

  lemma FourParts(file: Bytes, a: Bytes, b: Bytes, c: Bytes, d: Bytes)
    ensures file + a + b + c + d == file + (a + b + c + d)
    ensures file + a + b + c + d == file + a + (b + c + d)
    ensures file + a + b + c + d == file + a + b + (c + d)
    ensures (file + a + b + c + d)[|file + a + b + c|..] == d
  {
    assert b + c + d == b + (c + d);
    assert a + b + c + d == a + (b + c + d);
    assert file + a + b + c + d == file + a + b + (c + d);
  }

  class TableBuilder {
    const c: Comparator
    const policy: FilterPolicy
    const k: Checksum
    const blockSize: nat
    const interval: nat
    const dataBlock: BlockBuilder
    const indexBlock: BlockBuilder
    const filterBlock: FilterBlockBuilder
    // What has been written; its length is the offset of the next block.
    var file: Bytes
    var lastKey: Bytes
    var numEntries: nat
    var closed: bool
    var pendingIndexEntry: bool
    var pendingHandle: BlockHandle
    ghost var t: Contents

    ghost predicate Parts()
      reads this, dataBlock, indexBlock, filterBlock
    {
      && dataBlock != indexBlock
      && dataBlock.Valid() && indexBlock.Valid() && filterBlock.Valid()
      && dataBlock.less == indexBlock.less == InternalLess(c)
      && filterBlock.policy == policy
    }

    ghost predicate Valid()
      reads this, dataBlock, indexBlock, filterBlock
    {
      && Parts()
      && ComparatorOk(c) && interval >= 1
      && (!closed ==>
            && !dataBlock.finished && !indexBlock.finished
            && FieldsOk(c, k, file, filterBlock.groups, filterBlock.pending, t, dataBlock.l.es, Current())
            && indexBlock.l.es == t.index)
    }

    ghost function Current(): Fields
      reads this
    {
      Fields(lastKey, numEntries, pendingIndexEntry, pendingHandle)
    }

    constructor (c: Comparator, policy: FilterPolicy, k: Checksum, blockSize: nat, interval: nat)
      requires ComparatorOk(c) && interval >= 1
      ensures Valid() && !closed && t.es == []
      ensures this.c == c && this.policy == policy && this.k == k && this.blockSize == blockSize && this.interval == interval
      ensures fresh(dataBlock) && fresh(indexBlock) && fresh(filterBlock)
    {
      this.c, this.policy, this.k, this.blockSize, this.interval := c, policy, k, blockSize, interval;
      dataBlock := new BlockBuilder(interval, InternalLess(c));
      indexBlock := new BlockBuilder(1, InternalLess(c));
      filterBlock := new FilterBlockBuilder(policy);
      file, lastKey, numEntries, closed, pendingIndexEntry, pendingHandle := [], [], 0, false, false, BlockHandle(0, 0);
      t := Contents([], [0], [], [], []);
    }

    /** Writes the block, its type and checksum. */
    method WriteRawBlock(data: Bytes) returns (h: BlockHandle)
      modifies this`file
      ensures h == BlockHandle(|old(file)|, |data|) && file == old(file) + Stored(k, data)
    {
      h := BlockHandle(|file|, |data|);
      var typed := data + [NO_COMPRESSION];
      file := file + typed + k.stored(typed);
      assert file == old(file) + Stored(k, data);
    }

    method WriteBlock(block: BlockBuilder) returns (h: BlockHandle, ghost data: Bytes)
      requires block.Valid() && !block.finished
      modifies this`file, block
      ensures block.Valid() && !block.finished && block.l.es == [] && block.CurrentSizeEstimate() == 8
      ensures h == BlockHandle(|old(file)|, |data|) && file == old(file) + Stored(k, data) && IsBlock(data, old(block.l))
      ensures |data| == old(block.CurrentSizeEstimate())
    {
      var raw := block.Finish();
      data := raw;
      h := WriteRawBlock(raw);
      block.Reset();
    }

    // The data block is empty exactly if no entry waits in it.
    lemma EmptyBlock()
      requires Valid() && !closed
      ensures |dataBlock.buffer| == 0 <==> dataBlock.l.es == []
      ensures dataBlock.l.es != [] ==> dataBlock.lastKey == lastKey && |t.es| > 0
      ensures dataBlock.l.es == [] ==> dataBlock.CurrentSizeEstimate() == 8
    {
      if |dataBlock.l.starts| > 1 {
        assert StartOk(dataBlock.l, 1);
      }
      if dataBlock.l.es != [] {
        OffsetsGrow(dataBlock.buffer, dataBlock.l, 0, |dataBlock.l.es|);
      }
    }

    /** The data block is written; its index entry waits for the next key. */
    method Flush()
      requires Valid() && !closed
      modifies this, dataBlock, filterBlock
      ensures Valid() && !closed && t.es == old(t.es) && t.index == old(t.index)
      ensures dataBlock.l.es == [] && dataBlock.CurrentSizeEstimate() == 8 && (|t.es| > 0 ==> pendingIndexEntry)
      ensures if old(dataBlock.l.es) == [] then t == old(t)
              else t.blocks == old(t.blocks) + [pendingHandle] && pendingHandle.size == old(dataBlock.CurrentSizeEstimate())
      ensures lastKey == old(lastKey) && |file| < |old(file)| + 0x1_0000_0005
      ensures |filterBlock.result| + |Part(policy, filterBlock.pending)| == old(|filterBlock.result| + |Part(policy, filterBlock.pending)|)
    {
      EmptyBlock();
      if |dataBlock.buffer| == 0 {
        return;
      }
      ghost var data, l := [], dataBlock.l;
      pendingHandle, data := WriteBlock(dataBlock);
      pendingIndexEntry := true;
      filterBlock.StartBlock(|file|);
      FieldsFlush(c, k, old(file), old(filterBlock.groups), old(filterBlock.pending), t, l.es, old(Current()), data, l,
                  filterBlock.groups, filterBlock.pending);
      t := WithBlock(t, pendingHandle, l);
    }

    /** The index entry of the block before waits for this key, so that a key that lies between can stand
        for the block. */
    method AddPending(key: Bytes)
      requires Valid() && !closed && (numEntries > 0 ==> InternalLess(c)(lastKey, key))
      requires indexBlock.CurrentSizeEstimate() + |lastKey| + 37 < 0x1_0000_0000 && |file| < 0x8000_0000_0000_0000
      modifies this`lastKey, this`pendingIndexEntry, indexBlock
      ensures indexBlock.Valid() && !indexBlock.finished && !pendingIndexEntry
      ensures indexBlock.l.es == NextIndex(c, t, old(Current()), key)
    {
      if pendingIndexEntry {
        InternalSeparates(c, lastKey, key);
        PendingFits(c, k, file, filterBlock.groups, filterBlock.pending, t, dataBlock.l.es, Current(), InternalSeparator(c, lastKey, key));
        lastKey := InternalSeparator(c, lastKey, key);
        var handleEncoding := EncodeHandle(pendingHandle);
        indexBlock.Add(lastKey, handleEncoding);
        pendingIndexEntry := false;
      }
    }

    method PutEntry(key: Bytes, value: Bytes)
      requires dataBlock.Valid() && !dataBlock.finished && filterBlock.Valid()
      requires |dataBlock.buffer| > 0 ==> dataBlock.less(dataBlock.lastKey, key)
      requires dataBlock.CurrentSizeEstimate() + |key| + |value| + 19 < 0x1_0000_0000
      modifies this`lastKey, this`numEntries, dataBlock, filterBlock
      ensures dataBlock.Valid() && !dataBlock.finished && filterBlock.Valid()
      ensures dataBlock.l.es == old(dataBlock.l.es) + [Pair(key, value)]
      ensures filterBlock.groups == old(filterBlock.groups) && filterBlock.pending == old(filterBlock.pending) + [key]
      ensures lastKey == key && numEntries == old(numEntries) + 1
    {
      filterBlock.AddKey(key);
      lastKey := key;
      numEntries := numEntries + 1;
      dataBlock.Add(key, value);
    }

    method AddToBlock(key: Bytes, value: Bytes)
      requires Valid() && !closed && (numEntries > 0 ==> InternalLess(c)(lastKey, key))
      requires dataBlock.CurrentSizeEstimate() + |key| + |value| + 19 < 0x1_0000_0000
      requires indexBlock.CurrentSizeEstimate() + |lastKey| + 37 < 0x1_0000_0000 && |file| < 0x8000_0000_0000_0000
      modifies this, dataBlock, indexBlock, filterBlock
      ensures Valid() && !closed && t.es == old(t.es) + [Pair(key, value)]
      ensures t.blocks == old(t.blocks) && dataBlock.l.es == old(dataBlock.l.es) + [Pair(key, value)]
    {
      EmptyBlock();
      ghost var e, f := Pair(key, value), Current();
      ghost var es, pending := dataBlock.l.es + [e], filterBlock.pending + [key];
      ghost var t' := WithEntry(t, e, NextIndex(c, t, f, key));
      FieldsAdd(c, k, file, filterBlock.groups, filterBlock.pending, t, dataBlock.l.es, f, e);
      AddPending(key);
      PutEntry(key, value);
      t := t';
      assert Current() == Fields(key, f.numEntries + 1, false, f.pendingHandle);
    }

    /** The data block is written exactly when it has reached the block size with this entry; otherwise the entry waits in it. */
    method Add(key: Bytes, value: Bytes)
      requires Valid() && !closed && (numEntries > 0 ==> InternalLess(c)(lastKey, key))
      requires dataBlock.CurrentSizeEstimate() + |key| + |value| + 19 < 0x1_0000_0000
      requires indexBlock.CurrentSizeEstimate() + |lastKey| + 37 < 0x1_0000_0000 && |file| < 0x8000_0000_0000_0000
      modifies this, dataBlock, indexBlock, filterBlock
      ensures Valid() && !closed && t.es == old(t.es) + [Pair(key, value)]
      ensures if dataBlock.l.es == [] then |t.blocks| == |old(t.blocks)| + 1 && t.blocks[..|t.blocks| - 1] == old(t.blocks)
                                           && t.blocks[|t.blocks| - 1].size >= blockSize
              else t.blocks == old(t.blocks) && dataBlock.l.es == old(dataBlock.l.es) + [Pair(key, value)]
                   && dataBlock.CurrentSizeEstimate() < blockSize
    {
      AddToBlock(key, value);
      var estimatedBlockSize := dataBlock.CurrentSizeEstimate();
      if estimatedBlockSize >= blockSize {
        Flush();
      }
    }

    // The last index entry can be added.
    ghost predicate LastFits()
      reads this, indexBlock
    {
      && indexBlock.Valid() && !indexBlock.finished && indexBlock.l.es == t.index
      && indexBlock.CurrentSizeEstimate() + |lastKey| + 37 < 0x1_0000_0000
      && |InternalSuccessor(c, lastKey)| <= |lastKey|
      && (pendingIndexEntry ==>
            && (|t.index| > 0 ==> indexBlock.less(t.index[|t.index| - 1].key, InternalSuccessor(c, lastKey)))
            && pendingHandle.offset + pendingHandle.size < 0x8000_0000_0000_0000)
    }

    method WriteIndex() returns (h: BlockHandle, ghost data: Bytes, ghost layout: Layout)
      requires LastFits()
      modifies this`file, this`lastKey, this`pendingIndexEntry, indexBlock
      ensures h == BlockHandle(|old(file)|, |data|) && file == old(file) + Stored(k, data)
      ensures IsBlock(data, layout) && layout.es == LastIndex(c, t, old(Current()))
    {
      if pendingIndexEntry {
        lastKey := InternalSuccessor(c, lastKey);
        var handleEncoding := EncodeHandle(pendingHandle);
        indexBlock.Add(lastKey, handleEncoding);
        pendingIndexEntry := false;
      }
      layout := indexBlock.l;
      h, data := WriteBlock(indexBlock);
    }

    method WriteMetaindex(name: Bytes, filter: BlockHandle) returns (h: BlockHandle, ghost data: Bytes, ghost layout: Layout)
      requires interval >= 1 && |name| < 0x1000_0000
      requires filter.offset < 0x8000_0000_0000_0000 && filter.size < 0x8000_0000_0000_0000
      modifies this`file
      ensures h == BlockHandle(|old(file)|, |data|) && file == old(file) + Stored(k, data)
      ensures IsBlock(data, layout) && layout.es == [Pair(MetaKey(name), HandleBytes(filter))]
    {
      var metaIndexBlock := new BlockBuilder(interval, InternalLess(c));
      var handleEncoding := EncodeHandle(filter);
      metaIndexBlock.Add(MetaKey(name), handleEncoding);
      layout := metaIndexBlock.l;
      h, data := WriteBlock(metaIndexBlock);
    }

    // The last data block may be of any size.
    method FlushRest()
      requires Valid() && !closed
      modifies this, dataBlock, filterBlock
      ensures Valid() && !closed && t.es == old(t.es) && t.index == old(t.index)
      ensures dataBlock.l.es == [] && (|t.es| > 0 ==> pendingIndexEntry)
      ensures lastKey == old(lastKey) && |file| < |old(file)| + 0x1_0000_0005
      ensures |filterBlock.result| + |Part(policy, filterBlock.pending)| == old(|filterBlock.result| + |Part(policy, filterBlock.pending)|)
    {
      Flush();
    }

    method FlushAll() returns (filter: Bytes)
      requires Valid() && !closed
      requires |filterBlock.result| + |Part(policy, filterBlock.pending)| < 0x1_0000_0000
      requires indexBlock.CurrentSizeEstimate() + |lastKey| + 37 < 0x1_0000_0000
      requires |file| < 0x1000_0000_0000_0000
      modifies this, dataBlock, filterBlock
      ensures closed && t.es == old(t.es) && interval >= 1 && LastFits()
      ensures IsFilterBlock(policy, filter, filterBlock.groups) && |file| + |filter| < 0x7000_0000_0000_0000
      ensures var whole := t.(index := LastIndex(c, t, Current()));
              && ContentsOk(c, k, file, filterBlock.groups, [], whole)
              && |whole.index| == |whole.blocks| && whole.cuts[|whole.blocks|] == |whole.es|
    {
      FlushRest();
      closed := true;
      ghost var groups, pending := filterBlock.groups, filterBlock.pending;
      FieldsFinish(c, k, file, groups, pending, t, Current());
      InternalSucceeds(c, lastKey);
      if pendingIndexEntry {
        PendingFits(c, k, file, groups, pending, t, [], Current(), InternalSuccessor(c, lastKey));
      }
      filter := filterBlock.Finish();
      Regrouped(c, k, file, groups, pending, filterBlock.groups, [], t.(index := LastIndex(c, t, Current())));
    }

    // The blocks after the data blocks, and the footer
    method WriteEnd(name: Bytes, filter: Bytes) returns (ghost p: Places)
      requires closed && interval >= 1 && LastFits() && |name| < 0x1000_0000
      requires IsFilterBlock(policy, filter, filterBlock.groups) && |file| + |filter| < 0x7000_0000_0000_0000
      requires var whole := t.(index := LastIndex(c, t, Current()));
               && ContentsOk(c, k, file, filterBlock.groups, [], whole)
               && |whole.index| == |whole.blocks| && whole.cuts[|whole.blocks|] == |whole.es|
      modifies this, indexBlock
      ensures closed && t.es == old(t.es) && IsTable(c, policy, name, k, file, t, p)
    {
      ghost var file0, whole := file, t.(index := LastIndex(c, t, Current()));
      var filterHandle := WriteRawBlock(filter);
      ghost var meta, metaLayout, index, indexLayout;
      var metaindexHandle, indexHandle;
      metaindexHandle, meta, metaLayout := WriteMetaindex(name, filterHandle);
      indexHandle, index, indexLayout := WriteIndex();
      p := Finished(c, policy, name, k, file0, whole, filterBlock.groups, filter, meta, metaLayout, index, indexLayout);
      t := whole;
      file := file + FooterBytes(metaindexHandle, indexHandle);
    }

    /** What is written is a table of the entries that were added. */
    method Finish(name: Bytes) returns (ghost p: Places)
      requires Valid() && !closed
      requires |filterBlock.result| + |Part(policy, filterBlock.pending)| < 0x1_0000_0000
      requires indexBlock.CurrentSizeEstimate() + |lastKey| + 37 < 0x1_0000_0000
      requires |name| < 0x1000_0000 && |file| < 0x1000_0000_0000_0000
      modifies this, dataBlock, indexBlock, filterBlock
      ensures closed && t.es == old(t.es) && IsTable(c, policy, name, k, file, t, p)
    {
      var filter := FlushAll();
      p := WriteEnd(name, filter);
    }
  }
}
