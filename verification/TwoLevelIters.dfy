/** Iterating over a table (table/two_level_iterator.cc): an iterator of the index block and an iterator of
    one data block make a cursor on all entries. */
module TwoLevelIters {
  import opened Keys
  import opened Coding
  import opened Comparators
  import opened Checksums
  import opened Blocks
  import opened BlockIters
  import F = FilterBlocks
  import opened Tables
  import opened TableReads

  lemma {:induction false} OffsetsDiffer(k: Checksum, file: Bytes, t: Contents, a: nat, b: nat)
    requires Shaped(t) && a < b < |t.blocks|
    requires forall i: nat {:trigger DataBlockOk(k, file, t, i)} :: i < |t.blocks| ==> DataBlockOk(k, file, t, i)
    ensures t.blocks[a].offset < t.blocks[b].offset && t.cuts[a + 1] <= t.cuts[b]
    decreases b
  {
    assert DataBlockOk(k, file, t, b);
    if a < b - 1 {
      OffsetsDiffer(k, file, t, a, b - 1);
      assert DataBlockOk(k, file, t, b - 1);
    }
  }

  // The value of an index entry tells its block.
  lemma HandleTellsBlock(k: Checksum, file: Bytes, t: Contents, a: nat, b: nat)
    requires Shaped(t) && a < |t.blocks| && b < |t.blocks| && HandleBytes(t.blocks[a]) == HandleBytes(t.blocks[b])
    requires forall i: nat {:trigger DataBlockOk(k, file, t, i)} :: i < |t.blocks| ==> DataBlockOk(k, file, t, i)
    requires |file| < 0x8000_0000_0000_0000
    ensures a == b
  {
    assert DataBlockOk(k, file, t, a) && DataBlockOk(k, file, t, b);
    WholeHandle(t.blocks[a]);
    WholeHandle(t.blocks[b]);
    var data := HandleBytes(t.blocks[a]);
    VarintUnique(data, 0, |data|, t.blocks[a].offset, t.blocks[b].offset);
    if a < b {
      OffsetsDiffer(k, file, t, a, b);
    } else if b < a {
      OffsetsDiffer(k, file, t, b, a);
    }
  }

  ghost predicate TableOk(c: Comparator, k: Checksum, file: Bytes, groups: seq<seq<Bytes>>, t: Contents) {
    && ContentsOk(c, k, file, groups, [], t)
    && |t.index| == |t.blocks| && t.cuts[|t.blocks|] == |t.es| && |file| < 0x8000_0000_0000_0000
  }

  class TwoLevelIterator {
    const c: Comparator
    const k: Checksum
    const file: Bytes
    const verify: bool
    const index: BlockIter
    var data: BlockIter?
    // data_block_handle_: the index value that data was made from
    var dataBlockHandle: Bytes
    ghost const t: Contents
    ghost const groups: seq<seq<Bytes>>
    // The block that data iterates over
    ghost var block: nat

    ghost predicate Valid()
      reads this, index, data
    {
      && ComparatorOk(c)
      && TableOk(c, k, file, groups, t)
      && index.Ok() && index.good && index.l.es == t.index && index.less == InternalLess(c)
      && (data != null ==>
            && data != index && data.Ok() && data.good && data.less == InternalLess(c)
            && block < |t.blocks| && data.l == t.layouts[block] && dataBlockHandle == HandleBytes(t.blocks[block]))
    }

    predicate IsValid()
      reads this, data
    {
      data != null && data.IsValid()
    }

    /** At entry i of the table */
    ghost predicate At(i: nat)
      requires Valid()
      reads this, index, data
    {
      && data != null && t.cuts[block] <= i < t.cuts[block + 1] <= |t.es|
      && index.At(block) && data.At(i - t.cuts[block])
    }

    ghost predicate AtEnd()
      requires Valid()
      reads this, index, data
    {
      data == null && index.AtEnd()
    }

    constructor (c: Comparator, k: Checksum, file: Bytes, verify: bool, index: BlockIter, ghost t: Contents, ghost groups: seq<seq<Bytes>>)
      requires ComparatorOk(c) && TableOk(c, k, file, groups, t)
      requires index.Ok() && index.good && index.l.es == t.index && index.less == InternalLess(c)
      ensures Valid() && data == null && this.t == t && this.index == index
    {
      this.c, this.k, this.file, this.verify, this.index, this.t, this.groups := c, k, file, verify, index, t, groups;
      data, dataBlockHandle, block := null, [], 0;
    }

    lemma Block(b: nat)
      requires Valid() && b < |t.blocks|
      ensures t.cuts[b] < t.cuts[b + 1] <= |t.es| && t.layouts[b].es == t.es[t.cuts[b]..t.cuts[b + 1]]
      ensures t.index[b].value == HandleBytes(t.blocks[b])
      ensures HasBlock(k, file, t.blocks[b], t.layouts[b]) && Ascending(InternalLess(c), t.layouts[b].es)
    {
      assert DataBlockOk(k, file, t, b) && IndexOk(c, t, b);
      BlockAscending(c, k, file, groups, t, b);
    }

    /** Makes data an iterator of the block the index is at, unless it is one already. */
    method InitDataBlock(ghost b: nat)
      requires Valid() && if b < |t.blocks| then index.At(b) else index.AtEnd()
      modifies this
      ensures Valid() && (data == null || data == old(data) || fresh(data))
      ensures if b < |t.blocks| then data != null && block == b else data == null
    {
      if !index.IsValid() {
        data := null;
        return;
      }
      var handle := index.Value();
      Block(b);
      if data != null && handle == dataBlockHandle {
        HandleTellsBlock(k, file, t, b, block);
      } else {
        InternalOrder(c);
        var iter := BlockReader(InternalLess(c), k, file, handle, verify, t.blocks[b], t.layouts[b]);
        dataBlockHandle := handle;
        data, block := iter.it, b;
      }
    }

    /** key() and value() are those of the entry. */
    lemma AtEntry(i: nat)
      requires Valid() && At(i)
      ensures IsValid() && Pair(data.key, data.Value()) == t.es[i]
    {
      Block(block);
    }

    // data is at entry i, or past the end of its block and i is the next entry, or there are no more blocks.
    ghost predicate AtOrBefore(b: nat, i: nat)
      requires Valid()
      reads this, index, data
    {
      if b < |t.blocks| then
        && data != null && block == b && index.At(b) && t.cuts[b] <= i <= t.cuts[b + 1] <= |t.es|
        && if i < t.cuts[b + 1] then data.At(i - t.cuts[b]) else data.AtEnd()
      else
        data == null && index.AtEnd() && i == |t.es|
    }

    method SkipEmptyDataBlocksForward(ghost b: nat, ghost i: nat)
      requires Valid() && AtOrBefore(b, i)
      modifies this, index, data
      ensures Valid() && (data == null || data == old(data) || fresh(data))
      ensures if i < |t.es| then At(i) else AtEnd()
    {
      ghost var b: nat := b;
      while data == null || !data.IsValid()
        invariant Valid() && (data == null || data == old(data) || fresh(data))
        invariant AtOrBefore(b, i)
        decreases |t.blocks| - b
      {
        if !index.IsValid() {
          data := null;
          return;
        }
        NextBlock(b, i);
        b := b + 1;
      }
    }

    method NextBlock(ghost b: nat, ghost i: nat)
      requires Valid() && AtOrBefore(b, i) && !IsValid() && index.IsValid()
      modifies this, index, data
      ensures Valid() && (data == null || data == old(data) || fresh(data))
      ensures b < |t.blocks| && AtOrBefore(b + 1, i)
    {
      Block(b);
      index.Next(b);
      InitDataBlock(b + 1);
      if data != null {
        Block(b + 1);
        data.SeekToFirst();
      }
    }

    // data is at entry i - 1, or before the beginning of its block and i - 1 is the entry before, or there are no more blocks.
    ghost predicate AtOrAfter(b: nat, i: nat)
      requires Valid()
      reads this, index, data
    {
      if b < |t.blocks| then
        && data != null && block == b && index.At(b) && t.cuts[b] <= i <= t.cuts[b + 1] <= |t.es|
        && if t.cuts[b] < i then data.At(i - 1 - t.cuts[b]) else data.AtEnd()
      else
        data == null && index.AtEnd() && i == 0
    }

    method SkipEmptyDataBlocksBackward(ghost b: nat, ghost i: nat)
      requires Valid() && AtOrAfter(b, i)
      modifies this, index, data
      ensures Valid() && (data == null || data == old(data) || fresh(data))
      ensures if i > 0 then At(i - 1) else AtEnd()
    {
      ghost var b: nat := b;
      while data == null || !data.IsValid()
        invariant Valid() && (data == null || data == old(data) || fresh(data))
        invariant AtOrAfter(b, i)
        decreases if b < |t.blocks| then b + 1 else 0
      {
        if !index.IsValid() {
          data := null;
          return;
        }
        PrevBlock(b, i);
        b := if b > 0 then b - 1 else |t.blocks|;
      }
    }

    method PrevBlock(ghost b: nat, ghost i: nat)
      requires Valid() && AtOrAfter(b, i) && !IsValid() && index.IsValid()
      modifies this, index, data
      ensures Valid() && (data == null || data == old(data) || fresh(data))
      ensures b < |t.blocks| && AtOrAfter(if b > 0 then b - 1 else |t.blocks|, i)
    {
      Block(b);
      index.Prev(b);
      ghost var before := if b > 0 then b - 1 else |t.blocks|;
      InitDataBlock(before);
      if data != null {
        Block(before);
        data.SeekToLast();
      }
    }

    method Next(ghost i: nat)
      requires Valid() && At(i)
      modifies this, index, data
      ensures Valid() && (data == null || data == old(data) || fresh(data))
      ensures if i + 1 < |t.es| then At(i + 1) else AtEnd()
    {
      Block(block);
      data.Next(i - t.cuts[block]);
      SkipEmptyDataBlocksForward(block, i + 1);
    }

    method Prev(ghost i: nat)
      requires Valid() && At(i)
      modifies this, index, data
      ensures Valid() && (data == null || data == old(data) || fresh(data))
      ensures if i > 0 then At(i - 1) else AtEnd()
    {
      Block(block);
      data.Prev(i - t.cuts[block]);
      SkipEmptyDataBlocksBackward(block, i);
    }

    method SeekToFirst()
      requires Valid()
      modifies this, index, data
      ensures Valid() && (data == null || data == old(data) || fresh(data))
      ensures if |t.es| > 0 then At(0) else AtEnd()
    {
      index.SeekToFirst();
      InitDataBlock(0);
      if data != null {
        Block(0);
        data.SeekToFirst();
      }
      SkipEmptyDataBlocksForward(0, 0);
    }

    method SeekToLast()
      requires Valid()
      modifies this, index, data
      ensures Valid() && (data == null || data == old(data) || fresh(data))
      ensures if |t.es| > 0 then At(|t.es| - 1) else AtEnd()
    {
      index.SeekToLast();
      ghost var b := if |t.blocks| > 0 then |t.blocks| - 1 else 0;
      InitDataBlock(b);
      if data != null {
        Block(b);
        data.SeekToLast();
      }
      SkipEmptyDataBlocksBackward(b, |t.es|);
    }

    /** Seek lands on the first entry whose key is not below target. */
    method Seek(target: Bytes) returns (ghost i: nat)
      requires Valid()
      modifies this, index, data
      ensures Valid() && (data == null || data == old(data) || fresh(data))
      ensures IsFirst(InternalLess(c), t.es, target, i) && if i < |t.es| then At(i) else AtEnd()
    {
      ghost var b := index.Seek(target);
      InitDataBlock(b);
      ghost var j := 0;
      if data != null {
        j := data.Seek(target);
      }
      i := Landed(target, b, j);
      SkipEmptyDataBlocksForward(b, i);
    }

    lemma Landed(target: Bytes, b: nat, j: nat) returns (i: nat)
      requires Valid() && IsFirst(InternalLess(c), t.index, target, b)
      requires if b < |t.blocks| then
                 && data != null && block == b && index.At(b) && IsFirst(InternalLess(c), t.layouts[b].es, target, j)
                 && if j < |t.layouts[b].es| then data.At(j) else data.AtEnd()
               else
                 data == null && index.AtEnd()
      ensures IsFirst(InternalLess(c), t.es, target, i) && AtOrBefore(b, i)
    {
      if b < |t.blocks| {
        Block(b);
        FirstThroughIndex(c, k, file, groups, t, target, b, j);
        i := t.cuts[b] + j;
      } else {
        PastIndex(c, k, file, groups, t, target);
        i := |t.es|;
      }
    }
  }

  lemma OpenFacts(table: Table, c: Comparator, user: F.FilterPolicy, name: Bytes, k: Checksum, t: Contents, p: Places)
    requires ComparatorOk(c) && IsOpen(table, c, user, name, k, t, p)
    ensures TableOk(c, k, table.file, p.groups, t)
    ensures IsBlock(table.indexBlock, p.indexLayout) && p.indexLayout.es == t.index && Ascending(InternalLess(c), t.index)
  {
    IndexAscending(c, k, table.file, p.groups, t);
  }

  /** Table::NewIterator */
  method NewTableIterator(table: Table, c: Comparator, k: Checksum, verify: bool, ghost t: Contents, ghost groups: seq<seq<Bytes>>, ghost l: Layout)
    returns (it: TwoLevelIterator)
    requires ComparatorOk(c) && TableOk(c, k, table.file, groups, t)
    requires IsBlock(table.indexBlock, l) && l.es == t.index && Ascending(InternalLess(c), t.index)
    ensures fresh(it) && fresh(it.index) && it.data == null && it.Valid() && it.t == t
  {
    InternalOrder(c);
    var index := NewBlockIterator(InternalLess(c), table.indexBlock, l);
    it := new TwoLevelIterator(c, k, table.file, verify, index.it, t, groups);
  }

  /** A forward scan of the table gives its entries in order. */
  method ScanTable(table: Table, c: Comparator, k: Checksum, verify: bool,
                   ghost user: F.FilterPolicy, ghost name: Bytes, ghost t: Contents, ghost p: Places) returns (out: seq<Pair>)
    requires ComparatorOk(c) && IsOpen(table, c, user, name, k, t, p)
    ensures out == t.es
  {
    OpenFacts(table, c, user, name, k, t, p);
    var it := NewTableIterator(table, c, k, verify, t, p.groups, p.indexLayout);
    out := Scan(it);
  }

  method Scan(it: TwoLevelIterator) returns (out: seq<Pair>)
    requires it.Valid()
    modifies it, it.index, it.data
    ensures out == it.t.es
  {
    it.SeekToFirst();
    out := [];
    while it.IsValid()
      invariant it.Valid() && |out| <= |it.t.es| && out == it.t.es[..|out|]
      invariant if |out| < |it.t.es| then it.At(|out|) else it.AtEnd()
      invariant it.data == null || it.data == old(it.data) || fresh(it.data)
      decreases |it.t.es| - |out|
    {
      ghost var i := |out|;
      it.AtEntry(i);
      out := out + [Pair(it.data.key, it.data.Value())];
      it.Next(i);
    }
  }
}
