/** Filter blocks (table/filter_block.cc): one filter for every 2 KB of data offsets.  The filter found
    through the offset of a data block is made from the keys that were added for that block. */
module FilterBlocks {
  import opened Coding
  import opened Comparators
  import Blooms

  // ---------------------------------------------------------------- policies

  /** CreateFilter appends create(keys) to its destination. */
  datatype FilterPolicy = FilterPolicy(create: seq<Bytes> -> Bytes, mayMatch: (Bytes, Bytes) -> bool)

  ghost predicate PolicyOk(p: FilterPolicy) {
    forall keys: seq<Bytes>, key: Bytes {:trigger p.mayMatch(key, p.create(keys))} :: key in keys ==> p.mayMatch(key, p.create(keys))
  }

  function BloomPolicy(hash: Bytes -> Uint32, bitsPerKey: nat, k: Blooms.ProbeCount): FilterPolicy {
    FilterPolicy(keys => Blooms.Filter(hash, bitsPerKey, k, keys), (key, f) => Blooms.Matches(hash, key, f))
  }

  lemma BloomPolicyOk(hash: Bytes -> Uint32, bitsPerKey: nat, k: Blooms.ProbeCount)
    ensures PolicyOk(BloomPolicy(hash, bitsPerKey, k))
  {
    var p := BloomPolicy(hash, bitsPerKey, k);
    forall keys: seq<Bytes>, key: Bytes | key in keys
      ensures p.mayMatch(key, p.create(keys))
    {
      Blooms.KeysMatch(hash, bitsPerKey, k, keys, key);
    }
  }

  function Users(keys: seq<Bytes>): (r: seq<Bytes>)
    ensures |r| == |keys| && forall i: nat :: i < |keys| ==> r[i] == User(keys[i])
  {
    seq(|keys|, i requires 0 <= i < |keys| => User(keys[i]))
  }

  /** InternalFilterPolicy: only the user keys count. */
  function InternalPolicy(p: FilterPolicy): FilterPolicy {
    FilterPolicy(keys => p.create(Users(keys)), (key, f) => p.mayMatch(User(key), f))
  }

  lemma InternalPolicyMatches(p: FilterPolicy, keys: seq<Bytes>, stored: Bytes, key: Bytes)
    requires PolicyOk(p) && stored in keys && User(stored) == User(key)
    ensures InternalPolicy(p).mayMatch(key, InternalPolicy(p).create(keys))
  {
    var i :| 0 <= i < |keys| && keys[i] == stored;
    assert Users(keys)[i] == User(key);
  }

  // ---------------------------------------------------------------- strings cut at offsets

  function EndOf(data: Bytes, offs: seq<nat>, i: nat): nat
    requires i < |offs|
  {
    if i + 1 < |offs| then offs[i + 1] else |data|
  }

  ghost predicate ChunkAt(data: Bytes, offs: seq<nat>, parts: seq<Bytes>, i: nat)
    requires i < |offs| == |parts|
  {
    offs[i] <= EndOf(data, offs, i) <= |data| && data[offs[i]..EndOf(data, offs, i)] == parts[i]
  }

  // parts[i] begins at offs[i] and ends where the next one begins
  ghost predicate Chunks(data: Bytes, offs: seq<nat>, parts: seq<Bytes>) {
    |offs| == |parts| && forall i: nat {:trigger ChunkAt(data, offs, parts, i)} :: i < |parts| ==> ChunkAt(data, offs, parts, i)
  }

  lemma ChunksAppend(data: Bytes, offs: seq<nat>, parts: seq<Bytes>, part: Bytes)
    requires Chunks(data, offs, parts)
    ensures Chunks(data + part, offs + [|data|], parts + [part])
  {
    var data', offs', parts' := data + part, offs + [|data|], parts + [part];
    forall i: nat | i < |parts'|
      ensures ChunkAt(data', offs', parts', i)
    {
      if i < |parts| {
        assert ChunkAt(data, offs, parts, i);
        assert EndOf(data', offs', i) == EndOf(data, offs, i);
        assert data'[offs[i]..EndOf(data, offs, i)] == data[offs[i]..EndOf(data, offs, i)];
      }
    }
  }

  // ---------------------------------------------------------------- FilterBlockBuilder

  const FILTER_BASE_LG: nat := 11
  const FILTER_BASE: nat := 2048

  function Part(p: FilterPolicy, keys: seq<Bytes>): Bytes {
    if keys == [] then [] else p.create(keys)
  }

  function Parts(p: FilterPolicy, groups: seq<seq<Bytes>>): (r: seq<Bytes>)
    ensures |r| == |groups| && forall i: nat :: i < |groups| ==> r[i] == Part(p, groups[i])
  {
    seq(|groups|, i requires 0 <= i < |groups| => Part(p, groups[i]))
  }

  // The keys of filter i as far as they are known
  function GroupIn(groups: seq<seq<Bytes>>, pending: seq<Bytes>, i: nat): seq<Bytes> {
    if i < |groups| then groups[i] else if i == |groups| then pending else []
  }

  class FilterBlockBuilder {
    const policy: FilterPolicy
    // The keys of the filter being filled, flattened, and where each begins
    var keys: Bytes
    var start: seq<nat>
    var result: Bytes
    var filterOffsets: seq<nat>
    ghost var pending: seq<Bytes>
    // The keys of the filters already made
    ghost var groups: seq<seq<Bytes>>

    ghost predicate Valid()
      reads this
    {
      && Chunks(keys, start, pending)
      && Chunks(result, filterOffsets, Parts(policy, groups))
    }

    constructor (policy: FilterPolicy)
      ensures Valid() && groups == [] && pending == [] && this.policy == policy
    {
      this.policy := policy;
      keys, start, result, filterOffsets, pending, groups := [], [], [], [], [], [];
    }

    method GenerateFilter()
      requires Valid()
      modifies this
      ensures Valid() && groups == old(groups) + [old(pending)] && pending == []
      ensures result == old(result) + Part(policy, old(pending))
    {
      var numKeys := |start|;
      ghost var made := Part(policy, pending);
      ChunksAppend(result, filterOffsets, Parts(policy, groups), made);
      assert Parts(policy, groups + [pending]) == Parts(policy, groups) + [made];
      if numKeys == 0 {
        groups := groups + [pending];
        filterOffsets := filterOffsets + [|result|];
        assert result + made == result;
        return;
      }
      start := start + [|keys|];
      var tmpKeys: seq<Bytes> := [];
      for i := 0 to numKeys
        invariant |tmpKeys| == i && tmpKeys == pending[..i]
      {
        assert ChunkAt(keys, old(start), pending, i);
        tmpKeys := tmpKeys + [keys[start[i]..start[i + 1]]];
      }
      assert tmpKeys == pending;
      groups, pending := groups + [pending], [];
      filterOffsets := filterOffsets + [|result|];
      result := result + policy.create(tmpKeys);
      keys, start := [], [];
    }

    /** Makes the filters before the one of the block, so that its keys go to that one. */
    method StartBlock(blockOffset: nat)
      requires Valid() && |groups| <= blockOffset / FILTER_BASE
      modifies this
      ensures Valid() && |groups| == blockOffset / FILTER_BASE
      ensures |result| + |Part(policy, pending)| == old(|result| + |Part(policy, pending)|)
      ensures forall i: nat :: GroupIn(groups, pending, i) == old(GroupIn(groups, pending, i))
    {
      var filterIndex := blockOffset / FILTER_BASE;
      while filterIndex > |filterOffsets|
        invariant Valid() && |groups| <= filterIndex
        invariant |result| + |Part(policy, pending)| == old(|result| + |Part(policy, pending)|)
        invariant forall i: nat :: GroupIn(groups, pending, i) == old(GroupIn(groups, pending, i))
        decreases filterIndex - |filterOffsets|
      {
        GenerateFilter();
      }
    }

    method AddKey(key: Bytes)
      requires Valid()
      modifies this
      ensures Valid() && groups == old(groups) && pending == old(pending) + [key]
    {
      ChunksAppend(keys, start, pending, key);
      start := start + [|keys|];
      keys := keys + key;
      pending := pending + [key];
    }

    /** The offsets are stored in 32 bits. */
    method Finish() returns (block: Bytes)
      requires Valid() && |result| + |Part(policy, pending)| < 0x1_0000_0000
      modifies this
      ensures groups == if old(pending) == [] then old(groups) else old(groups) + [old(pending)]
      ensures forall i: nat :: GroupIn(groups, pending, i) == old(GroupIn(groups, pending, i))
      ensures pending == [] && IsFilterBlock(policy, block, groups)
    {
      if |start| > 0 {
        GenerateFilter();
      }
      OffsetsBelow(result, filterOffsets, Parts(policy, groups));
      var arrayOffset := |result|;
      var offsets := Narrow(filterOffsets + [arrayOffset]);
      var filters := result;
      result := PutFixed32s(result, offsets);
      FinishedFilters(policy, groups, result, filters, offsets);
      result := result + [FILTER_BASE_LG];
      block := result;
    }
  }

  function Narrow(offs: seq<nat>): (r: seq<Uint32>)
    requires forall i: nat :: i < |offs| ==> offs[i] < 0x1_0000_0000
    ensures r == offs
  {
    seq(|offs|, i requires 0 <= i < |offs| => offs[i])
  }

  lemma OffsetsBelow(data: Bytes, offs: seq<nat>, parts: seq<Bytes>)
    requires Chunks(data, offs, parts)
    ensures forall i: nat :: i < |offs| ==> offs[i] <= |data|
  {
    forall i: nat | i < |offs|
      ensures offs[i] <= |data|
    {
      assert ChunkAt(data, offs, parts, i);
    }
  }

  lemma FinishedFilters(p: FilterPolicy, groups: seq<seq<Bytes>>, data: Bytes, filters: Bytes, offsets: seq<Uint32>)
    requires |offsets| > 0 && HasFixed32s(data, filters, offsets, |offsets|)
    requires Chunks(filters, offsets[..|offsets| - 1], Parts(p, groups)) && offsets[|offsets| - 1] == |filters|
    ensures IsFilterBlock(p, data + [FILTER_BASE_LG], groups)
  {
    var block := data + [FILTER_BASE_LG];
    var n := |offsets| - 1;
    assert block[..|filters|] == data[..|filters|] == filters;
    ReadFixed32s(data, filters, offsets, [FILTER_BASE_LG], n);
    assert block[|block| - 5..|block| - 1] == block[|filters| + 4 * n..|filters| + 4 * n + 4];
    forall i: nat | i < |groups|
      ensures FilterAt(p, block, |filters|, groups, i)
    {
      ReadFixed32s(data, filters, offsets, [FILTER_BASE_LG], i);
      ReadFixed32s(data, filters, offsets, [FILTER_BASE_LG], i + 1);
      assert ChunkAt(filters, offsets[..n], Parts(p, groups), i);
      assert block[offsets[i]..offsets[i + 1]] == block[..|filters|][offsets[i]..offsets[i + 1]];
    }
  }

  ghost predicate FilterAt(p: FilterPolicy, block: Bytes, arrayOffset: nat, groups: seq<seq<Bytes>>, i: nat)
    requires i < |groups| && arrayOffset + 4 * |groups| + 5 == |block|
  {
    var start, limit := Fixed32At(block, arrayOffset, i), Fixed32At(block, arrayOffset, i + 1);
    start <= limit <= arrayOffset && block[start..limit] == Part(p, groups[i])
  }

  ghost predicate IsFilterBlock(p: FilterPolicy, block: Bytes, groups: seq<seq<Bytes>>) {
    && |block| >= 5 && block[|block| - 1] == FILTER_BASE_LG
    && var arrayOffset := DecodeFixed32(block[|block| - 5..|block| - 1]);
    && arrayOffset + 4 * |groups| + 5 == |block|
    && forall i: nat {:trigger FilterAt(p, block, arrayOffset, groups, i)} :: i < |groups| ==> FilterAt(p, block, arrayOffset, groups, i)
  }

  // ---------------------------------------------------------------- FilterBlockReader

  datatype FilterBlockReader = FilterBlockReader(policy: FilterPolicy, data: Bytes, offset: nat, num: nat, baseLg: Byte) {
    predicate Ok() {
      num > 0 ==> offset + 4 * num + 5 <= |data|
    }

    // Errors are treated as potential matches.
    predicate KeyMayMatch(blockOffset: nat, key: Bytes)
      requires Ok()
    {
      var index := FilterIndex(blockOffset, baseLg);
      if index < num then
        var start, limit := Fixed32At(data, offset, index), Fixed32At(data, offset, index + 1);
        if start <= limit <= offset then policy.mayMatch(key, data[start..limit]) else start != limit
      else
        true
    }
  }

  // x >> lg
  function FilterIndex(x: nat, lg: nat): nat
    decreases lg
  {
    if lg == 0 then x else FilterIndex(x / 2, lg - 1)
  }

  function Open(policy: FilterPolicy, contents: Bytes): (r: FilterBlockReader)
    ensures r.Ok()
  {
    var n := |contents|;
    if n < 5 then FilterBlockReader(policy, [], 0, 0, 0)
    else
      var lastWord: nat := DecodeFixed32(contents[n - 5..n - 1]);
      if lastWord > n - 5 then FilterBlockReader(policy, [], 0, 0, contents[n - 1])
      else FilterBlockReader(policy, contents, lastWord, (n - 5 - lastWord) / 4, contents[n - 1])
  }

  /** A key is looked for in the filter made from the keys of its block's group; past the last filter
      everything may match. */
  lemma ReadsGroup(p: FilterPolicy, block: Bytes, groups: seq<seq<Bytes>>, blockOffset: nat, key: Bytes)
    requires IsFilterBlock(p, block, groups)
    ensures var i := blockOffset / FILTER_BASE;
            Open(p, block).KeyMayMatch(blockOffset, key) <==> (i < |groups| ==> p.mayMatch(key, Part(p, groups[i])))
  {
    assert FilterIndex(blockOffset, 11) == blockOffset / FILTER_BASE;
    var i := blockOffset / FILTER_BASE;
    if i < |groups| {
      var arrayOffset := DecodeFixed32(block[|block| - 5..|block| - 1]);
      assert FilterAt(p, block, arrayOffset, groups, i);
    }
  }
}
