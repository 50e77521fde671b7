/** Blocks of a table (table/block_builder.cc, table/block.cc): entries with prefix-compressed keys,
    followed by the offsets of the restart points, where a key is stored whole.

    A block that BlockBuilder made is described by a Layout.  The iterator of such a block is a cursor
    on the entries that were added. */
module Blocks {
  import opened Keys
  import opened Coding
  import opened Comparators

  datatype Pair = Pair(key: Bytes, value: Bytes)

  // ---------------------------------------------------------------- the format

  /** Where everything is: shared[i] bytes of the key of entry i are those of the key before it, the
      entry takes the bytes from offs[i] to offs[i + 1], and starts lists the entries at restart points. */
  datatype Layout = Layout(es: seq<Pair>, shared: seq<nat>, offs: seq<nat>, starts: seq<nat>)

  function EntryBytes(e: Pair, shared: nat): Bytes
    requires shared <= |e.key|
  {
    Varint(shared) + Varint(|e.key| - shared) + Varint(|e.value|) + e.key[shared..] + e.value
  }

  ghost predicate EntryAt(data: Bytes, p: nat, end: nat, e: Pair, shared: nat) {
    shared <= |e.key| < 0x1_0000_0000 && p <= end <= |data| && data[p..end] == EntryBytes(e, shared)
  }

  ghost predicate EntryOk(data: Bytes, l: Layout, i: nat)
    requires i < |l.es| == |l.shared| && |l.offs| == |l.es| + 1
  {
    && EntryAt(data, l.offs[i], l.offs[i + 1], l.es[i], l.shared[i])
    && l.shared[i] <= |Previous(l.es, i)|
    && l.es[i].key[..l.shared[i]] == Previous(l.es, i)[..l.shared[i]]
  }

  function Previous(es: seq<Pair>, i: nat): Bytes
    requires i <= |es|
  {
    if i == 0 then [] else es[i - 1].key
  }

  ghost predicate EntriesOk(data: Bytes, l: Layout) {
    && |l.shared| == |l.es| && |l.offs| == |l.es| + 1
    && l.offs[0] == 0 && l.offs[|l.es|] <= |data|
    && forall i: nat {:trigger EntryOk(data, l, i)} :: i < |l.es| ==> EntryOk(data, l, i)
  }

  ghost predicate StartOk(l: Layout, j: nat)
    requires |l.shared| == |l.es| && j < |l.starts|
  {
    && (j > 0 ==> l.starts[j - 1] < l.starts[j] < |l.es|)
    && (l.starts[j] < |l.es| ==> l.shared[l.starts[j]] == 0)
  }

  ghost predicate StartsOk(l: Layout)
    requires |l.shared| == |l.es|
  {
    && |l.starts| > 0 && l.starts[0] == 0
    && forall j: nat {:trigger StartOk(l, j)} :: j < |l.starts| ==> StartOk(l, j)
  }

  ghost predicate IsBlock(data: Bytes, l: Layout) {
    && EntriesOk(data, l) && StartsOk(l)
    && |data| == l.offs[|l.es|] + 4 * |l.starts| + 4 < 0x1_0000_0000
    && (forall j: nat {:trigger StartOk(l, j)} :: j < |l.starts| ==>
          l.starts[j] <= |l.es| && Fixed32At(data, l.offs[|l.es|], j) == l.offs[l.starts[j]])
    && DecodeFixed32(data[|data| - 4..]) == |l.starts|
  }

  lemma {:induction false} OffsetsGrow(data: Bytes, l: Layout, a: nat, b: nat)
    requires EntriesOk(data, l) && a < b <= |l.es|
    ensures l.offs[a] + 3 <= l.offs[b]
  {
    assert EntryOk(data, l, b - 1);
    assert |data[l.offs[b - 1]..l.offs[b]]| >= 3;
    if a < b - 1 {
      OffsetsGrow(data, l, a, b - 1);
    }
  }

  lemma {:induction false} StartsGrow(l: Layout, a: nat, b: nat)
    requires |l.shared| == |l.es| && StartsOk(l) && a <= b < |l.starts|
    ensures l.starts[a] + (b - a) <= l.starts[b]
  {
    if a < b {
      assert StartOk(l, b);
      StartsGrow(l, a, b - 1);
    }
  }

  // ---------------------------------------------------------------- BlockBuilder

  lemma EntriesExtend(data: Bytes, more: Bytes, l: Layout)
    requires EntriesOk(data, l)
    ensures EntriesOk(data + more, l)
  {
    var longer := data + more;
    forall i: nat | i < |l.es|
      ensures EntryOk(longer, l, i)
    {
      assert EntryOk(data, l, i);
      assert longer[l.offs[i]..l.offs[i + 1]] == data[l.offs[i]..l.offs[i + 1]];
    }
  }

  function Appended(l: Layout, e: Pair, shared: nat, end: nat, restart: bool): Layout {
    Layout(l.es + [e], l.shared + [shared], l.offs + [end], if restart then l.starts + [|l.es|] else l.starts)
  }

  lemma EntriesAppend(data: Bytes, l: Layout, e: Pair, shared: nat, restart: bool)
    requires EntriesOk(data, l) && l.offs[|l.es|] == |data|
    requires shared <= |e.key| < 0x1_0000_0000 && shared <= |Previous(l.es, |l.es|)| && e.key[..shared] == Previous(l.es, |l.es|)[..shared]
    ensures var data' := data + EntryBytes(e, shared); EntriesOk(data', Appended(l, e, shared, |data'|, restart))
  {
    var n := |l.es|;
    var data' := data + EntryBytes(e, shared);
    var l' := Appended(l, e, shared, |data'|, restart);
    EntriesExtend(data, EntryBytes(e, shared), l);
    assert data'[|data|..] == EntryBytes(e, shared);
    forall i: nat | i < |l'.es|
      ensures EntryOk(data', l', i)
    {
      if i < n {
        assert EntryOk(data', l, i);
        assert Previous(l'.es, i) == Previous(l.es, i);
      } else {
        assert l'.offs[n] == |data| && l'.offs[n + 1] == |data'|;
        assert Previous(l'.es, n) == Previous(l.es, n);
      }
    }
  }

  ghost predicate Rises(less: Less, es: seq<Pair>, i: nat)
    requires 0 < i < |es|
  {
    less(es[i - 1].key, es[i].key)
  }

  ghost predicate Ascending(less: Less, es: seq<Pair>) {
    forall i: nat {:trigger Rises(less, es, i)} :: 0 < i < |es| ==> Rises(less, es, i)
  }

  ghost predicate Gap(starts: seq<nat>, interval: nat, j: nat)
    requires 0 < j < |starts|
  {
    starts[j] == starts[j - 1] + interval
  }

  ghost predicate Spaced(starts: seq<nat>, interval: nat) {
    forall j: nat {:trigger Gap(starts, interval, j)} :: 0 < j < |starts| ==> Gap(starts, interval, j)
  }

  // What the fields of a builder mean before Finish
  ghost predicate Building(buffer: Bytes, restarts: seq<Uint32>, counter: nat, interval: nat, l: Layout) {
    && EntriesOk(buffer, l) && StartsOk(l) && Spaced(l.starts, interval)
    && l.offs[|l.es|] == |buffer|
    && |restarts| == |l.starts|
    && (forall j: nat {:trigger restarts[j]} :: j < |restarts| ==> l.starts[j] <= |l.es| && restarts[j] == l.offs[l.starts[j]])
    && counter == |l.es| - l.starts[|l.starts| - 1] <= interval
  }

  lemma BuildingEntries(l: Layout, l': Layout, e: Pair, shared: nat, end: nat, restart: bool)
    requires |l.shared| == |l.es| && |l.offs| == |l.es| + 1 && StartsOk(l)
    requires l' == Appended(l, e, shared, end, restart)
    requires if restart then shared == 0 && l.starts[|l.starts| - 1] < |l.es| else l.es == [] ==> shared == 0
    ensures StartsOk(l')
  {
    var n := |l.es|;
    forall j: nat | j < |l'.starts|
      ensures StartOk(l', j)
    {
      if j < |l.starts| {
        assert StartOk(l, j);
        StartsGrow(l, 0, j);
        if l.es == [] {
          assert l.starts[j] == 0;
        }
      }
    }
  }

  lemma BuildingGrows(buffer: Bytes, restarts: seq<Uint32>, counter: nat, interval: nat, l: Layout, e: Pair, shared: nat)
    requires Building(buffer, restarts, counter, interval, l) && |buffer| < 0x1_0000_0000 && interval >= 1
    requires shared <= |e.key| < 0x1_0000_0000 && shared <= |Previous(l.es, |l.es|)| && e.key[..shared] == Previous(l.es, |l.es|)[..shared]
    requires counter == interval ==> shared == 0
    ensures var restart := counter >= interval;
            var buffer' := buffer + EntryBytes(e, shared);
            Building(buffer', if restart then restarts + [|buffer|] else restarts, if restart then 1 else counter + 1, interval,
                     Appended(l, e, shared, |buffer'|, restart))
  {
    var restart := counter >= interval;
    var buffer' := buffer + EntryBytes(e, shared);
    var l' := Appended(l, e, shared, |buffer'|, restart);
    EntriesAppend(buffer, l, e, shared, restart);
    BuildingEntries(l, l', e, shared, |buffer'|, restart);
    var restarts' := if restart then restarts + [|buffer|] else restarts;
    forall j: nat | j < |restarts'|
      ensures l'.starts[j] <= |l'.es| && restarts'[j] == l'.offs[l'.starts[j]]
    {
      if j < |restarts| {
        assert restarts'[j] == restarts[j];
      }
    }
    forall j: nat | 0 < j < |l'.starts|
      ensures Gap(l'.starts, interval, j)
    {
      if j < |l.starts| {
        assert Gap(l.starts, interval, j);
      }
    }
  }

  method SharedWith(lastKey: Bytes, key: Bytes) returns (shared: nat)
    ensures shared == Common(lastKey, key)
  {
    shared := 0;
    var minLength := if |lastKey| < |key| then |lastKey| else |key|;
    while shared < minLength && lastKey[shared] == key[shared]
      invariant shared <= minLength && lastKey[..shared] == key[..shared]
    {
      shared := shared + 1;
    }
    LongestIsCommon(lastKey, key, shared);
  }

  method EncodeEntry(e: Pair, shared: nat) returns (r: Bytes)
    requires shared <= |e.key| < 0x1_0000_0000 && |e.value| < 0x1_0000_0000
    ensures r == EntryBytes(e, shared) && |r| <= 15 + |e.key| + |e.value|
  {
    var a := EncodeVarint32(shared);
    var b := EncodeVarint32(|e.key| - shared);
    var c := EncodeVarint32(|e.value|);
    r := a + b + c + e.key[shared..] + e.value;
    EntryLength(e, shared);
  }

  lemma AscendingGrows(less: Less, buffer: Bytes, l: Layout, e: Pair)
    requires EntriesOk(buffer, l) && l.offs[|l.es|] == |buffer|
    requires Ascending(less, l.es) && (|buffer| > 0 ==> less(Previous(l.es, |l.es|), e.key))
    ensures Ascending(less, l.es + [e])
  {
    var es := l.es;
    if |es| > 0 {
      OffsetsGrow(buffer, l, 0, |es|);
    }
    forall i: nat | 0 < i < |es + [e]|
      ensures Rises(less, es + [e], i)
    {
      if i < |es| {
        assert Rises(less, es, i);
      }
    }
  }

  class BlockBuilder {
    const interval: nat
    const less: Less
    var buffer: Bytes
    var restarts: seq<Uint32>
    var counter: nat
    var finished: bool
    var lastKey: Bytes
    ghost var l: Layout

    ghost predicate Valid()
      reads this
    {
      && interval >= 1
      && (!finished ==>
            && Building(buffer, restarts, counter, interval, l)
            && lastKey == Previous(l.es, |l.es|)
            && CurrentSizeEstimate() < 0x1_0000_0000
            && Ascending(less, l.es))
    }

    constructor (interval: nat, less: Less)
      requires interval >= 1
      ensures Valid() && !finished && l.es == [] && CurrentSizeEstimate() == 8 && this.interval == interval && this.less == less
    {
      this.interval, this.less := interval, less;
      buffer, restarts, counter, finished, lastKey := [], [0], 0, false, [];
      l := Layout([], [], [0], [0]);
    }

    method Reset()
      requires Valid()
      modifies this
      ensures Valid() && !finished && l.es == [] && CurrentSizeEstimate() == 8
    {
      buffer, restarts, counter, finished, lastKey := [], [0], 0, false, [];
      l := Layout([], [], [0], [0]);
    }

    function CurrentSizeEstimate(): nat
      reads this
    {
      |buffer| + |restarts| * 4 + 4
    }

    /** The key shares its longest common prefix with the key before it, except at a restart point,
        and there is a restart point every interval entries. */
    method Add(key: Bytes, value: Bytes)
      requires Valid() && !finished && (|buffer| > 0 ==> less(lastKey, key))
      requires CurrentSizeEstimate() + |key| + |value| + 19 < 0x1_0000_0000
      modifies this
      ensures Valid() && !finished && l.es == old(l.es) + [Pair(key, value)]
      ensures CurrentSizeEstimate() <= old(CurrentSizeEstimate()) + |key| + |value| + 19
      ensures l.shared == old(l.shared) + [if old(counter) < interval then Common(old(lastKey), key) else 0]
      ensures l.starts == if old(counter) < interval then old(l.starts) else old(l.starts) + [|old(l.es)|]
    {
      var shared := 0;
      ghost var restart := counter >= interval;
      if counter < interval {
        shared := SharedWith(lastKey, key);
      } else {
        restarts := restarts + [|buffer|];
        counter := 0;
      }
      var e := Pair(key, value);
      var bytes := EncodeEntry(e, shared);
      BuildingGrows(old(buffer), old(restarts), old(counter), interval, l, e, shared);
      AscendingGrows(less, buffer, l, e);
      buffer := buffer + bytes;
      l := Appended(l, e, shared, |buffer|, restart);
      assert lastKey[..shared] + key[shared..] == key;
      lastKey := lastKey[..shared] + key[shared..];
      counter := counter + 1;
    }

    /** The finished block is as long as CurrentSizeEstimate said. */
    method Finish() returns (block: Bytes)
      requires Valid() && !finished
      modifies this
      ensures Valid() && finished && l == old(l)
      ensures IsBlock(block, l) && |block| == old(CurrentSizeEstimate())
      ensures Ascending(less, l.es)
    {
      ghost var entries := buffer;
      buffer := PutFixed32s(buffer, restarts);
      FinishedBlock(buffer, entries, restarts, counter, interval, l);
      buffer := buffer + EncodeFixed32(|restarts|);
      finished := true;
      block := buffer;
    }
  }

  lemma FinishedBlock(data: Bytes, entries: Bytes, restarts: seq<Uint32>, counter: nat, interval: nat, l: Layout)
    requires Building(entries, restarts, counter, interval, l) && |entries| + 4 * |restarts| + 4 < 0x1_0000_0000
    requires HasFixed32s(data, entries, restarts, |restarts|)
    ensures IsBlock(data + EncodeFixed32(|restarts|), l)
  {
    var block := data + EncodeFixed32(|restarts|);
    assert block[|block| - 4..] == EncodeFixed32(|restarts|);
    Fixed32RoundTrip(|restarts|);
    forall j: nat | j < |l.starts|
      ensures l.starts[j] <= |l.es| && Fixed32At(block, |entries|, j) == l.offs[l.starts[j]]
    {
      ReadFixed32s(data, entries, restarts, EncodeFixed32(|restarts|), j);
    }
    assert block == entries + block[|entries|..];
    EntriesExtend(entries, block[|entries|..], l);
  }

  lemma EntryLength(e: Pair, shared: nat)
    requires shared <= |e.key| < 0x1_0000_0000 && |e.value| < 0x1_0000_0000
    ensures 3 <= |EntryBytes(e, shared)| <= 15 + |e.key| + |e.value|
  {
    assert Power(5) == 0x8_0000_0000;
    VarintBytes(shared, 5);
    VarintBytes(|e.key| - shared, 5);
    VarintBytes(|e.value|, 5);
  }
}
