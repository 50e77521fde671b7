/** The iterator of a block (table/block.cc).  On a block made by BlockBuilder it is a cursor on the
    entries that were added; on other bytes it stays inside the block and may report corruption. */
module BlockIters {
  import opened Keys
  import opened Coding
  import opened Comparators
  import opened Blocks

  // ---------------------------------------------------------------- DecodeEntry

  // The lengths at the front of an entry, and where the bytes of its key begin
  datatype Decoded = Decoded(shared: nat, nonShared: nat, valueLength: nat, keyPos: nat)

  function KeyPos(p: nat, e: Pair, shared: nat): nat
    requires shared <= |e.key|
  {
    p + |Varint(shared)| + |Varint(|e.key| - shared)| + |Varint(|e.value|)|
  }

  lemma EntryParts(data: Bytes, p: nat, end: nat, limit: nat, e: Pair, shared: nat)
    requires EntryAt(data, p, end, e, shared) && end <= limit <= |data|
    ensures var q := p + |Varint(shared)|;
            var r := q + |Varint(|e.key| - shared)|;
            && HasVarint(data, p, limit, shared) && HasVarint(data, q, limit, |e.key| - shared) && HasVarint(data, r, limit, |e.value|)
            && var k := KeyPos(p, e, shared);
            && k + |e.key| - shared + |e.value| == end
            && data[k..k + |e.key| - shared] == e.key[shared..]
            && data[k + |e.key| - shared..end] == e.value
  {
    var a, b, c := Varint(shared), Varint(|e.key| - shared), Varint(|e.value|);
    var d := e.key[shared..];
    Middle(data, p, end, [], a, b + c + d + e.value);
    Middle(data, p, end, a, b, c + d + e.value);
    Middle(data, p, end, a + b, c, d + e.value);
    Middle(data, p, end, a + b + c, d, e.value);
    Middle(data, p, end, a + b + c + d, e.value, []);
  }

  ghost predicate HasLengths(data: Bytes, p: nat, limit: nat, shared: nat, nonShared: nat, valueLength: nat) {
    && HasVarint(data, p, limit, shared)
    && HasVarint(data, p + |Varint(shared)|, limit, nonShared)
    && HasVarint(data, p + |Varint(shared)| + |Varint(nonShared)|, limit, valueLength)
    && shared < 0x1_0000_0000 && nonShared < 0x1_0000_0000 && valueLength < 0x1_0000_0000
  }

  method DecodeLengths(data: Bytes, p: nat, limit: nat, ghost shared: nat, ghost nonShared: nat, ghost valueLength: nat)
    returns (r: Option<Decoded>)
    requires p + 3 <= limit <= |data|
    ensures r.Some? ==> p + 3 <= r.value.keyPos <= limit
    ensures HasLengths(data, p, limit, shared, nonShared, valueLength) ==>
              r == Some(Decoded(shared, nonShared, valueLength, p + |Varint(shared)| + |Varint(nonShared)| + |Varint(valueLength)|))
  {
    if HasLengths(data, p, limit, shared, nonShared, valueLength) {
      VarintStep(data, p, limit, shared);
      VarintStep(data, p + |Varint(shared)|, limit, nonShared);
      VarintStep(data, p + |Varint(shared)| + |Varint(nonShared)|, limit, valueLength);
    }
    // Three lengths below 128 take one byte each.
    if data[p] < 128 && data[p + 1] < 128 && data[p + 2] < 128 {
      return Some(Decoded(data[p], data[p + 1], data[p + 2], p + 3));
    }
    var a := GetVarint32(data, p, limit, shared);
    if a.None? {
      return None;
    }
    var b := GetVarint32(data, a.value.1, limit, nonShared);
    if b.None? {
      return None;
    }
    var c := GetVarint32(data, b.value.1, limit, valueLength);
    if c.None? {
      return None;
    }
    return Some(Decoded(a.value.0, b.value.0, c.value.0, c.value.1));
  }

  method DecodeEntry(data: Bytes, p: nat, limit: nat, ghost e: Pair, ghost shared: nat, ghost end: nat) returns (r: Option<Decoded>)
    requires limit <= |data| < 0x1_0000_0000
    ensures r.Some? ==> p + 3 <= r.value.keyPos && r.value.keyPos + r.value.nonShared + r.value.valueLength <= limit
    ensures EntryAt(data, p, end, e, shared) && end <= limit ==>
              && r.Some?
              && r.value.shared == shared && r.value.nonShared == |e.key| - shared && r.value.valueLength == |e.value|
              && var k := r.value.keyPos;
              && k + r.value.nonShared + r.value.valueLength == end
              && data[k..k + r.value.nonShared] == e.key[shared..]
              && data[k + r.value.nonShared..end] == e.value
  {
    if EntryAt(data, p, end, e, shared) && end <= limit {
      EntryParts(data, p, end, limit, e, shared);
    }
    if p + 3 > limit {
      return None;
    }
    var d := DecodeLengths(data, p, limit, shared, if shared <= |e.key| then |e.key| - shared else 0, |e.value|);
    if d.None? || limit - d.value.keyPos < d.value.nonShared + d.value.valueLength {
      return None;
    }
    return d;
  }

  // ---------------------------------------------------------------- Block::Iter

  class BlockIter {
    const less: Less
    const data: Bytes
    const restarts: nat
    const numRestarts: nat
    // The layout of data, if data was made by BlockBuilder
    ghost const l: Layout
    ghost const good: bool

    var current: nat
    var restartIndex: nat
    var key: Bytes
    // value_ as a range of data
    var valueStart: nat
    var valueSize: nat
    var corrupt: bool

    ghost predicate Ok()
      reads this
    {
      Shape() && (IsValid() ==> NextEntryOffset() <= restarts && restartIndex < numRestarts)
    }

    ghost predicate Shape()
      reads this
    {
      && numRestarts > 0 && restarts + 4 * numRestarts <= |data| < 0x1_0000_0000
      && (good ==>
            && IsBlock(data, l) && restarts == l.offs[|l.es|] && numRestarts == |l.starts|
            && StrictOrder(less) && Ascending(less, l.es) && !corrupt)
    }

    predicate IsValid()
      reads this
    {
      current < restarts
    }

    function NextEntryOffset(): nat
      reads this
    {
      valueStart + valueSize
    }

    function Value(): Bytes
      requires IsValid() && NextEntryOffset() <= |data|
      reads this
    {
      data[valueStart..NextEntryOffset()]
    }

    function GetRestartPoint(index: nat): nat
      requires index < numRestarts && restarts + 4 * numRestarts <= |data|
      reads this
    {
      Fixed32At(data, restarts, index)
    }

    // The iterator is at the i-th entry of the block.
    ghost predicate At(i: nat)
      requires Ok() && good
      reads this
    {
      && i < |l.es|
      && current == l.offs[i] && IsValid() && NextEntryOffset() == l.offs[i + 1]
      && key == l.es[i].key && Value() == l.es[i].value
      && l.starts[restartIndex] <= i
      && (restartIndex + 1 < numRestarts ==> i <= l.starts[restartIndex + 1])
    }

    ghost predicate AtEnd()
      requires Ok() && good
      reads this
    {
      !IsValid() && current == restarts && restartIndex == numRestarts
    }

    // The entry that ParseNextKey will read is the i-th.
    ghost predicate Before(i: nat)
      requires Shape() && good
      reads this
    {
      && i <= |l.es| && NextEntryOffset() == l.offs[i]
      && (i < |l.es| ==> l.shared[i] <= |key| && l.shared[i] <= |l.es[i].key| && key[..l.shared[i]] == l.es[i].key[..l.shared[i]])
      && restartIndex < numRestarts && l.starts[restartIndex] <= i
    }

    constructor (less: Less, data: Bytes, restarts: nat, numRestarts: nat, ghost l: Layout, ghost good: bool)
      requires numRestarts > 0 && restarts + 4 * numRestarts <= |data| < 0x1_0000_0000
      requires good ==> IsBlock(data, l) && restarts == l.offs[|l.es|] && numRestarts == |l.starts| && StrictOrder(less) && Ascending(less, l.es)
      ensures Ok() && !IsValid() && this.less == less && this.data == data && this.l == l && this.good == good
    {
      this.less, this.data, this.restarts, this.numRestarts, this.l, this.good := less, data, restarts, numRestarts, l, good;
      current, restartIndex, key, valueStart, valueSize, corrupt := restarts, numRestarts, [], 0, 0, false;
    }

    lemma RestartPoints(j: nat)
      requires Shape() && good && j < numRestarts
      ensures l.starts[j] <= |l.es| && GetRestartPoint(j) == l.offs[l.starts[j]]
      ensures l.starts[j] < |l.es| ==> l.shared[l.starts[j]] == 0
      ensures j > 0 ==> l.starts[j] < |l.es|
    {
      assert StartOk(l, j);
    }

    method CorruptionError()
      requires Shape() && !good
      modifies this
      ensures Ok() && current == restarts
    {
      current, restartIndex, corrupt, key, valueStart, valueSize := restarts, numRestarts, true, [], 0, 0;
    }

    // current is left for ParseNextKey, which starts at the end of the value.
    method SeekToRestartPoint(index: nat)
      requires Shape() && index < numRestarts
      modifies this`key, this`restartIndex, this`valueStart, this`valueSize
      ensures NextEntryOffset() == GetRestartPoint(index) && restartIndex == index && key == []
      ensures Shape()
      ensures good ==> Before(l.starts[index])
    {
      key, restartIndex := [], index;
      valueStart, valueSize := GetRestartPoint(index), 0;
      if good {
        RestartPoints(index);
      }
    }

    lemma Entry(i: nat)
      requires Shape() && good && i < |l.es|
      ensures EntryAt(data, l.offs[i], l.offs[i + 1], l.es[i], l.shared[i]) && l.offs[i + 1] <= restarts
    {
      assert EntryOk(data, l, i);
      if i + 1 < |l.es| {
        OffsetsGrow(data, l, i + 1, |l.es|);
      }
    }

    method AdvanceRestart(ghost i: nat)
      requires Shape() && restartIndex < numRestarts
      requires good ==> i < |l.es| && current == l.offs[i] && l.starts[restartIndex] <= i
      modifies this`restartIndex
      ensures restartIndex < numRestarts
      ensures good ==> l.starts[restartIndex] <= i && (restartIndex + 1 < numRestarts ==> i <= l.starts[restartIndex + 1])
    {
      while restartIndex + 1 < numRestarts && GetRestartPoint(restartIndex + 1) < current
        invariant restartIndex < numRestarts
        invariant good ==> l.starts[restartIndex] <= i
      {
        if good {
          RestartBefore(restartIndex + 1, i);
        }
        restartIndex := restartIndex + 1;
      }
      if good && restartIndex + 1 < numRestarts {
        RestartBefore(restartIndex + 1, i);
      }
    }

    /** Reads the entry that comes next, if there is one. */
    method ParseNextKey(ghost i: nat) returns (ok: bool)
      requires Shape() && restartIndex < numRestarts
      requires good ==> Before(i)
      modifies this
      ensures Ok() && ok == IsValid()
      ensures ok ==> old(NextEntryOffset()) < NextEntryOffset() && old(NextEntryOffset()) < restarts
      ensures good ==> if i < |l.es| then At(i) else AtEnd()
    {
      current := NextEntryOffset();
      if current >= restarts {
        current, restartIndex := restarts, numRestarts;
        if good && i < |l.es| {
          OffsetsGrow(data, l, i, |l.es|);
        }
        return false;
      }
      ghost var shared, end := 0, 0;
      ghost var e := Pair([], []);
      if good {
        Entry(i);
        shared, end, e := l.shared[i], l.offs[i + 1], l.es[i];
      }
      var d := DecodeEntry(data, current, restarts, e, shared, end);
      if d.None? || |key| < d.value.shared {
        CorruptionError();
        return false;
      }
      var k := d.value.keyPos;
      key := key[..d.value.shared] + data[k..k + d.value.nonShared];
      valueStart, valueSize := k + d.value.nonShared, d.value.valueLength;
      AdvanceRestart(i);
      ok := true;
    }

    lemma RestartBefore(j: nat, i: nat)
      requires Shape() && good && j < numRestarts && i <= |l.es|
      ensures GetRestartPoint(j) < l.offs[i] <==> l.starts[j] < i
    {
      RestartPoints(j);
      if l.starts[j] < i {
        OffsetsGrow(data, l, l.starts[j], i);
      } else if i < l.starts[j] {
        OffsetsGrow(data, l, i, l.starts[j]);
      }
    }

    lemma AtBefore(i: nat)
      requires Ok() && good && At(i)
      ensures Before(i + 1)
    {
      if i + 1 < |l.es| {
        assert EntryOk(data, l, i + 1);
      }
    }

    method Next(ghost i: nat)
      requires Ok() && IsValid()
      requires good ==> At(i)
      modifies this
      ensures Ok()
      ensures good ==> if i + 1 < |l.es| then At(i + 1) else AtEnd()
    {
      if good {
        AtBefore(i);
      }
      var _ := ParseNextKey(i + 1);
    }

    // Scans backwards to a restart point before the current entry.
    method BackUp(ghost i: nat) returns (found: bool)
      requires Shape() && restartIndex < numRestarts
      requires good ==> i <= |l.es| && current == l.offs[i]
      modifies this`restartIndex
      ensures restartIndex < numRestarts
      ensures good ==> (found <==> i > 0) && (found ==> l.starts[restartIndex] < i)
    {
      while GetRestartPoint(restartIndex) >= current
        invariant restartIndex < numRestarts
        decreases restartIndex
      {
        if restartIndex == 0 {
          if good {
            RestartBefore(0, i);
          }
          return false;
        }
        restartIndex := restartIndex - 1;
      }
      if good {
        RestartBefore(restartIndex, i);
      }
      return true;
    }

    // Reads entries until the end of one hits original, the start of the i-th.
    method SkipTo(original: nat, ghost k: nat, ghost i: nat)
      requires Shape() && restartIndex < numRestarts && original <= restarts
      requires good ==> Before(k) && i <= |l.es| && original == l.offs[i] && (k < i || k == i == |l.es|)
      modifies this
      ensures Ok()
      ensures good ==> if k < i then At(i - 1) else AtEnd()
    {
      ghost var j: nat := k;
      var ok := ParseNextKey(j);
      while ok && NextEntryOffset() < original
        invariant Ok() && ok == IsValid()
        invariant good ==> if k < i then k <= j < i && At(j) else AtEnd()
        decreases ok, restarts - NextEntryOffset()
      {
        if good {
          AtBefore(j);
        }
        j := j + 1;
        ok := ParseNextKey(j);
      }
      if good && k < i && j + 1 < i {
        OffsetsGrow(data, l, j + 1, i);
      }
    }

    /** Prev undoes Next: it scans backwards to a restart point, and forward again. */
    method Prev(ghost i: nat)
      requires Ok() && IsValid()
      requires good ==> At(i)
      modifies this
      ensures Ok()
      ensures good ==> if i > 0 then At(i - 1) else AtEnd()
    {
      var original := current;
      var found := BackUp(i);
      if !found {
        current, restartIndex := restarts, numRestarts;
        return;
      }
      SeekToRestartPoint(restartIndex);
      SkipTo(original, if good then l.starts[restartIndex] else 0, i);
    }

    method SeekToFirst()
      requires Ok()
      modifies this
      ensures Ok()
      ensures good ==> if |l.es| > 0 then At(0) else AtEnd()
    {
      SeekToRestartPoint(0);
      var _ := ParseNextKey(0);
    }

    method SeekToLast()
      requires Ok()
      modifies this
      ensures Ok()
      ensures good ==> if |l.es| > 0 then At(|l.es| - 1) else AtEnd()
    {
      SeekToRestartPoint(numRestarts - 1);
      if good {
        RestartPoints(numRestarts - 1);
      }
      SkipTo(restarts, if good then l.starts[numRestarts - 1] else 0, if good then |l.es| else 0);
    }

    // Entry i is the first whose key is not below target.
    ghost predicate IsFirstFrom(target: Bytes, i: nat) {
      && i <= |l.es|
      && (forall j: nat {:trigger l.es[j]} :: j < i ==> less(l.es[j].key, target))
      && (forall j: nat {:trigger l.es[j]} :: i <= j < |l.es| ==> !less(l.es[j].key, target))
    }

    /** Binary search for the last restart point whose key is below target. */
    method FindRestart(target: Bytes) returns (ok: bool, left: nat)
      requires Shape()
      ensures ok ==> left < numRestarts
      ensures good ==> ok && (left > 0 ==> l.starts[left] < |l.es| && less(l.es[l.starts[left]].key, target))
      ensures good && left + 1 < numRestarts ==> l.starts[left + 1] < |l.es| && !less(l.es[l.starts[left + 1]].key, target)
    {
      left := 0;
      var right := numRestarts - 1;
      while left < right
        invariant 0 <= left <= right < numRestarts
        invariant good ==> l.starts[left] <= |l.es| && (left > 0 ==> l.starts[left] < |l.es| && less(l.es[l.starts[left]].key, target))
        invariant good && right + 1 < numRestarts ==> l.starts[right + 1] < |l.es| && !less(l.es[l.starts[right + 1]].key, target)
      {
        var mid := (left + right + 1) / 2;
        var regionOffset := GetRestartPoint(mid);
        ghost var e, end := Pair([], []), 0;
        if good {
          RestartPoints(mid);
          e, end := l.es[l.starts[mid]], l.offs[l.starts[mid] + 1];
          Entry(l.starts[mid]);
        }
        var d := DecodeEntry(data, regionOffset, restarts, e, 0, end);
        if d.None? || d.value.shared != 0 {
          return false, 0;
        }
        var midKey := data[d.value.keyPos..d.value.keyPos + d.value.nonShared];
        if less(midKey, target) {
          left := mid;
        } else {
          right := mid - 1;
        }
      }
      ok := true;
    }

    /** Seek lands on the first entry whose key is not below target. */
    method Seek(target: Bytes) returns (ghost i: nat)
      requires Ok()
      modifies this
      ensures Ok()
      ensures good ==> IsFirstFrom(target, i) && if i < |l.es| then At(i) else AtEnd()
    {
      i := 0;
      var ok, left := FindRestart(target);
      if !ok {
        CorruptionError();
        return;
      }
      SeekToRestartPoint(left);
      if good {
        RestartPoints(left);
        i := l.starts[left];
        BelowAll(i, target);
      }
      var found := false;
      while !found
        invariant if found then Ok() else Shape() && restartIndex < numRestarts
        invariant good ==> i <= |l.es| && forall j: nat {:trigger l.es[j]} :: j < i ==> less(l.es[j].key, target)
        invariant good && !found ==> Before(i)
        invariant good && found ==> At(i) && !less(l.es[i].key, target)
        decreases !found, restarts - NextEntryOffset()
      {
        ok := ParseNextKey(i);
        if !ok {
          return;
        }
        found := !less(key, target);
        if !found && good {
          AtBefore(i);
          i := i + 1;
        }
      }
      if good {
        AboveAll(i, target);
      }
    }

    lemma BelowAll(i: nat, target: Bytes)
      requires Shape() && good && i <= |l.es| && (i > 0 ==> i < |l.es| && less(l.es[i].key, target))
      ensures forall j: nat {:trigger l.es[j]} :: j < i ==> less(l.es[j].key, target)
    {
      forall j: nat | j < i
        ensures less(l.es[j].key, target)
      {
        KeysRise(j, i);
      }
    }

    lemma AboveAll(i: nat, target: Bytes)
      requires Shape() && good && i < |l.es| && !less(l.es[i].key, target)
      ensures forall j: nat {:trigger l.es[j]} :: i <= j < |l.es| ==> !less(l.es[j].key, target)
    {
      forall j: nat | i < j < |l.es|
        ensures !less(l.es[j].key, target)
      {
        KeysRise(i, j);
      }
    }

    lemma {:induction false} KeysRise(i: nat, j: nat)
      requires Shape() && good && i < j < |l.es|
      ensures less(l.es[i].key, l.es[j].key)
      decreases j
    {
      assert Rises(less, l.es, j);
      if i < j - 1 {
        KeysRise(i, j - 1);
      }
    }
  }

  // ---------------------------------------------------------------- Block

  // Block::Block and Block::NewIterator
  datatype Opened = BadBlock | EmptyBlock | Block(restarts: nat, numRestarts: nat)

  function Open(data: Bytes): (r: Opened)
    ensures r.Block? ==> r.numRestarts > 0 && r.restarts + 4 * r.numRestarts + 4 == |data|
  {
    if |data| < 4 then BadBlock
    else
      var n: nat := DecodeFixed32(data[|data| - 4..]);
      if n > (|data| - 4) / 4 then BadBlock
      else if n == 0 then EmptyBlock
      else Block(|data| - (1 + n) * 4, n)
  }

  method NewIterator(less: Less, data: Bytes, restarts: nat, numRestarts: nat, ghost l: Layout) returns (it: BlockIter)
    requires |data| < 0x1_0000_0000 && Open(data) == Block(restarts, numRestarts)
    ensures fresh(it) && it.Ok() && !it.IsValid() && it.less == less && it.data == data && it.l == l
    ensures it.good <==> IsBlock(data, l) && StrictOrder(less) && Ascending(less, l.es)
  {
    it := new BlockIter(less, data, restarts, numRestarts, l, IsBlock(data, l) && StrictOrder(less) && Ascending(less, l.es));
  }

  lemma OpenBlock(data: Bytes, l: Layout)
    requires IsBlock(data, l)
    ensures Open(data) == Block(l.offs[|l.es|], |l.starts|)
  {
  }

  method Build(es: seq<Pair>, interval: nat, less: Less) returns (data: Bytes, ghost l: Layout)
    requires interval >= 1 && Ascending(less, es)
    requires SizeBound(es, |es|) < 0x1_0000_0000
    ensures IsBlock(data, l) && l.es == es
  {
    var builder := new BlockBuilder(interval, less);
    var k := 0;
    while k < |es|
      invariant k <= |es| && builder.Valid() && !builder.finished
      invariant builder.l.es == es[..k] && builder.CurrentSizeEstimate() <= SizeBound(es, k)
    {
      if k > 0 {
        assert Rises(less, es, k);
      }
      SizeBoundGrows(es, k + 1, |es|);
      builder.Add(es[k].key, es[k].value);
      k := k + 1;
    }
    data := builder.Finish();
    l := builder.l;
  }

  /** Entries are read back from the finished block in order, whatever the restart interval. */
  method BuildAndScan(es: seq<Pair>, interval: nat, less: Less) returns (out: seq<Pair>)
    requires interval >= 1 && StrictOrder(less) && Ascending(less, es)
    requires SizeBound(es, |es|) < 0x1_0000_0000
    ensures out == es
  {
    ghost var l;
    var data;
    data, l := Build(es, interval, less);
    OpenBlock(data, l);
    var block := Open(data);
    var it := NewIterator(less, data, block.restarts, block.numRestarts, l);
    it.SeekToFirst();
    out := [];
    while it.IsValid()
      invariant it.Ok() && it.good && it.l.es == es && |out| <= |es| && out == es[..|out|]
      invariant if |out| < |es| then it.At(|out|) else it.AtEnd()
      decreases |es| - |out|
    {
      ghost var i := |out|;
      out := out + [Pair(it.key, it.Value())];
      it.Next(i);
    }
  }

  // More than any block of these entries takes
  function SizeBound(es: seq<Pair>, n: nat): nat
    requires n <= |es|
  {
    if n == 0 then 8 else SizeBound(es, n - 1) + |es[n - 1].key| + |es[n - 1].value| + 19
  }

  lemma {:induction false} SizeBoundGrows(es: seq<Pair>, a: nat, b: nat)
    requires a <= b <= |es|
    ensures SizeBound(es, a) <= SizeBound(es, b)
    decreases b
  {
    if a < b {
      SizeBoundGrows(es, a, b - 1);
    }
  }
}
