/** Write batches (db/write_batch.cc): a sequence number, a count, and the operations one after the other. */
module Batches {
  import opened Keys
  import opened Coding

  datatype Op = Put(key: Bytes, value: Bytes) | Delete(key: Bytes)

  const HEADER: nat := 12
  const TYPE_DELETION: Byte := 0
  const TYPE_VALUE: Byte := 1

  function OpBytes(op: Op): Bytes {
    match op
    case Put(key, value) => [TYPE_VALUE] + Delimited(key) + Delimited(value)
    case Delete(key) => [TYPE_DELETION] + Delimited(key)
  }

  function Parts(ops: seq<Op>): (r: seq<Bytes>)
    ensures |r| == |ops|
  {
    seq(|ops|, i requires 0 <= i < |ops| => OpBytes(ops[i]))
  }

  function OpsBytes(ops: seq<Op>): Bytes {
    Flat(Parts(ops), 0)
  }

  // Lengths are stored in 32 bits.
  predicate Storable(op: Op) {
    |op.key| < 0x1_0000_0000 && (op.Put? ==> |op.value| < 0x1_0000_0000)
  }

  predicate AllStorable(ops: seq<Op>) {
    forall i: nat {:trigger ops[i]} :: i < |ops| ==> Storable(ops[i])
  }

  lemma OpsConcat(a: seq<Op>, b: seq<Op>)
    ensures OpsBytes(a + b) == OpsBytes(a) + OpsBytes(b)
  {
    FlatConcat(Parts(a), Parts(b), 0);
    assert Parts(a + b) == Parts(a) + Parts(b);
  }

  lemma OneOp(op: Op)
    ensures OpsBytes([op]) == OpBytes(op)
  {
    var one := Parts([op]);
    assert Flat(one, 1) == [] && one[0] == OpBytes(op);
  }

  // rep_: the header in front of the operations
  function Rep(sequence: Uint64, count: Uint32, records: Bytes): (r: Bytes)
    ensures |r| == HEADER + |records|
  {
    EncodeFixed64(sequence) + EncodeFixed32(count) + records
  }

  // WriteBatchInternal::Sequence, Count and SetContents
  function Parse(rep: Bytes): (nat, Uint32, Bytes)
    requires |rep| >= HEADER
  {
    (DecodeFixed64(rep[..8]), DecodeFixed32(rep[8..12]), rep[HEADER..])
  }

  lemma ParseRep(sequence: Uint64, count: Uint32, records: Bytes)
    ensures Parse(Rep(sequence, count, records)) == (sequence, count, records)
  {
    var a, b := EncodeFixed64(sequence), EncodeFixed32(count);
    Cut(a, b, records);
    Fixed64RoundTrip(sequence);
    Fixed32RoundTrip(count);
  }

  lemma Cut(a: Bytes, b: Bytes, c: Bytes)
    requires |a| == 8 && |b| == 4
    ensures (a + b + c)[..8] == a && (a + b + c)[8..12] == b && (a + b + c)[12..] == c
  {
  }

  // The operation at p; what follows it
  method ReadOp(data: Bytes, p: nat, ghost op: Op) returns (r: Option<(Op, nat)>)
    requires p < |data|
    ensures r.Some? ==> p < r.value.1 <= |data|
    ensures Storable(op) && p + |OpBytes(op)| <= |data| && data[p..p + |OpBytes(op)|] == OpBytes(op) ==> r == Some((op, p + |OpBytes(op)|))
  {
    if p + |OpBytes(op)| <= |data| && data[p..p + |OpBytes(op)|] == OpBytes(op) {
      OpAhead(data, p, op);
    }
    var tag := data[p];
    if tag == TYPE_VALUE {
      var key := GetLengthPrefixed(data, p + 1, |data|, op.key);
      if key.None? {
        return None;
      }
      var value := GetLengthPrefixed(data, key.value.1, |data|, if op.Put? then op.value else []);
      if value.None? {
        return None;
      }
      return Some((Put(key.value.0, value.value.0), value.value.1));
    } else if tag == TYPE_DELETION {
      var key := GetLengthPrefixed(data, p + 1, |data|, op.key);
      if key.None? {
        return None;
      }
      return Some((Delete(key.value.0), key.value.1));
    }
    return None;
  }

  ghost predicate OpsAhead(data: Bytes, p: nat, ops: seq<Op>, i: nat) {
    AllStorable(ops) && i <= |ops| && p <= |data| && data[p..|data|] == Flat(Parts(ops), i)
  }

  lemma NextOp(data: Bytes, p: nat, ops: seq<Op>, i: nat)
    requires OpsAhead(data, p, ops, i)
    ensures p < |data| ==> i < |ops| && Storable(ops[i]) && p + |OpBytes(ops[i])| <= |data| && data[p..p + |OpBytes(ops[i])|] == OpBytes(ops[i])
    ensures p < |data| ==> OpsAhead(data, p + |OpBytes(ops[i])|, ops, i + 1)
    ensures p == |data| ==> i == |ops|
  {
    if i < |ops| {
      FlatFront(data, p, |data|, Parts(ops), i);
    }
  }

  /** WriteBatch::Iterate hands the operations over in order; it succeeds exactly if the count is right. */
  method Iterate(records: Bytes, count: Uint32, ghost ops: seq<Op>) returns (ok: bool, found: seq<Op>)
    ensures AllStorable(ops) && records == OpsBytes(ops) ==> found == ops && (ok <==> |ops| == count)
  {
    found := [];
    ghost var good := AllStorable(ops) && records == OpsBytes(ops);
    var p := 0;
    assert records[0..|records|] == records;
    while p < |records|
      invariant p <= |records|
      invariant good ==> OpsAhead(records, p, ops, |found|) && found == ops[..|found|]
    {
      if good {
        NextOp(records, p, ops, |found|);
      }
      var r := ReadOp(records, p, if good then ops[|found|] else Delete([]));
      if r.None? {
        return false, found;
      }
      found, p := found + [r.value.0], r.value.1;
    }
    if good {
      NextOp(records, p, ops, |found|);
    }
    ok := |found| == count;
  }

  /** rep_ is Rep(sequence, count, records). */
  class WriteBatch {
    var sequence: Uint64
    var count: Uint32
    var records: Bytes
    ghost var ops: seq<Op>

    ghost predicate Valid()
      reads this
    {
      AllStorable(ops) && records == OpsBytes(ops) && count == |ops| % 0x1_0000_0000
    }

    constructor ()
      ensures Valid() && ops == []
    {
      sequence, count, records, ops := 0, 0, [], [];
    }

    method Put(key: Bytes, value: Bytes)
      requires Valid() && Storable(Op.Put(key, value))
      modifies this
      ensures Valid() && ops == old(ops) + [Op.Put(key, value)] && sequence == old(sequence)
    {
      count := (count + 1) % 0x1_0000_0000;
      var a := EncodeVarint32(|key|);
      var b := EncodeVarint32(|value|);
      ghost var op := Op.Put(key, value);
      OneOp(op);
      OpsConcat(ops, [op]);
      assert [TYPE_VALUE] + a + key + b + value == OpBytes(op);
      records := records + ([TYPE_VALUE] + a + key + b + value);
      ops := ops + [op];
    }

    method Delete(key: Bytes)
      requires Valid() && Storable(Op.Delete(key))
      modifies this
      ensures Valid() && ops == old(ops) + [Op.Delete(key)] && sequence == old(sequence)
    {
      count := (count + 1) % 0x1_0000_0000;
      var a := EncodeVarint32(|key|);
      ghost var op := Op.Delete(key);
      OneOp(op);
      OpsConcat(ops, [op]);
      assert [TYPE_DELETION] + a + key == OpBytes(op);
      records := records + ([TYPE_DELETION] + a + key);
      ops := ops + [op];
    }

    /** The operations of source follow those that are there. */
    method Append(source: WriteBatch)
      requires Valid() && source.Valid()
      modifies this
      ensures Valid() && ops == old(ops) + old(source.ops) && sequence == old(sequence)
    {
      OpsConcat(ops, source.ops);
      assert AllStorable(ops + source.ops);
      count, records, ops := (count + source.count) % 0x1_0000_0000, records + source.records, ops + source.ops;
    }

    /** WriteBatchInternal::InsertInto: unless there are 2^32 operations or more, each gets its own sequence number, in order. */
    method InsertInto() returns (ok: bool, entries: seq<(nat, Op)>)
      requires Valid()
      ensures ok <==> |ops| < 0x1_0000_0000
      ensures |entries| == |ops| && forall i: nat {:trigger entries[i]} :: i < |ops| ==> entries[i] == (sequence + i, ops[i])
    {
      var found;
      ok, found := Iterate(records, count, ops);
      var s: nat := sequence;
      entries := seq(|found|, i requires 0 <= i < |found| => (s + i, found[i]));
    }
  }

  lemma OpAhead(data: Bytes, p: nat, op: Op)
    requires p + |OpBytes(op)| <= |data| && data[p..p + |OpBytes(op)|] == OpBytes(op)
    ensures var q := p + 1 + |Delimited(op.key)|;
            && data[p + 1..q] == Delimited(op.key)
            && if op.Put? then
                 data[p] == TYPE_VALUE && var end := q + |Delimited(op.value)|; end == p + |OpBytes(op)| && data[q..end] == Delimited(op.value)
               else
                 data[p] == TYPE_DELETION && q == p + |OpBytes(op)|
  {
    var end := p + |OpBytes(op)|;
    var key := Delimited(op.key);
    match op
    case Put(_, v) =>
      Middle(data, p, end, [], [TYPE_VALUE], key + Delimited(v));
      Middle(data, p, end, [TYPE_VALUE], key, Delimited(v));
      Middle(data, p, end, [TYPE_VALUE] + key, Delimited(v), []);
      assert data[p..p + 1][0] == data[p];
    case Delete(_) =>
      Split(data, p, end, [TYPE_DELETION], key);
      assert data[p..p + 1][0] == data[p];
  }
}
