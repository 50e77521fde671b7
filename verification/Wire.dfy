/** The Protocol Buffers wire format, as a reader sees it that has no descriptor: sections "Base 128 Varints" and
    "Message Structure" of its encoding specification, with the limits of nanopb (pb_decode.c). */
module Wire {
  import opened Keys
  import opened Coding

  // ---------------------------------------------------------------- varints

  // The position behind the first byte without its high bit
  ghost function VarintEnd(data: Bytes, pos: nat, end: nat): (r: Option<nat>)
    requires pos <= end <= |data|
    ensures r.Some? ==> pos < r.value <= end
    decreases end - pos
  {
    if pos == end then None else if data[pos] < 128 then Some(pos + 1) else VarintEnd(data, pos + 1, end)
  }

  // Seven bits a byte, the lowest first
  ghost function Digits(data: Bytes, pos: nat, end: nat): nat
    requires pos <= end <= |data|
    decreases end - pos
  {
    if pos == end then 0 else data[pos] % 128 + 128 * Digits(data, pos + 1, end)
  }

  /** A 64-bit varint has at most ten bytes; bits beyond the 64th are lost. */
  ghost function ReadVarint64(data: Bytes, pos: nat, end: nat): (r: Option<(Uint64, nat)>)
    requires pos <= end <= |data|
    ensures r.Some? ==> pos < r.value.1 <= end
  {
    match VarintEnd(data, pos, end)
    case None => None
    case Some(e) => if e - pos > 10 then None else Some((Digits(data, pos, e) % 0x1_0000_0000_0000_0000, e))
  }

  // Behind its fifth byte a 32-bit varint may only go on with zeros or with the sign of a 64-bit number.
  predicate Padding(b: Byte, i: nat, r: nat) {
    b % 128 == 0 || (r >= 0x8000_0000 && b == if i < 9 then 0xff else 0x01)
  }

  /** A 32-bit varint that ends with its fifth byte has no bits beyond the 32nd. */
  ghost function ReadVarint32(data: Bytes, pos: nat, end: nat): (r: Option<(Uint32, nat)>)
    requires pos <= end <= |data|
    ensures r.Some? ==> pos < r.value.1 <= end
  {
    match VarintEnd(data, pos, end)
    case None => None
    case Some(e) =>
      var r := Low32(data, pos, e);
      if (e - pos == 5 ==> data[pos + 4] < 16) && (forall q :: pos + 5 <= q < e ==> Padding(data[q], q - pos, r)) then Some((r, e)) else None
  }

  // What the first five bytes say
  ghost function Low32(data: Bytes, pos: nat, end: nat): Uint32
    requires pos <= end <= |data|
  {
    Digits(data, pos, if end - pos < 5 then end else pos + 5) % 0x1_0000_0000
  }

  // ---------------------------------------------------------------- records

  ghost function Jump(pos: nat, n: nat, end: nat): Option<nat> {
    if pos + n <= end then Some(pos + n) else None
  }

  // Bytes with their length in front: where they begin and end
  ghost function Region(data: Bytes, pos: nat, end: nat): (r: Option<(nat, nat)>)
    requires pos <= end <= |data|
    ensures r.Some? ==> pos < r.value.0 <= r.value.1 <= end
  {
    match ReadVarint32(data, pos, end)
    case None => None
    case Some((size, start)) => if start + size <= end then Some((start, start + size)) else None
  }

  /** The wire type alone says how long a value is: 0 is a varint, 1 eight bytes, 2 a length and that many bytes,
      5 four bytes. */
  ghost function Skip(data: Bytes, pos: nat, end: nat, wireType: nat): (r: Option<nat>)
    requires pos <= end <= |data|
    ensures r.Some? ==> pos < r.value <= end
  {
    if wireType == 0 then VarintEnd(data, pos, end)
    else if wireType == 1 then Jump(pos, 8, end)
    else if wireType == 2 then
      match Region(data, pos, end)
      case None => None
      case Some((start, stop)) => Some(stop)
    else if wireType == 5 then Jump(pos, 4, end)
    else None
  }

  datatype TagRead = NoTag | Terminator | Tagged(wireType: nat, tag: nat, next: nat)

  // A zero ends a message.
  ghost function ReadTag(data: Bytes, pos: nat, end: nat): (r: TagRead)
    requires pos <= end <= |data|
    ensures r.Tagged? ==> pos < r.next <= end
  {
    match ReadVarint32(data, pos, end)
    case None => NoTag
    case Some((key, next)) => if key == 0 then Terminator else Tagged(key % 8, key / 8, next)
  }

  // ---------------------------------------------------------------- reading digit by digit

  lemma {:induction false} DigitsNext(data: Bytes, pos: nat, end: nat)
    requires pos <= end < |data|
    ensures Digits(data, pos, end + 1) == Digits(data, pos, end) + Power(end - pos) * (data[end] % 128)
    decreases end - pos
  {
    if pos < end {
      DigitsNext(data, pos + 1, end);
      var rest, digit: nat, pow := Digits(data, pos + 1, end), data[end] % 128, Power(end - pos - 1);
      assert 128 * (rest + pow * digit) == 128 * rest + 128 * pow * digit;
    } else {
      assert Digits(data, pos + 1, end + 1) == 0;
    }
  }

  // ---------------------------------------------------------------- what has been encoded

  lemma {:induction false} EncodedVarint(data: Bytes, pos: nat, end: nat, v: nat)
    requires HasVarint(data, pos, end, v)
    ensures VarintEnd(data, pos, end) == Some(pos + |Varint(v)|) && Digits(data, pos, pos + |Varint(v)|) == v
    decreases v
  {
    VarintStep(data, pos, end, v);
    if v >= 128 {
      EncodedVarint(data, pos + 1, end, v / 128);
    } else {
      assert Digits(data, pos + 1, pos + 1) == 0;
    }
  }

  /** Encoded numbers are read back. */
  lemma EncodedVarint64(data: Bytes, pos: nat, end: nat, v: Uint64)
    requires HasVarint(data, pos, end, v)
    ensures ReadVarint64(data, pos, end) == Some((v, pos + |Varint(v)|))
  {
    EncodedVarint(data, pos, end, v);
    assert Power(10) == 0x40_0000_0000_0000_0000;
    VarintBytes(v, 10);
  }

  lemma EncodedVarint32(data: Bytes, pos: nat, end: nat, v: Uint32)
    requires HasVarint(data, pos, end, v)
    ensures ReadVarint32(data, pos, end) == Some((v, pos + |Varint(v)|))
  {
    EncodedVarint(data, pos, end, v);
    assert Power(5) == 0x8_0000_0000;
    VarintBytes(v, 5);
    if |Varint(v)| == 5 {
      FifthDigit(data, pos);
      LastByte(data, pos, end);
    }
  }

  lemma FifthDigit(data: Bytes, pos: nat)
    requires pos + 5 <= |data|
    ensures var last: nat := data[pos + 4]; Digits(data, pos, pos + 5) >= 0x1000_0000 * (last % 128)
  {
    DigitsNext(data, pos, pos + 4);
    assert Power(4) == 0x1000_0000;
  }

  lemma {:induction false} LastByte(data: Bytes, pos: nat, end: nat)
    requires pos <= end <= |data|
    ensures VarintEnd(data, pos, end).Some? ==> data[VarintEnd(data, pos, end).value - 1] < 128
    decreases end - pos
  {
    if pos < end && data[pos] >= 128 {
      LastByte(data, pos + 1, end);
    }
  }

  // The bytes b at pos, before end
  ghost predicate HasBytes(data: Bytes, pos: nat, end: nat, b: Bytes) {
    pos + |b| <= end <= |data| && data[pos..pos + |b|] == b
  }

  lemma EncodedRegion(data: Bytes, pos: nat, end: nat, b: Bytes)
    requires HasBytes(data, pos, end, Delimited(b)) && |b| < 0x1_0000_0000
    ensures var start := pos + |Varint(|b|)|;
            Region(data, pos, end) == Some((start, start + |b|)) && data[start..start + |b|] == b && start + |b| == pos + |Delimited(b)|
  {
    DelimitedParts(data, pos, end, b);
    EncodedVarint32(data, pos, end, |b|);
  }
}
