/** Byte encodings (util/coding.h, util/coding.cc): little-endian fixed-width integers and varints. */
module Coding {
  import opened Keys

  type Byte = b: nat | b < 0x100
  type Uint32 = x: nat | x < 0x1_0000_0000
  type Uint64 = x: nat | x < 0x1_0000_0000_0000_0000
  type Bytes = seq<Byte>

  // ---------------------------------------------------------------- fixed width

  function EncodeFixed32(x: Uint32): (r: Bytes)
    ensures |r| == 4
  {
    [x % 0x100, x / 0x100 % 0x100, x / 0x1_0000 % 0x100, x / 0x100_0000]
  }

  function DecodeFixed32(b: Bytes): Uint32
    requires |b| == 4
  {
    var b0: nat, b1: nat, b2: nat, b3: nat := b[0], b[1], b[2], b[3];
    b0 + b1 * 0x100 + b2 * 0x1_0000 + b3 * 0x100_0000
  }

  lemma Fixed32RoundTrip(x: Uint32)
    ensures DecodeFixed32(EncodeFixed32(x)) == x
  {
  }

  function Fixed32At(data: Bytes, base: nat, j: nat): Uint32
    requires base + 4 * j + 4 <= |data|
  {
    DecodeFixed32(data[base + 4 * j..base + 4 * j + 4])
  }

  // front, and after it the first n of xs
  ghost predicate HasFixed32s(data: Bytes, front: Bytes, xs: seq<Uint32>, n: nat) {
    && n <= |xs|
    && |data| == |front| + 4 * n && data[..|front|] == front
    && forall j: nat {:trigger xs[j]} :: j < n ==> data[|front| + 4 * j..|front| + 4 * j + 4] == EncodeFixed32(xs[j])
  }

  lemma HasMoreFixed32s(data: Bytes, front: Bytes, xs: seq<Uint32>, n: nat)
    requires HasFixed32s(data, front, xs, n) && n < |xs|
    ensures HasFixed32s(data + EncodeFixed32(xs[n]), front, xs, n + 1)
  {
    var data' := data + EncodeFixed32(xs[n]);
    forall j: nat | j < n + 1
      ensures data'[|front| + 4 * j..|front| + 4 * j + 4] == EncodeFixed32(xs[j])
    {
      if j < n {
        assert data'[|front| + 4 * j..|front| + 4 * j + 4] == data[|front| + 4 * j..|front| + 4 * j + 4];
      }
    }
  }

  method PutFixed32s(front: Bytes, xs: seq<Uint32>) returns (data: Bytes)
    ensures HasFixed32s(data, front, xs, |xs|)
  {
    data := front;
    for i := 0 to |xs|
      invariant HasFixed32s(data, front, xs, i)
    {
      HasMoreFixed32s(data, front, xs, i);
      data := data + EncodeFixed32(xs[i]);
    }
  }

  lemma ReadFixed32s(data: Bytes, front: Bytes, xs: seq<Uint32>, more: Bytes, j: nat)
    requires HasFixed32s(data, front, xs, |xs|) && j < |xs|
    ensures Fixed32At(data + more, |front|, j) == xs[j]
  {
    var data' := data + more;
    assert data'[|front| + 4 * j..|front| + 4 * j + 4] == data[|front| + 4 * j..|front| + 4 * j + 4];
    Fixed32RoundTrip(xs[j]);
  }

  function EncodeFixed64(x: Uint64): (r: Bytes)
    ensures |r| == 8
  {
    EncodeFixed32(x % 0x1_0000_0000) + EncodeFixed32(x / 0x1_0000_0000)
  }

  function DecodeFixed64(b: Bytes): nat
    requires |b| == 8
  {
    DecodeFixed32(b[..4]) + DecodeFixed32(b[4..]) * 0x1_0000_0000
  }

  lemma Fixed64RoundTrip(x: Uint64)
    ensures DecodeFixed64(EncodeFixed64(x)) == x
  {
    var low, high := x % 0x1_0000_0000, x / 0x1_0000_0000;
    Fixed32RoundTrip(low);
    Fixed32RoundTrip(high);
    assert EncodeFixed64(x)[..4] == EncodeFixed32(low) && EncodeFixed64(x)[4..] == EncodeFixed32(high);
  }

  // ---------------------------------------------------------------- varints

  /** Seven bits a byte, the lowest first; every byte but the last has its high bit set. */
  function Varint(v: nat): (r: Bytes)
    ensures |r| > 0
  {
    if v < 128 then [v] else [128 + v % 128] + Varint(v / 128)
  }

  lemma Peel(v: nat, above: nat, rest: Bytes)
    requires v >= 128 && above == v / 128 && rest == Varint(above)
    ensures Varint(v) == [128 + v % 128] + rest
  {
  }

  lemma Levels(v: nat)
    ensures v / 0x80 / 128 == v / 0x4000 && v / 0x4000 / 128 == v / 0x20_0000 && v / 0x20_0000 / 128 == v / 0x1000_0000
  {
  }

  // EncodeVarint32: unrolled by the number of bytes.
  method EncodeVarint32(v: Uint32) returns (r: Bytes)
    ensures r == Varint(v)
  {
    var v1, v2, v3, v4 := v / 0x80, v / 0x4000, v / 0x20_0000, v / 0x1000_0000;
    Levels(v);
    if v < 0x80 {
      r := [v];
    } else if v < 0x4000 {
      r := [v % 0x80 + 0x80, v1];
      Peel(v, v1, [v1]);
    } else if v < 0x20_0000 {
      r := [v % 0x80 + 0x80, v1 % 0x80 + 0x80, v2];
      Peel(v1, v2, [v2]);
      Peel(v, v1, r[1..]);
    } else if v < 0x1000_0000 {
      r := [v % 0x80 + 0x80, v1 % 0x80 + 0x80, v2 % 0x80 + 0x80, v3];
      Peel(v2, v3, [v3]);
      Peel(v1, v2, r[2..]);
      Peel(v, v1, r[1..]);
    } else {
      r := [v % 0x80 + 0x80, v1 % 0x80 + 0x80, v2 % 0x80 + 0x80, v3 % 0x80 + 0x80, v4];
      Peel(v3, v4, [v4]);
      Peel(v2, v3, r[3..]);
      Peel(v1, v2, r[2..]);
      Peel(v, v1, r[1..]);
    }
  }

  method EncodeVarint64(v: Uint64) returns (r: Bytes)
    ensures r == Varint(v)
  {
    var rest: nat := v;
    r := [];
    while rest >= 128
      invariant r + Varint(rest) == Varint(v)
    {
      r := r + [rest % 128 + 128];
      rest := rest / 128;
    }
    r := r + [rest];
  }

  method VarintLength(v: Uint64) returns (len: nat)
    ensures len == |Varint(v)|
  {
    var rest: nat := v;
    len := 1;
    while rest >= 128
      invariant len + |Varint(rest)| == |Varint(v)| + 1
    {
      rest := rest / 128;
      len := len + 1;
    }
  }

  // data[p..] begins with the varint of v and has all of it before limit.
  ghost predicate HasVarint(data: Bytes, p: nat, limit: nat, v: nat) {
    p + |Varint(v)| <= limit <= |data| && data[p..p + |Varint(v)|] == Varint(v)
  }

  lemma VarintStep(data: Bytes, p: nat, limit: nat, v: nat)
    requires HasVarint(data, p, limit, v)
    ensures data[p] as nat == if v < 128 then v else 128 + v % 128
    ensures v >= 128 ==> HasVarint(data, p + 1, limit, v / 128) && |Varint(v)| == 1 + |Varint(v / 128)|
  {
    var n := |Varint(v)|;
    assert data[p..p + n][0] == data[p];
    if v >= 128 {
      assert data[p + 1..p + n] == data[p..p + n][1..] == Varint(v / 128);
    }
  }

  lemma Shifted(pow: nat, rest: nat)
    ensures pow * rest == pow * (rest % 128) + pow * 128 * (rest / 128)
  {
    assert rest == rest % 128 + 128 * (rest / 128);
  }

  // A varint at p takes the bytes before end: the last is the first without its high bit, and there are not too many.
  ghost predicate EndsAt(data: Bytes, p: nat, limit: nat, bytes: nat, end: nat)
    requires limit <= |data|
  {
    p < end <= limit && end - p <= bytes && data[end - 1] < 128 && forall q: nat {:trigger data[q]} :: p <= q < end - 1 ==> data[q] >= 128
  }

  /** GetVarint32Ptr and GetVarint64Ptr: at most bytes bytes are read, and bits that do not fit in the
      result are lost.  A varint that was encoded from a number of that width is read back. */
  method GetVarint(data: Bytes, p: nat, limit: nat, bytes: nat, bound: nat, ghost v: nat) returns (r: Option<(nat, nat)>)
    requires p <= limit <= |data| && bound > 0
    ensures r.Some? ==> r.value.0 < bound && EndsAt(data, p, limit, bytes, r.value.1)
    ensures r.None? ==> forall q: nat {:trigger data[q]} :: p <= q < limit && q < p + bytes ==> data[q] >= 128
    ensures HasVarint(data, p, limit, v) && v < bound && |Varint(v)| <= bytes ==> r == Some((v, p + |Varint(v)|))
  {
    var result: nat, pow: nat, q: nat, k: nat := 0, 1, p, 0;
    ghost var rest: nat := v;
    ghost var good := HasVarint(data, p, limit, v) && v < bound && |Varint(v)| <= bytes;
    while k < bytes && q < limit
      invariant p <= q <= limit && result < bound && k == q - p
      invariant forall i: nat {:trigger data[i]} :: p <= i < q ==> data[i] >= 128
      invariant good ==> HasVarint(data, q, limit, rest) && v == result + pow * rest && q + |Varint(rest)| == p + |Varint(v)|
      invariant good ==> k + |Varint(rest)| <= bytes
    {
      var byte: nat := data[q];
      if good {
        VarintStep(data, q, limit, rest);
        Shifted(pow, rest);
        AddBits(result, pow, byte, rest, v, bound);
      }
      q := q + 1;
      result := (result + byte % 128 * pow) % bound;
      if byte < 128 {
        return Some((result, q));
      }
      rest, pow, k := rest / 128, pow * 128, k + 1;
    }
    return None;
  }

  lemma AddBits(result: nat, pow: nat, byte: nat, rest: nat, v: nat, bound: nat)
    requires v == result + pow * rest && v < bound && byte == if rest < 128 then rest else 128 + rest % 128
    ensures (result + byte % 128 * pow) % bound == result + pow * (rest % 128)
  {
    assert byte % 128 == rest % 128 && byte % 128 * pow == pow * (rest % 128);
    Shifted(pow, rest);
    assert pow * 128 * (rest / 128) >= 0;
  }

  // A varint ends where its bytes say.
  lemma {:induction false} VarintUnique(data: Bytes, p: nat, limit: nat, v: nat, w: nat)
    requires HasVarint(data, p, limit, v) && HasVarint(data, p, limit, w)
    ensures v == w
    decreases v
  {
    VarintStep(data, p, limit, v);
    VarintStep(data, p, limit, w);
    if v >= 128 {
      VarintUnique(data, p + 1, limit, v / 128, w / 128);
    }
  }

  function Power(n: nat): (r: nat)
    ensures r > 0
  {
    if n == 0 then 1 else 128 * Power(n - 1)
  }

  // n bytes are enough for every number below 128^n.
  lemma {:induction false} VarintBytes(v: nat, n: nat)
    requires n > 0 && v < Power(n)
    ensures |Varint(v)| <= n
    decreases n
  {
    if v >= 128 {
      var above, below := v / 128, Power(n - 1);
      assert v == 128 * above + v % 128;
      VarintBytes(above, n - 1);
    }
  }

  /** GetVarint32Ptr */
  method GetVarint32(data: Bytes, p: nat, limit: nat, ghost v: nat) returns (r: Option<(Uint32, nat)>)
    requires p <= limit <= |data|
    ensures r.Some? ==> EndsAt(data, p, limit, 5, r.value.1)
    ensures r.None? ==> forall q: nat {:trigger data[q]} :: p <= q < limit && q < p + 5 ==> data[q] >= 128
    ensures HasVarint(data, p, limit, v) && v < 0x1_0000_0000 ==> r == Some((v, p + |Varint(v)|))
  {
    if HasVarint(data, p, limit, v) {
      VarintStep(data, p, limit, v);
      if v < 0x1_0000_0000 {
        assert Power(5) == 0x8_0000_0000;
        VarintBytes(v, 5);
      }
    }
    if p < limit && data[p] < 128 {
      return Some((data[p], p + 1));
    }
    var x := GetVarint(data, p, limit, 5, 0x1_0000_0000, v);
    r := if x.Some? then Some((x.value.0, x.value.1)) else None;
  }

  method GetVarint64(data: Bytes, p: nat, limit: nat, ghost v: nat) returns (r: Option<(nat, nat)>)
    requires p <= limit <= |data|
    ensures r.Some? ==> EndsAt(data, p, limit, 10, r.value.1)
    ensures r.None? ==> forall q: nat {:trigger data[q]} :: p <= q < limit && q < p + 10 ==> data[q] >= 128
    ensures HasVarint(data, p, limit, v) && v < 0x1_0000_0000_0000_0000 ==> r == Some((v, p + |Varint(v)|))
  {
    if v < 0x1_0000_0000_0000_0000 {
      assert Power(10) == 0x40_0000_0000_0000_0000;
      VarintBytes(v, 10);
    }
    r := GetVarint(data, p, limit, 10, 0x1_0000_0000_0000_0000, v);
  }

  // ---------------------------------------------------------------- strings with their length in front

  function Delimited(b: Bytes): Bytes {
    Varint(|b|) + b
  }

  lemma DelimitedParts(data: Bytes, pos: nat, end: nat, b: Bytes)
    requires pos + |Delimited(b)| <= end <= |data| && data[pos..pos + |Delimited(b)|] == Delimited(b)
    ensures HasVarint(data, pos, end, |b|)
    ensures var q := pos + |Varint(|b|)|; q + |b| <= end && data[q..q + |b|] == b
  {
    var a := Varint(|b|);
    assert data[pos..pos + |a|] == data[pos..pos + |Delimited(b)|][..|a|];
    assert data[pos + |a|..pos + |a| + |b|] == data[pos..pos + |Delimited(b)|][|a|..];
  }

  /** GetLengthPrefixedSlice */
  method GetLengthPrefixed(data: Bytes, p: nat, limit: nat, ghost b: Bytes) returns (r: Option<(Bytes, nat)>)
    requires p <= limit <= |data|
    ensures r.Some? ==> p < r.value.1 <= limit
    ensures |b| < 0x1_0000_0000 && p + |Delimited(b)| <= limit && data[p..p + |Delimited(b)|] == Delimited(b) ==>
              r == Some((b, p + |Delimited(b)|))
  {
    if p + |Delimited(b)| <= limit && data[p..p + |Delimited(b)|] == Delimited(b) {
      DelimitedParts(data, p, limit, b);
    }
    var len := GetVarint32(data, p, limit, |b|);
    if len.None? || limit - len.value.1 < len.value.0 {
      return None;
    }
    var start, size: nat := len.value.1, len.value.0;
    return Some((data[start..start + size], start + size));
  }

  lemma Middle(data: Bytes, p: nat, end: nat, x: Bytes, y: Bytes, z: Bytes)
    requires p <= end <= |data| && data[p..end] == x + y + z
    ensures data[p + |x|..p + |x| + |y|] == y
  {
    assert y == (x + y + z)[|x|..|x| + |y|];
    forall k: nat | k < |y|
      ensures data[p + |x| + k] == y[k]
    {
      assert data[p..end][|x| + k] == (x + y + z)[|x| + k];
    }
  }

  lemma Split(data: Bytes, p: nat, end: nat, a: Bytes, b: Bytes)
    requires p <= end <= |data| && data[p..end] == a + b
    ensures data[p..p + |a|] == a && data[p + |a|..p + |a| + |b|] == b
  {
    assert data[p..p + |a|] == data[p..end][..|a|];
    assert data[p + |a|..p + |a| + |b|] == data[p..end][|a|..];
  }

  // ---------------------------------------------------------------- strings in a row

  // parts[i] and all that follow
  function Flat(parts: seq<Bytes>, i: nat): Bytes
    requires i <= |parts|
    decreases |parts| - i
  {
    if i == |parts| then [] else parts[i] + Flat(parts, i + 1)
  }

  lemma {:induction false} FlatConcat(a: seq<Bytes>, b: seq<Bytes>, i: nat)
    requires i <= |a|
    ensures Flat(a + b, i) == Flat(a, i) + Flat(b, 0)
    decreases |a| - i
  {
    if i == |a| {
      FlatTail(a, b, 0);
    } else {
      FlatConcat(a, b, i + 1);
      assert (a + b)[i] == a[i];
    }
  }

  lemma {:induction false} FlatTail(a: seq<Bytes>, b: seq<Bytes>, j: nat)
    requires j <= |b|
    ensures Flat(a + b, |a| + j) == Flat(b, j)
    decreases |b| - j
  {
    if j < |b| {
      FlatTail(a, b, j + 1);
      assert (a + b)[|a| + j] == b[j];
    }
  }

  lemma FlatFront(data: Bytes, p: nat, end: nat, parts: seq<Bytes>, i: nat)
    requires p <= end <= |data| && i < |parts| && data[p..end] == Flat(parts, i)
    ensures var q := p + |parts[i]|; q <= end && data[p..q] == parts[i] && data[q..end] == Flat(parts, i + 1)
  {
    var q := p + |parts[i]|;
    assert data[p..end] == parts[i] + Flat(parts, i + 1);
    assert data[p..q] == data[p..end][..|parts[i]|];
    assert data[q..end] == data[p..end][|parts[i]|..];
  }
}
