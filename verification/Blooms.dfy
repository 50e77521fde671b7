/** The Bloom filter policy (util/bloom.cc).  A filter has exactly the bits its keys probe, so it matches
    every one of them. */
module Blooms {
  import opened Coding

  // ---------------------------------------------------------------- bits

  predicate Bit(b: nat, m: nat) {
    if m == 0 then b % 2 == 1 else Bit(b / 2, m - 1)
  }

  // b | 1 << m
  function WithBit(b: nat, m: nat): nat {
    if m > 0 then b % 2 + 2 * WithBit(b / 2, m - 1) else if b % 2 == 1 then b else b + 1
  }

  lemma {:induction false} WithBitBits(b: nat, m: nat, n: nat)
    ensures Bit(WithBit(b, m), n) <==> n == m || Bit(b, n)
    decreases m
  {
    var c := WithBit(b, m);
    if m > 0 {
      assert c / 2 == WithBit(b / 2, m - 1) && c % 2 == b % 2;
      if n > 0 {
        WithBitBits(b / 2, m - 1, n - 1);
      }
    } else if n > 0 {
      assert c / 2 == b / 2;
    }
  }

  function TwoTo(n: nat): (r: nat)
    ensures r > 0
  {
    if n == 0 then 1 else 2 * TwoTo(n - 1)
  }

  lemma {:induction false} WithBitBelow(b: nat, m: nat, n: nat)
    requires m < n && b < TwoTo(n)
    ensures WithBit(b, m) < TwoTo(n)
    decreases m
  {
    if m > 0 {
      WithBitBelow(b / 2, m - 1, n - 1);
    } else {
      assert TwoTo(n) % 2 == 0;
    }
  }

  lemma {:induction false} NoBits(m: nat)
    ensures !Bit(0, m)
  {
    if m > 0 {
      NoBits(m - 1);
    }
  }

  predicate BitAt(f: Bytes, pos: nat)
    requires pos / 8 < |f|
  {
    Bit(f[pos / 8], pos % 8)
  }

  // f[pos / 8] |= 1 << pos % 8
  function Mark(f: Bytes, pos: nat): (r: Bytes)
    requires pos < 8 * |f|
    ensures |r| == |f|
  {
    assert TwoTo(8) == 256;
    WithBitBelow(f[pos / 8], pos % 8, 8);
    f[pos / 8 := WithBit(f[pos / 8], pos % 8)]
  }

  lemma MarkBits(f: Bytes, pos: nat, other: nat)
    requires pos < 8 * |f| && other < 8 * |f|
    ensures BitAt(Mark(f, pos), other) <==> other == pos || BitAt(f, other)
  {
    WithBitBits(f[pos / 8], pos % 8, other % 8);
  }

  // ---------------------------------------------------------------- probes

  function Rotated(h: Uint32): Uint32 {
    h / 0x2_0000 + h % 0x2_0000 * 0x8000
  }

  function Advance(h: Uint32, delta: Uint32): Uint32 {
    (h + delta) % 0x1_0000_0000
  }

  function Position(h: Uint32, bits: nat): (r: nat)
    requires bits > 0
    ensures r < bits
  {
    h % bits
  }

  // The positions of k probes that start at h
  function Probes(h: Uint32, delta: Uint32, k: nat, bits: nat): (r: set<nat>)
    requires bits > 0
    ensures forall pos :: pos in r ==> pos < bits
    decreases k
  {
    if k == 0 then {} else {Position(h, bits)} + Probes(Advance(h, delta), delta, k - 1, bits)
  }

  function KeyProbes(hash: Bytes -> Uint32, key: Bytes, k: nat, bits: nat): (r: set<nat>)
    requires bits > 0
    ensures forall pos :: pos in r ==> pos < bits
  {
    Probes(hash(key), Rotated(hash(key)), k, bits)
  }

  function MarkProbes(f: Bytes, h: Uint32, delta: Uint32, k: nat): (r: Bytes)
    requires |f| > 0
    ensures |r| == |f|
    decreases k
  {
    if k == 0 then f else MarkProbes(Mark(f, Position(h, 8 * |f|)), Advance(h, delta), delta, k - 1)
  }

  lemma {:induction false} MarkProbesBits(f: Bytes, h: Uint32, delta: Uint32, k: nat, pos: nat)
    requires |f| > 0 && pos < 8 * |f|
    ensures BitAt(MarkProbes(f, h, delta, k), pos) <==> pos in Probes(h, delta, k, 8 * |f|) || BitAt(f, pos)
    decreases k
  {
    if k > 0 {
      var p := Position(h, 8 * |f|);
      MarkBits(f, p, pos);
      MarkProbesBits(Mark(f, p), Advance(h, delta), delta, k - 1, pos);
    }
  }

  function MarkKeys(hash: Bytes -> Uint32, f: Bytes, keys: seq<Bytes>, k: nat): (r: Bytes)
    requires |f| > 0
    ensures |r| == |f|
  {
    if keys == [] then f
    else
      var last := keys[|keys| - 1];
      MarkProbes(MarkKeys(hash, f, keys[..|keys| - 1], k), hash(last), Rotated(hash(last)), k)
  }

  ghost predicate Probed(hash: Bytes -> Uint32, key: Bytes, k: nat, bits: nat, pos: nat)
    requires bits > 0
  {
    pos in KeyProbes(hash, key, k, bits)
  }

  lemma {:induction false} MarkKeysBits(hash: Bytes -> Uint32, f: Bytes, keys: seq<Bytes>, k: nat, pos: nat)
    requires |f| > 0 && pos < 8 * |f|
    ensures BitAt(MarkKeys(hash, f, keys, k), pos) <==>
            BitAt(f, pos) || exists key :: key in keys && Probed(hash, key, k, 8 * |f|, pos)
    decreases |keys|
  {
    if keys != [] {
      var front, last := keys[..|keys| - 1], keys[|keys| - 1];
      assert keys == front + [last];
      MarkKeysBits(hash, f, front, k, pos);
      MarkProbesBits(MarkKeys(hash, f, front, k), hash(last), Rotated(hash(last)), k, pos);
      assert Probed(hash, last, k, 8 * |f|, pos) <==> pos in Probes(hash(last), Rotated(hash(last)), k, 8 * |f|);
    }
  }

  // ---------------------------------------------------------------- BloomFilterPolicy

  type ProbeCount = k: nat | 1 <= k <= 30 witness 1

  // At least 64 bits, rounded up to whole bytes
  function FilterBytes(n: nat, bitsPerKey: nat): (r: nat)
    ensures r >= 8
  {
    var bits := n * bitsPerKey;
    ((if bits < 64 then 64 else bits) + 7) / 8
  }

  function Zeros(n: nat): (r: Bytes)
    ensures |r| == n
  {
    seq(n, _ => 0)
  }

  function Filter(hash: Bytes -> Uint32, bitsPerKey: nat, k: ProbeCount, keys: seq<Bytes>): (r: Bytes)
    ensures |r| == FilterBytes(|keys|, bitsPerKey) + 1
  {
    MarkKeys(hash, Zeros(FilterBytes(|keys|, bitsPerKey)), keys, k) + [k]
  }

  /** The bits of a filter are the probes of its keys, and no others. */
  lemma FilterBits(hash: Bytes -> Uint32, bitsPerKey: nat, k: ProbeCount, keys: seq<Bytes>, pos: nat)
    requires pos < 8 * FilterBytes(|keys|, bitsPerKey)
    ensures var f := Filter(hash, bitsPerKey, k, keys);
            BitAt(f, pos) <==> exists key :: key in keys && Probed(hash, key, k, 8 * (|f| - 1), pos)
  {
    var zeros := Zeros(FilterBytes(|keys|, bitsPerKey));
    MarkKeysBits(hash, zeros, keys, k, pos);
    NoBits(pos % 8);
    assert BitAt(Filter(hash, bitsPerKey, k, keys), pos) <==> BitAt(MarkKeys(hash, zeros, keys, k), pos);
  }

  // Double hashing: the hash is advanced by itself, rotated.
  method SetProbes(filter: Bytes, hash: Uint32, k: nat) returns (r: Bytes)
    requires |filter| > 0
    ensures r == MarkProbes(filter, hash, Rotated(hash), k)
  {
    r := filter;
    var h := hash;
    var delta := Rotated(h);
    var j := 0;
    while j < k
      invariant j <= k && |r| == |filter| && MarkProbes(r, h, delta, k - j) == MarkProbes(filter, hash, delta, k)
    {
      r := Mark(r, Position(h, 8 * |r|));
      h := Advance(h, delta);
      j := j + 1;
    }
  }

  method CreateFilter(hash: Bytes -> Uint32, bitsPerKey: nat, k: ProbeCount, keys: seq<Bytes>, dst: Bytes) returns (r: Bytes)
    ensures r == dst + Filter(hash, bitsPerKey, k, keys)
  {
    var bits := |keys| * bitsPerKey;
    if bits < 64 {
      bits := 64;
    }
    var bytes := (bits + 7) / 8;
    ghost var zeros := Zeros(bytes);
    var a := Zeros(bytes);
    for i := 0 to |keys|
      invariant |a| == bytes && a == MarkKeys(hash, zeros, keys[..i], k)
    {
      a := SetProbes(a, hash(keys[i]), k);
      assert keys[..i + 1][..i] == keys[..i];
    }
    assert keys[..|keys|] == keys;
    r := dst + a + [k];
  }

  predicate Matches(hash: Bytes -> Uint32, key: Bytes, filter: Bytes) {
    |filter| >= 2 &&
    var k := filter[|filter| - 1];
    k > 30 || AllSet(filter, KeyProbes(hash, key, k, 8 * (|filter| - 1)))
  }

  predicate AllSet(f: Bytes, probes: set<nat>)
    requires forall pos :: pos in probes ==> pos < 8 * |f|
  {
    forall pos :: pos in probes ==> BitAt(f, pos)
  }

  lemma AllSetRest(f: Bytes, h: Uint32, delta: Uint32, k: nat, bits: nat)
    requires k > 0 && 0 < bits <= 8 * |f|
    ensures AllSet(f, Probes(h, delta, k, bits)) <==>
            BitAt(f, Position(h, bits)) && AllSet(f, Probes(Advance(h, delta), delta, k - 1, bits))
  {
    assert Probes(h, delta, k, bits) == {Position(h, bits)} + Probes(Advance(h, delta), delta, k - 1, bits);
  }

  method KeyMayMatch(hash: Bytes -> Uint32, key: Bytes, filter: Bytes) returns (r: bool)
    ensures r <==> Matches(hash, key, filter)
  {
    if |filter| < 2 {
      return false;
    }
    var bits := (|filter| - 1) * 8;
    var k := filter[|filter| - 1];
    if k > 30 {
      return true;
    }
    var h := hash(key);
    var delta := Rotated(h);
    var j: nat := 0;
    while j < k
      invariant j <= k
      invariant AllSet(filter, KeyProbes(hash, key, k, bits)) <==> AllSet(filter, Probes(h, delta, k - j, bits))
    {
      AllSetRest(filter, h, delta, k - j, bits);
      var bitpos := Position(h, bits);
      if !BitAt(filter, bitpos) {
        return false;
      }
      h := Advance(h, delta);
      j := j + 1;
    }
    return true;
  }

  /** No false negatives. */
  lemma KeysMatch(hash: Bytes -> Uint32, bitsPerKey: nat, k: ProbeCount, keys: seq<Bytes>, key: Bytes)
    requires key in keys
    ensures Matches(hash, key, Filter(hash, bitsPerKey, k, keys))
  {
    var f := Filter(hash, bitsPerKey, k, keys);
    forall pos | pos in KeyProbes(hash, key, k, 8 * (|f| - 1))
      ensures BitAt(f, pos)
    {
      assert Probed(hash, key, k, 8 * (|f| - 1), pos);
      FilterBits(hash, bitsPerKey, k, keys, pos);
    }
  }
}
