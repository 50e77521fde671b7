/** The portable CRC32C (util/crc32c.cc).  Extend works on four interleaved strides of four bytes, with
    tables that advance a byte lane by sixteen bytes; it computes what one byte at a time computes, for
    every length and every alignment of the data.  CRC32C itself is defined in section 12.1 of RFC 3720.

    A machine word is the set of its one bits, so that exclusive or is symmetric difference.  The tables
    are not modelled entry by entry: an entry of the byte table is required to be its byte shifted through
    the reflected generator bit by bit, and one of a stride table to be the sixteen-byte advance of its lane. */
module Crc32c {
  import opened Polynomials

  type Word = w: set<nat> | forall i :: i in w ==> i < 32
  type Byte = b: Word | forall i :: i in b ==> i < 8

  const CRC_XOR: Word := set i: nat | i < 32

  function Xor(a: Word, b: Word): Word {
    (a - b) + (b - a)
  }

  function ShiftRight(a: Word, n: nat): Word {
    set i | i in a && n <= i :: i - n
  }

  function ShiftLeft(a: Word, n: nat): Word {
    set i | i in a && i + n < 32 :: i + n
  }

  // a & 0xff
  function Low(a: Word): Byte {
    set i | i in a && i < 8
  }

  datatype Tables = Tables(byteExtension: Byte -> Word, stride0: Byte -> Word, stride1: Byte -> Word, stride2: Byte -> Word, stride3: Byte -> Word)

  // STEP1
  function Step(t: Tables, l: Word, b: Byte): Word {
    Xor(t.byteExtension(XorByte(Low(l), b)), ShiftRight(l, 8))
  }

  function XorByte(a: Byte, b: Byte): Byte {
    Xor(a, b)
  }

  /** One byte at a time. */
  function Feed(t: Tables, l: Word, data: seq<Byte>): Word {
    if data == [] then l else Step(t, Feed(t, l, data[..|data| - 1]), data[|data| - 1])
  }

  function Crc(t: Tables, crc: Word, data: seq<Byte>): Word {
    Xor(Feed(t, Xor(crc, CRC_XOR), data), CRC_XOR)
  }

  const ZERO: Byte := {}

  function Zeros(n: nat): (r: seq<Byte>)
    ensures |r| == n
  {
    seq(n, _ => ZERO)
  }

  predicate LinearAt(t: Tables, x: Byte, y: Byte) {
    t.byteExtension(XorByte(x, y)) == Xor(t.byteExtension(x), t.byteExtension(y))
  }

  ghost predicate Linear(t: Tables) {
    forall x: Byte, y: Byte :: LinearAt(t, x, y)
  }

  // ReadUint32LE
  function ReadWord(d: seq<Byte>): Word
    requires |d| == 4
  {
    d[0] + ShiftLeft(d[1], 8) + ShiftLeft(d[2], 16) + ShiftLeft(d[3], 24)
  }

  // The word with these bytes, the lowest first
  function Join(d: seq<Byte>): Word
    requires |d| <= 4
  {
    if d == [] then {} else d[0] + ShiftLeft(Join(d[1..]), 8)
  }

  // Advancing a state over n zero bytes
  function Advance(t: Tables, l: Word, n: nat): Word {
    Feed(t, l, Zeros(n))
  }

  // 0x82f63b78
  const REFLECTED: Word := {31, 25, 23, 22, 21, 20, 18, 17, 13, 12, 11, 9, 8, 6, 5, 4, 3}

  // One bit shifted out of the register
  function BitStep(l: Word): Word {
    Xor(ShiftRight(l, 1), Out(l))
  }

  function Out(l: Word): Word {
    if 0 in l then REFLECTED else {}
  }

  function BitSteps(l: Word, n: nat): Word {
    if n == 0 then l else BitStep(BitSteps(l, n - 1))
  }

  ghost predicate EntryOk(t: Tables, b: Byte) {
    t.byteExtension(b) == BitSteps(b, 8)
  }

  ghost predicate ByteTableOk(t: Tables) {
    forall b: Byte {:trigger EntryOk(t, b)} :: EntryOk(t, b)
  }

  ghost predicate TablesOk(t: Tables) {
    && ByteTableOk(t)
    && (forall b: Byte :: t.stride3(b) == Advance(t, b, 16))
    && (forall b: Byte :: t.stride2(b) == Advance(t, ShiftLeft(b, 8), 16))
    && (forall b: Byte :: t.stride1(b) == Advance(t, ShiftLeft(b, 16), 16))
    && (forall b: Byte :: t.stride0(b) == Advance(t, ShiftLeft(b, 24), 16))
  }

  // ---------------------------------------------------------------- linearity

  lemma ShiftRightXor(x: Word, y: Word, n: nat)
    ensures ShiftRight(Xor(x, y), n) == Xor(ShiftRight(x, n), ShiftRight(y, n))
  {
    forall i
      ensures i in ShiftRight(Xor(x, y), n) <==> i in Xor(ShiftRight(x, n), ShiftRight(y, n))
    {
      assert i in ShiftRight(x, n) <==> 0 <= i && i + n in x;
      assert i in ShiftRight(y, n) <==> 0 <= i && i + n in y;
      assert i in ShiftRight(Xor(x, y), n) <==> 0 <= i && i + n in Xor(x, y);
    }
  }

  lemma BitStepLinear(x: Word, y: Word)
    ensures BitStep(Xor(x, y)) == Xor(BitStep(x), BitStep(y))
  {
    ShiftRightXor(x, y, 1);
    assert Out(Xor(x, y)) == Xor(Out(x), Out(y));
    XorRegroup(ShiftRight(x, 1), ShiftRight(y, 1), Out(x), Out(y));
  }

  lemma {:induction false} BitStepsLinear(x: Word, y: Word, n: nat)
    ensures BitSteps(Xor(x, y), n) == Xor(BitSteps(x, n), BitSteps(y, n))
  {
    if n > 0 {
      BitStepsLinear(x, y, n - 1);
      BitStepLinear(BitSteps(x, n - 1), BitSteps(y, n - 1));
    }
  }

  /** Tables made bit by bit are linear with respect to exclusive or. */
  lemma TablesLinear(t: Tables)
    requires ByteTableOk(t)
    ensures Linear(t)
  {
    forall x: Byte, y: Byte
      ensures LinearAt(t, x, y)
    {
      assert EntryOk(t, x) && EntryOk(t, y) && EntryOk(t, XorByte(x, y));
      BitStepsLinear(x, y, 8);
    }
  }

  lemma XorRegroup(a: Word, b: Word, c: Word, d: Word)
    ensures Xor(Xor(a, b), Xor(c, d)) == Xor(Xor(a, c), Xor(b, d))
  {
  }

  lemma XorParts(x: Word, y: Word, b: Byte)
    ensures XorByte(Low(Xor(x, y)), b) == XorByte(XorByte(Low(x), b), XorByte(Low(y), ZERO))
    ensures ShiftRight(Xor(x, y), 8) == Xor(ShiftRight(x, 8), ShiftRight(y, 8))
  {
    ShiftRightXor(x, y, 8);
  }

  lemma StepLinear(t: Tables, x: Word, y: Word, b: Byte)
    requires Linear(t)
    ensures Step(t, Xor(x, y), b) == Xor(Step(t, x, b), Step(t, y, ZERO))
  {
    var u, v := XorByte(Low(x), b), XorByte(Low(y), ZERO);
    XorParts(x, y, b);
    assert LinearAt(t, u, v);
    XorRegroup(t.byteExtension(u), t.byteExtension(v), ShiftRight(x, 8), ShiftRight(y, 8));
  }

  lemma {:induction false} FeedConcat(t: Tables, l: Word, a: seq<Byte>, b: seq<Byte>)
    ensures Feed(t, l, a + b) == Feed(t, Feed(t, l, a), b)
  {
    if b == [] {
      assert a + b == a;
    } else {
      var rest := b[..|b| - 1];
      FeedConcat(t, l, a, rest);
      assert (a + b)[..|a + b| - 1] == a + rest;
    }
  }

  /** What is added to the state travels through the data on its own. */
  lemma {:induction false} Superpose(t: Tables, x: Word, y: Word, data: seq<Byte>)
    requires Linear(t)
    ensures Feed(t, Xor(x, y), data) == Xor(Feed(t, x, data), Advance(t, y, |data|))
  {
    if data != [] {
      var rest := data[..|data| - 1];
      Superpose(t, x, y, rest);
      assert Zeros(|data|)[..|data| - 1] == Zeros(|rest|);
      StepLinear(t, Feed(t, x, rest), Feed(t, y, Zeros(|rest|)), data[|data| - 1]);
    }
  }

  lemma AdvanceLinear(t: Tables, x: Word, y: Word, n: nat)
    requires Linear(t)
    ensures Advance(t, Xor(x, y), n) == Xor(Advance(t, x, n), Advance(t, y, n))
  {
    Superpose(t, x, y, Zeros(n));
  }

  lemma AdvanceTwice(t: Tables, l: Word, m: nat, n: nat)
    ensures Advance(t, Advance(t, l, m), n) == Advance(t, l, m + n)
  {
    FeedConcat(t, l, Zeros(m), Zeros(n));
    assert Zeros(m) + Zeros(n) == Zeros(m + n);
  }

  // ---------------------------------------------------------------- division

  // Bit i of a register is the coefficient of x^(31 - i).
  ghost function Mirror(l: Word): Polynomial {
    set i | i in l :: 31 - i
  }

  // All 32 bits the other way round
  ghost function Flip(l: Word): Word {
    set i: nat | i < 32 && i !in l
  }

  ghost function Reflect(b: Byte): Polynomial {
    set i | i in b :: 7 - i
  }

  // The bits of data as coefficients, the lowest bit of the first byte the highest
  ghost function DataPolynomial(data: seq<Byte>): Polynomial {
    if data == [] then {} else Sum(Up(DataPolynomial(data[..|data| - 1]), 8), Reflect(data[|data| - 1]))
  }

  /** r is the CRC32C of data going on from crc: the remainder of the message with 32 zero bits behind it and the
      complement of crc added to its first 32 bits, mirrored and complemented.  To start with, crc is 0. */
  ghost predicate IsCrc32c(crc: Word, data: seq<Byte>, r: Word) {
    IsRemainder(Sum(Up(DataPolynomial(data), 32), Up(Mirror(Flip(crc)), 8 * |data|)), Mirror(Flip(r)))
  }

  lemma MirrorBits(l: Word, i: int)
    ensures i in Mirror(l) <==> 0 <= i < 32 && 31 - i in l
  {
    assert 0 <= i < 32 && 31 - i in l ==> 31 - (31 - i) in Mirror(l);
  }

  lemma MirrorXor(a: Word, b: Word)
    ensures Mirror(Xor(a, b)) == Sum(Mirror(a), Mirror(b))
  {
    forall i
      ensures i in Mirror(Xor(a, b)) <==> i in Sum(Mirror(a), Mirror(b))
    {
      MirrorBits(Xor(a, b), i);
      MirrorBits(a, i);
      MirrorBits(b, i);
    }
  }

  lemma MirrorShift(l: Word)
    ensures Up(Mirror(l), 1) == Sum(Mirror(ShiftRight(l, 1)), if 0 in l then {32} else {})
  {
    forall i
      ensures i in Up(Mirror(l), 1) <==> i in Sum(Mirror(ShiftRight(l, 1)), if 0 in l then {32} else {})
    {
      UpBits(Mirror(l), 1, i);
      MirrorBits(l, i - 1);
      MirrorBits(ShiftRight(l, 1), i);
      assert 31 - i in ShiftRight(l, 1) <==> 0 <= 31 - i && 32 - i in l;
    }
  }

  lemma MirrorOut(l: Word)
    ensures Mirror(Out(l)) == Sum(if 0 in l then {32} else {}, Scaled(0 in l))
  {
    forall i
      ensures i in Mirror(REFLECTED) <==> i in GENERATOR && i != 32
    {
      MirrorBits(REFLECTED, i);
    }
  }

  // A bit step is a step of the division.
  lemma BitStepDivides(l: Word)
    ensures Mirror(BitStep(l)) == Sum(Up(Mirror(l), 1), Scaled(0 in l))
  {
    MirrorXor(ShiftRight(l, 1), Out(l));
    MirrorShift(l);
    MirrorOut(l);
  }

  lemma {:induction false} BitStepsDivide(l: Word, n: nat) returns (q: seq<bool>)
    ensures |q| == n && Mirror(BitSteps(l, n)) == Sum(Up(Mirror(l), n), Multiple(q))
  {
    q := [];
    if n == 0 {
      assert Up(Mirror(l), 0) == Mirror(l);
    } else {
      q := BitStepsDivide(l, n - 1);
      var low := 0 in BitSteps(l, n - 1);
      BitStepDivides(BitSteps(l, n - 1));
      UpSum(Up(Mirror(l), n - 1), Multiple(q), 1);
      UpUp(Mirror(l), n - 1, 1);
      assert (q + [low])[..n - 1] == q;
      SumAssociates(Up(Mirror(l), n), Up(Multiple(q), 1), Scaled(low));
      q := q + [low];
    }
  }

  // Bits above the n lowest are only shifted by n bit steps.
  lemma {:induction false} BitStepsShift(w: Word, n: nat)
    requires forall i :: i in w ==> n <= i
    ensures BitSteps(w, n) == ShiftRight(w, n)
  {
    if n == 0 {
      assert ShiftRight(w, 0) == w;
    } else {
      BitStepsShift(w, n - 1);
      var s := ShiftRight(w, n - 1);
      assert 0 !in s;
      forall i
        ensures i in ShiftRight(s, 1) <==> i in ShiftRight(w, n)
      {
        assert i in ShiftRight(s, 1) <==> 0 <= i && i + 1 in s;
        assert i + 1 in s <==> 0 <= i + 1 && i + n in w;
        assert i in ShiftRight(w, n) <==> 0 <= i && i + n in w;
      }
    }
  }

  // A byte step is eight bit steps.
  lemma StepIsBits(t: Tables, l: Word, b: Byte)
    requires ByteTableOk(t)
    ensures Step(t, l, b) == BitSteps(Xor(l, b), 8)
  {
    var low := XorByte(Low(l), b);
    var high: Word := set i | i in l && 8 <= i;
    assert Xor(l, b) == Xor(low, high);
    BitStepsLinear(low, high, 8);
    BitStepsShift(high, 8);
    assert EntryOk(t, low);
    forall i
      ensures i in ShiftRight(high, 8) <==> i in ShiftRight(l, 8)
    {
      assert i in ShiftRight(high, 8) <==> 0 <= i && i + 8 in high;
      assert i in ShiftRight(l, 8) <==> 0 <= i && i + 8 in l;
    }
  }

  lemma MirrorByte(b: Byte)
    ensures Up(Mirror(b), 8) == Up(Reflect(b), 32)
  {
    forall i
      ensures i in Up(Mirror(b), 8) <==> i in Up(Reflect(b), 32)
    {
      UpBits(Mirror(b), 8, i);
      UpBits(Reflect(b), 32, i);
      MirrorBits(b, i - 8);
      assert 39 - i in b ==> 7 - (39 - i) in Reflect(b);
    }
  }

  lemma StepDivides(t: Tables, l: Word, b: Byte) returns (q: seq<bool>)
    requires ByteTableOk(t)
    ensures |q| == 8 && Mirror(Step(t, l, b)) == Sum(Sum(Up(Mirror(l), 8), Up(Reflect(b), 32)), Multiple(q))
  {
    StepIsBits(t, l, b);
    q := BitStepsDivide(Xor(l, b), 8);
    MirrorXor(l, b);
    UpSum(Mirror(l), Mirror(b), 8);
    MirrorByte(b);
  }

  // Feeding data divides the message, in front of which the register stands.
  lemma {:induction false} FeedDivides(t: Tables, l: Word, data: seq<Byte>) returns (q: seq<bool>)
    requires ByteTableOk(t)
    ensures |q| == 8 * |data|
    ensures Mirror(Feed(t, l, data)) == Sum(Sum(Up(DataPolynomial(data), 32), Up(Mirror(l), 8 * |data|)), Multiple(q))
  {
    q := [];
    if data == [] {
      assert Up(Mirror(l), 0) == Mirror(l) && Up({}, 32) == {};
    } else {
      var rest, b := data[..|data| - 1], data[|data| - 1];
      q := FeedDivides(t, l, rest);
      var q8 := StepDivides(t, Feed(t, l, rest), b);
      MultipleConcat(q, q8);
      DivideOn(DataPolynomial(rest), Mirror(l), Multiple(q), Reflect(b), Multiple(q8), 8 * |rest|);
      q := q + q8;
    }
  }

  lemma DivideOn(d: Polynomial, m: Polynomial, q: Polynomial, b: Polynomial, q8: Polynomial, n: nat)
    ensures Sum(Sum(Up(Sum(Sum(Up(d, 32), Up(m, n)), q), 8), Up(b, 32)), q8)
            == Sum(Sum(Up(Sum(Up(d, 8), b), 32), Up(m, n + 8)), Sum(Up(q, 8), q8))
  {
    UpSum(Sum(Up(d, 32), Up(m, n)), q, 8);
    UpSum(Up(d, 32), Up(m, n), 8);
    UpUp(d, 32, 8);
    UpUp(m, n, 8);
    UpSum(Up(d, 8), b, 32);
    UpUp(d, 8, 32);
    SumShuffle(Up(d, 40), Up(m, n + 8), Up(q, 8), Up(b, 32), q8);
  }

  lemma SumShuffle(d: Polynomial, m: Polynomial, q: Polynomial, b: Polynomial, q8: Polynomial)
    ensures Sum(Sum(Sum(Sum(d, m), q), b), q8) == Sum(Sum(Sum(d, b), m), Sum(q, q8))
  {
  }

  /** Table by table, byte by byte: the remainder of the division, complemented before and after. */
  lemma CrcDivides(t: Tables, crc: Word, data: seq<Byte>)
    requires ByteTableOk(t)
    ensures IsCrc32c(crc, data, Crc(t, crc, data))
  {
    var l := Feed(t, Flip(crc), data);
    var q := FeedDivides(t, Flip(crc), data);
    assert Xor(crc, CRC_XOR) == Flip(crc);
    assert Flip(Xor(l, CRC_XOR)) == l;
    forall i | i in Mirror(l)
      ensures i < 32
    {
      MirrorBits(l, i);
    }
    var p := Sum(Up(DataPolynomial(data), 32), Up(Mirror(Flip(crc)), 8 * |data|));
    assert Sum(Multiple(q), Sum(p, Multiple(q))) == p;
    assert Differ(p, Mirror(l), q);
  }

  /** The division determines the CRC. */
  lemma CrcUnique(crc: Word, data: seq<Byte>, r: Word, s: Word)
    requires IsCrc32c(crc, data, r) && IsCrc32c(crc, data, s)
    ensures r == s
  {
    RemainderUnique(Sum(Up(DataPolynomial(data), 32), Up(Mirror(Flip(crc)), 8 * |data|)), Mirror(Flip(r)), Mirror(Flip(s)));
    forall i
      ensures i in r <==> i in s
    {
      MirrorBits(Flip(r), 31 - i);
      MirrorBits(Flip(s), 31 - i);
    }
  }

  // ---------------------------------------------------------------- words

  lemma {:induction false} JoinBits(d: seq<Byte>)
    requires |d| <= 4
    ensures forall i :: i in Join(d) ==> i < 8 * |d|
  {
    if d != [] {
      JoinBits(d[1..]);
    }
  }

  lemma JoinIsReadWord(d: seq<Byte>)
    requires |d| == 4
    ensures Join(d) == ReadWord(d)
  {
    var d1, d2, d3 := d[1..], d[2..], d[3..];
    assert d[1..][1..] == d2 && d2[1..] == d3 && d3[1..] == [];
    assert Join(d3) == d[3] && Join(d2) == d[2] + ShiftLeft(d[3], 8);
    ShiftTwice(d[3], 8, 8);
    ShiftTwice(d[3], 16, 8);
    ShiftTwice(d[2], 8, 8);
    ShiftUnion(d[2], ShiftLeft(d[3], 8), 8);
    ShiftUnion(d[1], Join(d2[..]), 8);
    ShiftUnion(ShiftLeft(d[2], 8), ShiftLeft(d[3], 16), 8);
  }

  lemma ShiftTwice(a: Word, m: nat, n: nat)
    ensures ShiftLeft(ShiftLeft(a, m), n) == ShiftLeft(a, m + n)
  {
    forall i
      ensures i in ShiftLeft(ShiftLeft(a, m), n) <==> i in ShiftLeft(a, m + n)
    {
      assert i in ShiftLeft(a, m + n) <==> 0 <= i - m - n && i - m - n in a && i < 32;
      assert i in ShiftLeft(ShiftLeft(a, m), n) <==> 0 <= i - n && i - n in ShiftLeft(a, m) && i < 32;
      assert i - n in ShiftLeft(a, m) <==> 0 <= i - n - m && i - n - m in a && i - n < 32;
    }
  }

  lemma ShiftUnion(a: Word, b: Word, n: nat)
    ensures ShiftLeft(a + b, n) == ShiftLeft(a, n) + ShiftLeft(b, n)
  {
    forall i
      ensures i in ShiftLeft(a + b, n) <==> i in ShiftLeft(a, n) || i in ShiftLeft(b, n)
    {
      assert i in ShiftLeft(a, n) <==> 0 <= i - n && i - n in a && i < 32;
      assert i in ShiftLeft(b, n) <==> 0 <= i - n && i - n in b && i < 32;
      assert i in ShiftLeft(a + b, n) <==> 0 <= i - n && i - n in a + b && i < 32;
    }
  }

  // A byte fed to the state, with the bytes above it waiting in the word
  lemma FeedLowByte(t: Tables, l: Word, b: Byte, above: Word)
    requires forall i :: i in above ==> i < 24
    ensures Step(t, Xor(l, b + ShiftLeft(above, 8)), ZERO) == Xor(Step(t, l, b), above)
  {
    var w: Word := b + ShiftLeft(above, 8);
    assert XorByte(Low(Xor(l, w)), ZERO) == XorByte(Low(l), b);
    forall i
      ensures i in ShiftRight(Xor(l, w), 8) <==> i in Xor(ShiftRight(l, 8), above)
    {
      assert i in ShiftRight(l, 8) <==> 0 <= i && i + 8 in l;
      assert i in ShiftRight(Xor(l, w), 8) <==> 0 <= i && i + 8 in Xor(l, w);
      assert 0 <= i ==> (i + 8 in ShiftLeft(above, 8) <==> i in above);
    }
    assert ShiftRight(Xor(l, w), 8) == Xor(ShiftRight(l, 8), above);
  }

  /** Up to four bytes can be added to the state at once and then advanced over. */
  lemma {:induction false} FeedWord(t: Tables, l: Word, d: seq<Byte>)
    requires Linear(t) && |d| <= 4
    ensures Feed(t, l, d) == Advance(t, Xor(l, Join(d)), |d|)
    decreases |d|
  {
    if d == [] {
      assert Xor(l, {}) == l;
    } else {
      var b, rest := d[0], d[1..];
      FeedConcat(t, l, [b], rest);
      assert d == [b] + rest && Feed(t, l, [b]) == Step(t, l, b) by { assert [b][..0] == []; }
      FeedWord(t, Step(t, l, b), rest);
      JoinBits(rest);
      FeedLowByte(t, l, b, Join(rest));
      var w := Xor(l, Join(d));
      FeedConcat(t, w, [ZERO], Zeros(|rest|));
      assert Zeros(|d|) == [ZERO] + Zeros(|rest|) && Feed(t, w, [ZERO]) == Step(t, w, ZERO) by { assert [ZERO][..0] == []; }
    }
  }

  // Four words fed one after the other: each is advanced over what follows it.
  lemma FeedSwath(t: Tables, l: Word, a: seq<Byte>, b: seq<Byte>, c: seq<Byte>, d: seq<Byte>)
    requires Linear(t) && |a| == |b| == |c| == |d| == 4
    ensures Feed(t, l, a + b + c + d) == Combine(t, Xor(ReadWord(a), l), ReadWord(b), ReadWord(c), ReadWord(d))
  {
    var x0, x1, x2, x3 := Xor(ReadWord(a), l), ReadWord(b), ReadWord(c), ReadWord(d);
    FeedConcat(t, l, a + b + c, d);
    FeedConcat(t, l, a + b, c);
    FeedConcat(t, l, a, b);
    FeedReadWord(t, l, a);
    assert Xor(l, ReadWord(a)) == x0;
    var s1 := Advance(t, x0, 4);
    FeedReadWord(t, s1, b);
    AdvanceLinear(t, s1, x1, 4);
    AdvanceTwice(t, x0, 4, 4);
    var s2 := Xor(Advance(t, x0, 8), Advance(t, x1, 4));
    FeedReadWord(t, s2, c);
    AdvanceLinear(t, s2, x2, 4);
    AdvanceLinear(t, Advance(t, x0, 8), Advance(t, x1, 4), 4);
    AdvanceTwice(t, x0, 8, 4);
    AdvanceTwice(t, x1, 4, 4);
    var s3 := Xor(Xor(Advance(t, x0, 12), Advance(t, x1, 8)), Advance(t, x2, 4));
    FeedReadWord(t, s3, d);
    AdvanceLinear(t, s3, x3, 4);
    AdvanceLinear(t, Xor(Advance(t, x0, 12), Advance(t, x1, 8)), Advance(t, x2, 4), 4);
    AdvanceLinear(t, Advance(t, x0, 12), Advance(t, x1, 8), 4);
    AdvanceTwice(t, x0, 12, 4);
    AdvanceTwice(t, x1, 8, 4);
    AdvanceTwice(t, x2, 4, 4);
  }

  lemma FeedReadWord(t: Tables, l: Word, d: seq<Byte>)
    requires Linear(t) && |d| == 4
    ensures Feed(t, l, d) == Advance(t, Xor(l, ReadWord(d)), 4)
  {
    FeedWord(t, l, d);
    JoinIsReadWord(d);
  }

  // ---------------------------------------------------------------- strides

  /** The state the four partial stride results stand for. */
  function Combine(t: Tables, c0: Word, c1: Word, c2: Word, c3: Word): Word {
    Xor(Xor(Xor(Advance(t, c0, 16), Advance(t, c1, 12)), Advance(t, c2, 8)), Advance(t, c3, 4))
  }

  // The table part of STEP4
  function Stride(t: Tables, c: Word): Word {
    Xor(Xor(Xor(t.stride3(Low(c)), t.stride2(Low(ShiftRight(c, 8)))), t.stride1(Low(ShiftRight(c, 16)))), t.stride0(Low(ShiftRight(c, 24))))
  }

  lemma Lanes(c: Word)
    ensures var b0, b1, b2, b3 := Low(c), Low(ShiftRight(c, 8)), Low(ShiftRight(c, 16)), Low(ShiftRight(c, 24));
            c == Xor(Xor(Xor(b0, ShiftLeft(b1, 8)), ShiftLeft(b2, 16)), ShiftLeft(b3, 24))
  {
    forall n: nat, i | n in {8, 16, 24}
      ensures i in ShiftLeft(Low(ShiftRight(c, n)), n) <==> n <= i < n + 8 && i in c
    {
      LaneBits(c, n, i);
    }
    var l1, l2, l3 := ShiftLeft(Low(ShiftRight(c, 8)), 8), ShiftLeft(Low(ShiftRight(c, 16)), 16), ShiftLeft(Low(ShiftRight(c, 24)), 24);
    forall i
      ensures i in c <==> i in Xor(Xor(Xor(Low(c), l1), l2), l3)
    {
    }
  }

  lemma LaneBits(c: Word, n: nat, i: int)
    requires n <= 24
    ensures i in ShiftLeft(Low(ShiftRight(c, n)), n) <==> n <= i < n + 8 && i in c
  {
    assert i in ShiftLeft(Low(ShiftRight(c, n)), n) <==> 0 <= i - n && i - n in Low(ShiftRight(c, n)) && i < 32;
    assert i - n in ShiftRight(c, n) <==> 0 <= i - n && i in c;
  }

  lemma StrideAdvances(t: Tables, c: Word)
    requires TablesOk(t)
    ensures Stride(t, c) == Advance(t, c, 16)
  {
    TablesLinear(t);
    var b0, b1, b2, b3 := Low(c), Low(ShiftRight(c, 8)), Low(ShiftRight(c, 16)), Low(ShiftRight(c, 24));
    var x1, x2, x3 := ShiftLeft(b1, 8), ShiftLeft(b2, 16), ShiftLeft(b3, 24);
    Lanes(c);
    AdvanceLinear(t, Xor(Xor(b0, x1), x2), x3, 16);
    AdvanceLinear(t, Xor(b0, x1), x2, 16);
    AdvanceLinear(t, b0, x1, 16);
  }

  lemma SwathWords(t: Tables, c0: Word, c1: Word, c2: Word, c3: Word, w0: Word, w1: Word, w2: Word, w3: Word)
    requires Linear(t)
    ensures Combine(t, Xor(w0, Combine(t, c0, c1, c2, c3)), w1, w2, w3)
            == Combine(t, Xor(w0, Advance(t, c0, 16)), Xor(w1, Advance(t, c1, 16)), Xor(w2, Advance(t, c2, 16)), Xor(w3, Advance(t, c3, 16)))
  {
    AdvanceLinear(t, w0, Combine(t, c0, c1, c2, c3), 16);
    AdvanceCombined(t, c0, c1, c2, c3, 16);
    LaneSplit(t, w0, c0, 16);
    LaneSplit(t, w1, c1, 12);
    LaneSplit(t, w2, c2, 8);
    LaneSplit(t, w3, c3, 4);
    Shuffle(Advance(t, w0, 16), Advance(t, w1, 12), Advance(t, w2, 8), Advance(t, w3, 4),
            Advance(t, c0, 32), Advance(t, c1, 28), Advance(t, c2, 24), Advance(t, c3, 20));
  }

  lemma LaneSplit(t: Tables, w: Word, c: Word, n: nat)
    requires Linear(t)
    ensures Advance(t, Xor(w, Advance(t, c, 16)), n) == Xor(Advance(t, w, n), Advance(t, c, n + 16))
  {
    AdvanceLinear(t, w, Advance(t, c, 16), n);
    AdvanceTwice(t, c, 16, n);
  }

  lemma AdvanceCombined(t: Tables, c0: Word, c1: Word, c2: Word, c3: Word, n: nat)
    requires Linear(t)
    ensures Advance(t, Combine(t, c0, c1, c2, c3), n)
            == Xor(Xor(Xor(Advance(t, c0, 16 + n), Advance(t, c1, 12 + n)), Advance(t, c2, 8 + n)), Advance(t, c3, 4 + n))
  {
    var x0, x1, x2, x3 := Advance(t, c0, 16), Advance(t, c1, 12), Advance(t, c2, 8), Advance(t, c3, 4);
    AdvanceLinear(t, Xor(Xor(x0, x1), x2), x3, n);
    AdvanceLinear(t, Xor(x0, x1), x2, n);
    AdvanceLinear(t, x0, x1, n);
    AdvanceTwice(t, c0, 16, n);
    AdvanceTwice(t, c1, 12, n);
    AdvanceTwice(t, c2, 8, n);
    AdvanceTwice(t, c3, 4, n);
  }

  lemma Shuffle(a: Word, b: Word, c: Word, d: Word, p: Word, q: Word, r: Word, s: Word)
    ensures Xor(Xor(Xor(Xor(a, Xor(Xor(Xor(p, q), r), s)), b), c), d)
            == Xor(Xor(Xor(Xor(a, p), Xor(b, q)), Xor(c, r)), Xor(d, s))
  {
  }

  // One word more, and the strides change places.
  lemma WordStep(t: Tables, c0: Word, c1: Word, c2: Word, c3: Word, d: seq<Byte>)
    requires TablesOk(t) && |d| == 4
    ensures Feed(t, Combine(t, c0, c1, c2, c3), d) == Combine(t, c1, c2, c3, Xor(ReadWord(d), Advance(t, c0, 16)))
  {
    TablesLinear(t);
    var l, w := Combine(t, c0, c1, c2, c3), ReadWord(d);
    FeedReadWord(t, l, d);
    AdvanceLinear(t, l, w, 4);
    AdvanceCombined(t, c0, c1, c2, c3, 4);
    LaneSplit(t, w, c0, 4);
    Rotate(Advance(t, c0, 20), Advance(t, c1, 16), Advance(t, c2, 12), Advance(t, c3, 8), Advance(t, w, 4));
  }

  lemma Rotate(a: Word, b: Word, c: Word, d: Word, w: Word)
    ensures Xor(Xor(Xor(Xor(a, b), c), d), w) == Xor(Xor(Xor(b, c), d), Xor(w, a))
  {
  }

  // STEP4W
  method AdvanceWord(t: Tables, l: Word, word: Word) returns (l': Word)
    ensures l' == Advance(t, Xor(word, l), 4)
  {
    var w := Xor(word, l);
    for i := 0 to 4
      invariant w == Advance(t, Xor(word, l), i)
    {
      assert Zeros(i + 1)[..i] == Zeros(i);
      assert XorByte(Low(w), ZERO) == Low(w);
      w := Xor(ShiftRight(w, 8), t.byteExtension(Low(w)));
      assert w == Xor(t.byteExtension(Low(Advance(t, Xor(word, l), i))), ShiftRight(Advance(t, Xor(word, l), i), 8));
    }
    l' := w;
  }

  lemma CombineByWords(t: Tables, c0: Word, c1: Word, c2: Word, c3: Word)
    requires Linear(t)
    ensures var l1 := Advance(t, Xor(c0, {}), 4);
            var l2 := Advance(t, Xor(c1, l1), 4);
            var l3 := Advance(t, Xor(c2, l2), 4);
            Advance(t, Xor(c3, l3), 4) == Combine(t, c0, c1, c2, c3)
  {
    assert Xor(c0, {}) == c0;
    var l1 := Advance(t, c0, 4);
    AdvanceLinear(t, c1, l1, 4);
    AdvanceTwice(t, c0, 4, 4);
    var l2 := Xor(Advance(t, c1, 4), Advance(t, c0, 8));
    AdvanceLinear(t, c2, l2, 4);
    AdvanceLinear(t, Advance(t, c1, 4), Advance(t, c0, 8), 4);
    AdvanceTwice(t, c0, 8, 4);
    AdvanceTwice(t, c1, 4, 4);
    var l3 := Xor(Advance(t, c2, 4), Xor(Advance(t, c1, 8), Advance(t, c0, 12)));
    AdvanceLinear(t, c3, l3, 4);
    AdvanceLinear(t, Advance(t, c2, 4), Xor(Advance(t, c1, 8), Advance(t, c0, 12)), 4);
    AdvanceLinear(t, Advance(t, c1, 8), Advance(t, c0, 12), 4);
    AdvanceTwice(t, c0, 12, 4);
    AdvanceTwice(t, c1, 8, 4);
    AdvanceTwice(t, c2, 4, 4);
    Reverse(Advance(t, c0, 16), Advance(t, c1, 12), Advance(t, c2, 8), Advance(t, c3, 4));
  }

  lemma Reverse(a: Word, b: Word, c: Word, d: Word)
    ensures Xor(d, Xor(c, Xor(b, a))) == Xor(Xor(Xor(a, b), c), d)
  {
  }

  /** The strided computation gives the byte-at-a-time CRC, wherever in memory the data begins. */
  method Extend(t: Tables, crc: Word, data: seq<Byte>, address: nat) returns (r: Word)
    requires TablesOk(t)
    ensures r == Crc(t, crc, data) && IsCrc32c(crc, data, r)
  {
    var l := Xor(crc, CRC_XOR);
    ghost var start := l;
    var p := 0;
    var aligned := (4 - address % 4) % 4;
    if aligned <= |data| {
      while p != aligned
        invariant p <= aligned && l == Feed(t, start, data[..p])
      {
        FeedNext(t, start, data, p);
        l := Step(t, l, data[p]);
        p := p + 1;
      }
    }
    if |data| - p >= 16 {
      l, p := Strides(t, start, data, l, p);
    }
    while p != |data|
      invariant p <= |data| && l == Feed(t, start, data[..p])
    {
      FeedNext(t, start, data, p);
      l := Step(t, l, data[p]);
      p := p + 1;
    }
    assert data[..|data|] == data;
    r := Xor(l, CRC_XOR);
    CrcDivides(t, crc, data);
  }

  lemma FeedNext(t: Tables, start: Word, data: seq<Byte>, p: nat)
    requires p < |data|
    ensures Feed(t, start, data[..p + 1]) == Step(t, Feed(t, start, data[..p]), data[p])
  {
    assert data[..p + 1][..p] == data[..p];
  }

  lemma FeedMore(t: Tables, start: Word, data: seq<Byte>, p: nat, n: nat)
    requires p + n <= |data|
    ensures Feed(t, start, data[..p + n]) == Feed(t, Feed(t, start, data[..p]), data[p..p + n])
  {
    FeedConcat(t, start, data[..p], data[p..p + n]);
    assert data[..p] + data[p..p + n] == data[..p + n];
  }

  // Loads the first sixteen-byte swath into the strides.
  method Load(t: Tables, data: seq<Byte>, p: nat, l: Word) returns (crc0: Word, crc1: Word, crc2: Word, crc3: Word)
    requires Linear(t) && p + 16 <= |data|
    ensures Combine(t, crc0, crc1, crc2, crc3) == Feed(t, l, data[p..p + 16])
  {
    crc0 := Xor(ReadWord(data[p..p + 4]), l);
    crc1 := ReadWord(data[p + 4..p + 8]);
    crc2 := ReadWord(data[p + 8..p + 12]);
    crc3 := ReadWord(data[p + 12..p + 16]);
    Swath(data, p);
    FeedSwath(t, l, data[p..p + 4], data[p + 4..p + 8], data[p + 8..p + 12], data[p + 12..p + 16]);
  }

  // STEP4
  method TakeWord(t: Tables, data: seq<Byte>, p: nat, crc: Word) returns (crc': Word)
    requires TablesOk(t) && p + 4 <= |data|
    ensures crc' == Xor(ReadWord(data[p..p + 4]), Advance(t, crc, 16))
  {
    StrideAdvances(t, crc);
    crc' := Xor(ReadWord(data[p..p + 4]), Stride(t, crc));
  }

  // STEP16: four strides take up the next sixteen bytes.
  method TakeSwath(t: Tables, data: seq<Byte>, p: nat, c0: Word, c1: Word, c2: Word, c3: Word)
    returns (crc0: Word, crc1: Word, crc2: Word, crc3: Word)
    requires TablesOk(t) && p + 16 <= |data|
    ensures Combine(t, crc0, crc1, crc2, crc3) == Feed(t, Combine(t, c0, c1, c2, c3), data[p..p + 16])
  {
    TablesLinear(t);
    crc0 := TakeWord(t, data, p, c0);
    crc1 := TakeWord(t, data, p + 4, c1);
    crc2 := TakeWord(t, data, p + 8, c2);
    crc3 := TakeWord(t, data, p + 12, c3);
    Swath(data, p);
    SwathFeeds(t, c0, c1, c2, c3, data[p..p + 4], data[p + 4..p + 8], data[p + 8..p + 12], data[p + 12..p + 16]);
  }

  lemma SwathFeeds(t: Tables, c0: Word, c1: Word, c2: Word, c3: Word, a: seq<Byte>, b: seq<Byte>, c: seq<Byte>, d: seq<Byte>)
    requires Linear(t) && |a| == |b| == |c| == |d| == 4
    ensures Feed(t, Combine(t, c0, c1, c2, c3), a + b + c + d)
            == Combine(t, Xor(ReadWord(a), Advance(t, c0, 16)), Xor(ReadWord(b), Advance(t, c1, 16)),
                       Xor(ReadWord(c), Advance(t, c2, 16)), Xor(ReadWord(d), Advance(t, c3, 16)))
  {
    FeedSwath(t, Combine(t, c0, c1, c2, c3), a, b, c, d);
    SwathWords(t, c0, c1, c2, c3, ReadWord(a), ReadWord(b), ReadWord(c), ReadWord(d));
  }

  // Whether the strides stand for the state after the first p bytes
  predicate At(t: Tables, start: Word, data: seq<Byte>, p: nat, crc: (Word, Word, Word, Word)) {
    p <= |data| && Combine(t, crc.0, crc.1, crc.2, crc.3) == Feed(t, start, data[..p])
  }

  lemma AtNext(t: Tables, start: Word, data: seq<Byte>, p: nat, n: nat, crc: (Word, Word, Word, Word), crc': (Word, Word, Word, Word))
    requires At(t, start, data, p, crc) && p + n <= |data|
    requires Combine(t, crc'.0, crc'.1, crc'.2, crc'.3) == Feed(t, Combine(t, crc.0, crc.1, crc.2, crc.3), data[p..p + n])
    ensures At(t, start, data, p + n, crc')
  {
    FeedMore(t, start, data, p, n);
  }

  // One swath at a time
  method TakeSwaths(t: Tables, ghost start: Word, data: seq<Byte>, p0: nat, crc0: (Word, Word, Word, Word))
    returns (crc: (Word, Word, Word, Word), p: nat)
    requires TablesOk(t) && At(t, start, data, p0, crc0)
    ensures p0 <= p && |data| - p < 16 && At(t, start, data, p, crc)
    decreases |data| - p0
  {
    p, crc := p0, crc0;
    while |data| - p >= 16
      invariant p0 <= p && At(t, start, data, p, crc)
    {
      var c0, c1, c2, c3 := TakeSwath(t, data, p, crc.0, crc.1, crc.2, crc.3);
      AtNext(t, start, data, p, 16, crc, (c0, c1, c2, c3));
      crc := (c0, c1, c2, c3);
      p := p + 16;
    }
  }

  // One word at a time
  method RotateWords(t: Tables, ghost start: Word, data: seq<Byte>, p0: nat, crc0: (Word, Word, Word, Word))
    returns (crc: (Word, Word, Word, Word), p: nat)
    requires TablesOk(t) && At(t, start, data, p0, crc0)
    ensures p0 <= p && |data| - p < 4 && At(t, start, data, p, crc)
  {
    p, crc := p0, crc0;
    while |data| - p >= 4
      invariant p0 <= p && At(t, start, data, p, crc)
    {
      var c0, c1, c2, c3 := RotateWord(t, data, p, crc.0, crc.1, crc.2, crc.3);
      AtNext(t, start, data, p, 4, crc, (c0, c1, c2, c3));
      crc := (c0, c1, c2, c3);
      p := p + 4;
    }
  }

  // The part of Extend that works on four strides at a time
  method Strides(t: Tables, ghost start: Word, data: seq<Byte>, l0: Word, p0: nat) returns (l: Word, p: nat)
    requires TablesOk(t) && p0 + 16 <= |data| && l0 == Feed(t, start, data[..p0])
    ensures p0 <= p <= |data| && l == Feed(t, start, data[..p])
  {
    TablesLinear(t);
    var c0, c1, c2, c3 := Load(t, data, p0, l0);
    FeedMore(t, start, data, p0, 16);
    var crc;
    crc, p := TakeSwaths(t, start, data, p0 + 16, (c0, c1, c2, c3));
    crc, p := RotateWords(t, start, data, p, crc);
    l := CombineStrides(t, crc.0, crc.1, crc.2, crc.3);
  }

  method CombineStrides(t: Tables, crc0: Word, crc1: Word, crc2: Word, crc3: Word) returns (l: Word)
    requires Linear(t)
    ensures l == Combine(t, crc0, crc1, crc2, crc3)
  {
    CombineByWords(t, crc0, crc1, crc2, crc3);
    l := AdvanceWord(t, {}, crc0);
    l := AdvanceWord(t, l, crc1);
    l := AdvanceWord(t, l, crc2);
    l := AdvanceWord(t, l, crc3);
  }

  // One word, after which the strides change places
  method RotateWord(t: Tables, data: seq<Byte>, p: nat, c0: Word, c1: Word, c2: Word, c3: Word)
    returns (crc0: Word, crc1: Word, crc2: Word, crc3: Word)
    requires TablesOk(t) && p + 4 <= |data|
    ensures Combine(t, crc0, crc1, crc2, crc3) == Feed(t, Combine(t, c0, c1, c2, c3), data[p..p + 4])
  {
    WordStep(t, c0, c1, c2, c3, data[p..p + 4]);
    crc0 := TakeWord(t, data, p, c0);
    crc0, crc1, crc2, crc3 := c1, c2, c3, crc0;
  }

  lemma Swath(data: seq<Byte>, p: nat)
    requires p + 16 <= |data|
    ensures data[p..p + 16] == data[p..p + 4] + data[p + 4..p + 8] + data[p + 8..p + 12] + data[p + 12..p + 16]
  {
  }

  /** Extending the CRC of one string over another gives the CRC of both. */
  lemma ExtendComposes(t: Tables, crc: Word, a: seq<Byte>, b: seq<Byte>)
    ensures Crc(t, Crc(t, crc, a), b) == Crc(t, crc, a + b)
  {
    var l := Feed(t, Xor(crc, CRC_XOR), a);
    assert Xor(Xor(l, CRC_XOR), CRC_XOR) == l;
    FeedConcat(t, Xor(crc, CRC_XOR), a, b);
  }
}
