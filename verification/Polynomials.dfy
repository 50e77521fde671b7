/** Polynomials over the field of two elements and their remainders modulo the generator of CRC32C, as section
    12.1 of RFC 3720 defines them.  A polynomial is the set of its exponents, so that addition is symmetric
    difference. */
module Polynomials {
  type Polynomial = set<nat>

  // x^32 + x^28 + x^27 + x^26 + x^25 + x^23 + x^22 + x^20 + x^19 + x^18 + x^14 + x^13 + x^11 + x^10 + x^9 + x^8 + x^6 + 1
  const GENERATOR: Polynomial := {32, 28, 27, 26, 25, 23, 22, 20, 19, 18, 14, 13, 11, 10, 9, 8, 6, 0}

  ghost function Sum(p: Polynomial, q: Polynomial): Polynomial {
    (p - q) + (q - p)
  }

  // p times x^n
  ghost function Up(p: Polynomial, n: nat): Polynomial {
    set i | i in p :: i + n
  }

  // The generator times the polynomial with these coefficients, the highest first
  ghost function Multiple(q: seq<bool>): Polynomial {
    if q == [] then {} else Sum(Up(Multiple(q[..|q| - 1]), 1), Scaled(q[|q| - 1]))
  }

  ghost function Scaled(b: bool): Polynomial {
    if b then GENERATOR else {}
  }

  ghost predicate DegreeBelow(p: Polynomial, n: nat) {
    forall i :: i in p ==> i < n
  }

  ghost predicate Differ(p: Polynomial, r: Polynomial, q: seq<bool>) {
    p == Sum(Multiple(q), r)
  }

  /** r is what is left of p after division by the generator. */
  ghost predicate IsRemainder(p: Polynomial, r: Polynomial) {
    DegreeBelow(r, 32) && exists q :: Differ(p, r, q)
  }

  lemma UpBits(p: Polynomial, n: nat, i: int)
    ensures i in Up(p, n) <==> i - n >= 0 && i - n in p
  {
  }

  lemma UpSum(p: Polynomial, q: Polynomial, n: nat)
    ensures Up(Sum(p, q), n) == Sum(Up(p, n), Up(q, n))
  {
    forall i
      ensures i in Up(Sum(p, q), n) <==> i in Sum(Up(p, n), Up(q, n))
    {
      UpBits(Sum(p, q), n, i);
      UpBits(p, n, i);
      UpBits(q, n, i);
    }
  }

  lemma UpUp(p: Polynomial, m: nat, n: nat)
    ensures Up(Up(p, m), n) == Up(p, m + n)
  {
    forall i
      ensures i in Up(Up(p, m), n) <==> i in Up(p, m + n)
    {
      UpBits(Up(p, m), n, i);
      UpBits(p, m, i - n);
      UpBits(p, m + n, i);
    }
  }

  lemma SumRegroup(a: Polynomial, b: Polynomial, c: Polynomial, d: Polynomial)
    ensures Sum(Sum(a, b), Sum(c, d)) == Sum(Sum(a, c), Sum(b, d))
  {
  }

  lemma SumAssociates(a: Polynomial, b: Polynomial, c: Polynomial)
    ensures Sum(Sum(a, b), c) == Sum(a, Sum(b, c))
  {
  }

  // Dividing on: the quotient goes on from the remainder.
  lemma {:induction false} MultipleConcat(a: seq<bool>, b: seq<bool>)
    ensures Multiple(a + b) == Sum(Up(Multiple(a), |b|), Multiple(b))
  {
    if b == [] {
      assert a + b == a;
    } else {
      var rest, last := b[..|b| - 1], b[|b| - 1];
      MultipleConcat(a, rest);
      assert (a + b)[..|a + b| - 1] == a + rest;
      UpSum(Up(Multiple(a), |rest|), Multiple(rest), 1);
      UpUp(Multiple(a), |rest|, 1);
      SumAssociates(Up(Multiple(a), |b|), Up(Multiple(rest), 1), Scaled(last));
    }
  }

  // ---------------------------------------------------------------- the remainder is unique

  ghost function Zipped(a: seq<bool>, b: seq<bool>): seq<bool>
    requires |a| == |b|
  {
    seq(|a|, i requires 0 <= i < |a| => a[i] != b[i])
  }

  lemma {:induction false} MultipleSum(a: seq<bool>, b: seq<bool>)
    requires |a| == |b|
    ensures Multiple(Zipped(a, b)) == Sum(Multiple(a), Multiple(b))
  {
    if a != [] {
      var n := |a| - 1;
      MultipleSum(a[..n], b[..n]);
      assert Zipped(a, b)[..n] == Zipped(a[..n], b[..n]);
      UpSum(Multiple(a[..n]), Multiple(b[..n]), 1);
      SumRegroup(Up(Multiple(a[..n]), 1), Up(Multiple(b[..n]), 1), Scaled(a[n]), Scaled(b[n]));
      assert Scaled(a[n] != b[n]) == Sum(Scaled(a[n]), Scaled(b[n]));
    }
  }

  // Leading zeros do not matter.
  lemma {:induction false} Padded(q: seq<bool>, n: nat)
    ensures Multiple(seq(n, _ => false) + q) == Multiple(q)
  {
    var zeros := seq(n, _ => false);
    ZeroMultiple(n);
    MultipleConcat(zeros, q);
  }

  lemma {:induction false} ZeroMultiple(n: nat)
    ensures Multiple(seq(n, _ => false)) == {}
  {
    if n > 0 {
      ZeroMultiple(n - 1);
      assert seq(n, _ => false)[..n - 1] == seq(n - 1, _ => false);
    }
  }

  // A multiple of the generator has at least its degree, or is zero.
  lemma {:induction false} LeadingTerm(q: seq<bool>)
    requires q != [] && q[0]
    ensures 31 + |q| in Multiple(q) && DegreeBelow(Multiple(q), 32 + |q|)
  {
    if |q| > 1 {
      var rest := q[..|q| - 1];
      LeadingTerm(rest);
      LeadingNext(Multiple(rest), 31 + |rest|, q[|q| - 1]);
    } else {
      assert q[..0] == [];
      assert Up(Multiple(q[..0]), 1) == {};
    }
  }

  lemma LeadingNext(p: Polynomial, n: nat, b: bool)
    requires n >= 32 && n in p && DegreeBelow(p, n + 1)
    ensures n + 1 in Sum(Up(p, 1), Scaled(b)) && DegreeBelow(Sum(Up(p, 1), Scaled(b)), n + 2)
  {
    ScaledDegree(b);
    UpBits(p, 1, n + 1);
    forall i | i in Sum(Up(p, 1), Scaled(b))
      ensures i < n + 2
    {
      UpBits(p, 1, i);
    }
  }

  lemma ScaledDegree(b: bool)
    ensures DegreeBelow(Scaled(b), 33)
  {
  }

  lemma {:induction false} SmallMultiple(q: seq<bool>)
    requires DegreeBelow(Multiple(q), 32)
    ensures Multiple(q) == {}
  {
    if q != [] {
      if q[0] {
        LeadingTerm(q);
      } else {
        assert q == seq(1, _ => false) + q[1..];
        Padded(q[1..], 1);
        SmallMultiple(q[1..]);
      }
    }
  }

  lemma SameLength(a: seq<bool>, b: seq<bool>) returns (a': seq<bool>, b': seq<bool>)
    ensures |a'| == |b'| && Multiple(a') == Multiple(a) && Multiple(b') == Multiple(b)
  {
    a', b' := seq(|b|, _ => false) + a, seq(|a|, _ => false) + b;
    Padded(a, |b|);
    Padded(b, |a|);
  }

  /** Division leaves one remainder. */
  lemma RemainderUnique(p: Polynomial, r: Polynomial, s: Polynomial)
    requires IsRemainder(p, r) && IsRemainder(p, s)
    ensures r == s
  {
    var a :| Differ(p, r, a);
    var b :| Differ(p, s, b);
    var a', b' := SameLength(a, b);
    MultipleSum(a', b');
    assert Sum(Multiple(a), Multiple(b)) == Sum(r, s) by {
      assert Sum(Sum(Multiple(a), r), Sum(Multiple(b), s)) == {};
      SumRegroup(Multiple(a), r, Multiple(b), s);
      SumRegroup(Multiple(a), Multiple(b), r, s);
    }
    SmallMultiple(Zipped(a', b'));
  }
}
