/** Comparing floating-point numbers up to a few units in the last place, on their
    bit patterns, at any width (opentrep/basic/float_utils_google.hpp). */
module FloatCompare {
  import opened Basics

  /** A sign bit, then the exponent bits, then the fraction bits. */
  datatype Format = Format(exponentBits: nat, fractionBits: nat) {

    /** The mask of the sign bit; a bit pattern is a number below its double. */
    function SignBit(): (r: nat)
      ensures r > 0
    {
      SignMask(exponentBits, fractionBits)
    }

    predicate IsBits(b: int) {
      0 <= b < 2 * SignBit()
    }

    /** The exponent and the fraction bits. */
    function Magnitude(b: nat): nat {
      if b >= SignBit() then b - SignBit() else b
    }

    /** All the exponent bits are set, and some fraction bit is. */
    predicate IsNan(b: nat) {
      Magnitude(b) / Pow2(fractionBits) == Pow2(exponentBits) - 1 && Magnitude(b) % Pow2(fractionBits) != 0
    }

    /** The two's complement of a negative number, the sign bit set on a positive one. */
    function Biased(b: nat): nat
      requires IsBits(b)
    {
      if b >= SignBit() then Incremented(2 * SignBit() - 1 - b) else SignBit() + b
    }

    function Incremented(x: nat): nat {
      if x == 2 * SignBit() - 1 then 0 else x + 1
    }

    function Distance(a: nat, b: nat): nat
      requires IsBits(a) && IsBits(b)
    {
      if Biased(a) >= Biased(b) then Biased(a) - Biased(b) else Biased(b) - Biased(a)
    }

    predicate AlmostEquals(a: nat, b: nat)
      requires IsBits(a) && IsBits(b)
    {
      !IsNan(a) && !IsNan(b) && Distance(a, b) <= MAX_ULPS
    }

    // -------------------------------------------------------------------
    // The numbers that the patterns stand for

    /** The magnitude as a multiple of the smallest positive number: a zero
        exponent has no implicit leading bit, and infinity is what comes next. */
    function Scaled(e: int, f: int): int {
      if e <= 0 then f else (Pow2(fractionBits) + f) * Pow2(e - 1)
    }

    function Size(m: nat): int {
      Scaled(m / Pow2(fractionBits), m % Pow2(fractionBits))
    }

    function Value(b: nat): int
      requires IsBits(b)
    {
      if b >= SignBit() then 0 - Size(Magnitude(b)) else Size(Magnitude(b))
    }
  }

  const MAX_ULPS := 4

  /** The bit above the exponent and the fraction. */
  function SignMask(exponentBits: nat, fractionBits: nat): (r: nat)
    ensures r > 0
  {
    Pow2(exponentBits + fractionBits)
  }

  lemma SmallMultiple(d: int, p: int)
    requires -p < d * p < p
    ensures d == 0
  {
  }

  lemma Decompose(m: nat, p: int, e: int, f: nat)
    requires p > 0 && f < p && m == e * p + f
    ensures m / p == e && m % p == f
  {
    var d := m / p - e;
    assert d * p == f - m % p;
    assert -p < d * p < p;
    SmallMultiple(d, p);
  }

  lemma NextScaled(t: Format, e: nat, f: nat)
    requires f < Pow2(t.fractionBits)
    ensures f + 1 < Pow2(t.fractionBits) ==> t.Scaled(e, f) < t.Scaled(e, f + 1)
    ensures f + 1 == Pow2(t.fractionBits) ==> t.Scaled(e, f) < t.Scaled(e + 1, 0)
  {
    if e > 0 {
      var p, q := Pow2(t.fractionBits), Pow2(e - 1);
      assert (p + (f + 1)) * q == (p + f) * q + q;
      assert Pow2(e) == 2 * q;
      assert p * (2 * q) == (p + p) * q;
    }
  }

  lemma NextSize(t: Format, m: nat)
    ensures t.Size(m) < t.Size(m + 1)
  {
    hide Format.Scaled;
    hide Pow2;
    var p := Pow2(t.fractionBits);
    var e, f := m / p, m % p;
    assert m == e * p + f;
    NextScaled(t, e, f);
    if f + 1 < p {
      Decompose(m + 1, p, e, f + 1);
    } else {
      assert (e + 1) * p == e * p + p;
      Decompose(m + 1, p, e + 1, 0);
    }
  }

  lemma {:induction false} SizeIsMonotone(t: Format, m: nat, n: nat)
    requires m < n
    ensures t.Size(m) < t.Size(n)
    decreases n - m
  {
    hide Format.Size;
    NextSize(t, m);
    if m + 1 < n {
      SizeIsMonotone(t, m + 1, n);
    }
  }

  lemma ZeroIsZero(t: Format)
    ensures t.Size(0) == 0 && t.IsBits(0) && t.Value(0) == 0 && t.Magnitude(0) == 0
  {
    Decompose(0, Pow2(t.fractionBits), 0, 0);
  }

  lemma BiasedIs(t: Format, b: nat)
    requires t.IsBits(b)
    ensures t.Biased(b) == if b >= t.SignBit() then t.SignBit() - t.Magnitude(b) else t.SignBit() + t.Magnitude(b)
  {
    hide Format.SignBit;
  }

  /** The biased patterns are in the order of the numbers; both zeros coincide. The
      order goes on through the NaNs, which stand for no number. */
  lemma BiasedKeepsTheOrder(t: Format, a: nat, b: nat)
    requires t.IsBits(a) && t.IsBits(b)
    ensures t.Biased(a) < t.Biased(b) <==> t.Value(a) < t.Value(b)
    ensures t.Biased(a) == t.Biased(b) <==> t.Value(a) == t.Value(b)
  {
    ZeroIsZero(t);
    BiasedIs(t, a);
    BiasedIs(t, b);
    var m, n := t.Magnitude(a), t.Magnitude(b);
    hide Format.Size;
    hide Format.Biased;
    hide Format.SignBit;
    if m < n {
      SizeIsMonotone(t, m, n);
    } else if n < m {
      SizeIsMonotone(t, n, m);
    }
    if 0 < m {
      SizeIsMonotone(t, 0, m);
    }
    if 0 < n {
      SizeIsMonotone(t, 0, n);
    }
  }

  /** The distance fits in the bits of a pattern, and is a pseudo-metric: it tells
      any two patterns apart, but the two zeros. */
  lemma DistanceIsAPseudoMetric(t: Format, a: nat, b: nat, c: nat)
    requires t.IsBits(a) && t.IsBits(b) && t.IsBits(c)
    ensures t.IsBits(t.Distance(a, b)) && t.Distance(a, b) == t.Distance(b, a)
    ensures t.Distance(a, c) <= t.Distance(a, b) + t.Distance(b, c)
    ensures t.Distance(a, b) == 0 <==> a == b || (a == 0 && b == t.SignBit()) || (b == 0 && a == t.SignBit())
  {
    hide Format.SignBit;
  }

  /** Almost equal is reflexive but on NaNs, symmetric, and closed under what lies between. */
  lemma AlmostEqualsIsConvex(t: Format, a: nat, b: nat, c: nat)
    requires t.IsBits(a) && t.IsBits(b) && t.IsBits(c)
    ensures t.AlmostEquals(a, a) <==> !t.IsNan(a)
    ensures t.AlmostEquals(a, b) <==> t.AlmostEquals(b, a)
    ensures t.AlmostEquals(a, b) && !t.IsNan(c) && t.Value(a) <= t.Value(c) <= t.Value(b) ==> t.AlmostEquals(a, c)
  {
    hide Format.Biased;
    hide Format.IsNan;
    hide Format.Value;
    if t.AlmostEquals(a, b) && !t.IsNan(c) && t.Value(a) <= t.Value(c) <= t.Value(b) {
      BiasedKeepsTheOrder(t, a, c);
      BiasedKeepsTheOrder(t, c, b);
    }
  }

  /** A chain of almost equal numbers drifts by at most 4 units for each step. */
  lemma {:induction false} ChainDrifts(t: Format, chain: seq<nat>)
    requires chain != [] && forall b | b in chain :: t.IsBits(b)
    requires forall i | 0 <= i < |chain| - 1 :: t.AlmostEquals(chain[i], chain[i + 1])
    ensures t.Distance(chain[0], chain[|chain| - 1]) <= MAX_ULPS * (|chain| - 1)
  {
    if |chain| > 1 {
      var init := chain[..|chain| - 1];
      ChainDrifts(t, init);
      DistanceIsAPseudoMetric(t, chain[0], chain[|chain| - 2], chain[|chain| - 1]);
    }
  }

  /** Two almost equal steps make one exactly when they go to the same side of the
      middle, or are short enough together. */
  lemma TransitiveIff(t: Format, a: nat, b: nat, c: nat)
    requires t.IsBits(a) && t.IsBits(b) && t.IsBits(c)
    requires t.AlmostEquals(a, b) && t.AlmostEquals(b, c)
    ensures t.AlmostEquals(a, c) <==>
            (t.Value(a) <= t.Value(b) <==> t.Value(c) <= t.Value(b))
            || t.Distance(a, b) + t.Distance(b, c) <= MAX_ULPS
  {
    hide Format.Biased;
    hide Format.Value;
    hide Format.IsNan;
    BiasedKeepsTheOrder(t, a, b);
    BiasedKeepsTheOrder(t, b, c);
    BiasedKeepsTheOrder(t, c, b);
  }

  lemma {:induction false} Pow2IsAtLeast(n: nat)
    ensures n >= 1 ==> Pow2(n) >= 2
    ensures n >= 2 ==> Pow2(n) >= 4
    ensures n >= 3 ==> Pow2(n) >= 8
  {
    if n > 0 {
      Pow2IsAtLeast(n - 1);
    }
  }

  lemma ProductIsLarge(e: nat, p: nat)
    requires e >= 4 && p >= 8
    ensures e * p > 8
  {
    assert (e - 1) * p >= 0;
    assert e * p == (e - 1) * p + p;
    assert (e - 2) * p >= 0;
    assert (e - 1) * p == (e - 2) * p + p;
  }

  lemma SmallQuotient(b: nat, p: nat)
    requires p >= 8 && b <= 8
    ensures b / p <= 1
  {
    Decompose(b, p, if b < p then 0 else 1, if b < p then b else 0);
  }

  lemma SignBitIsLarge(t: Format)
    requires t.exponentBits >= 2 && t.fractionBits >= 3
    ensures t.SignBit() > 8
  {
    Pow2Adds(t.exponentBits, t.fractionBits);
    Pow2IsAtLeast(t.exponentBits);
    Pow2IsAtLeast(t.fractionBits);
    hide Pow2;
    ProductIsLarge(Pow2(t.exponentBits), Pow2(t.fractionBits));
  }

  lemma SmallPatterns(t: Format, b: nat)
    requires t.exponentBits >= 2 && t.fractionBits >= 3 && b <= 8
    ensures t.SignBit() > 8 && t.IsBits(b) && !t.IsNan(b) && t.Biased(b) == t.SignBit() + b
  {
    SignBitIsLarge(t);
    Pow2IsAtLeast(t.exponentBits);
    Pow2IsAtLeast(t.fractionBits);
    hide Pow2;
    hide Format.SignBit;
    SmallQuotient(b, Pow2(t.fractionBits));
  }

  /** Zero is almost equal to the next four patterns, and to no other. */
  lemma FourUnits(t: Format, b: nat)
    requires t.exponentBits >= 2 && t.fractionBits >= 3 && b <= 8
    ensures t.SignBit() > 8 && (t.AlmostEquals(0, b) <==> b <= 4)
  {
    SmallPatterns(t, 0);
    SmallPatterns(t, b);
  }

  lemma Order(a: nat, b: nat, p: nat)
    requires a <= b
    ensures a * p <= b * p
  {
    var d := b - a;
    assert d * p >= 0;
    assert (a + d) * p == a * p + d * p;
  }

  lemma QuotientIsLast(m: nat, q: nat, r: nat, p: nat, e: nat)
    requires p > 0 && e > 0 && r < p && m == q * p + r && m < e * p
    ensures q == e - 1 && r != 0 <==> m > (e - 1) * p
  {
    if q + 1 < e {
      Order(q + 1, e - 1, p);
      assert (q + 1) * p == q * p + p;
    } else if q + 1 > e {
      Order(e, q, p);
    }
  }

  lemma Division(m: nat, p: nat)
    requires p > 0
    ensures m == (m / p) * p + m % p && m % p < p
  {
  }

  lemma NanPattern(m: nat, p: nat, e: nat)
    requires p > 0 && e > 0 && m < e * p
    ensures m / p == e - 1 && m % p != 0 <==> m > (e - 1) * p
  {
    Division(m, p);
    QuotientIsLast(m, m / p, m % p, p, e);
  }

  lemma SignBitIs(t: Format)
    ensures t.SignBit() == Pow2(t.exponentBits) * Pow2(t.fractionBits)
  {
    Pow2Adds(t.exponentBits, t.fractionBits);
  }

  /** The patterns that are no numbers are those above the infinities: the patterns whose
      exponent bits are all set, and whose fraction bits are not all clear. */
  lemma NansAreAboveInfinity(t: Format, b: nat)
    requires t.IsBits(b)
    ensures t.IsNan(b) <==> t.Magnitude(b) > (Pow2(t.exponentBits) - 1) * Pow2(t.fractionBits)
  {
    SignBitIs(t);
    hide Pow2;
    hide Format.SignBit;
    NanPattern(t.Magnitude(b), Pow2(t.fractionBits), Pow2(t.exponentBits));
  }

  /** The drift is real: almost equal is not transitive. */
  lemma AlmostEqualsIsNotTransitive(t: Format)
    requires t.exponentBits >= 2 && t.fractionBits >= 3
    ensures t.SignBit() > 8
    ensures t.AlmostEquals(0, 4) && t.AlmostEquals(4, 8) && !t.AlmostEquals(0, 8)
  {
    SmallPatterns(t, 0);
    SmallPatterns(t, 4);
    SmallPatterns(t, 8);
  }

  /** The pattern of the number 1. */
  function One(t: Format): nat
    requires t.exponentBits >= 1
  {
    (Pow2(t.exponentBits - 1) - 1) * Pow2(t.fractionBits)
  }

  /** It stands for 1 indeed: the smallest positive number goes into it 2^(bias - 1 + f) times,
      with f bits of fraction and a bias of 2^(exponent bits - 1) - 1. */
  lemma OneIsOne(t: Format)
    requires t.exponentBits >= 2
    ensures var bias := Pow2(t.exponentBits - 1) - 1;
            bias >= 1 && t.Size(One(t)) == Pow2(bias - 1 + t.fractionBits)
  {
    Pow2IsAtLeast(t.exponentBits - 1);
    var bias, p := Pow2(t.exponentBits - 1) - 1, Pow2(t.fractionBits);
    Pow2Adds(bias - 1, t.fractionBits);
    Decompose(One(t), p, bias, 0);
    hide Pow2;
  }

  lemma OneIsLarge(e: nat, p: nat)
    requires e >= 2 && p >= 8
    ensures (e - 1) * p >= 8
  {
  }

  /** Zero and the numbers of absolute value at least one, such as flags and
      identifiers, are almost equal to zero only when they are zero. */
  lemma WholeNumbersAgainstZero(t: Format, b: nat)
    requires t.exponentBits >= 2 && t.fractionBits >= 3 && t.IsBits(b) && !t.IsNan(b)
    requires t.Magnitude(b) == 0 || t.Magnitude(b) >= One(t)
    ensures t.IsBits(0) && (t.AlmostEquals(b, 0) <==> t.Value(b) == 0)
  {
    Pow2IsAtLeast(t.exponentBits - 1);
    Pow2IsAtLeast(t.fractionBits);
    hide Pow2;
    OneIsLarge(Pow2(t.exponentBits - 1), Pow2(t.fractionBits));
    SmallPatterns(t, 0);
    ZeroIsZero(t);
    hide Format.Size;
    hide Format.SignBit;
    if t.Magnitude(b) > 0 {
      SizeIsMonotone(t, 0, t.Magnitude(b));
    }
  }
}
