/** Powers and sequences: the little that the other modules share. */
module Basics {

  function Pow2(n: nat): (r: nat)
    ensures r > 0
  {
    if n == 0 then 1 else 2 * Pow2(n - 1)
  }

  lemma Twice(x: nat, y: nat, z: nat)
    requires z == 2 * x
    ensures z * y == 2 * (x * y)
  {
  }

  lemma {:induction false} Pow2Adds(m: nat, n: nat)
    ensures Pow2(m + n) == Pow2(m) * Pow2(n)
  {
    if m > 0 {
      Pow2Adds(m - 1, n);
      assert Pow2(m) == 2 * Pow2(m - 1) && Pow2(m + n) == 2 * Pow2(m - 1 + n);
      hide Pow2;
      Twice(Pow2(m - 1), Pow2(n), Pow2(m));
    }
  }

  function Times(x: real, y: real): (r: real)
    ensures x > 0.0 && y > 0.0 ==> r > 0.0
  {
    x * y
  }

  lemma TimesIs(x: real, y: real)
    ensures Times(x, y) == x * y
  {
  }

  lemma TimesAssociates(x: real, y: real, z: real)
    ensures Times(Times(x, y), z) == Times(x, Times(y, z))
    ensures Times(x, 1.0) == x && Times(1.0, x) == x
  {
  }

  lemma ProductsGrow(a: real, b: real, x: real, y: real)
    requires 0.0 < a <= b && 0.0 < x <= y
    ensures 0.0 < a * x <= b * y
  {
    assert a * x <= b * x <= b * y;
  }

  lemma TimesGrows(a: real, b: real, x: real, y: real)
    requires 0.0 < a <= b && 0.0 < x <= y
    ensures 0.0 < Times(a, x) <= Times(b, y)
  {
    ProductsGrow(a, b, x, y);
  }

  function Pow(x: real, n: nat): (r: real)
    ensures x > 0.0 ==> r > 0.0
  {
    if n == 0 then 1.0 else Times(x, Pow(x, n - 1))
  }

  lemma {:induction false} PowSplits(x: real, m: nat, n: nat)
    ensures Pow(x, m + n) == Times(Pow(x, m), Pow(x, n))
  {
    hide Times;
    if m == 0 {
      TimesAssociates(Pow(x, n), 1.0, 1.0);
    } else {
      PowSplits(x, m - 1, n);
      TimesAssociates(x, Pow(x, m - 1), Pow(x, n));
    }
  }

  lemma PowAdds(x: real, m: nat, n: nat)
    ensures Pow(x, m + n) == Pow(x, m) * Pow(x, n)
  {
    hide Pow;
    hide Times;
    PowSplits(x, m, n);
    TimesIs(Pow(x, m), Pow(x, n));
  }

  lemma {:induction false} PowGrows(x: real, m: nat, n: nat)
    requires x >= 1.0 && m <= n
    ensures 0.0 < Pow(x, m) <= Pow(x, n)
    decreases n
  {
    hide Times;
    if m < n {
      PowGrows(x, m, n - 1);
      TimesAssociates(Pow(x, n - 1), 1.0, 1.0);
      TimesGrows(1.0, x, Pow(x, n - 1), Pow(x, n - 1));
    }
  }

  lemma {:induction false} PowGrowsWithTheBase(x: real, y: real, n: nat)
    requires 0.0 < x <= y
    ensures 0.0 < Pow(x, n) <= Pow(y, n)
  {
    hide Times;
    if n > 0 {
      PowGrowsWithTheBase(x, y, n - 1);
      TimesGrows(x, y, Pow(x, n - 1), Pow(y, n - 1));
    }
  }

  lemma PowIsAtLeastOne(x: real, n: nat)
    requires x >= 1.0
    ensures Pow(x, n) >= 1.0
  {
    PowGrows(x, 0, n);
    assert Pow(x, 0) == 1.0;
  }

  lemma ConcatIsAssociative<T>(a: seq<T>, b: seq<T>, c: seq<T>)
    ensures (a + b) + c == a + (b + c)
  {
  }
}
