/** Fermat's little theorem, by the binomial theorem: the powers that stand for division in the field. */
module Fermat {
  import opened Words
  import opened FieldChains

  predicate Divides(d: int, n: int)
    requires d > 0
  {
    n % d == 0
  }

  ghost predicate Prime(p: nat) {
    p > 1 && forall d :: 1 < d < p ==> !Divides(d, p)
  }

  // ----- multiples -----

  lemma TimesDivides(d: int, k: int)
    requires d > 0
    ensures Divides(d, k * d)
  {
    AddMultiple(0, k, d);
    assert 0 + k * d == k * d;
  }

  lemma MultipleOf(d: int, n: int)
    requires d > 0 && Divides(d, n)
    ensures n == n / d * d
  {
    FloorBelow(n, d);
  }

  lemma SumDivides(d: int, a: int, b: int)
    requires d > 0 && Divides(d, a) && Divides(d, b)
    ensures Divides(d, a + b) && Divides(d, a - b)
  {
    MultipleOf(d, a);
    MultipleOf(d, b);
    TimesDivides(d, a / d + b / d);
    TimesDivides(d, a / d - b / d);
    hide Divides;
    Split(a / d, b / d, d);
  }

  lemma Split(k: int, l: int, d: int)
    ensures (k + l) * d == k * d + l * d && (k - l) * d == k * d - l * d
  {
  }

  lemma ProductDivides(d: int, a: int, x: int)
    requires d > 0 && Divides(d, a)
    ensures Divides(d, a * x) && Divides(d, x * a)
  {
    MultipleOf(d, a);
    TimesDivides(d, a / d * x);
    hide Divides;
    Reorder(a / d, x, d);
  }

  lemma Reorder(k: int, x: int, d: int)
    ensures k * x * d == k * d * x && x * (k * d) == k * d * x
  {
  }

  // ----- Euclid's lemma -----

  /** A prime that divides a * b, with a below it, divides b: descend from a to the remainder of p by a. */
  lemma {:induction false} Descend(p: nat, a: nat, b: int)
    requires Prime(p) && 0 < a < p && Divides(p, a * b)
    ensures Divides(p, b)
    decreases a
  {
    if a > 1 {
      var q, r := p / a, p % a;
      assert !Divides(a, p);
      FloorBelow(p, a);
      TimesDivides(p, b);
      ProductDivides(p, a * b, q);
      SumDivides(p, b * p, q * (a * b));
      hide Prime, Divides;
      RestOf(p, q, a, r, b);
      Descend(p, r, b);
    }
  }

  lemma RestOf(p: int, q: int, a: int, r: int, b: int)
    requires p == q * a + r
    ensures b * p - q * (a * b) == r * b
  {
    assert b * (q * a + r) == q * (a * b) + r * b;
  }

  lemma Euclid(p: nat, a: int, b: int)
    requires Prime(p) && Divides(p, a * b) && !Divides(p, a)
    ensures Divides(p, b)
  {
    var q, r := a / p, a % p;
    FloorBelow(a, p);
    TimesDivides(p, q * b);
    SumDivides(p, a * b, q * b * p);
    assert 0 < r < p;
    hide Prime, Divides;
    RestOf(a, q, p, r, b);
    SwapFactors(q, p, b, a);
    Descend(p, r, b);
  }

  lemma SwapFactors(q: int, p: int, b: int, a: int)
    ensures q * b * p == q * (p * b) && b * a == a * b
  {
  }

  // ----- the binomial theorem -----

  function Choose(n: nat, k: nat): nat {
    if k == 0 then 1 else if n == 0 then 0 else Choose(n - 1, k - 1) + Choose(n - 1, k)
  }

  lemma {:induction false} ChooseNone(n: nat, k: nat)
    requires k > n
    ensures Choose(n, k) == 0
  {
    if n > 0 {
      ChooseNone(n - 1, k - 1);
      ChooseNone(n - 1, k);
    }
  }

  lemma {:induction false} ChooseAll(n: nat)
    ensures Choose(n, n) == 1
  {
    if n > 0 {
      ChooseAll(n - 1);
      ChooseNone(n - 1, n);
    }
  }

  lemma {:induction false} Absorb(n: nat, k: nat)
    requires n > 0 && k > 0
    ensures k * Choose(n, k) == n * Choose(n - 1, k - 1)
    decreases n
  {
    if n == 1 {
      assert Choose(0, k) == 0;
      assert k > 1 ==> Choose(0, k - 1) == 0;
    } else {
      var x, y, z := Choose(n - 1, k - 1), Choose(n - 1, k), Choose(n - 2, k - 1);
      Absorb(n - 1, k);
      if k > 1 {
        Absorb(n - 1, k - 1);
        AbsorbAlgebra(n, k, x, y, z, Choose(n - 2, k - 2));
      } else {
        assert x == 1 && z == 1;
        assert Choose(n, 1) == x + y;
      }
    }
  }

  lemma AbsorbAlgebra(n: int, k: int, x: int, y: int, z: int, v: int)
    requires k * y == (n - 1) * z && (k - 1) * x == (n - 1) * v && x == v + z
    ensures k * (x + y) == n * x
  {
    assert k * (x + y) == k * x + k * y;
    assert k * x == (k - 1) * x + x;
    assert (n - 1) * (v + z) == (n - 1) * v + (n - 1) * z;
    assert n * x == (n - 1) * x + x;
  }

  /** The first m + 1 terms of the expansion of (a + 1)^n. */
  function Terms(a: int, n: nat, m: nat): int {
    Choose(n, m) * Power(a, m) + if m == 0 then 0 else Terms(a, n, m - 1)
  }

  lemma {:induction false} TermsStep(a: int, n: nat, m: nat)
    requires n > 0
    ensures Terms(a, n, m) == Terms(a, n - 1, m) + if m == 0 then 0 else a * Terms(a, n - 1, m - 1)
  {
    if m > 0 {
      TermsStep(a, n, m - 1);
      var earlier := if m == 1 then 0 else Terms(a, n - 1, m - 2);
      StepAlgebra(a, Choose(n - 1, m - 1), Choose(n - 1, m), Power(a, m - 1), earlier);
    }
  }

  lemma StepAlgebra(a: int, x: int, y: int, power: int, earlier: int)
    ensures (x + y) * (a * power) + a * earlier == y * (a * power) + a * (x * power + earlier)
  {
    assert (x + y) * (a * power) == x * (a * power) + y * (a * power);
    assert a * (x * power + earlier) == a * (x * power) + a * earlier;
    assert x * (a * power) == a * (x * power);
  }

  lemma {:induction false} Binomial(a: int, n: nat)
    ensures Power(a + 1, n) == Terms(a, n, n)
  {
    if n > 0 {
      Binomial(a, n - 1);
      TermsStep(a, n, n);
      ChooseNone(n - 1, n);
      var t := Terms(a, n - 1, n - 1);
      assert Terms(a, n - 1, n) == t;
      assert (a + 1) * t == t + a * t;
    } else {
      assert Power(a, 0) == 1 && Choose(0, 0) == 1;
    }
  }

  // ----- the theorem -----

  lemma ChooseDivides(p: nat, k: nat)
    requires Prime(p) && 0 < k < p
    ensures Divides(p, Choose(p, k))
  {
    Absorb(p, k);
    TimesDivides(p, Choose(p - 1, k - 1));
    assert Choose(p - 1, k - 1) * p == p * Choose(p - 1, k - 1);
    hide Prime, Choose;
    Descend(p, k, Choose(p, k));
  }

  lemma TermsEnd(a: int, n: nat, m: nat)
    ensures Terms(a, n, 0) == 1
    ensures m > 0 ==> Terms(a, n, m) == Choose(n, m) * Power(a, m) + Terms(a, n, m - 1)
  {
    hide Choose;
    assert Choose(n, 0) == 1 by { ChooseNothing(n); }
    assert Power(a, 0) == 1;
  }

  lemma ChooseNothing(n: nat)
    ensures Choose(n, 0) == 1
  {
  }

  lemma {:induction false} MiddleVanishes(p: nat, a: int, m: nat)
    requires Prime(p) && m < p
    ensures Divides(p, Terms(a, p, m) - 1)
  {
    hide Prime, Divides, Choose, Power, Terms;
    TermsEnd(a, p, m);
    if m == 0 {
      TimesDivides(p, 0);
    } else {
      MiddleVanishes(p, a, m - 1);
      ChooseDivides(p, m);
      ProductDivides(p, Choose(p, m), Power(a, m));
      SumDivides(p, Choose(p, m) * Power(a, m), Terms(a, p, m - 1) - 1);
    }
  }

  lemma NextPower(p: nat, a: int)
    requires Prime(p)
    ensures Divides(p, Power(a + 1, p) - Power(a, p) - 1)
  {
    assert p > 1;
    hide Prime, Divides, Choose, Power, Terms;
    Binomial(a, p);
    MiddleVanishes(p, a, p - 1);
    ChooseAll(p);
    TermsEnd(a, p, p);
  }

  lemma PowerOfZero(n: nat)
    requires n > 0
    ensures Power(0, n) == 0
  {
  }

  lemma {:induction false} PowerIsItself(p: nat, a: nat)
    requires Prime(p)
    ensures Divides(p, Power(a, p) - a)
  {
    assert p > 1;
    hide Prime, Divides, Power;
    if a == 0 {
      PowerOfZero(p);
      TimesDivides(p, 0);
    } else {
      var b := a - 1;
      PowerIsItself(p, b);
      NextPower(p, b);
      assert b + 1 == a;
      Telescope(p, Power(a, p), Power(b, p), b);
    }
  }

  lemma Telescope(p: nat, y: int, x: int, b: int)
    requires p > 0 && Divides(p, y - x - 1) && Divides(p, x - b)
    ensures Divides(p, y - (b + 1))
  {
    SumDivides(p, y - x - 1, x - b);
    hide Divides;
  }

  /** Fermat's little theorem. */
  lemma PowerIsOne(p: nat, a: nat)
    requires Prime(p) && !Divides(p, a)
    ensures Divides(p, Power(a, p - 1) - 1)
  {
    PowerIsItself(p, a);
    assert Power(a, p) == a * Power(a, p - 1);
    hide Prime, Divides, Power;
    assert a * (Power(a, p - 1) - 1) == a * Power(a, p - 1) - a;
    Euclid(p, a, Power(a, p - 1) - 1);
  }

  lemma {:induction false} PowerNotDivided(p: nat, a: int, n: nat)
    requires Prime(p) && !Divides(p, a)
    ensures !Divides(p, Power(a, n))
  {
    if n > 0 {
      PowerNotDivided(p, a, n - 1);
      if Divides(p, Power(a, n)) {
        Euclid(p, a, Power(a, n - 1));
      }
      hide Prime, Divides;
    } else {
      assert !Divides(p, 1);
    }
  }
}
