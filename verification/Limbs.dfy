/** Integers modulo 2^255 - 19 held in limbs of alternately 26 and 25 bits, the representation
 *  shared by fe.c and curve25519-donna.c. */
module Limbs {
  import opened Words

  // ----- the value of a vector of limbs -----

  /** ceil(25.5 * k), the bit position of limb k. */
  function Position(k: nat): nat { (51 * k + 1) / 2 }

  function Weight(k: nat): (w: nat)
    ensures w > 0
  {
    Pow2(Position(k))
  }

  /** The integer held in the first m limbs. Limbs may be negative, or wider than their place. */
  function Partial(c: seq<int>, m: nat): int
    requires m <= |c|
  {
    if m == 0 then 0 else Partial(c, m - 1) + Weight(m - 1) * c[m - 1]
  }

  function Value(c: seq<int>): int { Partial(c, |c|) }

  lemma {:induction false} Pow2Sum(a: nat, b: nat)
    ensures Pow2(a + b) == Pow2(a) * Pow2(b)
  {
    if a > 0 {
      Pow2Sum(a - 1, b);
    }
  }

  lemma {:induction false} PartialUpdate(c: seq<int>, m: nat, k: nat, x: int)
    requires k < m <= |c|
    ensures Partial(c[k := x], m) == Partial(c, m) + Weight(k) * (x - c[k])
  {
    hide Weight;
    if k == m - 1 {
      PartialSame(c[k := x], c, m - 1);
      Distribute(Weight(k), 1, c[k], x - c[k], 0);
    } else {
      PartialUpdate(c, m - 1, k, x);
    }
  }

  lemma {:induction false} PartialSame(a: seq<int>, b: seq<int>, m: nat)
    requires m <= |a| && m <= |b|
    requires forall k :: 0 <= k < m ==> a[k] == b[k]
    ensures Partial(a, m) == Partial(b, m)
  {
    if m > 0 {
      PartialSame(a, b, m - 1);
    }
  }

  lemma {:induction false} PartialLinear(a: seq<int>, x: int, b: seq<int>, r: seq<int>, m: nat)
    requires m <= |a| && m <= |b| && m <= |r|
    requires forall k :: 0 <= k < m ==> r[k] == a[k] + x * b[k]
    ensures Partial(r, m) == Partial(a, m) + x * Partial(b, m)
  {
    hide Weight;
    if m > 0 {
      PartialLinear(a, x, b, r, m - 1);
      Distribute(Weight(m - 1), x, a[m - 1], b[m - 1], Partial(b, m - 1));
    }
  }

  lemma Distribute(w: int, x: int, a: int, b: int, p: int)
    ensures w * (a + x * b) + x * p == w * a + x * (p + w * b)
  {
    assert w * (a + x * b) == w * a + x * (w * b);
  }

  // ----- multiplication -----

  /** Limb i times limb j weighs twice limb i + j when both are odd. */
  function Doubled(i: nat, j: nat, x: int): int {
    if i % 2 == 1 && j % 2 == 1 then x + x else x
  }

  lemma WeightProduct(i: nat, j: nat)
    ensures Weight(i) * Weight(j) == Doubled(i, j, Weight(i + j))
  {
    hide Position, Pow2;
    Pow2Sum(Position(i), Position(j));
    PositionSum(i, j);
    Pow2Next(Position(i + j));
  }

  lemma Pow2Next(n: nat)
    ensures Pow2(n + 1) == Pow2(n) + Pow2(n)
  {
  }

  lemma PositionSum(i: nat, j: nat)
    ensures Position(i) + Position(j) == Position(i + j) + if i % 2 == 1 && j % 2 == 1 then 1 else 0
  {
    var a, b := i / 2, j / 2;
    HalfPosition(i);
    HalfPosition(j);
    HalfPosition(i + j);
    assert (i + j) / 2 == a + b + if i % 2 == 1 && j % 2 == 1 then 1 else 0;
    assert (i + j) % 2 == if i % 2 == j % 2 then 0 else 1;
    hide Position;
  }

  lemma HalfPosition(i: nat)
    ensures Position(i) == 51 * (i / 2) + 26 * (i % 2)
  {
  }

  /** What limb i of f contributes to coefficient k of the schoolbook product with g. */
  function Term(f: seq<int>, g: seq<int>, k: nat, i: nat): int
    requires i < |f|
  {
    if i <= k < i + |g| then Doubled(i, k - i, f[i] * g[k - i]) else 0
  }

  /** Coefficient k of the schoolbook product of the first n limbs of f with g. */
  function Coefficient(f: seq<int>, g: seq<int>, k: nat, n: nat): int
    requires n <= |f|
  {
    if n == 0 then 0 else Coefficient(f, g, k, n - 1) + Term(f, g, k, n - 1)
  }

  lemma TenTerms(f: seq<int>, g: seq<int>, k: nat)
    requires |f| == |g| == 10
    ensures Coefficient(f, g, k, 10)
         == Term(f, g, k, 0) + Term(f, g, k, 1) + Term(f, g, k, 2) + Term(f, g, k, 3) + Term(f, g, k, 4)
          + Term(f, g, k, 5) + Term(f, g, k, 6) + Term(f, g, k, 7) + Term(f, g, k, 8) + Term(f, g, k, 9)
  {
    hide Term;
    assert Coefficient(f, g, k, 5) == Coefficient(f, g, k, 4) + Term(f, g, k, 4);
    assert Coefficient(f, g, k, 4) == Coefficient(f, g, k, 2) + Term(f, g, k, 2) + Term(f, g, k, 3);
    assert Coefficient(f, g, k, 2) == Coefficient(f, g, k, 1) + Term(f, g, k, 1);
    assert Coefficient(f, g, k, 8) == Coefficient(f, g, k, 7) + Term(f, g, k, 7);
    assert Coefficient(f, g, k, 7) == Coefficient(f, g, k, 5) + Term(f, g, k, 5) + Term(f, g, k, 6);
    assert Coefficient(f, g, k, 10) == Coefficient(f, g, k, 8) + Term(f, g, k, 8) + Term(f, g, k, 9);
  }

  /** The first n rows of the product, as 19 coefficients. */
  function Rows(f: seq<int>, g: seq<int>, n: nat): (r: seq<int>)
    requires |f| == |g| == 10 && n <= 10
    ensures |r| == 19
    ensures forall k :: 0 <= k < 19 ==> r[k] == Coefficient(f, g, k, n)
  {
    seq(19, k requires 0 <= k < 19 => Coefficient(f, g, k, n))
  }

  function Product(f: seq<int>, g: seq<int>): (r: seq<int>)
    requires |f| == |g| == 10
    ensures |r| == 19
  {
    Rows(f, g, 10)
  }

  /** g moved up by n limbs, as row n of the product sees it. */
  function Shifted(g: seq<int>, n: nat): (r: seq<int>)
    requires |g| == 10 && n < 10
    ensures |r| == 19
    ensures forall k :: 0 <= k < 19 ==> r[k] == if n <= k < n + 10 then Doubled(n, k - n, g[k - n]) else 0
  {
    seq(19, k requires 0 <= k < 19 => if n <= k < n + 10 then Doubled(n, k - n, g[k - n]) else 0)
  }

  lemma {:induction false} ShiftedPartial(g: seq<int>, n: nat, m: nat)
    requires |g| == 10 && n < 10 && m <= 19
    ensures Partial(Shifted(g, n), m) == if m <= n then 0 else Weight(n) * Partial(g, if m - n <= 10 then m - n else 10)
  {
    hide Weight;
    if m > 0 {
      ShiftedPartial(g, n, m - 1);
      if n < m <= n + 10 {
        var j := m - 1 - n;
        WeightProduct(n, j);
        ShiftedStep(Weight(n), Weight(j), g[j], Partial(g, j), n, j, Weight(n + j));
      }
    }
  }

  lemma ShiftedStep(wn: int, wj: int, x: int, p: int, n: nat, j: nat, wnj: int)
    requires wn * wj == Doubled(n, j, wnj)
    ensures wn * (p + wj * x) == wn * p + wnj * Doubled(n, j, x)
  {
    assert wn * (p + wj * x) == wn * p + (wn * wj) * x;
    assert wnj * Doubled(n, j, x) == Doubled(n, j, wnj) * x;
  }

  lemma {:induction false} RowsValue(f: seq<int>, g: seq<int>, n: nat)
    requires |f| == |g| == 10 && n <= 10
    ensures Value(Rows(f, g, n)) == Partial(f, n) * Value(g)
  {
    if n == 0 {
      NoRows(f, g, 19);
    } else {
      RowsValue(f, g, n - 1);
      var s, x := Shifted(g, n - 1), f[n - 1];
      RowStep(f, g, n);
      PartialLinear(Rows(f, g, n - 1), x, s, Rows(f, g, n), 19);
      ShiftedPartial(g, n - 1, 19);
      RowAlgebra(Weight(n - 1), x, Partial(f, n - 1), Value(g));
    }
  }

  lemma RowStep(f: seq<int>, g: seq<int>, n: nat)
    requires |f| == |g| == 10 && 0 < n <= 10
    ensures forall k :: 0 <= k < 19 ==> Rows(f, g, n)[k] == Rows(f, g, n - 1)[k] + f[n - 1] * Shifted(g, n - 1)[k]
  {
    forall k | 0 <= k < 19
      ensures Rows(f, g, n)[k] == Rows(f, g, n - 1)[k] + f[n - 1] * Shifted(g, n - 1)[k]
    {
      assert Rows(f, g, n)[k] == Coefficient(f, g, k, n);
    }
  }

  lemma RowAlgebra(w: int, x: int, p: int, v: int)
    ensures p * v + x * (w * v) == (p + w * x) * v
  {
  }

  lemma {:induction false} NoRows(f: seq<int>, g: seq<int>, m: nat)
    requires |f| == |g| == 10 && m <= 19
    ensures Partial(Rows(f, g, 0), m) == 0
  {
    if m > 0 {
      NoRows(f, g, m - 1);
    }
  }

  /** The 19 coefficients of the schoolbook product hold exactly the product. */
  lemma ProductValue(f: seq<int>, g: seq<int>)
    requires |f| == |g| == 10
    ensures Value(Product(f, g)) == Value(f) * Value(g)
  {
    RowsValue(f, g, 10);
  }

  // ----- how large the coefficients get -----

  function Abs(x: int): nat { if x < 0 then -x else x }

  ghost predicate Within(c: seq<int>, b: int) {
    forall i :: 0 <= i < |c| ==> -b <= c[i] <= b
  }

  lemma AbsProduct(x: int, y: int, a: int, b: int)
    requires -a <= x <= a && -b <= y <= b
    ensures -a * b <= x * y <= a * b
  {
    assert a * b - x * y == a * (b - y) + y * (a - x) == b * (a - x) + x * (b - y);
    assert a * b + x * y == a * (b + y) - y * (a - x) == b * (a + x) - x * (b - y);
    assert (a - x) * (b + y) >= 0 && (a + x) * (b - y) >= 0;
    assert (a - x) * (b - y) >= 0 && (a + x) * (b + y) >= 0;
  }

  /** The sum of the magnitudes of the terms: it bounds every partial sum, in whatever order the
   *  terms are added. */
  function Magnitude(f: seq<int>, g: seq<int>, k: nat, n: nat): nat
    requires n <= |f|
  {
    if n == 0 then 0 else Magnitude(f, g, k, n - 1) + Abs(Term(f, g, k, n - 1))
  }

  function Ones(): (r: seq<int>)
    ensures |r| == 10 && forall i :: 0 <= i < 10 ==> r[i] == 1
  {
    seq(10, i => 1)
  }

  /** How many limb products, doubled ones counted twice, make up coefficient k. */
  function Terms(k: nat, n: nat): int
    requires n <= 10
  {
    Coefficient(Ones(), Ones(), k, n)
  }

  lemma {:induction false} MagnitudeBound(f: seq<int>, g: seq<int>, k: nat, n: nat, a: nat, b: nat)
    requires |f| == |g| == 10 && n <= 10
    requires Within(f, a) && Within(g, b)
    ensures Abs(Coefficient(f, g, k, n)) <= Magnitude(f, g, k, n) <= Terms(k, n) * (a * b)
  {
    if n > 0 {
      MagnitudeBound(f, g, k, n - 1, a, b);
      TermBound(f, g, k, n - 1, a, b);
      hide Term;
      MoreTerms(Terms(k, n - 1), Terms(k, n) - Terms(k, n - 1), a * b);
    }
  }

  lemma MoreTerms(t: int, d: int, m: int)
    ensures (t + d) * m == t * m + d * m
  {
  }

  lemma TermBound(f: seq<int>, g: seq<int>, k: nat, i: nat, a: nat, b: nat)
    requires |f| == |g| == 10 && i < 10
    requires Within(f, a) && Within(g, b)
    ensures Abs(Term(f, g, k, i)) <= (Terms(k, i + 1) - Terms(k, i)) * (a * b)
  {
    if i <= k < i + 10 {
      AbsProduct(f[i], g[k - i], a, b);
      assert Term(Ones(), Ones(), k, i) == Doubled(i, k - i, 1);
      var x := f[i] * g[k - i];
      hide Coefficient;
      assert Abs(Doubled(i, k - i, x)) <= Doubled(i, k - i, 1) * (a * b);
    } else {
      assert Terms(k, i + 1) == Terms(k, i);
    }
  }

  lemma OddTerms(k: nat)
    requires k < 19 && k % 2 == 1
    ensures forall i :: 0 <= i < 10 ==> Term(Ones(), Ones(), k, i) <= 1
  {
    forall i | 0 <= i < 10
      ensures Term(Ones(), Ones(), k, i) <= 1
    {
    }
  }

  lemma EvenTerms(k: nat)
    requires k < 19 && k % 2 == 0
    ensures forall i :: 0 <= i < 10 ==> Term(Ones(), Ones(), k, i) <= if i % 2 == 1 then 2 else 1
    ensures Term(Ones(), Ones(), k, 0) == 0 || Term(Ones(), Ones(), k, 9) == 0
  {
    forall i | 0 <= i < 10
      ensures Term(Ones(), Ones(), k, i) <= if i % 2 == 1 then 2 else 1
    {
    }
  }

  lemma TermsAtMost14(k: nat)
    requires k < 19
    ensures Terms(k, 10) <= 14
  {
    TenTerms(Ones(), Ones(), k);
    if k % 2 == 1 {
      OddTerms(k);
    } else {
      EvenTerms(k);
    }
    hide Term;
  }

  // ----- working modulo 2^255 - 19 -----

  const P: int := 0x7FFF_FFFF_FFFF_FFFF_FFFF_FFFF_FFFF_FFFF_FFFF_FFFF_FFFF_FFFF_FFFF_FFFF_FFFF_FFED

  function TimesP(k: int): int { k * P }

  ghost predicate Congruent(a: int, b: int) {
    exists k: int :: a - b == TimesP(k)
  }

  lemma CongruentBy(a: int, b: int, k: int)
    requires a - b == k * P
    ensures Congruent(a, b)
  {
    assert a - b == TimesP(k);
  }

  lemma Reflexive(a: int)
    ensures Congruent(a, a)
  {
    CongruentBy(a, a, 0);
  }

  lemma Symmetric(a: int, b: int)
    requires Congruent(a, b)
    ensures Congruent(b, a)
  {
    var k :| a - b == TimesP(k);
    CongruentBy(b, a, -k);
  }

  lemma Transitive(a: int, b: int, c: int)
    requires Congruent(a, b) && Congruent(b, c)
    ensures Congruent(a, c)
  {
    var k :| a - b == TimesP(k);
    var l :| b - c == TimesP(l);
    CongruentBy(a, c, k + l);
  }

  lemma CongruentLinear(a: int, b: int, c: int, d: int, x: int)
    requires Congruent(a, b) && Congruent(c, d)
    ensures Congruent(a + x * c, b + x * d)
  {
    var k :| a - b == TimesP(k);
    var l :| c - d == TimesP(l);
    assert x * c - x * d == x * (c - d) == (x * l) * P;
    CongruentBy(a + x * c, b + x * d, k + x * l);
  }

  lemma CongruentProduct(a: int, b: int, c: int, d: int)
    requires Congruent(a, b) && Congruent(c, d)
    ensures Congruent(a * c, b * d)
  {
    var k :| a - b == TimesP(k);
    var l :| c - d == TimesP(l);
    ProductAlgebra(a, b, c, d, k, l, P);
    CongruentBy(a * c, b * d, k * c + b * l);
  }

  lemma ProductAlgebra(a: int, b: int, c: int, d: int, k: int, l: int, p: int)
    requires a - b == k * p && c - d == l * p
    ensures a * c - b * d == (k * c + b * l) * p
  {
    assert a * c - b * d == (a - b) * c + b * (c - d);
    assert (k * p) * c == (k * c) * p && b * (l * p) == (b * l) * p;
  }

  /** Each residue class has one member in [0, P). */
  lemma CanonicalUnique(a: int, b: int)
    requires Congruent(a, b) && 0 <= a < P && 0 <= b < P
    ensures a == b
  {
    var k :| a - b == TimesP(k);
    assert k >= 1 ==> k * P >= P;
    assert k <= -1 ==> k * P <= -P;
  }

  lemma CongruentToMod(a: int)
    ensures Congruent(a, a % P) && 0 <= a % P < P
  {
    CongruentBy(a, a % P, a / P);
  }

  /** Congruence is equality of remainders. */
  lemma CongruentIffMod(a: int, b: int)
    ensures Congruent(a, b) <==> a % P == b % P
  {
    CongruentToMod(a);
    CongruentToMod(b);
    if Congruent(a, b) {
      Symmetric(a, a % P);
      Transitive(a % P, a, b);
      Transitive(a % P, b, b % P);
      CanonicalUnique(a % P, b % P);
    }
    if a % P == b % P {
      Symmetric(b, b % P);
      Transitive(a, a % P, b);
    }
  }

  lemma Pow2Of32()
    ensures Pow2(31) == 0x8000_0000 && Pow2(32) == 0x1_0000_0000
  {
    assert Pow2(7) == 0x80 && Pow2(8) == 0x100;
    Pow2Sum(8, 8);
    Pow2Sum(8, 7);
    Pow2Sum(16, 16);
    Pow2Sum(16, 15);
    hide Pow2;
  }

  lemma Pow2Of64()
    ensures Pow2(63) == 0x8000_0000_0000_0000
    ensures Pow2(64) == 0x1_0000_0000_0000_0000
  {
    Pow2Of32();
    Pow2Sum(32, 31);
    Pow2Sum(32, 32);
    hide Pow2;
  }

  lemma Pow2Of255()
    ensures Pow2(255) == P + 19
  {
    Pow2Of64();
    Pow2Sum(64, 64);
    Pow2Sum(64, 63);
    Pow2Sum(128, 127);
    hide Pow2;
  }

  // ----- folding the high coefficients back -----

  /** 2^255 is 19 modulo P, so coefficient k + 10 is worth 19 of coefficient k. */
  function Folded(t: seq<int>): (r: seq<int>)
    requires |t| == 19
    ensures |r| == 10
    ensures forall k :: 0 <= k < 9 ==> r[k] == t[k] + 19 * t[k + 10]
    ensures r[9] == t[9]
  {
    seq(10, k requires 0 <= k < 10 => if k < 9 then t[k] + 19 * t[k + 10] else t[9])
  }

  lemma WeightTen(k: nat)
    ensures Weight(k + 10) == (P + 19) * Weight(k)
  {
    Pow2Sum(255, Position(k));
    Pow2Of255();
    hide Pow2;
    assert Position(k + 10) == 255 + Position(k);
  }

  function Upper(t: seq<int>): (r: seq<int>)
    requires |t| == 19
    ensures |r| == 10
    ensures forall k :: 0 <= k < 9 ==> r[k] == t[k + 10]
    ensures r[9] == 0
  {
    t[10..] + [0]
  }

  lemma {:induction false} UpperPartial(t: seq<int>, m: nat)
    requires |t| == 19 && m <= 9
    ensures Partial(t, 10 + m) == Partial(t, 10) + (P + 19) * Partial(Upper(t), m)
  {
    hide Weight;
    if m > 0 {
      UpperPartial(t, m - 1);
      WeightTen(m - 1);
      UpperAlgebra(P + 19, Weight(m - 1), t[10 + m - 1], Partial(Upper(t), m - 1));
    }
  }

  lemma UpperAlgebra(q: int, w: int, x: int, p: int)
    ensures q * p + (q * w) * x == q * (p + w * x)
  {
  }

  lemma FoldedValue(t: seq<int>)
    requires |t| == 19
    ensures Congruent(Value(t), Value(Folded(t)))
  {
    hide Weight;
    var u := Upper(t);
    UpperPartial(t, 9);
    assert Partial(u, 10) == Partial(u, 9) + Weight(9) * 0;
    PartialLinear(t, 19, u, Folded(t), 10);
    CongruentBy(Value(t), Value(Folded(t)), Partial(u, 9));
  }

  /** The folded schoolbook product, which both multipliers compute column by column. */
  lemma FoldedProduct(f: seq<int>, g: seq<int>)
    requires |f| == |g| == 10
    ensures Congruent(Value(Folded(Product(f, g))), Value(f) * Value(g))
  {
    ProductValue(f, g);
    FoldedValue(Product(f, g));
    Symmetric(Value(Product(f, g)), Value(Folded(Product(f, g))));
  }
}
