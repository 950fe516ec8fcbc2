/** The addition chains of lib/ed25519/src/fe.c: inversion and the power used for square roots. */
module FieldChains {
  import opened Words
  import opened Limbs
  import opened FieldMul

  function Power(z: int, n: nat): int {
    if n == 0 then 1 else z * Power(z, n - 1)
  }

  lemma {:induction false} PowerSum(z: int, a: nat, b: nat)
    ensures Power(z, a + b) == Power(z, a) * Power(z, b)
  {
    if a > 0 {
      PowerSum(z, a - 1, b);
      assert z * (Power(z, a - 1) * Power(z, b)) == (z * Power(z, a - 1)) * Power(z, b);
    }
  }

  /** f holds z to the power e. */
  ghost predicate Holds(f: seq<int>, z: int, e: nat) {
    |f| == 10 && Congruent(Value(f), Power(z, e))
  }

  lemma HoldsProduct(h: seq<int>, f: seq<int>, g: seq<int>, z: int, a: nat, b: nat)
    requires |h| == 10 && Holds(f, z, a) && Holds(g, z, b)
    requires Congruent(Value(h), Value(f) * Value(g))
    ensures Holds(h, z, a + b)
  {
    PowerSum(z, a, b);
    CongruentProduct(Value(f), Power(z, a), Value(g), Power(z, b));
    Transitive(Value(h), Value(f) * Value(g), Power(z, a) * Power(z, b));
  }

  /** Runs of ones in the exponent join end to end. */
  lemma JoinOnes(a: nat, b: nat)
    ensures Pow2(b) * (Pow2(a) - 1) + (Pow2(b) - 1) == Pow2(a + b) - 1
  {
    Pow2Sum(a, b);
    assert Pow2(b) * (Pow2(a) - 1) == Pow2(b) * Pow2(a) - Pow2(b);
  }

  lemma LooseFromTight(f: seq<int>)
    requires Bounded(f, TIGHT)
    ensures Bounded(f, LOOSE)
  {
  }

  /** t holds z to the power e, in limbs that may be multiplied again. */
  ghost predicate Has(t: array<i32>, z: int, e: nat)
    reads t
  {
    t.Length == 10 && Bounded(t[..], LOOSE) && Holds(t[..], z, e)
  }

  method Times(h: array<i32>, f: array<i32>, g: array<i32>, ghost z: int, ghost a: nat, ghost b: nat)
    requires h.Length == 10 && Has(f, z, a) && Has(g, z, b)
    modifies h
    ensures Bounded(h[..], TIGHT) && Has(h, z, a + b)
  {
    hide Value, Congruent, Power;
    ghost var x, y := f[..], g[..];
    FeMul(h, f, g);
    HoldsProduct(h[..], x, y, z, a, b);
    LooseFromTight(h[..]);
  }

  /** t = f squared n times over. */
  method Squarings(t: array<i32>, f: array<i32>, n: nat, ghost z: int, ghost e: nat)
    requires t.Length == 10 && Has(f, z, e) && n >= 1
    modifies t
    ensures Has(t, z, Pow2(n) * e)
  {
    hide Value, Congruent, Power, Bounded;
    ghost var x := f[..];
    FeSq(t, f);
    HoldsProduct(t[..], x, x, z, e, e);
    LooseFromTight(t[..]);
    var i := 1;
    while i < n
      invariant 1 <= i <= n
      invariant Has(t, z, Pow2(i) * e)
    {
      x := t[..];
      FeSq(t, t);
      HoldsProduct(t[..], x, x, z, Pow2(i) * e, Pow2(i) * e);
      LooseFromTight(t[..]);
      i := i + 1;
    }
  }

  // ----- z^(2^255 - 21) and z^(2^252 - 3) -----

  /** From z^31 to z^(2^50 - 1), by way of 2^10, 2^20 and 2^40 less one. */
  method FirstFifty(t1: array<i32>, t2: array<i32>, t3: array<i32>, ghost z: int)
    requires t1 != t2 && t2 != t3 && t1 != t3
    requires t1.Length == t2.Length == t3.Length == 10 && Has(t1, z, Pow2(5) - 1)
    modifies t1, t2, t3
    ensures Has(t1, z, Pow2(50) - 1)
  {
    hide Has, Pow2;
    JoinOnes(5, 5);
    JoinOnes(10, 10);
    JoinOnes(20, 20);
    JoinOnes(40, 10);
    Squarings(t2, t1, 5, z, Pow2(5) - 1);
    Times(t1, t2, t1, z, Pow2(5) * (Pow2(5) - 1), Pow2(5) - 1);
    Squarings(t2, t1, 10, z, Pow2(10) - 1);
    Times(t2, t2, t1, z, Pow2(10) * (Pow2(10) - 1), Pow2(10) - 1);
    Squarings(t3, t2, 20, z, Pow2(20) - 1);
    Times(t2, t3, t2, z, Pow2(20) * (Pow2(20) - 1), Pow2(20) - 1);
    Squarings(t2, t2, 10, z, Pow2(40) - 1);
    Times(t1, t2, t1, z, Pow2(10) * (Pow2(40) - 1), Pow2(10) - 1);
  }

  /** From z^(2^50 - 1) to z^(2^250 - 1), by way of 2^100 and 2^200 less one. */
  method Rest(t1: array<i32>, t2: array<i32>, t3: array<i32>, ghost z: int)
    requires t1 != t2 && t2 != t3 && t1 != t3
    requires t1.Length == t2.Length == t3.Length == 10 && Has(t1, z, Pow2(50) - 1)
    modifies t1, t2, t3
    ensures Has(t1, z, Pow2(250) - 1)
  {
    hide Has, Pow2;
    JoinOnes(50, 50);
    JoinOnes(100, 100);
    JoinOnes(200, 50);
    Squarings(t2, t1, 50, z, Pow2(50) - 1);
    Times(t2, t2, t1, z, Pow2(50) * (Pow2(50) - 1), Pow2(50) - 1);
    Squarings(t3, t2, 100, z, Pow2(100) - 1);
    Times(t2, t3, t2, z, Pow2(100) * (Pow2(100) - 1), Pow2(100) - 1);
    Squarings(t2, t2, 50, z, Pow2(200) - 1);
    Times(t1, t2, t1, z, Pow2(50) * (Pow2(200) - 1), Pow2(50) - 1);
  }

  lemma HasItself(t: array<i32>)
    requires t.Length == 10 && Bounded(t[..], LOOSE)
    ensures Has(t, Value(t[..]), 1)
  {
    assert Power(Value(t[..]), 1) == Value(t[..]) * Power(Value(t[..]), 0);
    Reflexive(Value(t[..]));
  }

  lemma Unfold(t: array<i32>, z: int, e: nat)
    requires Has(t, z, e)
    ensures Congruent(Value(t[..]), Power(z, e))
  {
  }

  lemma SmallOnes()
    ensures Pow2(1) == 2 && Pow2(2) == 4 && Pow2(5) == 32
  {
  }

  /** z^11 in t0 and z^31 in t1. */
  method Start(t0: array<i32>, t1: array<i32>, t2: array<i32>, f: array<i32>, ghost z: int)
    requires t0.Length == t1.Length == t2.Length == 10 && Has(f, z, 1)
    requires t0 != t1 && t1 != t2 && t0 != t2 && f != t0 && f != t1
    modifies t0, t1, t2
    ensures Has(t0, z, 11) && Has(t1, z, 31)
  {
    hide Has, Pow2;
    SmallOnes();
    Squarings(t0, f, 1, z, 1);
    Squarings(t1, t0, 2, z, 2);
    Times(t1, f, t1, z, 1, 8);
    Times(t0, t0, t1, z, 2, 9);
    Squarings(t2, t0, 1, z, 11);
    Times(t1, t1, t2, z, 9, 22);
  }

  /** The exponent is 2^255 - 21, which is P - 2. */
  method FeInvert(out: array<i32>, f: array<i32>)
    requires out.Length == f.Length == 10 && Bounded(f[..], LOOSE)
    modifies out
    ensures Bounded(out[..], TIGHT)
    ensures Congruent(Value(out[..]), Power(old(Value(f[..])), P - 2))
  {
    hide Has, Pow2, Value, Power, Congruent;
    ghost var z := Value(f[..]);
    HasItself(f);
    var t0, t1, t2, t3 := new i32[10], new i32[10], new i32[10], new i32[10];
    Start(t0, t1, t2, f, z);
    SmallOnes();
    FirstFifty(t1, t2, t3, z);
    Rest(t1, t2, t3, z);
    Squarings(t1, t1, 5, z, Pow2(250) - 1);
    Times(out, t1, t0, z, Pow2(5) * (Pow2(250) - 1), 11);
    JoinOnes(250, 5);
    Pow2Of255();
    Unfold(out, z, P - 2);
  }

  /** The exponent is 2^252 - 3, which is (P - 5) / 8. */
  method FePow22523(out: array<i32>, f: array<i32>)
    requires out.Length == f.Length == 10 && Bounded(f[..], LOOSE)
    modifies out
    ensures Bounded(out[..], TIGHT)
    ensures Congruent(Value(out[..]), Power(old(Value(f[..])), Pow2(252) - 3))
  {
    hide Has, Pow2, Value, Power, Congruent;
    ghost var z := Value(f[..]);
    HasItself(f);
    var t0, t1, t2 := new i32[10], new i32[10], new i32[10];
    StartRoot(t0, t1, f, z);
    SmallOnes();
    FirstFifty(t0, t1, t2, z);
    Rest(t0, t1, t2, z);
    Squarings(t0, t0, 2, z, Pow2(250) - 1);
    Times(out, t0, f, z, Pow2(2) * (Pow2(250) - 1), 1);
    JoinOnes(250, 2);
    Unfold(out, z, Pow2(252) - 3);
  }

  /** z^31 in t0. */
  method StartRoot(t0: array<i32>, t1: array<i32>, f: array<i32>, ghost z: int)
    requires t0.Length == t1.Length == 10 && Has(f, z, 1)
    requires t0 != t1 && f != t0 && f != t1
    modifies t0, t1
    ensures Has(t0, z, 31)
  {
    hide Has, Pow2;
    SmallOnes();
    Squarings(t0, f, 1, z, 1);
    Squarings(t1, t0, 2, z, 2);
    Times(t1, f, t1, z, 1, 8);
    Times(t0, t0, t1, z, 2, 9);
    Squarings(t0, t0, 1, z, 11);
    Times(t0, t1, t0, z, 9, 22);
  }
}
