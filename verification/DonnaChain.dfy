/** The inversion chain of curve25519-donna. */
module DonnaChain {
  import opened Words
  import opened Limbs
  import opened DonnaField
  import opened DonnaLadder
  import opened FieldChains

  /** a holds z to the power e, reduced. */
  ghost predicate Raised(a: array<i64>, z: int, e: nat)
    reads a
  {
    Is(a, BELOW26, Power(z, e))
  }

  method Multiply(output: array<i64>, input: array<i64>, in2: array<i64>, ghost z: int, ghost a: nat, ghost b: nat)
    requires output.Length >= 10 && Raised(input, z, a) && Raised(in2, z, b)
    modifies output
    ensures Raised(output, z, a + b)
  {
    hide Value, Congruent, Power;
    PowerSum(z, a, b);
    CongruentProduct(Held(input), Power(z, a), Held(in2), Power(z, b));
    ghost var p := Held(input) * Held(in2);
    FMul(output, input, in2);
    Transitive(Held(output), p, Power(z, a + b));
  }

  method SquareOnce(output: array<i64>, input: array<i64>, ghost z: int, ghost e: nat)
    requires output.Length >= 10 && Raised(input, z, e)
    modifies output
    ensures Raised(output, z, 2 * e)
  {
    hide Value, Congruent, Power;
    PowerSum(z, e, e);
    CongruentProduct(Held(input), Power(z, e), Held(input), Power(z, e));
    ghost var p := Held(input) * Held(input);
    FSquare(output, input);
    Transitive(Held(output), p, Power(z, 2 * e));
  }

  /** Square n times, back and forth between two buffers; the result is in the second. */
  method SquarePairs(first: array<i64>, second: array<i64>, input: array<i64>, n: nat, ghost z: int, ghost e: nat)
    requires first != second && first.Length >= 10 && second.Length >= 10
    requires n >= 2 && n % 2 == 0 && Raised(input, z, e)
    modifies first, second
    ensures Raised(second, z, Pow2(n) * e)
  {
    hide Raised;
    SquareOnce(first, input, z, e);
    SquareOnce(second, first, z, 2 * e);
    assert Pow2(2) == 4;
    var i := 2;
    while i < n
      invariant 2 <= i <= n && i % 2 == 0
      invariant Raised(second, z, Pow2(i) * e)
    {
      SquareOnce(first, second, z, Pow2(i) * e);
      SquareOnce(second, first, z, Pow2(i + 1) * e);
      i := i + 2;
    }
  }

  /** z^11 in z11 and z^31 in z31. */
  method Beginning(z11: array<i64>, z31: array<i64>, input: array<i64>, ghost z: int)
    requires z11 != z31 && z11.Length == z31.Length == 10 && Raised(input, z, 1)
    requires input != z11 && input != z31
    modifies z11, z31
    ensures Raised(z11, z, 11) && Raised(z31, z, Pow2(5) - 1)
  {
    hide Raised;
    var z2, z9, t0, t1 := new i64[10], new i64[10], new i64[10], new i64[10];
    SquareOnce(z2, input, z, 1);
    SquareOnce(t1, z2, z, 2);
    SquareOnce(t0, t1, z, 4);
    Multiply(z9, t0, input, z, 8, 1);
    Multiply(z11, z9, z2, z, 9, 2);
    SquareOnce(t0, z11, z, 11);
    Multiply(z31, t0, z9, z, 22, 9);
    SmallOnes();
  }

  /** z^(2^50 - 1), by way of 2^10, 2^20 and 2^40 less one. */
  method Fifty(output: array<i64>, z31: array<i64>, ghost z: int)
    requires output != z31 && output.Length == 10 && Raised(z31, z, Pow2(5) - 1)
    modifies output
    ensures Raised(output, z, Pow2(50) - 1)
  {
    hide Raised, Pow2;
    var z2_10_0, z2_20_0, t0, t1 := new i64[10], new i64[10], new i64[10], new i64[10];
    FiveSquarings(t0, t1, z31, z, Pow2(5) - 1);
    Multiply(z2_10_0, t0, z31, z, Pow2(5) * (Pow2(5) - 1), Pow2(5) - 1);
    JoinOnes(5, 5);
    SquarePairs(t0, t1, z2_10_0, 10, z, Pow2(10) - 1);
    Multiply(z2_20_0, t1, z2_10_0, z, Pow2(10) * (Pow2(10) - 1), Pow2(10) - 1);
    JoinOnes(10, 10);
    SquarePairs(t0, t1, z2_20_0, 20, z, Pow2(20) - 1);
    Multiply(t0, t1, z2_20_0, z, Pow2(20) * (Pow2(20) - 1), Pow2(20) - 1);
    JoinOnes(20, 20);
    SquarePairs(t1, t0, t0, 10, z, Pow2(40) - 1);
    Multiply(output, t0, z2_10_0, z, Pow2(10) * (Pow2(40) - 1), Pow2(10) - 1);
    JoinOnes(40, 10);
  }

  method FiveSquarings(t0: array<i64>, t1: array<i64>, input: array<i64>, ghost z: int, ghost e: nat)
    requires t0 != t1 && t0.Length >= 10 && t1.Length >= 10 && Raised(input, z, e)
    modifies t0, t1
    ensures Raised(t0, z, Pow2(5) * e)
  {
    hide Raised;
    SquareOnce(t0, input, z, e);
    SquareOnce(t1, t0, z, 2 * e);
    SquareOnce(t0, t1, z, 4 * e);
    SquareOnce(t1, t0, z, 8 * e);
    SquareOnce(t0, t1, z, 16 * e);
    SmallOnes();
  }

  /** z^(2^250 - 1), by way of 2^100 and 2^200 less one. */
  method TwoHundredFifty(output: array<i64>, z2_50_0: array<i64>, ghost z: int)
    requires output != z2_50_0 && output.Length == 10 && Raised(z2_50_0, z, Pow2(50) - 1)
    modifies output
    ensures Raised(output, z, Pow2(250) - 1)
  {
    hide Raised, Pow2;
    var z2_100_0, t0, t1 := new i64[10], new i64[10], new i64[10];
    SquarePairs(t0, t1, z2_50_0, 50, z, Pow2(50) - 1);
    Multiply(z2_100_0, t1, z2_50_0, z, Pow2(50) * (Pow2(50) - 1), Pow2(50) - 1);
    JoinOnes(50, 50);
    SquarePairs(t1, t0, z2_100_0, 100, z, Pow2(100) - 1);
    Multiply(t1, t0, z2_100_0, z, Pow2(100) * (Pow2(100) - 1), Pow2(100) - 1);
    JoinOnes(100, 100);
    SquarePairs(t0, t1, t1, 50, z, Pow2(200) - 1);
    Multiply(output, t1, z2_50_0, z, Pow2(50) * (Pow2(200) - 1), Pow2(50) - 1);
    JoinOnes(200, 50);
  }

  /** The exponent is 2^255 - 21, which is P - 2. */
  method CRecip(output: array<i64>, input: array<i64>)
    requires output.Length >= 10 && Fits(input, BELOW26)
    modifies output
    ensures Fits(output, BELOW26)
    ensures Congruent(Held(output), Power(old(Held(input)), P - 2))
  {
    hide Raised, Pow2, Power, Value, Congruent;
    ghost var z := Held(input);
    RaisedItself(input);
    var z11, z2_5_0, z2_50_0 := new i64[10], new i64[10], new i64[10];
    var t0, t1 := new i64[10], new i64[10];
    Beginning(z11, z2_5_0, input, z);
    Fifty(z2_50_0, z2_5_0, z);
    TwoHundredFifty(t0, z2_50_0, z);
    FiveSquarings(t1, t0, t0, z, Pow2(250) - 1);
    Multiply(output, t1, z11, z, Pow2(5) * (Pow2(250) - 1), 11);
    JoinOnes(250, 5);
    SmallOnes();
    Pow2Of255();
    RaisedIs(output, z, P - 2);
  }

  lemma RaisedItself(a: array<i64>)
    requires Fits(a, BELOW26)
    ensures Raised(a, Held(a), 1)
  {
    assert Power(Held(a), 1) == Held(a) * Power(Held(a), 0);
    Reflexive(Held(a));
  }

  lemma RaisedIs(a: array<i64>, z: int, e: nat)
    requires Raised(a, z, e)
    ensures Fits(a, BELOW26) && Congruent(Held(a), Power(z, e))
  {
  }
}
