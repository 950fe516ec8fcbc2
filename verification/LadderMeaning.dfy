/** What the ladder of DonnaLadder computes: the multiple of the base point by the number that the bits spell, in any
 *  group whose x-coordinates add up as those of the curve v^2 = u^3 + 486662 u^2 + u do. */
module LadderMeaning {
  import opened Words
  import opened Recoding
  import opened Limbs
  import FieldChains
  import opened Fermat
  import opened AbelianGroup
  import opened DonnaLadder
  import opened Curve25519

  // ----- doubling, and adding two points of known difference -----

  function DoubledX(x: int, z: int): int { (x * x - z * z) * (x * x - z * z) }
  function DoubledZ(x: int, z: int): int { 4 * (x * z) * (x * x + 486662 * (x * z) + z * z) }
  function AddedX(x: int, z: int, x': int, z': int): int { 4 * ((x * x' - z * z') * (x * x' - z * z')) }
  function AddedZ(x1: int, x: int, z: int, x': int, z': int): int { 4 * x1 * (x' * z - z' * x) * (x' * z - z' * x) }

  /** names(q, x, z) says that (x : z) are coordinates of q. The difference of the two points is base, in either
   *  order: q and -q have the same coordinates. */
  ghost predicate CurveLaw<Q(!new)>(g: Group<Q>, names: (Q, int, int) -> bool, base: Q, x1: int) {
    forall q: Q, x, z, q': Q, x', z' ::
      names(q, x, z) && names(q', x', z') && (q' == g.add(q, base) || q == g.add(q', base)) ==>
      && names(g.add(q, q), DoubledX(x, z), DoubledZ(x, z))
      && names(g.add(q, q'), AddedX(x, z, x', z'), AddedZ(x1, x, z, x', z'))
  }

  lemma StepNames<Q(!new)>(g: Group<Q>, names: (Q, int, int) -> bool, base: Q, x1: int, q: Q, q': Q, s: Rungs)
    requires CurveLaw(g, names, base, x1) && names(q, s.x2, s.z2) && names(q', s.x3, s.z3)
    requires q' == g.add(q, base) || q == g.add(q', base)
    ensures var r := Step(x1, s);
      names(g.add(q, q), r.x2, r.z2) && names(g.add(q, q'), r.x3, r.z3)
  {
    StepOnCurve(x1, s.x2, s.z2, s.x3, s.z3);
    hide Step;
    assert s == Rungs(s.x2, s.z2, s.x3, s.z3);
    var r := Step(x1, s);
    assert names(g.add(q, q), DoubledX(s.x2, s.z2), DoubledZ(s.x2, s.z2));
    assert r.x2 == DoubledX(s.x2, s.z2);
    assert r.z2 == DoubledZ(s.x2, s.z2);
    assert r.x3 == AddedX(s.x2, s.z2, s.x3, s.z3);
    assert r.z3 == AddedZ(x1, s.x2, s.z2, s.x3, s.z3);
  }

  // ----- the ladder -----

  /** The number that bits spell, the most significant first. */
  function Spelt(bits: seq<int>): int {
    if bits == [] then 0 else 2 * Spelt(bits[..|bits| - 1]) + bits[|bits| - 1]
  }

  lemma TwiceOf<Q(!new)>(g: Group<Q>, n: int, base: Q)
    requires Abelian(g)
    ensures var q, next := Times(g, n, base), Times(g, n + 1, base);
      && next == g.add(q, base)
      && g.add(q, q) == Times(g, 2 * n, base) && g.add(next, next) == Times(g, 2 * n + 2, base)
      && g.add(q, next) == Times(g, 2 * n + 1, base) && g.add(next, q) == Times(g, 2 * n + 1, base)
  {
    hide Abelian;
    TimesNext(g, n, base);
    TimesAdd(g, n, n, base);
    TimesAdd(g, n, n + 1, base);
    TimesAdd(g, n + 1, n, base);
    TimesAdd(g, n + 1, n + 1, base);
    hide Times;
  }

  /** Over any bits, the two rungs are coordinates of n times the base point and of n + 1 times. */
  lemma {:induction false} LadderIsMultiple<Q(!new)>(g: Group<Q>, names: (Q, int, int) -> bool, base: Q, x1: int,
                                                     bits: seq<int>)
    requires Abelian(g) && CurveLaw(g, names, base, x1) && names(g.zero, 1, 0) && names(base, x1, 1)
    requires forall i :: 0 <= i < |bits| ==> 0 <= bits[i] <= 1
    ensures var s, n := Ladder(x1, bits), Spelt(bits);
      names(Times(g, n, base), s.x2, s.z2) && names(Times(g, n + 1, base), s.x3, s.z3)
  {
    hide Abelian, CurveLaw, Step, Times;
    if bits == [] {
      TimesOne(g, base);
    } else {
      var front, bit := bits[..|bits| - 1], bits[|bits| - 1];
      LadderIsMultiple(g, names, base, x1, front);
      var s, n := Ladder(x1, front), Spelt(front);
      var q, next := Times(g, n, base), Times(g, n + 1, base);
      TwiceOf(g, n, base);
      if bit == 1 {
        StepNames(g, names, base, x1, next, q, Swapped(s));
      } else {
        StepNames(g, names, base, x1, q, next, s);
      }
    }
  }

  // ----- the bits of a scalar -----

  /** The bits that the ladder goes through spell the little-endian number of the bytes. */
  lemma {:induction false} TopBitsSpell(n: seq<byte>)
    ensures Spelt(TopBits(n)) == BytesValue(n)
  {
    if n != [] {
      TopBitsSpell(n[1..]);
      LowByteLast(n);
      SpeltEight(TopBits(n[1..]), n[0]);
      ByteBits(n[0]);
      hide TopBits, Spelt;
    }
  }

  /** The bits of a byte, the most significant first. */
  function Eight(x: byte): seq<int> {
    [x / 128 % 2, x / 64 % 2, x / 32 % 2, x / 16 % 2, x / 8 % 2, x / 4 % 2, x / 2 % 2, x / 1 % 2]
  }

  lemma LowByteLast(n: seq<byte>)
    requires n != []
    ensures TopBits(n) == TopBits(n[1..]) + Eight(n[0])
  {
    var top := TopBits(n);
    SmallPowers();
    hide Pow2;
    forall i | 0 <= i < |top|
      ensures top[i] == (TopBits(n[1..]) + Eight(n[0]))[i]
    {
      var k := 8 * |n| - 1 - i;
      assert top[i] == Bit(n, k);
      if i < 8 * |n[1..]| {
        assert (k - 8) / 8 == k / 8 - 1 && (k - 8) % 8 == k % 8;
        assert TopBits(n[1..])[i] == Bit(n[1..], k - 8);
      } else {
        assert (TopBits(n[1..]) + Eight(n[0]))[i] == Eight(n[0])[7 - k];
        assert k < 8 && k / 8 == 0 && k % 8 == k;
        assert k == 0 || k == 1 || k == 2 || k == 3 || k == 4 || k == 5 || k == 6 || k == 7;
      }
    }
  }

  lemma SpeltNext(bits: seq<int>, b: int)
    ensures Spelt(bits + [b]) == 2 * Spelt(bits) + b
  {
    assert (bits + [b])[..|bits|] == bits;
  }

  lemma SpeltTwo(bits: seq<int>, b: int, c: int)
    ensures Spelt(bits + [b, c]) == 4 * Spelt(bits) + 2 * b + c
  {
    SpeltNext(bits, b);
    SpeltNext(bits + [b], c);
    hide Spelt;
    assert bits + [b, c] == bits + [b] + [c];
  }

  lemma SpeltFour(bits: seq<int>, b: int, c: int, d: int, e: int)
    ensures Spelt(bits + [b, c, d, e]) == 16 * Spelt(bits) + 8 * b + 4 * c + 2 * d + e
  {
    SpeltTwo(bits, b, c);
    SpeltTwo(bits + [b, c], d, e);
    hide Spelt;
    assert bits + [b, c, d, e] == bits + [b, c] + [d, e];
  }

  lemma SpeltEight(bits: seq<int>, x: byte)
    ensures var e := Eight(x);
      Spelt(bits + e) == 256 * Spelt(bits) + 128 * e[0] + 64 * e[1] + 32 * e[2] + 16 * e[3] + 8 * e[4] + 4 * e[5]
                         + 2 * e[6] + e[7]
  {
    var e := Eight(x);
    SpeltFour(bits, e[0], e[1], e[2], e[3]);
    SpeltFour(bits + e[..4], e[4], e[5], e[6], e[7]);
    hide Spelt;
    assert e[..4] == [e[0], e[1], e[2], e[3]];
    assert bits + e == bits + e[..4] + [e[4], e[5], e[6], e[7]];
  }

  /** So the ladder over a scalar names the multiple by the number that the scalar stands for. */
  lemma ScalarMultiple<Q(!new)>(g: Group<Q>, names: (Q, int, int) -> bool, base: Q, x1: int, k: seq<byte>)
    requires Abelian(g) && CurveLaw(g, names, base, x1) && names(g.zero, 1, 0) && names(base, x1, 1)
    ensures var s := RfcLadder(x1, TopBits(k));
      names(Times(g, BytesValue(k), base), s.x2, s.z2) && names(Times(g, BytesValue(k) + 1, base), s.x3, s.z3)
  {
    LadderIsRfc(x1, TopBits(k));
    LadderIsMultiple(g, names, base, x1, TopBits(k));
    TopBitsSpell(k);
    hide RfcLadder, Ladder, TopBits, CurveLaw, Abelian, Times;
  }

  // ----- division -----

  lemma OneMorePower(x: int, z: int)
    ensures x * FieldChains.Power(z, P - 2) * z == x * FieldChains.Power(z, P - 1)
  {
    assert FieldChains.Power(z, P - 1) == z * FieldChains.Power(z, P - 2);
    hide FieldChains.Power;
  }

  lemma FermatAt(z: int)
    requires Prime(P) && z % P != 0
    ensures Congruent(FieldChains.Power(z, P - 1), 1)
  {
    var a := z % P;
    assert a % P == a;
    assert !Divides(P, a);
    PowerIsOne(P, a);
    hide Prime, FieldChains.Power, Congruent;
    CongruentToMod(z);
    PowerCongruent(z, a, P - 1);
    MultipleOf(P, FieldChains.Power(a, P - 1) - 1);
    CongruentBy(FieldChains.Power(a, P - 1), 1, (FieldChains.Power(a, P - 1) - 1) / P);
    Transitive(FieldChains.Power(z, P - 1), FieldChains.Power(a, P - 1), 1);
  }

  /** Multiplying by the power P - 2 of a number is division by it; by zero it gives zero. */
  lemma QuotientIs(x: int, z: int)
    requires Prime(P)
    ensures var q := x * FieldChains.Power(z, P - 2) % P;
      && (z % P != 0 ==> Congruent(q * z, x))
      && (z % P == 0 ==> q == 0)
  {
    hide Prime, FieldChains.Power, Congruent;
    var power, q := FieldChains.Power(z, P - 2), x * FieldChains.Power(z, P - 2) % P;
    if z % P != 0 {
      CongruentToMod(x * power);
      Symmetric(x * power, q);
      Reflexive(z);
      CongruentProduct(q, x * power, z, z);
      OneMorePower(x, z);
      FermatAt(z);
      Reflexive(x);
      CongruentProduct(x, x, FieldChains.Power(z, P - 1), 1);
      Transitive(q * z, x * power * z, x * 1);
    } else {
      CongruentIffMod(z, 0);
      PowerCongruent(z, 0, P - 2);
      PowerOfZero(P - 2);
      Reflexive(x);
      CongruentProduct(x, x, power, 0);
      CongruentIffMod(x * power, x * 0);
    }
  }

  /** The result for a scalar k and a point is the quotient x / z of coordinates of k times this point. */
  lemma ResultIsMultiple<Q(!new)>(g: Group<Q>, names: (Q, int, int) -> bool, base: Q, u: int, k: seq<byte>)
    requires Abelian(g) && CurveLaw(g, names, base, u) && names(g.zero, 1, 0) && names(base, u, 1) && Prime(P)
    ensures exists x, z :: names(Times(g, BytesValue(k), base), x, z)
                           && (z % P != 0 ==> Congruent(X25519(k, u) * z, x)) && (z % P == 0 ==> X25519(k, u) == 0)
  {
    ScalarMultiple(g, names, base, u, k);
    var s := RfcLadder(u, TopBits(k));
    QuotientIs(s.x2, s.z2);
    hide RfcLadder, TopBits, CurveLaw, Abelian, Times, Prime, Congruent, FieldChains.Power;
  }
}
