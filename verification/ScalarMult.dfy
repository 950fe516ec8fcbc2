/** The two scalar multiplications of lib/ed25519/src/ge.c over an abstract abelian group. The
 *  precomputed tables are given by what they hold: Bi[j] is (2j+1)B and base[pos][j] is
 *  (j+1)256^pos B. */
module ScalarMult {
  import opened Words
  import opened Recoding
  import opened SlidingWindow
  import opened AbelianGroup

  // ----- a*A + b*B -----

  ghost predicate OddMultiples<P(!new)>(g: Group<P>, table: seq<P>, p: P) {
    |table| == 8 && forall j :: 0 <= j < 8 ==> table[j] == Times(g, 2 * j + 1, p)
  }

  /** A, 3A, ..., 15A, each the one before plus 2A. */
  method OddTable<P(!new)>(g: Group<P>, p: P) returns (table: seq<P>)
    requires Abelian(g)
    ensures OddMultiples(g, table, p)
  {
    hide Abelian;
    TimesOne(g, p);
    TimesAdd(g, 1, 1, p);
    var twice := g.add(p, p);
    table := [p];
    while |table| < 8
      invariant 1 <= |table| <= 8
      invariant forall j :: 0 <= j < |table| ==> table[j] == Times(g, 2 * j + 1, p)
    {
      var last := |table| - 1;
      TimesAdd(g, 2, 2 * last + 1, p);
      table := table + [g.add(twice, table[last])];
    }
  }

  /** Add the odd multiple that a slide digit stands for. */
  method AddDigit<P(!new)>(g: Group<P>, t: P, table: seq<P>, d: int, ghost p: P) returns (r: P)
    requires Abelian(g) && OddMultiples(g, table, p) && SlideDigit(d)
    ensures r == g.add(t, Times(g, d, p))
  {
    hide Abelian;
    if d > 0 {
      r := g.add(t, table[d / 2]);
    } else if d < 0 {
      TimesNeg(g, -d, p);
      r := g.add(t, g.neg(table[(-d) / 2]));
    } else {
      Unit(g, t);
      r := t;
    }
  }

  /** One turn of the main loop: double, then add both digits. */
  method DoubleAndAdd<P(!new)>(g: Group<P>, r: P, Ai: seq<P>, da: int, Bi: seq<P>, db: int,
                               ghost va: int, ghost pointA: P, ghost vb: int, ghost pointB: P)
    returns (r': P)
    requires Abelian(g) && OddMultiples(g, Ai, pointA) && OddMultiples(g, Bi, pointB)
    requires SlideDigit(da) && SlideDigit(db) && r == Combo(g, va, pointA, vb, pointB)
    ensures r' == Combo(g, da + 2 * va, pointA, db + 2 * vb, pointB)
  {
    hide *;
    var t := g.add(r, r);
    ComboAdd(g, pointA, pointB, va, vb, va, vb);
    t := AddDigit(g, t, Ai, da, pointA);
    ComboAddOne(g, pointA, pointB, va + va, vb + vb, da);
    t := AddDigit(g, t, Bi, db, pointB);
    ComboAddOne(g, pointA, pointB, va + va + da, vb + vb, db);
    r' := t;
  }

  lemma {:induction false} ZeroDigits(s: seq<int>)
    requires forall k :: 0 <= k < |s| ==> s[k] == 0
    ensures Val(2, s) == 0
  {
    if s != [] {
      ZeroDigits(s[1..]);
    }
  }

  /** The value of the digits from place i on. */
  function From(s: seq<int>, i: nat): int
    requires i <= |s|
  {
    Val(2, s[i..])
  }

  lemma NextDigit(s: seq<int>, i: nat)
    requires i < |s|
    ensures From(s, i) == s[i] + 2 * From(s, i + 1)
    ensures From(s, 0) == Val(2, s)
  {
    assert s[i..][1..] == s[i + 1..] && s[0..] == s;
  }

  /** The last place where either digit string is nonzero, or -1. */
  method LastNonzero(aslide: seq<int>, bslide: seq<int>) returns (i: int)
    requires |aslide| == |bslide| == 256
    ensures -1 <= i <= 255
    ensures From(aslide, i + 1) == 0 && From(bslide, i + 1) == 0
  {
    hide Val, From;
    i := 255;
    while i >= 0
      invariant -1 <= i <= 255
      invariant forall k :: i < k < 256 ==> aslide[k] == 0 && bslide[k] == 0
    {
      if aslide[i] != 0 || bslide[i] != 0 {
        break;
      }
      i := i - 1;
    }
    ZeroFrom(aslide, i + 1);
    ZeroFrom(bslide, i + 1);
  }

  lemma ZeroFrom(s: seq<int>, i: nat)
    requires i <= |s|
    requires forall k :: i <= k < |s| ==> s[k] == 0
    ensures From(s, i) == 0
  {
    ZeroDigits(s[i..]);
  }

  /** The main loop, from the highest nonzero place down. */
  method Accumulate<P(!new)>(g: Group<P>, aslide: seq<int>, Ai: seq<P>, bslide: seq<int>, Bi: seq<P>,
                             ghost pointA: P, ghost pointB: P)
    returns (r: P)
    requires Abelian(g) && OddMultiples(g, Ai, pointA) && OddMultiples(g, Bi, pointB)
    requires |aslide| == |bslide| == 256
    requires forall k :: 0 <= k < 256 ==> SlideDigit(aslide[k]) && SlideDigit(bslide[k])
    ensures r == Combo(g, Val(2, aslide), pointA, Val(2, bslide), pointB)
  {
    hide *;
    r := g.zero;
    var i := LastNonzero(aslide, bslide);
    ComboZero(g, pointA, pointB);
    while i >= 0
      invariant -1 <= i <= 255
      invariant r == Combo(g, From(aslide, i + 1), pointA, From(bslide, i + 1), pointB)
    {
      ghost var va, vb := From(aslide, i + 1), From(bslide, i + 1);
      NextDigit(aslide, i);
      NextDigit(bslide, i);
      var da, db := aslide[i], bslide[i];
      r := DoubleAndAdd(g, r, Ai, da, Bi, db, va, pointA, vb, pointB);
      i := i - 1;
    }
    NextDigit(aslide, 0);
    NextDigit(bslide, 0);
  }

  /** ge_double_scalarmult_vartime */
  method DoubleScalarMult<P(!new)>(g: Group<P>, a: seq<byte>, pointA: P, b: seq<byte>, pointB: P, Bi: seq<P>)
    returns (r: P)
    requires Abelian(g) && OddMultiples(g, Bi, pointB)
    requires |a| == |b| == 32 && BytesValue(a) < Pow(2, 253) && BytesValue(b) < Pow(2, 253)
    ensures r == Combo(g, BytesValue(a), pointA, BytesValue(b), pointB)
  {
    hide Abelian, Combo, Pow, OddMultiples, SlideDigit, Val, BytesValue;
    var aslide := new int[256];
    var bslide := new int[256];
    Slide(aslide, a);
    Slide(bslide, b);
    var Ai := OddTable(g, pointA);
    r := Accumulate(g, aslide[..], Ai, bslide[..], Bi, pointA, pointB);
  }

  lemma ComboZero<P(!new)>(g: Group<P>, p: P, q: P)
    requires Abelian(g)
    ensures Combo(g, 0, p, 0, q) == g.zero
  {
    Unit(g, g.zero);
  }

  // ----- a*B from the radix-16 table -----

  ghost predicate BaseTable<P(!new)>(g: Group<P>, base: seq<seq<P>>, p: P) {
    && |base| == 32 && (forall pos :: 0 <= pos < 32 ==> |base[pos]| == 8)
    && forall pos, j :: 0 <= pos < 32 && 0 <= j < 8 ==> base[pos][j] == Times(g, (j + 1) * Pow(256, pos), p)
  }

  /** select: a constant-time walk over the row, then a conditional negation. */
  method Select<P(!new)>(g: Group<P>, base: seq<seq<P>>, pos: nat, b: int, ghost p: P) returns (t: P)
    requires Abelian(g) && BaseTable(g, base, p) && pos < 32 && -8 <= b <= 8
    ensures t == Times(g, b * Pow(256, pos), p)
  {
    hide Abelian, Pow;
    var babs := if b < 0 then -b else b;
    t := g.zero;
    var j := 0;
    while j < 8
      invariant 0 <= j <= 8
      invariant t == if 1 <= babs <= j then Times(g, babs * Pow(256, pos), p) else g.zero
    {
      if babs == j + 1 {
        t := base[pos][j];
      }
      j := j + 1;
    }
    TimesOne(g, p);
    assert b == 0 ==> b * Pow(256, pos) == 0;
    if b < 0 {
      TimesNeg(g, babs * Pow(256, pos), p);
      assert -(babs * Pow(256, pos)) == b * Pow(256, pos);
      t := g.neg(t);
    }
  }

  /** The digits of one parity below place n, weighted by powers of 256. */
  function HalfSum(e: seq<int>, parity: nat, n: nat): int
    requires n <= |e| && parity < 2
  {
    if n == 0 then 0
    else HalfSum(e, parity, n - 1) + if (n - 1) % 2 == parity then e[n - 1] * Pow(256, (n - 1) / 2) else 0
  }

  lemma {:induction false} SquarePowers(n: nat)
    ensures Pow(16, 2 * n) == Pow(256, n) && Pow(16, 2 * n + 1) == 16 * Pow(256, n)
  {
    if n > 0 {
      SquarePowers(n - 1);
    }
  }

  lemma ValAppend(s: seq<int>, n: nat)
    requires n < |s|
    ensures Val(16, s[..n + 1]) == Val(16, s[..n]) + s[n] * Pow(16, n)
  {
    ValSplit(16, s[..n + 1], n);
    assert s[..n + 1][..n] == s[..n] && s[..n + 1][n..] == [s[n]];
    assert Val(16, [s[n]]) == s[n] + 16 * Val(16, []);
  }

  /** The odd half times 16, plus the even half, is the number. */
  lemma {:induction false} HalvesMakeValue(e: seq<int>, n: nat)
    requires n <= |e|
    ensures 16 * HalfSum(e, 1, n) + HalfSum(e, 0, n) == Val(16, e[..n])
  {
    if n > 0 {
      hide Val, Pow;
      HalvesMakeValue(e, n - 1);
      ValAppend(e, n - 1);
      SquarePowers((n - 1) / 2);
      var d, p := e[n - 1], Pow(256, (n - 1) / 2);
      assert d * (16 * p) == 16 * (d * p);
    } else {
      assert e[..0] == [];
    }
  }

  /** One of the two passes: add e[i] * 256^(i/2) * B for every other place. */
  method AddHalf<P(!new)>(g: Group<P>, h: P, base: seq<seq<P>>, e: seq<int>, parity: nat, ghost n: int, ghost p: P)
    returns (r: P)
    requires Abelian(g) && BaseTable(g, base, p) && parity < 2
    requires |e| == 64 && forall k :: 0 <= k < 64 ==> -8 <= e[k] <= 8
    requires h == Times(g, n, p)
    ensures r == Times(g, n + HalfSum(e, parity, 64), p)
  {
    hide Abelian, BaseTable, Times, Pow;
    r := h;
    var i := parity;
    while i < 64
      invariant parity <= i <= 65 && i % 2 == parity
      invariant r == Times(g, n + HalfSum(e, parity, if i <= 64 then i else 64), p)
    {
      var t := Select(g, base, i / 2, e[i], p);
      TimesAdd(g, n + HalfSum(e, parity, i), e[i] * Pow(256, i / 2), p);
      r := g.add(r, t);
      i := i + 2;
    }
  }

  method Double<P(!new)>(g: Group<P>, h: P, ghost n: int, ghost p: P) returns (r: P)
    requires Abelian(g) && h == Times(g, n, p)
    ensures r == Times(g, 2 * n, p)
  {
    hide Abelian;
    TimesAdd(g, n, n, p);
    r := g.add(h, h);
  }

  /** The odd pass, four doublings, and the even pass. */
  method FromNibbles<P(!new)>(g: Group<P>, e: seq<int>, base: seq<seq<P>>, ghost p: P) returns (h: P)
    requires Abelian(g) && BaseTable(g, base, p)
    requires |e| == 64 && forall k :: 0 <= k < 64 ==> -8 <= e[k] <= 8
    ensures h == Times(g, Val(16, e), p)
  {
    hide *;
    ghost var odd := HalfSum(e, 1, 64);
    TimesOne(g, p);
    h := AddHalf(g, g.zero, base, e, 1, 0, p);
    h := Double(g, h, odd, p);
    h := Double(g, h, 2 * odd, p);
    h := Double(g, h, 4 * odd, p);
    h := Double(g, h, 8 * odd, p);
    h := AddHalf(g, h, base, e, 0, 16 * odd, p);
    HalvesMakeValue(e, 64);
    assert e[..64] == e;
  }

  /** ge_scalarmult_base */
  method ScalarMultBase<P(!new)>(g: Group<P>, a: seq<byte>, base: seq<seq<P>>, ghost p: P) returns (h: P)
    requires Abelian(g) && BaseTable(g, base, p)
    requires |a| == 32 && a[31] <= 127
    ensures h == Times(g, BytesValue(a), p)
  {
    hide *;
    var e := new int[64];
    SignedNibbles(e, a);
    h := FromNibbles(g, e[..], base, p);
  }
}
