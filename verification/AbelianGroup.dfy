/** Integer multiples in any abelian group, standing for the curve points of ge.c. */
module AbelianGroup {

  datatype Group<!P> = Group(zero: P, add: (P, P) -> P, neg: P -> P)

  ghost predicate Abelian<P(!new)>(g: Group<P>) {
    && (forall a, b, c :: g.add(g.add(a, b), c) == g.add(a, g.add(b, c)))
    && (forall a, b :: g.add(a, b) == g.add(b, a))
    && (forall a :: g.add(g.zero, a) == a)
    && (forall a :: g.add(a, g.neg(a)) == g.zero)
  }

  // The laws one instance at a time, so that proofs below need not search.

  lemma Assoc<P(!new)>(g: Group<P>, a: P, b: P, c: P)
    requires Abelian(g)
    ensures g.add(g.add(a, b), c) == g.add(a, g.add(b, c))
  {
  }

  lemma Comm<P(!new)>(g: Group<P>, a: P, b: P)
    requires Abelian(g)
    ensures g.add(a, b) == g.add(b, a)
  {
  }

  lemma Unit<P(!new)>(g: Group<P>, a: P)
    requires Abelian(g)
    ensures g.add(g.zero, a) == a && g.add(a, g.zero) == a
  {
    Comm(g, a, g.zero);
  }

  lemma Inverse<P(!new)>(g: Group<P>, a: P)
    requires Abelian(g)
    ensures g.add(a, g.neg(a)) == g.zero && g.add(g.neg(a), a) == g.zero
  {
    Comm(g, a, g.neg(a));
  }

  /** n times p, for any integer n. */
  function Times<P>(g: Group<P>, n: int, p: P): P
    decreases if n < 0 then -n else n
  {
    if n == 0 then g.zero
    else if n > 0 then g.add(Times(g, n - 1, p), p)
    else g.add(Times(g, n + 1, p), g.neg(p))
  }

  lemma CancelRight<P(!new)>(g: Group<P>, a: P, b: P)
    requires Abelian(g)
    ensures g.add(g.add(a, g.neg(b)), b) == a
    ensures g.add(g.add(a, b), g.neg(b)) == a
  {
    Assoc(g, a, g.neg(b), b);
    Assoc(g, a, b, g.neg(b));
    Inverse(g, b);
    Unit(g, a);
  }

  lemma TimesNext<P(!new)>(g: Group<P>, n: int, p: P)
    requires Abelian(g)
    ensures Times(g, n + 1, p) == g.add(Times(g, n, p), p)
    ensures Times(g, n, p) == g.add(Times(g, n + 1, p), g.neg(p))
  {
    hide Abelian;
    if n < 0 {
      CancelRight(g, Times(g, n + 1, p), p);
    } else {
      CancelRight(g, Times(g, n, p), p);
    }
  }

  lemma {:induction false} TimesAdd<P(!new)>(g: Group<P>, m: int, n: int, p: P)
    requires Abelian(g)
    ensures Times(g, m + n, p) == g.add(Times(g, m, p), Times(g, n, p))
    decreases if n < 0 then -n else n
  {
    hide Abelian;
    if n == 0 {
      Unit(g, Times(g, m, p));
    } else if n > 0 {
      TimesAdd(g, m, n - 1, p);
      TimesNext(g, m + n - 1, p);
      Assoc(g, Times(g, m, p), Times(g, n - 1, p), p);
    } else {
      TimesAdd(g, m, n + 1, p);
      TimesNext(g, m + n, p);
      Assoc(g, Times(g, m, p), Times(g, n + 1, p), g.neg(p));
    }
  }

  lemma TimesOne<P(!new)>(g: Group<P>, p: P)
    requires Abelian(g)
    ensures Times(g, 1, p) == p && Times(g, 0, p) == g.zero
  {
    assert Times(g, 1, p) == g.add(Times(g, 0, p), p);
    Unit(g, p);
  }

  lemma TimesNeg<P(!new)>(g: Group<P>, n: int, p: P)
    requires Abelian(g)
    ensures Times(g, -n, p) == g.neg(Times(g, n, p))
  {
    hide Abelian;
    var x, y := Times(g, n, p), Times(g, -n, p);
    TimesAdd(g, n, -n, p);
    // y == (-x + x) + y == -x + (x + y) == -x
    Assoc(g, g.neg(x), x, y);
    Inverse(g, x);
    Unit(g, y);
    Unit(g, g.neg(x));
  }

  // ----- two points at once -----

  function Combo<P>(g: Group<P>, m: int, p: P, n: int, q: P): P {
    g.add(Times(g, m, p), Times(g, n, q))
  }

  lemma Interchange<P(!new)>(g: Group<P>, a: P, b: P, c: P, d: P)
    requires Abelian(g)
    ensures g.add(g.add(a, b), g.add(c, d)) == g.add(g.add(a, c), g.add(b, d))
  {
    hide Abelian;
    Assoc(g, a, b, g.add(c, d));
    Assoc(g, b, c, d);
    Comm(g, b, c);
    Assoc(g, c, b, d);
    Assoc(g, a, c, g.add(b, d));
  }

  lemma ComboAdd<P(!new)>(g: Group<P>, p: P, q: P, m: int, n: int, m': int, n': int)
    requires Abelian(g)
    ensures g.add(Combo(g, m, p, n, q), Combo(g, m', p, n', q)) == Combo(g, m + m', p, n + n', q)
  {
    hide Abelian;
    TimesAdd(g, m, m', p);
    TimesAdd(g, n, n', q);
    Interchange(g, Times(g, m, p), Times(g, n, q), Times(g, m', p), Times(g, n', q));
  }

  /** Adding a multiple of either point alone. */
  lemma ComboAddOne<P(!new)>(g: Group<P>, p: P, q: P, m: int, n: int, d: int)
    requires Abelian(g)
    ensures g.add(Combo(g, m, p, n, q), Times(g, d, p)) == Combo(g, m + d, p, n, q)
    ensures g.add(Combo(g, m, p, n, q), Times(g, d, q)) == Combo(g, m, p, n + d, q)
  {
    hide Abelian;
    ComboAdd(g, p, q, m, n, d, 0);
    ComboAdd(g, p, q, m, n, 0, d);
    Unit(g, Times(g, d, p));
    Unit(g, Times(g, d, q));
  }
}
