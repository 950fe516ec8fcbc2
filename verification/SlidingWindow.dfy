/** slide (lib/ed25519/src/ge.c): 256 bits rewritten in place as sparse signed odd digits. */
module SlidingWindow {
  import opened Words
  import opened Recoding

  // ----- bounds -----

  ghost predicate Binary(s: seq<int>, from: nat) {
    forall k :: from <= k < |s| ==> 0 <= s[k] <= 1
  }

  /** Zero, or odd and at most 15 in magnitude. */
  ghost predicate SlideDigit(d: int) {
    d == 0 || (d % 2 == 1 && -15 <= d <= 15)
  }

  /** The most that the digits from place i on may still amount to. */
  ghost function Cap(i: nat): int {
    if i <= 253 then Pow(2, 253 - i) else 0
  }

  ghost predicate Capped(s: seq<int>, i: nat)
    requires i <= |s|
  {
    Val(2, s[i..]) <= Cap(i)
  }

  lemma {:induction false} BinaryValue(s: seq<int>)
    requires Binary(s, 0)
    ensures Val(2, s) >= 0
    ensures forall k :: 0 <= k < |s| && s[k] == 1 ==> Val(2, s) >= Pow(2, k)
  {
    if s != [] {
      BinaryValue(s[1..]);
      forall k | 0 <= k < |s| && s[k] == 1
        ensures Val(2, s) >= Pow(2, k)
      {
        if k > 0 {
          assert s[1..][k - 1] == 1;
        }
      }
    }
  }

  /** So no carry can run off the end: place 254 and up are zero. */
  lemma HighZero(s: seq<int>, i: nat, k: nat)
    requires i <= k < |s| && Binary(s, i) && Capped(s, i) && k > 253
    ensures s[k] == 0
  {
    BinaryValue(s[i..]);
    assert s[i..][k - i] == s[k];
    PowPositive(2, k - i);
    PowMonotone(2, if i <= 253 then 253 - i else 0, k - i);
  }

  lemma {:induction false} PowMonotone(b: nat, m: nat, n: nat)
    requires b >= 2 && m <= n
    ensures Pow(b, m) <= Pow(b, n)
    ensures m < n ==> Pow(b, m) < Pow(b, n)
  {
    PowPositive(b, n);
    if m < n {
      PowMonotone(b, m, n - 1);
    }
  }

  // ----- the carry -----

  /** The innermost loop: add 2^from, in binary, to the digits from place `from` on. */
  method Carry(r: array<int>, from: nat, ghost zero: nat)
    requires from <= zero < r.Length && r[zero] == 0 && Binary(r[..], from)
    modifies r
    ensures Val(2, r[..]) == old(Val(2, r[..])) + Pow(2, from)
    ensures r[..from] == old(r[..from]) && Binary(r[..], from)
    ensures old(r[from]) == 1 ==> r[from] == 0
  {
    ghost var was := r[..];
    var k := from;
    while k < r.Length
      invariant from <= k <= zero
      invariant r[..from] == was[..from] && Binary(r[..], from)
      invariant forall j :: k <= j < r.Length ==> r[j] == was[j]
      invariant from < k ==> r[from] == 0
      invariant Val(2, r[..]) + Pow(2, k) == Val(2, was) + Pow(2, from)
    {
      ghost var now := r[..];
      if r[k] == 0 {
        ValUpdate(2, now, k, 1);
        r[k] := 1;
        assert r[..] == now[k := 1];
        break;
      }
      ValUpdate(2, now, k, 0);
      r[k] := 0;
      assert r[..] == now[k := 0];
      k := k + 1;
    }
  }

  // ----- one digit -----

  /** What is known while the window of place i is being gathered. */
  ghost predicate Gathering(s: seq<int>, was: seq<int>, i: nat, b: nat) {
    && |s| == |was| == 256 && i < 256 && 1 <= b <= 7
    && Val(2, s) == Val(2, was)
    && s[..i] == was[..i] && Binary(s, i + 1)
    && (forall k :: i < k < 256 && k < i + b ==> s[k] == 0)
    && s[i] % 2 == 1 && -15 <= s[i] <= 15
    && (b == 1 ==> s[i] == 1) && (b == 2 ==> 1 <= s[i] <= 3) && (b == 3 ==> 1 <= s[i] <= 7)
    && (b == 4 ==> 1 <= s[i])
    && (s[i] < 0 ==> b >= 5 && i + 4 <= 253)
  }

  /** The digits from place i on have kept their value. */
  lemma TailValue(s: seq<int>, was: seq<int>, i: nat)
    requires i < |s| == |was| && Val(2, s) == Val(2, was) && s[..i] == was[..i]
    ensures Val(2, was[i..]) == s[i] + 2 * Val(2, s[i + 1..])
  {
    ValSplit(2, s, i);
    ValSplit(2, was, i);
    PowPositive(2, i);
    SameFactor(Pow(2, i), Val(2, s[i..]), Val(2, was[i..]));
    assert s[i..][1..] == s[i + 1..];
  }

  lemma CapDoubles(i: nat)
    ensures i < 253 ==> Cap(i) == 2 * Cap(i + 1)
    ensures i + 4 <= 253 ==> Cap(i + 1) == 8 * Cap(i + 4)
    ensures i == 253 ==> Cap(i) == 1 && Cap(i + 1) == 0
    ensures i > 253 ==> Cap(i) == 0 && Cap(i + 1) == 0
    ensures Cap(i + 1) >= 0
  {
    if i < 253 {
      PowPositive(2, 252 - i);
    }
    if i + 4 <= 253 {
      assert Cap(i + 1) == 2 * Cap(i + 2) && Cap(i + 2) == 2 * Cap(i + 3) && Cap(i + 3) == 2 * Cap(i + 4);
    }
  }

  lemma TailCapped(s: seq<int>, was: seq<int>, i: nat, b: nat)
    requires Gathering(s, was, i, b) && Binary(was, i) && Capped(was, i)
    ensures Capped(s, i + 1)
  {
    hide Val, Cap, Binary;
    TailValue(s, was, i);
    TailNonnegative(s, i);
    CapDoubles(i);
    if s[i] < 0 {
      FourPlaces(s, i);
      TailNonnegative4(s, i);
    }
  }

  lemma TailNonnegative4(s: seq<int>, i: nat)
    requires i + 4 < |s| && Binary(s, i + 1)
    ensures Val(2, s[i + 4..]) >= 0
  {
    BinaryValue(s[i + 4..]);
  }

  lemma TailNonnegative(s: seq<int>, i: nat)
    requires i < |s| && Binary(s, i + 1)
    ensures Val(2, s[i + 1..]) >= 0
  {
    BinaryValue(s[i + 1..]);
  }

  lemma SameFactor(p: int, x: int, y: int)
    requires p > 0 && p * x == p * y
    ensures x == y
  {
    assert x > y ==> p * (x - y) >= p;
    assert x < y ==> p * (y - x) >= p;
  }

  lemma FourPlaces(s: seq<int>, i: nat)
    requires i + 4 < |s| && s[i + 1] == s[i + 2] == s[i + 3] == 0
    ensures Val(2, s[i + 1..]) == 8 * Val(2, s[i + 4..])
  {
    assert s[i + 1..][1..] == s[i + 2..] && s[i + 2..][1..] == s[i + 3..] && s[i + 3..][1..] == s[i + 4..];
    assert Val(2, s[i + 3..]) == 2 * Val(2, s[i + 4..]);
    assert Val(2, s[i + 2..]) == 2 * Val(2, s[i + 3..]);
  }

  /** Fold the next set bit, b places up, into digit i, which gets 2^b larger. */
  method FoldUp(r: array<int>, i: nat, b: nat, ghost was: seq<int>)
    requires r.Length == 256 && i + b < 256 && b <= 3 && Gathering(r[..], was, i, b) && r[i + b] == 1
    modifies r
    ensures Gathering(r[..], was, i, b + 1)
  {
    ghost var s := r[..];
    var step := if b == 1 then 2 else if b == 2 then 4 else 8;
    WindowShift(i, b);
    ValUpdate(2, s, i, s[i] + step);
    ValUpdate(2, s[i := s[i] + step], i + b, 0);
    r[i] := r[i] + step * r[i + b];
    r[i + b] := 0;
    assert r[..] == s[i := s[i] + step][i + b := 0];
  }

  lemma WindowShift(i: nat, b: nat)
    requires 1 <= b <= 4
    ensures Pow(2, i + b) == (if b == 1 then 2 else if b == 2 then 4 else if b == 3 then 8 else 16) * Pow(2, i)
  {
    assert Pow(2, i + 1) == 2 * Pow(2, i);
    assert b >= 2 ==> Pow(2, i + 2) == 2 * Pow(2, i + 1);
    assert b >= 3 ==> Pow(2, i + 3) == 2 * Pow(2, i + 2);
    assert b >= 4 ==> Pow(2, i + 4) == 2 * Pow(2, i + 3);
  }

  /** Borrow 16 from the next window: digit i turns negative and a carry goes up. */
  method FoldDown(r: array<int>, i: nat, ghost was: seq<int>)
    requires r.Length == 256 && i + 4 < 256 && Gathering(r[..], was, i, 4) && r[i + 4] == 1
    requires Binary(was, i) && Capped(was, i)
    modifies r
    ensures Gathering(r[..], was, i, 5)
  {
    ghost var s := r[..];
    TailCapped(s, was, i, 4);
    CarryStops(s, i);
    WindowShift(i, 4);
    ValUpdate(2, s, i, s[i] - 16);
    SetDigit(r, i, r[i] - 16);
    Carry(r, i + 4, 254);
    hide Val, Pow, Cap, Capped;
    FoldedDown(s, r[..], was, i);
  }

  method SetDigit(r: array<int>, i: nat, d: int)
    requires i < r.Length
    modifies r
    ensures r[..] == old(r[..])[i := d]
  {
    r[i] := d;
  }

  lemma FoldedDown(s: seq<int>, r: seq<int>, was: seq<int>, i: nat)
    requires i + 4 <= 253 && Gathering(s, was, i, 4) && |r| == |s|
    requires r[..i + 4] == s[i := s[i] - 16][..i + 4] && Binary(r, i + 4) && r[i + 4] == 0
    requires Val(2, r) == Val(2, s) && s[i] <= 15
    ensures Gathering(r, was, i, 5)
  {
    hide Val;
    FrontOf(r, s, i);
    assert r[i] == s[i] - 16;
    forall k | i < k < 256 && k < i + 5
      ensures r[k] == 0
    {
      if k < i + 4 {
        assert r[k] == s[k];
      }
    }
    assert Binary(r, i + 1);
  }

  lemma FrontOf(r: seq<int>, s: seq<int>, i: nat)
    requires i + 4 <= |s| == |r| && r[..i + 4] == s[i := s[i] - 16][..i + 4]
    ensures r[..i] == s[..i] && r[i] == s[i] - 16
    ensures forall k :: i < k < i + 4 ==> r[k] == s[k]
  {
    assert forall k :: 0 <= k < i + 4 ==> r[k] == r[..i + 4][k];
  }

  lemma CarryStops(s: seq<int>, i: nat)
    requires |s| == 256 && i + 4 < 256 && Binary(s, i + 1) && Capped(s, i + 1) && s[i + 4] == 1
    ensures i + 4 <= 253 && s[254] == 0
  {
    if i + 4 > 253 {
      HighZero(s, i + 1, i + 4);
    }
    HighZero(s, i + 1, 254);
  }

  /** The window loop for one nonzero digit: b = 1..6, left as soon as neither fold fits. */
  method Gather(r: array<int>, i: nat)
    requires r.Length == 256 && i < 256 && Binary(r[..], i) && Capped(r[..], i) && r[i] == 1
    modifies r
    ensures Val(2, r[..]) == old(Val(2, r[..]))
    ensures r[..i] == old(r[..i]) && SlideDigit(r[i])
    ensures Binary(r[..], i + 1) && Capped(r[..], i + 1)
  {
    ghost var was := r[..];
    var b := 1;
    while b <= 6 && i + b < 256
      invariant 1 <= b <= 7
      invariant Gathering(r[..], was, i, b)
    {
      if r[i + b] != 0 {
        var step := if b == 1 then 2 else if b == 2 then 4 else if b == 3 then 8
                    else if b == 4 then 16 else if b == 5 then 32 else 64;
        if r[i] + r[i + b] * step <= 15 {
          FoldUp(r, i, b, was);
        } else if r[i] - r[i + b] * step >= -15 {
          FoldDown(r, i, was);
        } else {
          break;
        }
      }
      b := b + 1;
    }
    TailCapped(r[..], was, i, b);
  }

  // ----- the whole recoding -----

  method Slide(r: array<int>, a: seq<byte>)
    requires r.Length == 256 && |a| == 32 && BytesValue(a) < Pow(2, 253)
    modifies r
    ensures Val(2, r[..]) == BytesValue(a)
    ensures forall k :: 0 <= k < 256 ==> SlideDigit(r[k])
  {
    var i := 0;
    while i < 256
      invariant 0 <= i <= 256
      invariant r[..i] == Bits(a)[..i]
    {
      r[i] := a[i / 8] / Pow2(i % 8) % 2;
      i := i + 1;
    }
    assert r[..] == Bits(a);
    BitsValue(a);
    assert r[0..] == r[..];
    i := 0;
    while i < 256
      invariant 0 <= i <= 256
      invariant Val(2, r[..]) == BytesValue(a)
      invariant forall k :: 0 <= k < i ==> SlideDigit(r[k])
      invariant Binary(r[..], i) && Capped(r[..], i)
    {
      if r[i] != 0 {
        ghost var was := r[..];
        Gather(r, i);
        assert forall k :: 0 <= k < i ==> r[k] == r[..i][k] == was[..i][k];
      } else {
        SkipZero(r[..], i);
      }
      i := i + 1;
    }
  }

  lemma SkipZero(s: seq<int>, i: nat)
    requires i < |s| && s[i] == 0 && Binary(s, i) && Capped(s, i)
    ensures Capped(s, i + 1)
  {
    assert s[i..][1..] == s[i + 1..];
    BinaryValue(s[i + 1..]);
  }
}
