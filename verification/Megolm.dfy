/** The Megolm ratchet (src/megolm.c): the one-step and the jumping advance, over any HMAC.
 *
 * The shift and mask operations of the source are written as division and remainder by
 * the same powers of two. */
module Megolm {
  import opened Words

  const PARTS := 4

  /** HMAC-SHA-256 of a ratchet part with the one-byte seed of the part it is written to. */
  type Hmac<!K> = (K, nat) -> K

  /** The value of a ratchet: its four parts R(0)..R(3) and the 32-bit counter. */
  datatype State<K> = State(data: seq<K>, counter: u32) {
    ghost predicate Valid() { |data| == PARTS }
  }

  // ----- specification: one step at a time -----

  /** R(j) moves once every BlockSize(j) steps. */
  function BlockSize(j: nat): int {
    if j == 0 then TWO24 else if j == 1 then TWO16 else if j == 2 then TWO8 else 1
  }

  /** The lowest part that moves when the counter becomes c. */
  function Level(c: u32): nat {
    if c % TWO24 == 0 then 0 else if c % TWO16 == 0 then 1 else if c % TWO8 == 0 then 2 else 3
  }

  /** R(j)..R(3) all rehashed from R(j). */
  function Bump<K>(h: Hmac<K>, data: seq<K>, j: nat): (r: seq<K>)
    requires j < |data|
    ensures |r| == |data|
  {
    seq(|data|, i requires 0 <= i < |data| => if i < j then data[i] else h(data[j], i))
  }

  function Step<K>(h: Hmac<K>, m: State<K>): (r: State<K>)
    requires |m.data| == PARTS
    ensures |r.data| == PARTS
  {
    var c := Wrap32(m.counter + 1);
    State(Bump(h, m.data, Level(c)), c)
  }

  function Steps<K>(h: Hmac<K>, m: State<K>, n: nat): (r: State<K>)
    requires |m.data| == PARTS
    ensures |r.data| == PARTS
  {
    if n == 0 then m else Step(h, Steps(h, m, n - 1))
  }

  /** The four cases of the formula in docs/megolm.md: what each part is once the counter has become i. */
  lemma PartsByFormula<K>(h: Hmac<K>, m: State<K>)
    requires |m.data| == 4
    ensures var i := (m.counter + 1) % 0x1_0000_0000;
      var d := m.data;
      && Step(h, m).counter == i
      && (i % 0x100_0000 == 0 ==> Step(h, m).data == [h(d[0], 0), h(d[0], 1), h(d[0], 2), h(d[0], 3)])
      && (i % 0x100_0000 != 0 && i % 0x1_0000 == 0 ==> Step(h, m).data == [d[0], h(d[1], 1), h(d[1], 2), h(d[1], 3)])
      && (i % 0x1_0000 != 0 && i % 0x100 == 0 ==> Step(h, m).data == [d[0], d[1], h(d[2], 2), h(d[2], 3)])
      && (i % 0x100 != 0 ==> Step(h, m).data == [d[0], d[1], d[2], h(d[3], 3)])
  {
    var c := Wrap32(m.counter + 1);
    Coarser(c);
    WrapIs(m.counter + 1);
    hide Wrap32;
    var d := m.data;
    assert Bump(h, d, 0) == [h(d[0], 0), h(d[0], 1), h(d[0], 2), h(d[0], 3)];
    assert Bump(h, d, 1) == [d[0], h(d[1], 1), h(d[1], 2), h(d[1], 3)];
    assert Bump(h, d, 2) == [d[0], d[1], h(d[2], 2), h(d[2], 3)];
    assert Bump(h, d, 3) == [d[0], d[1], d[2], h(d[3], 3)];
    hide Bump;
  }

  lemma {:induction false} StepsCompose<K>(h: Hmac<K>, m: State<K>, a: nat, b: nat)
    requires m.Valid()
    ensures Steps(h, m, a + b) == Steps(h, Steps(h, m, a), b)
  {
    hide Step;
    if b > 0 {
      StepsCompose(h, m, a, b - 1);
    }
  }

  lemma {:induction false} StepsCounter<K>(h: Hmac<K>, m: State<K>, n: nat)
    requires m.Valid()
    ensures Steps(h, m, n).counter == Wrap32(m.counter + n)
  {
    hide Bump, Level, Wrap32;
    WrapIs(m.counter);
    if n > 0 {
      StepsCounter(h, m, n - 1);
      WrapNext(m.counter + n - 1);
    }
  }

  lemma WrapNext(x: int)
    ensures Wrap32(Wrap32(x) + 1) == Wrap32(x + 1)
  {
    FloorBelow(x, TWO32);
    AddMultiple(Wrap32(x) + 1, x / TWO32, TWO32);
  }

  // ----- how the slow form crosses blocks -----

  /** R(j) hashed n times into itself. */
  function Rehashed<K>(h: Hmac<K>, data: seq<K>, j: nat, n: nat): (r: seq<K>)
    requires j < |data|
    ensures |r| == |data|
  {
    if n == 0 then data
    else var d := Rehashed(h, data, j, n - 1); d[j := h(d[j], j)]
  }

  lemma {:induction false} RehashedKeeps<K>(h: Hmac<K>, data: seq<K>, j: nat, n: nat)
    requires j < |data|
    ensures forall i :: 0 <= i < |data| && i != j ==> Rehashed(h, data, j, n)[i] == data[i]
  {
    if n > 0 {
      RehashedKeeps(h, data, j, n - 1);
    }
  }

  /** The position after s more boundaries of part j. */
  function Boundary(c: u32, j: nat, s: nat): u32 {
    Wrap32((c / BlockSize(j) + s) * BlockSize(j))
  }

  /** The steps from c to that boundary. */
  function Distance(c: u32, j: nat, s: nat): int {
    s * BlockSize(j) - c % BlockSize(j)
  }

  /** The number of boundaries of part j that a jump to target has to cross. */
  function PartSteps(c: u32, target: u32, j: nat): nat
    requires j < PARTS
  {
    var s := (target / BlockSize(j) - c / BlockSize(j)) % TWO8;
    if s == 0 && target < c then 0x100 else s
  }

  // The block sizes are literals, so each arithmetic lemma is linear once j is fixed.

  lemma InsideBlock(c: u32, j: nat, n: nat)
    requires j < PARTS && n >= 1 && c % BlockSize(j) + n < BlockSize(j)
    ensures c + n < TWO32 && Level(c + n) > j
  {
    var b := BlockSize(j);
    assert b == TWO24 || b == TWO16 || b == TWO8 || b == 1;
    SameBlock(c, n, b);
    Coarser(c + n);
  }

  lemma SameBlock(c: u32, n: nat, b: int)
    requires b == TWO24 || b == TWO16 || b == TWO8 || b == 1
    requires c % b + n < b
    ensures (c + n) % b == c % b + n && c + n < TWO32
  {
    FloorBelow(c, b);
    DivideIs(c + n, b, c / b, c % b + n);
    BlockEnds(c, b);
  }

  lemma BlockEnds(c: u32, b: int)
    requires b == TWO24 || b == TWO16 || b == TWO8 || b == 1
    ensures c / b * b + b <= TWO32
  {
    if b == TWO24 {
      FloorBelow(c, TWO24);
    } else if b == TWO16 {
      FloorBelow(c, TWO16);
    } else if b == TWO8 {
      FloorBelow(c, TWO8);
    }
  }

  /** A boundary of a coarse part is one of every finer part. */
  lemma Coarser(x: int)
    ensures x % TWO24 == 0 ==> x % TWO16 == 0
    ensures x % TWO16 == 0 ==> x % TWO8 == 0
  {
  }

  lemma OneBoundary(c: u32, j: nat)
    requires j < PARTS
    ensures 1 <= Distance(c, j, 1) && c % BlockSize(j) + Distance(c, j, 1) - 1 < BlockSize(j)
    ensures Wrap32(c + Distance(c, j, 1)) == Boundary(c, j, 1)
  {
    if j == 0 { } else if j == 1 { } else if j == 2 { } else { }
  }

  lemma QuotientUnique(x: int, b: int, q: int, r: int)
    requires b > 0 && x == q * b + r && 0 <= r < b
    ensures x / b == q && x % b == r
  {
    var d := x / b - q;
    assert d * b == r - x % b;
    assert d >= 1 ==> d * b >= b;
    assert d <= -1 ==> d * b <= -b;
  }

  function BlocksPerCycle(j: nat): int {
    if j == 0 then TWO8 else if j == 1 then TWO16 else if j == 2 then TWO24 else TWO32
  }

  /** Boundary number n of part j, counted modulo the cycle, is where n blocks wrap to. */
  lemma WrapMultiple(j: nat, n: nat)
    requires j < PARTS
    ensures 0 <= n % BlocksPerCycle(j) < BlocksPerCycle(j)
    ensures Wrap32(n * BlockSize(j)) == n % BlocksPerCycle(j) * BlockSize(j)
  {
    var b, m := BlockSize(j), BlocksPerCycle(j);
    assert b > 0 && m > 0 && m * b == TWO32;
    hide BlockSize, BlocksPerCycle;
    var q, r := n / m, n % m;
    assert n * b == q * TWO32 + r * b by {
      assert n * b == (q * m + r) * b == q * (m * b) + r * b;
    }
    assert 0 <= r * b < TWO32 by {
      assert r * b <= (m - 1) * b == m * b - b;
    }
    QuotientUnique(n * b, TWO32, q, r * b);
  }

  lemma CycleStep(m: int, n: nat)
    requires m > 1
    ensures (n % m + 1) % m == (n + 1) % m
  {
    if n % m + 1 < m {
      QuotientUnique(n + 1, m, n / m, n % m + 1);
    } else {
      QuotientUnique(n + 1, m, n / m + 1, 0);
      QuotientUnique(m, m, 1, 0);
    }
  }

  lemma OneMoreBoundary(c: u32, j: nat, s: nat)
    requires j < PARTS && s >= 1
    ensures Boundary(Boundary(c, j, s), j, 1) == Boundary(c, j, s + 1)
    ensures Distance(c, j, s) >= 0 && Distance(Boundary(c, j, s), j, 1) >= 0
    ensures Distance(c, j, s) + Distance(Boundary(c, j, s), j, 1) == Distance(c, j, s + 1)
  {
    var b, m, n := BlockSize(j), BlocksPerCycle(j), c / BlockSize(j) + s;
    assert b > 0 && m > 1;
    hide BlockSize, BlocksPerCycle, Wrap32;
    WrapMultiple(j, n);
    WrapMultiple(j, n + 1);
    WrapMultiple(j, n % m + 1);
    QuotientUnique(n % m * b, b, n % m, 0);
    CycleStep(m, n);
    assert s * b >= b;
    assert (s + 1) * b == s * b + b;
  }

  lemma LevelOfMultiple1(k: nat)
    requires k < TWO16 && k % TWO8 != 0
    ensures 0 <= k * TWO16 < TWO32 && Level(k * TWO16) == 1
  {
  }

  lemma LevelOfMultiple2(k: nat)
    requires k < TWO24 && k % TWO8 != 0
    ensures 0 <= k * TWO8 < TWO32 && Level(k * TWO8) == 2
  {
  }

  lemma LevelOfMultiple(j: nat, k: nat)
    requires j < PARTS && k < BlocksPerCycle(j)
    requires j > 0 ==> k % TWO8 != 0
    ensures 0 <= k * BlockSize(j) < TWO32 && Level(k * BlockSize(j)) == j
  {
    if j == 1 {
      LevelOfMultiple1(k);
    } else if j == 2 {
      LevelOfMultiple2(k);
    } else {
      LevelOfMultiple03(k);
    }
  }

  lemma LevelOfMultiple03(k: nat)
    ensures k < TWO8 ==> 0 <= k * TWO24 < TWO32 && Level(k * TWO24) == 0
    ensures k < TWO32 && k % TWO8 != 0 ==> Level(k) == 3
  {
    if k < TWO32 && k % TWO8 != 0 {
      Coarser(k);
    }
  }

  /** Inside one block of part j, nothing at or below part j moves. */
  lemma {:induction false} QuietInsideBlock<K>(h: Hmac<K>, m: State<K>, j: nat, n: nat)
    requires m.Valid() && j < PARTS
    requires m.counter % BlockSize(j) + n < BlockSize(j)
    ensures Steps(h, m, n).counter == m.counter + n
    ensures forall i :: 0 <= i <= j ==> Steps(h, m, n).data[i] == m.data[i]
  {
    hide BlockSize, Level;
    if n > 0 {
      QuietInsideBlock(h, m, j, n - 1);
      InsideBlock(m.counter, j, n);
    }
  }

  lemma CrossOne<K>(h: Hmac<K>, m: State<K>, j: nat)
    requires m.Valid() && j < PARTS
    requires Level(Boundary(m.counter, j, 1)) == j
    ensures Distance(m.counter, j, 1) >= 1
    ensures Steps(h, m, Distance(m.counter, j, 1))
         == State(Bump(h, m.data, j), Boundary(m.counter, j, 1))
  {
    hide BlockSize, Level, Distance, Boundary;
    OneBoundary(m.counter, j);
    var n := Distance(m.counter, j, 1);
    QuietInsideBlock(h, m, j, n - 1);
    assert Bump(h, Steps(h, m, n - 1).data, j) == Bump(h, m.data, j);
  }

  /** Crossing s boundaries of part j, none of them a boundary of a coarser part, is s
   *  rehashes of R(j), the last of which also reseeds the finer parts. */
  lemma {:induction false} CrossBlocks<K>(h: Hmac<K>, m: State<K>, j: nat, s: nat)
    requires m.Valid() && j < PARTS && s >= 1
    requires forall t: nat :: 1 <= t <= s ==> Level(Boundary(m.counter, j, t)) == j
    ensures Distance(m.counter, j, s) >= 0
    ensures Steps(h, m, Distance(m.counter, j, s))
         == State(Bump(h, Rehashed(h, m.data, j, s - 1), j), Boundary(m.counter, j, s))
  {
    hide BlockSize, Level, Distance, Boundary, Step;
    if s == 1 {
      CrossOne(h, m, j);
    } else {
      CrossBlocks(h, m, j, s - 1);
      OneMoreBoundary(m.counter, j, s - 1);
      var mid := Steps(h, m, Distance(m.counter, j, s - 1));
      CrossOne(h, mid, j);
      StepsCompose(h, m, Distance(m.counter, j, s - 1), Distance(mid.counter, j, 1));
      RehashedKeeps(h, m.data, j, s - 1);
      RehashedKeeps(h, m.data, j, s - 2);
      assert Bump(h, mid.data, j) == Bump(h, Rehashed(h, m.data, j, s - 1), j);
    }
  }

  // ----- the ratchet object -----

  class Ratchet<K> {
    const hmac: Hmac<K>
    var data: array<K>
    var counter: u32

    ghost predicate Valid()
      reads this
    {
      data.Length == PARTS
    }

    ghost function Value(): (s: State<K>)
      reads this, data
    {
      State(data[..], counter)
    }

    /** megolm_init */
    constructor (hmac: Hmac<K>, random: seq<K>, counter: u32)
      requires |random| == PARTS
      ensures Valid() && fresh(data)
      ensures this.hmac == hmac && Value() == State(random, counter)
    {
      this.hmac := hmac;
      this.counter := counter;
      this.data := new K[PARTS](i requires 0 <= i < PARTS => random[i]);
      new;
      assert data[..] == random;
    }

    /** rehash_part */
    method RehashPart(from: nat, to: nat)
      requires Valid() && from < PARTS && to < PARTS
      modifies data
      ensures data[..] == old(data[..])[to := hmac(old(data[from]), to)]
    {
      data[to] := hmac(data[from], to);
    }

    /** R(from) rehashed into R(3), ..., R(from), in that order. */
    method RehashFrom(from: nat)
      requires Valid() && from < PARTS
      modifies data
      ensures data[..] == Bump(hmac, old(data[..]), from)
    {
      ghost var was := data[..];
      var i := PARTS - 1;
      while i >= from
        invariant from - 1 <= i < PARTS
        invariant forall k :: 0 <= k <= i ==> data[k] == was[k]
        invariant forall k :: i < k < PARTS ==> data[k] == hmac(was[from], k)
      {
        RehashPart(from, i);
        i := i - 1;
      }
      assert data[..] == Bump(hmac, was, from);
    }

    /** megolm_advance: one step, found with a shrinking mask of low counter bits. */
    method Advance()
      requires Valid()
      modifies this`counter, data
      ensures Valid() && Value() == Step(hmac, old(Value()))
    {
      counter := Wrap32(counter + 1);
      var mask := 0x00FF_FFFF;
      var h := 0;
      while h < PARTS
        invariant 0 <= h < PARTS && mask + 1 == BlockSize(h)
        invariant h >= 1 ==> counter % TWO24 != 0
        invariant h >= 2 ==> counter % TWO16 != 0
        invariant h >= 3 ==> counter % TWO8 != 0
        decreases PARTS - h
      {
        if counter % (mask + 1) == 0 {
          break;
        }
        h := h + 1;
        mask := mask / TWO8;
      }
      assert h == Level(counter);
      RehashFrom(h);
    }

    /** megolm_advance_to: jump, hashing each part at most 256 times plus reseeds. */
    method AdvanceTo(target: u32)
      requires Valid()
      modifies this`counter, data
      ensures Valid() && Value() == Steps(hmac, old(Value()), Wrap32(target - old(counter)))
    {
      hide Steps, Step, Bump, Rehashed, Boundary, Distance, Wrap32, BlockSize, AgreeAbove, PartSteps, Landing;
      ghost var start := Value();
      ghost var done: nat := 0;
      StepsZero(hmac, start);
      var j := 0;
      while j < PARTS
        invariant 0 <= j <= PARTS
        invariant Valid() && Value() == Steps(hmac, start, done)
        invariant done + Wrap32(target - counter) == Wrap32(target - start.counter)
        invariant j > 0 ==> AgreeAbove(counter, target, j - 1)
      {
        done := JumpPart(target, j, start, done);
        j := j + 1;
      }
      FullyAgree(counter, target);
    }

    /** One turn of that loop: R(j) is brought up to the target. */
    method JumpPart(target: u32, j: nat, ghost start: State<K>, ghost done: nat) returns (ghost further: nat)
      requires Valid() && start.Valid() && j < PARTS && Value() == Steps(hmac, start, done)
      requires done + Wrap32(target - counter) == Wrap32(target - start.counter)
      requires j > 0 ==> AgreeAbove(counter, target, j - 1)
      modifies this`counter, data
      ensures Valid() && Value() == Steps(hmac, start, further)
      ensures further + Wrap32(target - counter) == Wrap32(target - start.counter)
      ensures AgreeAbove(counter, target, j)
    {
      hide Steps, Step, Bump, Rehashed, Boundary, Distance, Wrap32, BlockSize, AgreeAbove, PartSteps, Landing;
      ghost var before := Value();
      further := done;
      JumpMoves(hmac, start, done, before, target, j);
      StepsOfCode(counter, target, j);
      var block := BlockSize(j);
      var steps := (target / block - counter / block) % TWO8;
      if steps == 0 && target < counter {
        assert j == 0;  // the wrap-around case is R(0)'s alone
        steps := 0x100;
      }
      if steps != 0 {
        further := done + Distance(before.counter, j, steps);
        HashPart(j, steps);
        counter := target - target % block;
      }
    }

    /** The hashing of one jump: all but the last bump of R(j) leave the finer parts alone. */
    method HashPart(j: nat, steps: nat)
      requires Valid() && j < PARTS && steps >= 1
      modifies data
      ensures data[..] == Bump(hmac, Rehashed(hmac, old(data[..]), j, steps - 1), j)
    {
      ghost var was := data[..];
      var left := steps;
      while left > 1
        invariant 1 <= left <= steps
        invariant data[..] == Rehashed(hmac, was, j, steps - left)
      {
        RehashPart(j, j);
        left := left - 1;
      }
      RehashFrom(j);
    }
  }

  lemma StepsZero<K>(h: Hmac<K>, m: State<K>)
    requires m.Valid()
    ensures Steps(h, m, 0) == m
  {
  }

  /** The counter has not passed the target and agrees with it on the blocks of part j. */
  ghost predicate AgreeAbove(c: u32, target: u32, j: nat)
    requires j < PARTS
  {
    c <= target && c / BlockSize(j) == target / BlockSize(j)
  }

  /** Where a jump of part j takes the counter. */
  ghost function Landing(c: u32, target: u32, j: nat): u32
    requires j < PARTS
  {
    if PartSteps(c, target, j) == 0 then c else target - target % BlockSize(j)
  }

  /** What the jump of part j relies on: every boundary it crosses belongs to part j, it
   *  lands on the target with the finer bits cleared, and its length leaves the rest. */
  lemma JumpLands(c: u32, target: u32, j: nat)
    requires j < PARTS
    requires j > 0 ==> AgreeAbove(c, target, j - 1)
    ensures BlockSize(j) > 0
    ensures AgreeAbove(Landing(c, target, j), target, j)
    ensures var steps := PartSteps(c, target, j);
      steps > 0 ==>
        && (forall t: nat :: 1 <= t <= steps ==> Level(Boundary(c, j, t)) == j)
        && Boundary(c, j, steps) == Landing(c, target, j)
        && 0 <= Distance(c, j, steps)
        && Distance(c, j, steps) + Wrap32(target - Landing(c, target, j)) == Wrap32(target - c)
  {
    hide BlockSize, BlocksPerCycle, Wrap32, Level, Boundary, AgreeAbove, PartSteps, Landing, Distance;
    AnyJump(c, target, j);
    if PartSteps(c, target, j) > 0 {
      JumpBoundaries(c, target, j);
    }
  }

  lemma AnyJump(c: u32, target: u32, j: nat)
    requires j < PARTS
    requires j > 0 ==> AgreeAbove(c, target, j - 1)
    ensures BlockSize(j) > 0 && JumpArithmetic(c, target, j, BlockSize(j), BlocksPerCycle(j))
  {
    hide JumpArithmetic, AgreeAbove;
    if j == 0 {
      Jump0(c, target);
    } else if j == 1 {
      Jump1(c, target);
    } else if j == 2 {
      Jump2(c, target);
    } else {
      Jump3(c, target);
    }
  }

  /** The code's count is PartSteps, and it lands where Landing says. */
  lemma StepsOfCode(c: u32, target: u32, j: nat)
    requires j < PARTS
    requires j > 0 ==> AgreeAbove(c, target, j - 1)
    ensures BlockSize(j) > 0
    ensures var s := (target / BlockSize(j) - c / BlockSize(j)) % TWO8;
      && PartSteps(c, target, j) == (if s == 0 && target < c then 0x100 else s)
      && (s == 0 && target < c ==> j == 0)
      && Landing(c, target, j) == if PartSteps(c, target, j) == 0 then c else target - target % BlockSize(j)
  {
    WrapCaseIsForR0(c, target, j);
    BlocksPositive(j);
    hide BlockSize, AgreeAbove;
  }

  lemma BlocksPositive(j: nat)
    ensures BlockSize(j) > 0
  {
  }

  /** One turn of the loop of megolm_advance_to. */
  lemma JumpMoves<K>(h: Hmac<K>, start: State<K>, done: nat, before: State<K>, target: u32, j: nat)
    requires start.Valid() && j < PARTS && before == Steps(h, start, done)
    requires done + Wrap32(target - before.counter) == Wrap32(target - start.counter)
    requires j > 0 ==> AgreeAbove(before.counter, target, j - 1)
    ensures AgreeAbove(Landing(before.counter, target, j), target, j)
    ensures PartSteps(before.counter, target, j) == 0 ==> Landing(before.counter, target, j) == before.counter
    ensures var steps, landing := PartSteps(before.counter, target, j), Landing(before.counter, target, j);
      steps > 0 ==>
        && Distance(before.counter, j, steps) >= 0
        && Steps(h, start, done + Distance(before.counter, j, steps))
             == State(Bump(h, Rehashed(h, before.data, j, steps - 1), j), landing)
        && done + Distance(before.counter, j, steps) + Wrap32(target - landing) == Wrap32(target - start.counter)
  {
    JumpLands(before.counter, target, j);
    hide Steps, Step, Bump, Rehashed, Boundary, Distance, Wrap32, BlockSize, AgreeAbove, PartSteps, Level;
    var steps := PartSteps(before.counter, target, j);
    if steps > 0 {
      CrossBlocks(h, before, j, steps);
      StepsCompose(h, start, done, Distance(before.counter, j, steps));
    }
  }

  lemma JumpBoundaries(c: u32, target: u32, j: nat)
    requires j < PARTS && PartSteps(c, target, j) > 0
    requires JumpArithmetic(c, target, j, BlockSize(j), BlocksPerCycle(j))
    ensures forall t: nat :: 1 <= t <= PartSteps(c, target, j) ==> Level(Boundary(c, j, t)) == j
    ensures Boundary(c, j, PartSteps(c, target, j)) == Landing(c, target, j)
  {
    hide Wrap32, PartSteps, Level, BlockSize, BlocksPerCycle;
    var m, q, steps := BlocksPerCycle(j), c / BlockSize(j), PartSteps(c, target, j);
    forall t: nat | 1 <= t <= steps
      ensures Level(Boundary(c, j, t)) == j
    {
      BoundaryOwner(c, j, t, c / BlockSize(j));
    }
    WrapMultiple(j, q + steps);
  }

  lemma BoundaryOwner(c: u32, j: nat, t: nat, q: nat)
    requires j < PARTS && BlockSize(j) > 0 && q == c / BlockSize(j) && t >= 1
    requires j > 0 ==> q % TWO8 + t < TWO8 && q + t < BlocksPerCycle(j)
    ensures Level(Boundary(c, j, t)) == j
  {
    hide Wrap32, Level, BlockSize, BlocksPerCycle;
    WrapMultiple(j, q + t);
    if j > 0 {
      QuotientUnique(q + t, BlocksPerCycle(j), 0, q + t);
      QuotientUnique(q + t, TWO8, q / TWO8, q % TWO8 + t);
    }
    LevelOfMultiple(j, (q + t) % BlocksPerCycle(j));
  }

  /** The arithmetic of one jump, with block size b and m blocks to the cycle. */
  ghost predicate JumpArithmetic(c: u32, target: u32, j: nat, b: int, m: int)
    requires j < PARTS && b == BlockSize(j) && m == BlocksPerCycle(j)
  {
    var steps := PartSteps(c, target, j);
    && b > 0
    && AgreeAbove(Landing(c, target, j), target, j)
    && (j > 0 ==> c / b % TWO8 + steps < TWO8 && c / b + steps < m)
    && (steps > 0 ==>
      && 0 <= Distance(c, j, steps)
      && (c / b + steps) % m * b == target - target % b
      && Distance(c, j, steps) + Wrap32(target - Landing(c, target, j)) == Wrap32(target - c))
  }

  lemma Jump0(c: u32, target: u32)
    ensures JumpArithmetic(c, target, 0, TWO24, TWO8)
  {
    hide Level, Wrap32;
    Turn(c / TWO24, target / TWO24, c % TWO24, target % TWO24);
    assert Wrap32(target - c) == (target - c) % TWO32 by { WrapIs(target - c); }
    assert Wrap32(target % TWO24) == target % TWO24 by { WrapIs(target % TWO24); }
    assert Wrap32(target - target) == 0 by { WrapIs(0); }
  }

  lemma WrapIs(x: int)
    ensures Wrap32(x) == x % TWO32 && (0 <= x < TWO32 ==> Wrap32(x) == x)
  {
  }

  /** From a blocks and x to b blocks and y, the long way round if need be. */
  lemma Turn(a: byte, b: byte, x: nat, y: nat)
    requires x < TWO24 && y < TWO24
    ensures var s := (b - a) % TWO8;
      var steps := if s == 0 && b * TWO24 + y < a * TWO24 + x then 0x100 else s;
      && (steps == 0 ==> a == b && x <= y)
      && (steps > 0 ==>
            && (a + steps) % TWO8 == b && steps * TWO24 >= x
            && steps * TWO24 - x + y == ((b * TWO24 + y) - (a * TWO24 + x)) % TWO32)
  {
    var s := (b - a) % TWO8;
    assert s == if b >= a then b - a else b - a + TWO8;
  }

  /** From c up to a target in the same block of 256 * b: the quotients by b are s < 256 apart. */
  ghost predicate Ahead(c: int, target: int, b: int)
    requires b > 0
  {
    var s := (target / b - c / b) % TWO8;
    && s == target / b - c / b && c / b % TWO8 + s < TWO8
    && 0 <= target - target % b && (target - target % b) / b == target / b && target / b * b == target - target % b
    && (s > 0 ==> s * b - c % b >= 0) && s * b - c % b + target % b == target - c
  }

  lemma Ahead1(c: nat, target: nat)
    requires c <= target && c / TWO24 == target / TWO24
    ensures Ahead(c, target, TWO16)
  {
    FloorBelow(c, TWO16);
    FloorBelow(target, TWO16);
    SameQuotient(c / TWO16, target / TWO16);
  }

  lemma Ahead2(c: nat, target: nat)
    requires c <= target && c / TWO16 == target / TWO16
    ensures Ahead(c, target, TWO8)
  {
    FloorBelow(c, TWO8);
    FloorBelow(target, TWO8);
    SameQuotient(c / TWO8, target / TWO8);
  }

  lemma Ahead3(c: nat, target: nat)
    requires c <= target && c / TWO8 == target / TWO8
    ensures Ahead(c, target, 1)
  {
    SameQuotient(c, target);
  }

  lemma SameQuotient(a: nat, b: nat)
    requires a <= b && a / TWO8 == b / TWO8
    ensures (b - a) % TWO8 == b - a && a % TWO8 + (b - a) == b % TWO8
  {
    FloorBelow(a, TWO8);
    FloorBelow(b, TWO8);
  }

  lemma Jump1(c: u32, target: u32)
    requires AgreeAbove(c, target, 0)
    ensures JumpArithmetic(c, target, 1, TWO16, TWO16)
  {
    Ahead1(c, target);
    FloorBelow(target, TWO16);
    hide Ahead;
    JumpAhead(c, target, 1, TWO16, TWO16);
  }

  lemma Jump2(c: u32, target: u32)
    requires AgreeAbove(c, target, 1)
    ensures JumpArithmetic(c, target, 2, TWO8, TWO24)
  {
    Ahead2(c, target);
    FloorBelow(target, TWO8);
    hide Ahead;
    JumpAhead(c, target, 2, TWO8, TWO24);
  }

  lemma Jump3(c: u32, target: u32)
    requires AgreeAbove(c, target, 2)
    ensures JumpArithmetic(c, target, 3, 1, TWO32)
  {
    Ahead3(c, target);
    hide Ahead;
    JumpAhead(c, target, 3, 1, TWO32);
  }

  /** What the jump of a part relies on, from the distance alone. */
  lemma JumpAhead(c: u32, target: u32, j: nat, b: int, m: int)
    requires j < PARTS && b == BlockSize(j) > 0 && m == BlocksPerCycle(j)
    requires c <= target && Ahead(c, target, b) && 0 <= target / b < m && 0 <= target % b
    ensures JumpArithmetic(c, target, j, b, m)
  {
    hide BlockSize, BlocksPerCycle, Wrap32, Level;
    AllWraps(c, target, b);
    DivideIs(target / b, m, 0, target / b);
  }

  lemma AllWraps(c: u32, target: u32, b: int)
    requires c <= target && b > 0
    ensures 0 <= target - target % b <= target
    ensures Wrap32(target - c) == target - c && Wrap32(target - target) == 0
    ensures Wrap32(target - (target - target % b)) == target % b
  {
    hide Wrap32;
    FloorBelow(target, b);
    BlockBelow(target, b);
    WrapIs(target - c);
    WrapIs(target % b);
    WrapIs(0);
  }

  lemma BlockBelow(x: nat, b: int)
    requires b > 0
    ensures 0 <= x - x % b <= x
  {
    FloorBelow(x, b);
    assert x / b >= 0;
    NonNegative(x / b, b);
  }

  lemma FullyAgree(c: u32, target: u32)
    requires AgreeAbove(c, target, PARTS - 1)
    ensures c == target && Wrap32(target - c) == 0
  {
  }

  /** The 256-step wrap-around case of the jump belongs to R(0), and to one situation. */
  lemma WrapCaseIsForR0(c: u32, target: u32, j: nat)
    requires j < PARTS
    requires j > 0 ==> AgreeAbove(c, target, j - 1)
    ensures PartSteps(c, target, j) == 0x100 <==>
      j == 0 && target < c && target / TWO24 == c / TWO24
  {
    if j > 0 {
      JumpLands(c, target, j);
    }
  }
}
