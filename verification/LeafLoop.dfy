/** The 32-bit offset arithmetic of the seeder, for every geometry a package can announce: when its leaf loop ends,
    and which requests it answers from bytes of the payload. */
module LeafLoop {
  import opened Wire
  import opened Merkle
  import opened Blocks

  function Next(off: U32, bs: U16): U32 {
    (off + bs) % WRAP
  }

  /** How many bytes the source takes at an offset: a block, or what it computes to be left. */
  function Extent(off: U32, bs: U16, size: U32): U32 {
    if Next(off, bs) <= size then bs else (size - off) % WRAP
  }

  predicate Inside(off: U32, bs: U16, size: U32) {
    off + Extent(off, bs, size) <= size
  }

  /** The offset after k turns of the leaf loop. */
  function OffsetAfter(bs: U16, k: nat): U32 {
    if k == 0 then 0 else Next(OffsetAfter(bs, k - 1), bs)
  }

  ghost predicate Ends(bs: U16, size: U32) {
    exists k: nat :: OffsetAfter(bs, k) >= size
  }

  /** Turn k is taken. */
  ghost predicate Taken(bs: U16, size: U32, k: nat) {
    forall j: nat | j <= k :: OffsetAfter(bs, j) < size
  }

  /** Every turn taken hashes bytes of the payload only. */
  ghost predicate StaysInside(bs: U16, size: U32) {
    forall k: nat | Taken(bs, size, k) :: Inside(OffsetAfter(bs, k), bs, size)
  }

  /** Where block i starts. */
  function Start(i: nat, bs: nat): nat {
    i * bs
  }

  lemma StartNext(i: nat, bs: nat)
    ensures Start(0, bs) == 0 && Start(i + 1, bs) == Start(i, bs) + bs
  {
    assert (i + 1) * bs == i * bs + bs;
  }

  lemma StartMonotone(i: nat, j: nat, bs: nat)
    requires i <= j
    ensures Start(i, bs) <= Start(j, bs)
  {
    MulMonotone(i, j, bs);
  }

  lemma {:induction false} OffsetIs(bs: U16, k: nat)
    ensures OffsetAfter(bs, k) == Start(k, bs) % WRAP
    decreases k
  {
    hide Start;
    if k == 0 {
      StartNext(0, bs);
    } else {
      OffsetIs(bs, k - 1);
      StartNext(k - 1, bs);
      WrapLater(Start(k - 1, bs), bs);
    }
  }

  lemma WrapLater(a: nat, b: nat)
    ensures (a % WRAP + b) % WRAP == (a + b) % WRAP
  {
  }

  lemma NoWrapBelow(a: nat)
    requires a < WRAP
    ensures a % WRAP == a
  {
  }

  // ---- when the loop ends ----

  /** The largest power of two that divides the block size; all of 2^32 for a block size of zero. */
  function TwoPart(bs: nat): (g: nat)
    ensures g > 0
  {
    if bs == 0 then WRAP else if bs % 2 == 1 then 1 else 2 * TwoPart(bs / 2)
  }

  lemma {:induction false} TwoPartDivides(bs: nat, e: nat) returns (odd: nat, rest: nat)
    requires 0 < bs < Pow2(e)
    ensures bs == TwoPart(bs) * odd && odd % 2 == 1 && Pow2(e) == TwoPart(bs) * rest
    decreases bs
  {
    if bs % 2 == 1 {
      odd, rest := bs, Pow2(e);
    } else {
      odd, rest := TwoPartDivides(bs / 2, e - 1);
      var g := TwoPart(bs / 2);
      assert 2 * g * odd == 2 * (g * odd) && 2 * g * rest == 2 * (g * rest);
    }
  }

  /** Odd numbers are invertible modulo every power of two. */
  lemma {:induction false} OddIsInvertible(odd: nat, e: nat) returns (x: nat, q: nat)
    requires odd % 2 == 1
    ensures odd * x == 1 + Pow2(e) * q
    decreases e
  {
    if e == 0 {
      x, q := 1, odd - 1;
    } else {
      var x0, q0 := OddIsInvertible(odd, e - 1);
      x, q := LiftInverse(odd, x0, Pow2(e - 1), q0);
    }
  }

  lemma LiftInverse(odd: nat, x0: nat, p: nat, q0: nat) returns (x: nat, q: nat)
    requires odd % 2 == 1 && odd * x0 == 1 + p * q0
    ensures odd * x == 1 + 2 * p * q
  {
    if q0 % 2 == 0 {
      x, q := x0, q0 / 2;
      assert q0 == 2 * q;
    } else {
      x, q := x0 + p, (q0 + odd) / 2;
      assert q0 + odd == 2 * q;
      InverseStep(odd, x0, p, q0);
    }
    Doubled(p, q);
  }

  lemma Doubled(p: nat, q: nat)
    ensures p * (2 * q) == 2 * p * q
  {
  }

  lemma InverseStep(odd: nat, x: nat, p: nat, q: nat)
    requires odd * x == 1 + p * q
    ensures odd * (x + p) == 1 + p * (q + odd)
  {
  }

  lemma Multiple(a: nat, q: nat, r: nat)
    requires r < WRAP && a == WRAP * q + r
    ensures a % WRAP == r
  {
  }

  lemma WrapIsPow2()
    ensures Pow2(32) == WRAP && Pow2(16) == 0x1_0000
  {
    assert Pow2(8) == 0x100;
    assert Pow2(16) == 0x1_0000;
    assert Pow2(24) == 0x100_0000;
  }

  /** Some turn reaches the highest multiple of the two-part below 2^32. */
  lemma ReachesHighest(bs: U16) returns (k: nat)
    requires bs > 0
    ensures OffsetAfter(bs, k) == WRAP - TwoPart(bs)
  {
    WrapIsPow2();
    var g := TwoPart(bs);
    Below32(bs);
    var odd, rest := TwoPartDivides(bs, 32);
    var x, q := OddIsInvertible(odd, 32);
    k := x * (WRAP - 1);
    OffsetIs(bs, k);
    HighestMultiple(bs, g, odd, x, q, rest, k);
  }

  lemma Below32(bs: U16)
    ensures bs < Pow2(32)
  {
    WrapIsPow2();
  }

  lemma HighestMultiple(bs: nat, g: nat, odd: nat, x: nat, q: nat, rest: nat, k: nat)
    requires bs == g * odd && odd * x == 1 + WRAP * q && WRAP == g * rest && g > 0 && k == x * (WRAP - 1)
    ensures Start(k, bs) % WRAP == WRAP - g
  {
    var turns := WRAP * q + 1;
    calc {
      k * bs;
      x * (WRAP - 1) * (g * odd);
      { Rearranged(x, WRAP - 1, g, odd); }
      g * (odd * x) * (WRAP - 1);
      g * turns * (WRAP - 1);
    }
    PositiveFactor(g, rest);
    MulMonotone(1, rest, g);
    HighestRemainder(g, q, k * bs);
  }

  lemma PositiveFactor(a: nat, b: nat)
    requires a * b > 0
    ensures b > 0
  {
  }

  lemma Rearranged(a: nat, b: nat, c: nat, d: nat)
    ensures a * b * (c * d) == c * (d * a) * b
  {
    calc {
      a * b * (c * d);
      a * (b * (c * d));
      a * (c * d) * b;
      c * d * a * b;
      c * (d * a) * b;
    }
  }

  lemma HighestRemainder(g: nat, q: nat, a: nat)
    requires 0 < g <= WRAP && a == g * (WRAP * q + 1) * (WRAP - 1)
    ensures a % WRAP == WRAP - g
  {
    var w := WRAP - 1;
    assert g * (WRAP * q + 1) == WRAP * (g * q) + g;
    assert (WRAP * (g * q) + g) * w == WRAP * (g * q * w) + g * w;
    assert g * w == WRAP * (g - 1) + (WRAP - g);
    var n := g * q * w + (g - 1);
    assert a == WRAP * n + (WRAP - g);
    Multiple(a, n, WRAP - g);
  }

  /** Every offset is a multiple of the two-part. */
  lemma OffsetsAreMultiples(bs: U16, k: nat)
    requires bs > 0
    ensures OffsetAfter(bs, k) <= WRAP - TwoPart(bs)
  {
    WrapIsPow2();
    Below32(bs);
    var odd, rest := TwoPartDivides(bs, 32);
    OffsetIs(bs, k);
    RemainderIsMultiple(TwoPart(bs), odd, rest, k, bs);
    MultipleBelow(TwoPart(bs), k * odd - rest * (Start(k, bs) / WRAP), rest);
  }

  lemma RemainderIsMultiple(g: nat, odd: nat, rest: nat, k: nat, bs: nat)
    requires bs == g * odd && WRAP == g * rest
    ensures Start(k, bs) % WRAP == g * (k * odd - rest * (Start(k, bs) / WRAP))
  {
    var q := k * bs / WRAP;
    assert k * bs == g * (k * odd) by { assert k * (g * odd) == g * (k * odd); }
    assert WRAP * q == g * (rest * q) by { assert g * rest * q == g * (rest * q); }
    assert g * (k * odd) - g * (rest * q) == g * (k * odd - rest * q);
  }

  lemma MultipleBelow(g: nat, m: int, rest: nat)
    requires 0 <= g * m < g * rest
    ensures g * m <= g * rest - g
  {
    if m >= rest {
      MulMonotone(rest, m, g);
    } else if m >= 0 {
      MulMonotone(m, rest - 1, g);
    }
  }

  /** The leaf loop ends exactly when the payload leaves room below 2^32 for the two-part of the block size:
      never on a block size of zero, and always on one that is odd. */
  lemma EndsExactly(bs: U16, size: U32)
    ensures Ends(bs, size) <==> size + TwoPart(bs) <= WRAP
  {
    if bs == 0 {
      forall k: nat ensures OffsetAfter(bs, k) == 0 { StartOfNothing(k); }
      assert OffsetAfter(bs, 0) == 0;
    } else {
      var highest := ReachesHighest(bs);
      forall k: nat ensures OffsetAfter(bs, k) <= WRAP - TwoPart(bs) { OffsetsAreMultiples(bs, k); }
    }
  }

  // ---- when it hashes bytes of the payload only ----

  /** The number of turns that cover the payload. */
  function Turns(size: nat, bs: nat): nat
    requires bs > 0
  {
    (size + bs - 1) / bs
  }

  /** The payload's length rounded up to whole blocks. */
  function RoundedUp(size: nat, bs: nat): nat
    requires bs > 0
  {
    Start(Turns(size, bs), bs)
  }

  /** What the leaf loop needs of a package: a block size, unless there is nothing to hash, and no wrap in the last block. */
  predicate Hashable(size: nat, bs: nat) {
    size == 0 || (bs > 0 && RoundedUp(size, bs) < WRAP)
  }

  lemma LastTurn(size: nat, bs: nat)
    requires bs > 0 && size > 0
    ensures var n := Turns(size, bs); n > 0 && Start(n - 1, bs) < size <= Start(n, bs) == Start(n - 1, bs) + bs
  {
    var n := Turns(size, bs);
    assert n * bs + (size + bs - 1) % bs == size + bs - 1;
    PositiveFactor(bs, n);
    StartNext(n - 1, bs);
  }

  /** The turns of the loop are the blocks of the payload. */
  lemma TurnsAreBlocks(payload: Data, bs: nat)
    requires bs > 0
    ensures Turns(|payload|, bs) == |BlocksOf(payload, bs)|
  {
    var n := |BlocksOf(payload, bs)|;
    BlockCount(payload, bs);
    if payload == [] {
      assert (bs - 1) / bs == 0;
    } else {
      LastTurn(|payload|, bs);
      SameTurns(n, Turns(|payload|, bs), bs, |payload|);
    }
  }

  lemma SameTurns(n: nat, m: nat, bs: nat, size: nat)
    requires Start(n, bs) < size + bs && size <= Start(n, bs) && m > 0 && Start(m - 1, bs) < size <= Start(m - 1, bs) + bs
    ensures n == m
  {
    hide Start;
    StartNext(m - 1, bs);
    if n < m {
      StartMonotone(n, m - 1, bs);
    } else if m < n {
      StartMonotone(m, n - 1, bs);
      StartNext(n - 1, bs);
    }
  }

  /** Before the last block no sum wraps. */
  lemma TurnBeforeEnd(bs: U16, size: U32, k: nat)
    requires bs > 0 && Start(k, bs) < size
    ensures OffsetAfter(bs, k) == Start(k, bs) && Taken(bs, size, k)
  {
    hide Start;
    OffsetIs(bs, k);
    forall j: nat | j <= k ensures OffsetAfter(bs, j) < size {
      StartMonotone(j, k, bs);
      OffsetIs(bs, j);
    }
  }

  lemma StaysInsideExactly(bs: U16, size: U32)
    ensures StaysInside(bs, size) <==> bs == 0 || Hashable(size, bs)
  {
    hide Turns, Start;
    if bs == 0 {
      forall k: nat ensures OffsetAfter(bs, k) == 0 { StartOfNothing(k); }
    } else if size == 0 {
      forall k: nat ensures !Taken(bs, size, k) {
        assert OffsetAfter(bs, 0) == 0;
      }
    } else {
      LastTurn(size, bs);
      var n := Turns(size, bs);
      if RoundedUp(size, bs) < WRAP {
        forall k: nat | Taken(bs, size, k)
          ensures Inside(OffsetAfter(bs, k), bs, size)
        {
          TakenIsInside(bs, size, n, k);
        }
      } else {
        LastTurnWraps(bs, size, n);
      }
    }
  }

  lemma StartOfNothing(k: nat)
    ensures OffsetAfter(0, k) == 0
  {
    OffsetIs(0, k);
  }

  lemma TakenIsInside(bs: U16, size: U32, n: nat, k: nat)
    requires bs > 0 && n > 0 && Start(n - 1, bs) < size <= Start(n, bs) < WRAP && Taken(bs, size, k)
    ensures Inside(OffsetAfter(bs, k), bs, size)
  {
    hide Start, Inside, OffsetAfter;
    OffsetIs(bs, n);
    NoWrapBelow(Start(n, bs));
    assert k < n;
    StartMonotone(k, n - 1, bs);
    TurnBeforeEnd(bs, size, k);
    StartMonotone(k + 1, n, bs);
    StartNext(k, bs);
    InsideBelow(Start(k, bs), bs, size);
  }

  lemma InsideBelow(off: U32, bs: U16, size: U32)
    requires off < size && off + bs < WRAP
    ensures Inside(off, bs, size)
  {
  }

  lemma LastTurnWraps(bs: U16, size: U32, n: nat)
    requires bs > 0 && n > 0 && Start(n - 1, bs) < size <= Start(n, bs) == Start(n - 1, bs) + bs && Start(n, bs) >= WRAP
    ensures !StaysInside(bs, size)
  {
    hide Start;
    var k := n - 1;
    TurnBeforeEnd(bs, size, k);
    assert Taken(bs, size, k) && !Inside(OffsetAfter(bs, k), bs, size);
  }

  lemma HashableEnds(bs: U16, size: U32)
    requires Hashable(size, bs)
    ensures Ends(bs, size)
  {
    hide Turns, Start;
    if size == 0 {
      assert OffsetAfter(bs, 0) >= size;
    } else {
      LastTurn(size, bs);
      OffsetIs(bs, Turns(size, bs));
      assert OffsetAfter(bs, Turns(size, bs)) >= size;
    }
  }

  /** The loop ends, having hashed the payload's own bytes, exactly for a hashable geometry. */
  lemma LoopIsSound(bs: U16, size: U32)
    ensures Ends(bs, size) && StaysInside(bs, size) <==> Hashable(size, bs)
  {
    hide Ends, StaysInside, RoundedUp;
    EndsExactly(bs, size);
    StaysInsideExactly(bs, size);
    if Hashable(size, bs) {
      HashableEnds(bs, size);
    }
  }

  // ---- which requests are answered from the payload ----

  lemma RequestInside(i: U16, bs: U16, size: U32)
    ensures Start(i, bs) < WRAP && (Inside(Start(i, bs), bs, size) <==> Start(i, bs) <= size)
  {
    MulMonotone(i, 0xFFFF, bs);
  }

  /** Every request the seeder honours is answered from bytes of the payload exactly when the last block announced does not
      start beyond its end. */
  lemma RequestsInside(bs: U16, count: U16, size: U32)
    ensures (forall i: U16 | i < count :: Inside(Start(i, bs) % WRAP, bs, size)) <==> count == 0 || Start(count - 1, bs) <= size
  {
    hide Start, Inside;
    forall i: U16 ensures Start(i, bs) < WRAP && (Inside(Start(i, bs) % WRAP, bs, size) <==> Start(i, bs) <= size) {
      RequestInside(i, bs, size);
    }
    if count > 0 {
      var last: U16 := count - 1;
      if Start(last, bs) <= size {
        forall i: U16 | i < count ensures Inside(Start(i, bs) % WRAP, bs, size) {
          StartMonotone(i, last, bs);
        }
      } else {
        assert !Inside(Start(last, bs) % WRAP, bs, size);
      }
    }
  }
}
