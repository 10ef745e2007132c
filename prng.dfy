/**
 * The pseudo-random generator: a linear congruential generator on the global
 * `int seed`. Each draw multiplies by 0x343fd, adds 0x269ec3 and returns bits
 * 16 to 30 of the new state.
 *
 * The source computes the step in `int`, where overflow is undefined in C; the
 * model takes two's-complement wrap-around modulo 2^32.
 */
module Prng {
  import opened CTypes

  const WORD: int := 0x1_0000_0000
  const MULTIPLIER: int := 0x343fd
  const INCREMENT: int := 0x269ec3
  /** The inverse of the (odd) multiplier modulo 2^32. */
  const MULTIPLIER_INVERSE: int := 0xb9b33155
  /** The initial value of `seed` before any `musys_srand`. */
  const INITIAL_SEED: Int32 := 123456789

  /** The `int` that has the same low 32 bits as `x`. */
  function Wrap32(x: int): (r: Int32)
    ensures (x - r) % WORD == 0
  {
    var w := x % WORD;
    if w <= INT_MAX then w else w - WORD
  }

  /** Two numbers with the same low 32 bits wrap to the same `int`. */
  lemma Wrap32Congruent(x: int, y: int)
    requires (x - y) % WORD == 0
    ensures Wrap32(x) == Wrap32(y)
  {
    var a, b := Wrap32(x), Wrap32(y);
    var d := a - b;
    assert d % WORD == 0 by {
      assert (x - a) % WORD == 0 && (y - b) % WORD == 0;
      assert d == (x - y) - (x - a) + (y - b);
      ModSumOfMultiples(x - y, x - a, y - b);
    }
    assert -WORD < d < WORD;
  }

  lemma ModSumOfMultiples(p: int, q: int, r: int)
    requires p % WORD == 0 && q % WORD == 0 && r % WORD == 0
    ensures (p - q + r) % WORD == 0
  {
    assert p == WORD * (p / WORD);
    assert q == WORD * (q / WORD);
    assert r == WORD * (r / WORD);
    assert p - q + r == WORD * (p / WORD - q / WORD + r / WORD);
  }

  /** One step of the generator's state: `seed * 0x343fd + 0x269ec3` in `int`. */
  function NextSeed(s: Int32): (r: Int32)
    ensures (s * MULTIPLIER + INCREMENT - r) % WORD == 0
  {
    Wrap32(s * MULTIPLIER + INCREMENT)
  }

  /** `(seed >> 16) & 0x7fff`, with `>>` an arithmetic shift on a negative
      `int` (a logical one gives the same value: `OutputIsBits16To30`). */
  function Output(s: Int32): (r: int)
    ensures 0 <= r <= 0x7fff
  {
    (s / 0x10000) % 0x8000
  }

  /** The result is bits 16 to 30 of the state's 32-bit pattern, so it does not
      depend on whether `>>` shifts arithmetically or logically. */
  lemma OutputIsBits16To30(s: Int32)
    ensures Output(s) == ((s % WORD) / 0x10000) % 0x8000
  {
    if s < 0 {
      var q := s / 0x10000;
      assert s % WORD == s + WORD;
      assert (s + WORD) / 0x10000 == q + 0x10000;
      assert (q + 0x10000) % 0x8000 == q % 0x8000 by {
        assert q + 0x10000 == q + 2 * 0x8000;
      }
    }
  }

  lemma MultipleOfWord(x: int)
    requires x % WORD == 0
    ensures x == WORD * (x / WORD)
  {
  }

  lemma WordMultiple(m: int)
    ensures (WORD * m) % WORD == 0
  {
  }

  /** The step run backwards. */
  function PrevSeed(s: Int32): Int32
  {
    Wrap32((s - INCREMENT) * MULTIPLIER_INVERSE)
  }

  lemma PrevSeedUndoesNextSeed(s: Int32)
    ensures PrevSeed(NextSeed(s)) == s
  {
    var n := NextSeed(s);
    MultipleOfWord(s * MULTIPLIER + INCREMENT - n);
    var q := (s * MULTIPLIER + INCREMENT - n) / WORD;
    assert n == s * MULTIPLIER + INCREMENT - WORD * q;
    var v := (n - INCREMENT) * MULTIPLIER_INVERSE;
    assert v == s * MULTIPLIER * MULTIPLIER_INVERSE - WORD * q * MULTIPLIER_INVERSE;
    assert v - s == WORD * (s * 155243 - q * MULTIPLIER_INVERSE);
    WordMultiple(s * 155243 - q * MULTIPLIER_INVERSE);
    Wrap32Congruent(v, s);
  }

  lemma NextSeedUndoesPrevSeed(s: Int32)
    ensures NextSeed(PrevSeed(s)) == s
  {
    var p := PrevSeed(s);
    MultipleOfWord((s - INCREMENT) * MULTIPLIER_INVERSE - p);
    var q := ((s - INCREMENT) * MULTIPLIER_INVERSE - p) / WORD;
    assert p == (s - INCREMENT) * MULTIPLIER_INVERSE - WORD * q;
    var u := p * MULTIPLIER + INCREMENT;
    assert u == (s - INCREMENT) * MULTIPLIER_INVERSE * MULTIPLIER - WORD * q * MULTIPLIER + INCREMENT;
    assert u - s == WORD * ((s - INCREMENT) * 155243 - q * MULTIPLIER);
    WordMultiple((s - INCREMENT) * 155243 - q * MULTIPLIER);
    Wrap32Congruent(u, s);
  }

  /** Different states never step to the same state. */
  lemma NextSeedInjective(s: Int32, t: Int32)
    requires s != t
    ensures NextSeed(s) != NextSeed(t)
  {
    PrevSeedUndoesNextSeed(s);
    PrevSeedUndoesNextSeed(t);
  }

  /** The state after `k` draws from state `s`. */
  function StateAfter(s: Int32, k: nat): Int32
    decreases k
  {
    if k == 0 then s else StateAfter(NextSeed(s), k - 1)
  }

  /** The values of `k` draws from state `s`. */
  function Draws(s: Int32, k: nat): (r: seq<int>)
    ensures |r| == k
    ensures forall i :: 0 <= i < k ==> 0 <= r[i] <= 0x7fff
    decreases k
  {
    if k == 0 then [] else [Output(NextSeed(s))] + Draws(NextSeed(s), k - 1)
  }

  /** Draws can be split: the later ones start from the state the earlier
      ones left. */
  lemma {:induction false} DrawsSplit(s: Int32, j: nat, k: nat)
    ensures Draws(s, j + k) == Draws(s, j) + Draws(StateAfter(s, j), k)
    decreases j
  {
    if j > 0 {
      DrawsSplit(NextSeed(s), j - 1, k);
    }
  }

  /** Two different seeds never reach the same state, however many draws follow. */
  lemma {:induction false} DistinctSeedsStayDistinct(s: Int32, t: Int32, k: nat)
    requires s != t
    ensures StateAfter(s, k) != StateAfter(t, k)
    decreases k
  {
    if k > 0 {
      NextSeedInjective(s, t);
      DistinctSeedsStayDistinct(NextSeed(s), NextSeed(t), k - 1);
    }
  }

  /** Half a turn of the 32-bit state: the state with bit 31 flipped. */
  const HALF: int := 0x8000_0000

  /** Flipping bit 31 commutes with the step: the multiplier is odd, so a
      difference of 2^31 between two states stays 2^31. */
  lemma HalfTurnCommutesWithStep(s: Int32)
    ensures NextSeed(Wrap32(s + HALF)) == Wrap32(NextSeed(s) + HALF)
  {
    var h := Wrap32(s + HALF);
    MultipleOfWord(s + HALF - h);
    var q := (s + HALF - h) / WORD;
    var n := NextSeed(s);
    MultipleOfWord(s * MULTIPLIER + INCREMENT - n);
    var p := (s * MULTIPLIER + INCREMENT - n) / WORD;
    var u := h * MULTIPLIER + INCREMENT;
    assert u == s * MULTIPLIER + INCREMENT + HALF * MULTIPLIER - WORD * q * MULTIPLIER;
    assert HALF * MULTIPLIER == HALF + WORD * 0x1a1fe;
    assert u - (n + HALF) == WORD * (p + 0x1a1fe - q * MULTIPLIER);
    WordMultiple(p + 0x1a1fe - q * MULTIPLIER);
    Wrap32Congruent(u, n + HALF);
  }

  lemma ModOfCongruent(x: int, y: int)
    requires (x - y) % WORD == 0
    ensures x % WORD == y % WORD
  {
    MultipleOfWord(x - y);
    var q := (x - y) / WORD;
    assert x == y + WORD * q;
  }

  /** Bits 16 to 30 of two 32-bit patterns that differ only in bit 31 agree. */
  lemma Bits16To30IgnoreBit31(u: int, v: int)
    requires 0 <= u < WORD && v == (u + HALF) % WORD
    ensures (v / 0x10000) % 0x8000 == (u / 0x10000) % 0x8000
  {
    if u < HALF {
      assert v == u + HALF;
      assert v / 0x10000 == u / 0x10000 + 0x8000;
    } else {
      assert v == u - HALF;
      assert v / 0x10000 == u / 0x10000 - 0x8000;
    }
  }

  /** The drawn value does not see bit 31. */
  lemma HalfTurnSameOutput(s: Int32)
    ensures Output(Wrap32(s + HALF)) == Output(s)
  {
    var h := Wrap32(s + HALF);
    OutputIsBits16To30(s);
    OutputIsBits16To30(h);
    ModOfCongruent(h, s + HALF);
    ModOfCongruent(s + HALF, s % WORD + HALF);
    Bits16To30IgnoreBit31(s % WORD, h % WORD);
  }

  /** Two different seeds that differ only in bit 31 draw the same values
      forever: distinct states do not mean distinct sequences. */
  lemma {:induction false} HalfTurnSameDraws(s: Int32, k: nat)
    ensures Wrap32(s + HALF) != s
    ensures Draws(Wrap32(s + HALF), k) == Draws(s, k)
    decreases k
  {
    assert (s + HALF - Wrap32(s + HALF)) % WORD == 0;
    if k > 0 {
      var n := NextSeed(s);
      HalfTurnCommutesWithStep(s);
      HalfTurnSameOutput(n);
      HalfTurnSameDraws(n, k - 1);
    }
  }

  /** The first three values after seeding with 42. */
  lemma SeedFortyTwo()
    ensures Draws(42, 3) == [175, 400, 17869]
  {
    assert NextSeed(42) == 11519557;
    assert NextSeed(11519557) == 26255348;
    assert NextSeed(26255348) == 1171099367;
    assert Draws(26255348, 1) == [17869];
    assert Draws(11519557, 2) == [400, 17869];
  }

  /** Seeding with -2147483606, which is 42 with bit 31 flipped, replays them. */
  lemma SeedFortyTwoHalfATurnOn()
    ensures Draws(-2147483606, 3) == [175, 400, 17869]
  {
    assert Wrap32(42 + HALF) == -2147483606;
    HalfTurnSameDraws(42, 3);
    SeedFortyTwo();
  }

  /** The generator's global state. */
  class Generator {
    var seed: Int32

    constructor ()
      ensures seed == INITIAL_SEED
    {
      seed := INITIAL_SEED;
    }

    /** `musys_srand(s)`. */
    method SRand(s: Int32)
      modifies this
      ensures seed == s
    {
      seed := s;
    }

    /** `musys_rand()`: steps the state and returns bits 16 to 30 of it. */
    method Rand() returns (r: int)
      modifies this
      ensures seed == NextSeed(old(seed))
      ensures r == Output(seed) && 0 <= r <= 0x7fff
    {
      seed := NextSeed(seed);
      r := Output(seed);
    }
  }

  /** A caller that seeds and then draws `k` times gets `Draws(s, k)`:
      the same seed always replays the same values. */
  method SeedAndDraw(g: Generator, s: Int32, k: nat) returns (values: seq<int>)
    modifies g
    ensures values == Draws(s, k)
    ensures g.seed == StateAfter(s, k)
  {
    g.SRand(s);
    values := [];
    var i := 0;
    while i < k
      invariant i <= k
      invariant values == Draws(s, i)
      invariant g.seed == StateAfter(s, i)
    {
      var v := g.Rand();
      DrawsSplit(s, i, 1);
      StateAfterSplit(s, i);
      values := values + [v];
      i := i + 1;
    }
  }

  lemma {:induction false} StateAfterSplit(s: Int32, i: nat)
    ensures StateAfter(s, i + 1) == NextSeed(StateAfter(s, i))
    decreases i
  {
    if i > 0 {
      StateAfterSplit(NextSeed(s), i - 1);
    }
  }
}
