/** The Park-Miller generator that spreads a hash value over signature bits
    (contrib/bloom/blutils.c). The C code keeps its state in a static int32. */
module BloomGenerator {
  import opened CArith

  const MODULUS := 0x7fff_ffff
  const MULTIPLIER := 16807
  const SEED_RANGE := 0x7fff_fffe

  /** States that mySrand can leave behind, zero included. */
  predicate Seeded(s: int) {
    -0x7fff_fffc <= s <= 0x7fff_fffe
  }

  /** The multiplicative congruence that the generator is meant to follow. */
  function Step(s: int): int {
    (MULTIPLIER * s) % MODULUS
  }

  function Iterate(s: int, n: nat): int {
    if n == 0 then s else Step(Iterate(s, n - 1))
  }

  /** What mySrand stores for a 32-bit seed. */
  function Seed(u: int): int
    requires 0 <= u < TWO_32
  {
    TruncMod(ToInt32(u), SEED_RANGE) + 1
  }

  /** Schrage's decomposition stays inside int32 and is congruent to the product. */
  lemma Schrage(s: int)
    requires Seeded(s)
    ensures var hi, lo := TruncDiv(s, 127773), TruncMod(s, 127773);
            var x := MULTIPLIER * lo - 2836 * hi;
            && IsInt32(MULTIPLIER * lo) && IsInt32(2836 * hi) && IsInt32(x)
            && (x < 0 ==> IsInt32(x + MODULUS))
            && (if x < 0 then x + MODULUS else x) == Step(s)
  {
    var hi, lo := TruncDiv(s, 127773), TruncMod(s, 127773);
    var x := MULTIPLIER * lo - 2836 * hi;
    assert s == 127773 * hi + lo;
    assert MULTIPLIER * s == MODULUS * hi + x;
    if x < 0 {
      assert MULTIPLIER * s == MODULUS * (hi - 1) + (x + MODULUS);
      DivisionIsUnique(MULTIPLIER * s, hi - 1, x + MODULUS);
    } else {
      DivisionIsUnique(MULTIPLIER * s, hi, x);
    }
  }

  lemma DivisionIsUnique(a: int, q: int, r: int)
    requires a == MODULUS * q + r
    requires 0 <= r < MODULUS
    ensures a % MODULUS == r
  {
  }

  /** Zero is the only absorbing state: a product that vanishes modulo 2^31-1
      would need the state to be a multiple of the modulus. */
  lemma StepAvoidsZero(s: int)
    requires Seeded(s)
    ensures Step(s) == 0 <==> s == 0
    ensures s != 0 ==> 1 <= Step(s) <= 0x7fff_fffe
  {
    Schrage(s);
    var hi, lo := TruncDiv(s, 127773), TruncMod(s, 127773);
    var x := MULTIPLIER * lo - 2836 * hi;
    if Step(s) == 0 {
      assert x == 0;
      Coprime(lo, hi);
    }
  }

  /** 16807 and 2836 are coprime: 16807 * (-977) + 2836 * 5790 = 1. */
  lemma Coprime(lo: int, hi: int)
    requires MULTIPLIER * lo == 2836 * hi
    requires -16807 <= hi <= 16807
    ensures exists k :: -1 <= k <= 1 && hi == MULTIPLIER * k && lo == 2836 * k
  {
    var k := 5790 * lo - 977 * hi;
    assert hi == MULTIPLIER * k;
    assert lo == 2836 * k;
  }

  /** From any seeded non-zero state the generator stays in [1, 0x7ffffffe] for ever. */
  lemma {:induction false} StaysInRange(s: int, n: nat)
    requires Seeded(s) && s != 0
    ensures Seeded(Iterate(s, n)) && Iterate(s, n) != 0
    ensures n > 0 ==> 1 <= Iterate(s, n) <= 0x7fff_fffe
  {
    if n > 0 {
      StaysInRange(s, n - 1);
      StepAvoidsZero(Iterate(s, n - 1));
    }
  }

  /** mySrand misses its documented range [1, 0x7ffffffe] at zero for exactly two seeds. */
  lemma ZeroSeeds(u: int)
    requires 0 <= u < TWO_32
    ensures Seeded(Seed(u))
    ensures Seed(u) == 0 <==> u == 0xFFFF_FFFF || u == 0x8000_0001
  {
  }

  /** The static `next` and the two functions that update it. */
  class Generator {
    var next: int

    constructor ()
      ensures next == 0
    {
      next := 0;
    }

    /** Returns the next output; Schrage's method never leaves int32. */
    method Rand() returns (r: int)
      requires Seeded(next)
      modifies this
      ensures next == Step(old(next)) && r == next - 1
      ensures Seeded(next)
      ensures old(next) != 0 ==> 0 <= r <= 0x7fff_fffd
    {
      Schrage(next);
      StepAvoidsZero(next);
      var hi := TruncDiv(next, 127773);
      var lo := TruncMod(next, 127773);
      var x := MULTIPLIER * lo - 2836 * hi;
      if x < 0 {
        x := x + MODULUS;
      }
      next := x;
      r := x - 1;
    }

    method Srand(seed: int)
      requires 0 <= seed < TWO_32
      modifies this
      ensures next == Seed(seed) && Seeded(next)
    {
      next := ToInt32(seed);
      next := TruncMod(next, SEED_RANGE) + 1;
    }
  }
}
