/** C integer arithmetic over Dafny's unbounded integers. */
module CArith {

  const TWO_31 := 0x8000_0000
  const TWO_32 := 0x1_0000_0000

  predicate IsInt32(x: int) {
    -TWO_31 <= x < TWO_31
  }

  /** C division truncates toward zero, unlike Dafny's Euclidean `/`. */
  function TruncDiv(a: int, b: int): int
    requires b > 0
  {
    if a >= 0 then a / b else -((-a) / b)
  }

  /** C remainder: takes the sign of the dividend. */
  function TruncMod(a: int, b: int): int
    requires b > 0
  {
    if a >= 0 then a % b else -((-a) % b)
  }

  /** The signed reading of a 32-bit word. */
  function ToInt32(u: int): int
    requires 0 <= u < TWO_32
  {
    if u < TWO_31 then u else u - TWO_32
  }

  /** A 32-bit unsigned word. */
  type uint32 = u: int | 0 <= u < TWO_32

  function TwoTo(n: nat): (p: nat)
    ensures p > 0
  {
    if n == 0 then 1 else 2 * TwoTo(n - 1)
  }

  /** Exclusive or of the low n bits. */
  function XorBits(a: nat, b: nat, n: nat): (x: nat)
    ensures x < TwoTo(n)
  {
    if n == 0 then 0 else 2 * XorBits(a / 2, b / 2, n - 1) + XorLow(a, b)
  }

  function XorLow(a: nat, b: nat): (x: nat)
    ensures x < 2
  {
    (a % 2 + b % 2) % 2
  }

  lemma {:induction false} XorBitsCancel(a: nat, b: nat, n: nat)
    requires a < TwoTo(n)
    ensures XorBits(XorBits(a, b, n), b, n) == a
    decreases n
  {
    if n > 0 {
      var x, low := XorBits(a / 2, b / 2, n - 1), XorLow(a, b);
      XorBitsCancel(a / 2, b / 2, n - 1);
      XorBitsStep(x, low, b, n);
      XorLowCancel(a, b);
    }
  }

  lemma XorBitsStep(x: nat, low: nat, b: nat, n: nat)
    requires low < 2 && n > 0
    ensures XorBits(2 * x + low, b, n) == 2 * XorBits(x, b / 2, n - 1) + XorLow(low, b)
  {
    assert (2 * x + low) / 2 == x && (2 * x + low) % 2 == low;
  }

  lemma XorLowCancel(a: nat, b: nat)
    ensures XorLow(XorLow(a, b), b) == a % 2 && 2 * (a / 2) + a % 2 == a
  {
  }

  lemma TwoTo32()
    ensures TwoTo(32) == TWO_32
  {
    assert TwoTo(8) == 0x100;
    assert TwoTo(16) == 0x100 * 0x100;
    assert TwoTo(24) == 0x100_0000;
  }

  /** a ^ b on uint32 */
  function Xor32(a: uint32, b: uint32): uint32 {
    TwoTo32();
    XorBits(a, b, 32)
  }

  lemma Xor32Cancel(a: uint32, b: uint32)
    ensures Xor32(Xor32(a, b), b) == a
  {
    TwoTo32();
    XorBitsCancel(a, b, 32);
  }

  /** Exclusive or with the same word on the other side. */
  lemma Xor32Moves(a: uint32, b: uint32, u: uint32)
    ensures Xor32(a, b) == u <==> a == Xor32(u, b)
  {
    Xor32Cancel(a, b);
    Xor32Cancel(u, b);
  }
}
