/** One uint16 word of a Bloom signature (contrib/bloom/bloom.h:81-86). */
module BloomWord {

  const SIGNWORDBITS := 16

  /** 0x01 << b */
  function Mask(b: nat): bv16
    requires b < SIGNWORDBITS
  {
    match b
    case 0 => 0x1
    case 1 => 0x2
    case 2 => 0x4
    case 3 => 0x8
    case 4 => 0x10
    case 5 => 0x20
    case 6 => 0x40
    case 7 => 0x80
    case 8 => 0x100
    case 9 => 0x200
    case 10 => 0x400
    case 11 => 0x800
    case 12 => 0x1000
    case 13 => 0x2000
    case 14 => 0x4000
    case 15 => 0x8000
  }

  predicate Test(w: bv16, m: bv16) {
    w & m != 0
  }

  /** w has its bit b set. */
  predicate WordBit(w: bv16, b: nat)
    requires b < SIGNWORDBITS
  {
    Test(w, Mask(b))
  }

  /** w |= 0x01 << b */
  function SetWordBit(w: bv16, b: nat): bv16
    requires b < SIGNWORDBITS
  {
    w | Mask(b)
  }

  /** The scan's word test: (t & q) == q. */
  predicate Covers(t: bv16, q: bv16) {
    t & q == q
  }

  // ----- Masks select one bit each

  predicate IsMask(m: bv16) {
    || m == 0x1 || m == 0x2 || m == 0x4 || m == 0x8
    || m == 0x10 || m == 0x20 || m == 0x40 || m == 0x80
    || m == 0x100 || m == 0x200 || m == 0x400 || m == 0x800
    || m == 0x1000 || m == 0x2000 || m == 0x4000 || m == 0x8000
  }

  lemma MaskIsMask(b: nat)
    requires b < SIGNWORDBITS
    ensures IsMask(Mask(b))
  {
  }

  lemma MaskInjective(a: nat, b: nat)
    requires a < SIGNWORDBITS && b < SIGNWORDBITS && a != b
    ensures Mask(a) != Mask(b)
  {
  }

  lemma OrMask(w: bv16, m: bv16, n: bv16)
    requires IsMask(m) && IsMask(n)
    ensures Test(w | m, n) <==> Test(w, n) || m == n
  {
  }

  lemma SetWordBitSets(w: bv16, a: nat, b: nat)
    requires a < SIGNWORDBITS && b < SIGNWORDBITS
    ensures WordBit(SetWordBit(w, a), b) <==> WordBit(w, b) || a == b
  {
    MaskIsMask(a);
    MaskIsMask(b);
    if a != b {
      MaskInjective(a, b);
    }
    OrMask(w, Mask(a), Mask(b));
  }

  // ----- A word covers another exactly when it has all its bits

  lemma CoversMask(t: bv16, q: bv16, m: bv16)
    requires Covers(t, q) && Test(q, m)
    ensures Test(t, m)
  {
  }

  /** The lowest bit of q that t lacks. */
  function Missing(t: bv16, q: bv16): (m: bv16)
    requires !Covers(t, q)
    ensures Test(q, m) && !Test(t, m) && IsMask(m)
  {
    var d := q & !t;
    if d & 0x1 != 0 then 0x1 else if d & 0x2 != 0 then 0x2
    else if d & 0x4 != 0 then 0x4 else if d & 0x8 != 0 then 0x8
    else if d & 0x10 != 0 then 0x10 else if d & 0x20 != 0 then 0x20
    else if d & 0x40 != 0 then 0x40 else if d & 0x80 != 0 then 0x80
    else if d & 0x100 != 0 then 0x100 else if d & 0x200 != 0 then 0x200
    else if d & 0x400 != 0 then 0x400 else if d & 0x800 != 0 then 0x800
    else if d & 0x1000 != 0 then 0x1000 else if d & 0x2000 != 0 then 0x2000
    else if d & 0x4000 != 0 then 0x4000 else 0x8000
  }

  /** The bit a mask selects. */
  function BitOf(m: bv16): (b: nat)
    requires IsMask(m)
    ensures b < SIGNWORDBITS && Mask(b) == m
  {
    if m == 0x1 then 0 else if m == 0x2 then 1 else if m == 0x4 then 2 else if m == 0x8 then 3
    else if m == 0x10 then 4 else if m == 0x20 then 5 else if m == 0x40 then 6 else if m == 0x80 then 7
    else if m == 0x100 then 8 else if m == 0x200 then 9 else if m == 0x400 then 10 else if m == 0x800 then 11
    else if m == 0x1000 then 12 else if m == 0x2000 then 13 else if m == 0x4000 then 14 else 15
  }

  lemma CoversIff(t: bv16, q: bv16)
    ensures Covers(t, q) <==> forall b: nat :: b < SIGNWORDBITS && WordBit(q, b) ==> WordBit(t, b)
  {
    if Covers(t, q) {
      forall b: nat | b < SIGNWORDBITS && WordBit(q, b) ensures WordBit(t, b) {
        CoversMask(t, q, Mask(b));
      }
    } else {
      var b := BitOf(Missing(t, q));
      assert WordBit(q, b) && !WordBit(t, b);
    }
  }

  lemma ZeroHasNoBit(b: nat)
    requires b < SIGNWORDBITS
    ensures !WordBit(0, b)
  {
  }
}
