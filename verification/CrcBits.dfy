/** Facts about 32-bit words and the shift register's single step, without reference to byte strings
    (IEEE 802.3 section 3.2.9; RFC 1952 section 8). */
module CrcBits {
  // ---- one step

  const POLYNOMIAL: bv32 := 0xEDB88320

  /** One step of the shift register. */
  function Step(s: bv32): bv32 {
    Xor(s >> 1, if s & 1 == 1 then POLYNOMIAL else 0)
  }

  /** Addition of polynomials over GF(2): exclusive or. */
  function Xor(a: bv32, b: bv32): bv32 {
    a ^ b
  }

  lemma StepLinearOddOdd(a: bv32, b: bv32)
    requires a & 1 == 1 && b & 1 == 1
    ensures Step(a ^ b) == Step(a) ^ Step(b)
  {
  }

  lemma StepLinearOddEven(a: bv32, b: bv32)
    requires a & 1 == 1 && b & 1 != 1
    ensures Step(a ^ b) == Step(a) ^ Step(b)
  {
  }

  lemma StepLinearEvenEven(a: bv32, b: bv32)
    requires a & 1 != 1 && b & 1 != 1
    ensures Step(a ^ b) == Step(a) ^ Step(b)
  {
  }

  lemma StepLinear(a: bv32, b: bv32)
    ensures Step(Xor(a, b)) == Xor(Step(a), Step(b))
  {
    hide Step;
    if a & 1 == 1 {
      if b & 1 == 1 {
        StepLinearOddOdd(a, b);
      } else {
        StepLinearOddEven(a, b);
      }
    } else if b & 1 == 1 {
      StepLinearOddEven(b, a);
    } else {
      StepLinearEvenEven(a, b);
    }
  }

  /** The polynomial's top bit is set, so the bit shifted out can be recovered. */
  lemma StepInjective(a: bv32, b: bv32)
    requires Step(a) == Step(b)
    ensures a == b
  {
  }

  lemma FourEvenSteps(s: bv32)
    requires s & 0xF == 0
    ensures Step(Step(Step(Step(s)))) == s >> 4
  {
  }

  lemma StepEven(s: bv32)
    requires s & 1 == 0
    ensures Step(s) == s >> 1
  {
    XorNothing(s >> 1);
    assert Step(s) == Xor(s >> 1, 0);
  }

  lemma StepDouble(s: bv32)
    requires s < 0x8000_0000
    ensures Step(s << 1) == s
  {
    hide Step;
    Doubled(s);
    StepEven(s << 1);
  }

  lemma Doubled(s: bv32)
    requires s < 0x8000_0000
    ensures (s << 1) & 1 == 0 && (s << 1) >> 1 == s
  {
  }

  function EightSteps(s: bv32): bv32 {
    Step(Step(Step(Step(Step(Step(Step(Step(s))))))))
  }

  /** The register after each digit of "123456789". */
  lemma CheckRegisters()
    ensures EightSteps(Xor(0xFFFFFFFF, 0x31)) == 0x7C231048
    ensures EightSteps(Xor(0x7C231048, 0x32)) == 0xB0ACBB32
    ensures EightSteps(Xor(0xB0ACBB32, 0x33)) == 0x77B79C2D
    ensures EightSteps(Xor(0x77B79C2D, 0x34)) == 0x641C1F5C
    ensures EightSteps(Xor(0x641C1F5C, 0x35)) == 0x340AC5E3
    ensures EightSteps(Xor(0x340AC5E3, 0x36)) == 0xF68D2C9E
    ensures EightSteps(Xor(0xF68D2C9E, 0x37)) == 0xAFFC9660
    ensures EightSteps(Xor(0xAFFC9660, 0x38)) == 0x651F2550
    ensures EightSteps(Xor(0x651F2550, 0x39)) == 0x340BC6D9
  {
  }

  // ---- exclusive or

  lemma XorAssoc(a: bv32, b: bv32, c: bv32)
    ensures Xor(a, Xor(b, c)) == Xor(Xor(a, b), c)
  {
  }

  lemma XorCancelLeft(s: bv32, a: bv32, b: bv32)
    requires Xor(s, a) == Xor(s, b)
    ensures a == b
  {
  }

  lemma XorCancel(a: bv32, b: bv32, c: bv32)
    requires Xor(a, c) == Xor(b, c)
    ensures a == b
  {
  }

  lemma XorSolve(x: bv32, p: bv32)
    ensures Xor(Xor(x, p), p) == x
  {
  }

  lemma XorBack(t: bv32, p: bv32)
    ensures Xor(Xor(t, p), t) == p
  {
  }

  lemma XorNothing(a: bv32)
    ensures Xor(0, a) == a && Xor(a, 0) == a && Xor(a, a) == 0
  {
  }

  lemma XorZero(a: bv32, b: bv32)
    ensures Xor(a, b) == 0 <==> a == b
  {
    hide Xor;
    XorBack(a, b);
    XorNothing(a);
  }

  lemma XorTwice(t: bv32, p: bv32, q: bv32)
    ensures Xor(Xor(t, p), Xor(t, q)) == Xor(p, q)
  {
    hide Xor;
    XorAssoc(Xor(t, p), t, q);
    XorBack(t, p);
  }

  lemma XorTranspose(x: bv32, p: bv32, y: bv32, q: bv32)
    requires Xor(x, p) == Xor(y, q)
    ensures Xor(x, y) == Xor(p, q)
  {
    hide Xor;
    var t := Xor(x, p);
    XorSolve(x, p);
    XorSolve(y, q);
    XorTwice(t, p, q);
  }

  lemma XorSwap(s: bv32, x: bv32, p: bv32, y: bv32, q: bv32)
    requires Xor(Xor(s, x), p) == Xor(Xor(s, y), q)
    ensures Xor(x, y) == Xor(p, q)
  {
    hide Xor;
    XorAssoc(s, x, p);
    XorAssoc(s, y, q);
    XorCancelLeft(s, Xor(x, p), Xor(y, q));
    XorTranspose(x, p, y, q);
  }

  function Complement(r: bv32): bv32 {
    !r
  }

  lemma XorNot(r: bv32)
    ensures Xor(r, Complement(r)) == 0xFFFF_FFFF
  {
  }

  lemma XorComplement(r: bv32, w: bv32)
    ensures Xor(r, w) == 0xFFFF_FFFF <==> w == Complement(r)
  {
    hide Xor, Complement;
    XorNot(r);
    if Xor(r, w) == 0xFFFF_FFFF {
      XorCancelLeft(r, w, Complement(r));
    }
  }

  // ---- bytes of a word

  /** `w` moved up by k bytes. */
  function Raise(w: bv32, k: nat): bv32 {
    match k
    case 0 => w
    case 1 => w << 8
    case 2 => w << 16
    case _ => w << 24
  }

  /** Byte k of `w`. */
  function Lane(w: bv32, k: nat): (b: bv32)
    ensures b < 256
  {
    match k
    case 0 => w & 0xFF
    case 1 => (w >> 8) & 0xFF
    case 2 => (w >> 16) & 0xFF
    case _ => w >> 24
  }

  function Sum4(a: bv32, b: bv32, c: bv32, d: bv32): bv32 {
    Xor(Xor(Xor(a, b), c), d)
  }

  lemma SumOfBytes(a: bv32, b: bv32, c: bv32, d: bv32)
    requires a < 256 && b < 256 && c < 256 && d < 256
    ensures a | (b << 8) | (c << 16) | (d << 24) == ((a ^ (b << 8)) ^ (c << 16)) ^ (d << 24)
  {
  }

  lemma WordIsSumOfLanes(w: bv32)
    ensures w == Sum4(Raise(Lane(w, 0), 0), Raise(Lane(w, 1), 1), Raise(Lane(w, 2), 2), Raise(Lane(w, 3), 3))
  {
  }

  lemma XorSum4(s: bv32, a: bv32, b: bv32, c: bv32, d: bv32)
    ensures Xor(s, Sum4(a, b, c, d)) == Xor(Xor(Xor(Xor(s, a), b), c), d)
  {
    hide Xor;
    XorAssoc(s, Xor(Xor(a, b), c), d);
    XorAssoc(s, Xor(a, b), c);
    XorAssoc(s, a, b);
  }

  lemma RaiseOnce(w: bv32, k: nat)
    requires w < 256 && k < 3
    ensures Raise(w, k) < 0x100_0000 && Raise(w, k + 1) == Raise(w, k) << 8
  {
  }

  /** The register without its low byte, moved down. */
  function Upper(s: bv32): (u: bv32)
    ensures u < 0x100_0000
  {
    s >> 8
  }

  lemma SplitLowByte(s: bv32)
    ensures Xor(Upper(s) << 8, Lane(s, 0)) == s
  {
  }

  lemma XorLowByte(s: bv32, x: bv32)
    requires x < 256
    ensures Upper(Xor(s, x)) == Upper(s)
  {
  }

  lemma LanesOfOr(a: bv32, b: bv32, c: bv32, d: bv32, w: bv32)
    requires a < 256 && b < 256 && c < 256 && d < 256
    requires w == a | (b << 8) | (c << 16) | (d << 24)
    ensures a == Lane(w, 0) && b == Lane(w, 1) && c == Lane(w, 2) && d == Lane(w, 3)
  {
  }

  lemma OrOfLanes(w: bv32)
    ensures Lane(w, 0) | (Lane(w, 1) << 8) | (Lane(w, 2) << 16) | (Lane(w, 3) << 24) == w
  {
  }

  /** Byte k of a 64-bit word. */
  function Octet(w: bv64, k: nat): bv64 {
    match k
    case 0 => w & 0xFF
    case 1 => (w >> 8) & 0xFF
    case 2 => (w >> 16) & 0xFF
    case 3 => (w >> 24) & 0xFF
    case 4 => (w >> 32) & 0xFF
    case 5 => (w >> 40) & 0xFF
    case 6 => (w >> 48) & 0xFF
    case _ => w >> 56
  }

  lemma LanesOfLowHalf(w: bv64)
    ensures var low := (w & 0xFFFF_FFFF) as bv32;
            && Lane(low, 0) as bv64 == Octet(w, 0) && Lane(low, 1) as bv64 == Octet(w, 1)
            && Lane(low, 2) as bv64 == Octet(w, 2) && Lane(low, 3) as bv64 == Octet(w, 3)
  {
  }

  lemma LanesOfHighHalf(w: bv64)
    ensures var high := (w >> 32) as bv32;
            && Lane(high, 0) as bv64 == Octet(w, 4) && Lane(high, 1) as bv64 == Octet(w, 5)
            && Lane(high, 2) as bv64 == Octet(w, 6) && Lane(high, 3) as bv64 == Octet(w, 7)
  {
  }

  // ---- conversions

  lemma Narrowed(x: bv32)
    requires x < 256
    ensures (x as bv8) as bv32 == x
  {
  }

  lemma Widened(y: bv8)
    ensures (y as bv32) as int == y as int
  {
  }

  lemma Counted(y: bv8)
    ensures y as int < 256 && (y as int) as bv8 == y
  {
  }

  // ---- the bits of a burst

  /** The r low bits of a byte, r at most 8. */
  function LowBits(r: nat): bv8 {
    match r
    case 0 => 0x00
    case 1 => 0x01
    case 2 => 0x03
    case 3 => 0x07
    case 4 => 0x0F
    case 5 => 0x1F
    case 6 => 0x3F
    case 7 => 0x7F
    case _ => 0xFF
  }

  predicate LowZero(w: bv32, r: nat) {
    w & (LowBits(r) as bv32) == 0
  }

  predicate Small(e: bv32, r: nat) {
    e <= LowBits(r) as bv32
  }

  function Down(w: bv32, r: nat): bv32
    decreases r
  {
    if r == 0 then w else Down(w >> 1, r - 1)
  }

  function Up(w: bv32, n: nat): bv32
    decreases n
  {
    if n == 0 then w else Up(w << 1, n - 1)
  }

  lemma LowZeroHalf(w: bv32, r: nat)
    requires 0 < r < 8 && LowZero(w, r)
    ensures w & 1 == 0 && LowZero(w >> 1, r - 1)
  {
  }

  lemma SmallDouble(e: bv32, r: nat)
    requires r < 8 && Small(e, r)
    ensures e < 0x8000_0000 && Small(e << 1, r + 1)
  {
  }

  lemma SmallEight(e: bv32)
    requires Small(e, 8)
    ensures e < 256
  {
  }

  lemma DisjointLow(d: bv32, e: bv32, r: nat)
    requires r < 4 && LowZero(d, r) && Small(e, r)
    requires Down(d, r) == Up(e, 8 - r) << 24
    ensures d == 0 && e == 0
  {
    if r == 0 {
      assert Down(d, 0) == d >> 0 && Up(e, 8) == e << 8;
    } else if r == 1 {
      assert Down(d, 1) == d >> 1 && Up(e, 7) == e << 7;
    } else if r == 2 {
      assert Down(d, 2) == d >> 2 && Up(e, 6) == e << 6;
    } else if r == 3 {
      assert Down(d, 3) == d >> 3 && Up(e, 5) == e << 5;
    }
  }

  lemma DisjointMiddle(d: bv32, e: bv32, r: nat)
    requires 4 <= r < 6 && LowZero(d, r) && Small(e, r)
    requires Down(d, r) == Up(e, 8 - r) << 24
    ensures d == 0 && e == 0
  {
    if r == 4 {
      assert Down(d, 4) == d >> 4 && Up(e, 4) == e << 4;
    } else if r == 5 {
      assert Down(d, 5) == d >> 5 && Up(e, 3) == e << 3;
    }
  }

  lemma DisjointHigh(d: bv32, e: bv32, r: nat)
    requires 6 <= r < 8 && LowZero(d, r) && Small(e, r)
    requires Down(d, r) == Up(e, 8 - r) << 24
    ensures d == 0 && e == 0
  {
    if r == 6 {
      assert Down(d, 6) == d >> 6 && Up(e, 2) == e << 2;
    } else if r == 7 {
      assert Down(d, 7) == d >> 7 && Up(e, 1) == e << 1;
    }
  }

  lemma FlipsWordBits(a: bv8, b: bv8)
    ensures (a as bv32) ^ (b as bv32) == (a ^ b) as bv32
  {
  }

  lemma LowZeroLanes(x: bv32, y: bv32, f: bv8, r: nat)
    requires r < 8 && Xor(Lane(x, 0), Lane(y, 0)) == f as bv32
    requires f & LowBits(r) == 0
    ensures LowZero(Xor(x, y), r)
  {
  }

  lemma SmallFlips(f: bv8, r: nat)
    requires r < 8 && f & !LowBits(r) == 0
    ensures Small(f as bv32, r)
  {
  }

  lemma NoLowBits(f: bv8)
    ensures f & LowBits(0) == 0
  {
  }
}
