/** What the CRC guarantees: every nonzero change confined to 32 consecutive bits is seen. */
module CrcDetection {
  import opened Bytes
  import opened CrcBits
  import opened Crc32

  function Flips(a: byte, b: byte): bv8 {
    (a as bv8) ^ (b as bv8)
  }

  /** `a` and `b` differ at most in the 32 bits that start at bit r of byte j
      (bits numbered from the least significant, the order of transmission). */
  ghost predicate Burst(a: seq<byte>, b: seq<byte>, j: nat, r: nat) {
    && |a| == |b| && r < 8
    && (forall i :: 0 <= i < |a| && !(j <= i < j + 5) ==> a[i] == b[i])
    && (j < |a| ==> Flips(a[j], b[j]) & LowBits(r) == 0)
    && (j + 4 < |a| ==> Flips(a[j + 4], b[j + 4]) & !LowBits(r) == 0)
  }

  lemma {:induction false} RegisterInjective(s: bv32, t: bv32, data: seq<byte>)
    requires Register(s, data) == Register(t, data)
    ensures s == t
    decreases |data|
  {
    hide Shift, Step, Xor, Word;
    if |data| > 0 {
      var n := |data| - 1;
      var x, y := Register(s, data[..n]), Register(t, data[..n]);
      ShiftInjective(Xor(x, Word(data[n])), Xor(y, Word(data[n])), 8);
      XorCancel(x, y, Word(data[n]));
      RegisterInjective(s, t, data[..n]);
    }
  }

  lemma LanesOfWordLe(a: byte, b: byte, c: byte, d: byte)
    ensures var w := WordLe(a, b, c, d);
            Word(a) == Lane(w, 0) && Word(b) == Lane(w, 1) && Word(c) == Lane(w, 2) && Word(d) == Lane(w, 3)
  {
    hide Word, Lane;
    LanesOfOr(Word(a), Word(b), Word(c), Word(d), WordLe(a, b, c, d));
  }

  lemma WordLeInjective(p: seq<byte>, q: seq<byte>)
    requires |p| == |q| == 4
    requires WordLe(p[0], p[1], p[2], p[3]) == WordLe(q[0], q[1], q[2], q[3])
    ensures p == q
  {
    hide Word, WordLe, Lane;
    LanesOfWordLe(p[0], p[1], p[2], p[3]);
    LanesOfWordLe(q[0], q[1], q[2], q[3]);
    WordInjective(p[0], q[0]);
    WordInjective(p[1], q[1]);
    WordInjective(p[2], q[2]);
    WordInjective(p[3], q[3]);
  }

  // ---- a burst of five bytes, r bits into the first

  lemma {:induction false} ShiftDown(w: bv32, r: nat)
    requires r < 8 && LowZero(w, r)
    ensures Shift(w, r) == Down(w, r)
    decreases r
  {
    hide Step, LowZero;
    if r > 0 {
      LowZeroHalf(w, r);
      StepEven(w);
      ShiftDown(w >> 1, r - 1);
      ShiftAdd(w, 1, r - 1);
    }
  }

  lemma {:induction false} ShiftUp(e: bv32, r: nat)
    requires r <= 8 && Small(e, r)
    ensures Shift(Up(e, 8 - r), 8 - r) == e && Up(e, 8 - r) < 256
    decreases 8 - r
  {
    hide Step, Small;
    if r < 8 {
      SmallDouble(e, r);
      ShiftUp(e << 1, r + 1);
      StepDouble(e);
    } else {
      SmallEight(e);
    }
  }

  /** The whole burst is r zero bits, 32 free bits, then zeros: if it left no trace
      both ends would have to be zero. */
  lemma NoTrace(d: bv32, e: bv32, r: nat)
    requires r < 8 && LowZero(d, r) && Small(e, r)
    requires Shift(d, 32) == e
    ensures d == 0 && e == 0
  {
    hide Step, Shift, Down, Up, LowZero, Small;
    var w := Up(e, 8 - r);
    ShiftDown(d, r);
    ShiftAdd(d, r, 32 - r);
    ShiftUp(e, r);
    ShiftRaised(w, 3, 8 - r);
    ShiftInjective(Down(d, r), w << 24, 32 - r);
    if r < 4 {
      DisjointLow(d, e, r);
    } else if r < 6 {
      DisjointMiddle(d, e, r);
    } else {
      DisjointHigh(d, e, r);
    }
  }

  // ---- from register words back to bytes

  /** The 32-bit difference of two words keeps the zero low bits of the first byte. */
  lemma LowZeroOfWords(x: bv32, y: bv32, a: byte, b: byte, r: nat)
    requires r < 8 && Lane(x, 0) == Word(a) && Lane(y, 0) == Word(b)
    requires Flips(a, b) & LowBits(r) == 0
    ensures LowZero(Xor(x, y), r)
  {
    FlipsWord(a, b);
    LowZeroLanes(x, y, Flips(a, b), r);
  }

  lemma FlipsWord(a: byte, b: byte)
    ensures Xor(Word(a), Word(b)) == Flips(a, b) as bv32
  {
    FlipsWordBits(a as bv8, b as bv8);
  }

  lemma SmallOfFlips(a: byte, b: byte, r: nat)
    requires r < 8 && Flips(a, b) & !LowBits(r) == 0
    ensures Small(Xor(Word(a), Word(b)), r)
  {
    FlipsWord(a, b);
    SmallFlips(Flips(a, b), r);
  }

  lemma RegisterFive(s: bv32, p: seq<byte>)
    requires |p| == 5
    ensures Register(s, p) == Shift(Xor(Xor(Shift(s, 32), Shift(WordLe(p[0], p[1], p[2], p[3]), 32)), Word(p[4])), 8)
  {
    hide Shift, Step, Xor, Word, WordLe, Register;
    var x := WordLe(p[0], p[1], p[2], p[3]);
    assert p == [p[0], p[1], p[2], p[3]] + [p[4]];
    RegisterConcat(s, [p[0], p[1], p[2], p[3]], [p[4]]);
    RegisterWord(s, p[0], p[1], p[2], p[3]);
    RegisterOne(Register(s, [p[0], p[1], p[2], p[3]]), p[4]);
    ShiftLinear(s, x, 32);
  }

  lemma FiveBytesEqual(p: seq<byte>, q: seq<byte>)
    requires |p| == |q| == 5
    requires WordLe(p[0], p[1], p[2], p[3]) == WordLe(q[0], q[1], q[2], q[3]) && Word(p[4]) == Word(q[4])
    ensures p == q
  {
    hide WordLe, Word;
    WordLeInjective(p[..4], q[..4]);
    WordInjective(p[4], q[4]);
    assert p == p[..4] + [p[4]] && q == q[..4] + [q[4]];
  }

  lemma FiveBytesBalance(s: bv32, p: seq<byte>, q: seq<byte>)
    requires |p| == |q| == 5
    requires Register(s, p) == Register(s, q)
    ensures Shift(Xor(WordLe(p[0], p[1], p[2], p[3]), WordLe(q[0], q[1], q[2], q[3])), 32)
              == Xor(Word(p[4]), Word(q[4]))
  {
    hide Shift, Step, Xor, Word, WordLe, Register;
    var x, y := WordLe(p[0], p[1], p[2], p[3]), WordLe(q[0], q[1], q[2], q[3]);
    RegisterFive(s, p);
    RegisterFive(s, q);
    ShiftInjective(Xor(Xor(Shift(s, 32), Shift(x, 32)), Word(p[4])),
                   Xor(Xor(Shift(s, 32), Shift(y, 32)), Word(q[4])), 8);
    XorSwap(Shift(s, 32), Shift(x, 32), Word(p[4]), Shift(y, 32), Word(q[4]));
    ShiftLinear(x, y, 32);
  }

  lemma FiveBytes(s: bv32, p: seq<byte>, q: seq<byte>, r: nat)
    requires |p| == |q| == 5 && r < 8
    requires Flips(p[0], q[0]) & LowBits(r) == 0
    requires Flips(p[4], q[4]) & !LowBits(r) == 0
    requires Register(s, p) == Register(s, q)
    ensures p == q
  {
    hide Shift, Step, Xor, Word, WordLe, Register, Flips, LowBits, LowZero, Small, Lane;
    var x, y := WordLe(p[0], p[1], p[2], p[3]), WordLe(q[0], q[1], q[2], q[3]);
    FiveBytesBalance(s, p, q);
    LanesOfWordLe(p[0], p[1], p[2], p[3]);
    LanesOfWordLe(q[0], q[1], q[2], q[3]);
    LowZeroOfWords(x, y, p[0], q[0], r);
    SmallOfFlips(p[4], q[4], r);
    NoTrace(Xor(x, y), Xor(Word(p[4]), Word(q[4])), r);
    XorZero(x, y);
    XorZero(Word(p[4]), Word(q[4]));
    FiveBytesEqual(p, q);
  }

  /** A nonzero change confined to 32 consecutive bits always changes the CRC,
      for data of any length. */
  lemma BurstDetected(a: seq<byte>, b: seq<byte>, j: nat, r: nat)
    requires Burst(a, b, j, r) && a != b
    ensures Crc(a) != Crc(b)
  {
    hide Register, Burst;
    if Crc(a) == Crc(b) {
      assert Register(INITIAL, a) == Register(INITIAL, b);
      BurstLeavesTrace(a, b, j, r);
    }
  }

  lemma BurstLeavesTrace(a: seq<byte>, b: seq<byte>, j: nat, r: nat)
    requires Burst(a, b, j, r)
    requires Register(INITIAL, a) == Register(INITIAL, b)
    ensures a == b
  {
    hide Register, LowBits, Flips;
    if j < |a| {
      // Five more bytes make room for the burst without changing the verdict.
      var pad := [0, 0, 0, 0, 0];
      var a', b' := a + pad, b + pad;
      RegisterConcat(INITIAL, a, pad);
      RegisterConcat(INITIAL, b, pad);
      var s := Register(INITIAL, a'[..j]);
      assert a'[..j] == b'[..j] && a'[j + 5..] == b'[j + 5..];
      SplitRegister(a', j);
      SplitRegister(b', j);
      RegisterInjective(Register(s, a'[j..j + 5]), Register(s, b'[j..j + 5]), a'[j + 5..]);
      BurstPart(a, b, j, r, a', b');
      FiveBytes(s, a'[j..j + 5], b'[j..j + 5], r);
      assert a' == a'[..j] + a'[j..j + 5] + a'[j + 5..];
      assert b' == b'[..j] + b'[j..j + 5] + b'[j + 5..];
      assert a == a'[..|a|] && b == b'[..|a|];
    } else {
      assert a == b;
    }
  }

  lemma BurstPart(a: seq<byte>, b: seq<byte>, j: nat, r: nat, a': seq<byte>, b': seq<byte>)
    requires Burst(a, b, j, r) && j < |a| && a' == a + [0, 0, 0, 0, 0] && b' == b + [0, 0, 0, 0, 0]
    ensures Flips(a'[j..j + 5][0], b'[j..j + 5][0]) & LowBits(r) == 0
    ensures Flips(a'[j..j + 5][4], b'[j..j + 5][4]) & !LowBits(r) == 0
  {
    hide Flips, LowBits;
    FlipsSelf(0, r);
  }

  lemma FlipsSelf(a: byte, r: nat)
    ensures Flips(a, a) & !LowBits(r) == 0
  {
  }

  lemma SplitRegister(a: seq<byte>, j: nat)
    requires j + 5 <= |a|
    ensures Register(INITIAL, a) == Register(Register(Register(INITIAL, a[..j]), a[j..j + 5]), a[j + 5..])
  {
    hide Register;
    assert a == a[..j] + (a[j..j + 5] + a[j + 5..]);
    RegisterConcat(INITIAL, a[..j], a[j..j + 5] + a[j + 5..]);
    RegisterConcat(Register(INITIAL, a[..j]), a[j..j + 5], a[j + 5..]);
  }
}
