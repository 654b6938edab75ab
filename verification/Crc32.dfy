/** The reflected CRC-32 of IEEE 802.3 section 3.2.9 (RFC 1952 section 8) and
    the slicing-by-8 implementation of common/crc32.cpp. */
module Crc32 {
  import opened Bytes
  import opened CrcBits

  const INITIAL: bv32 := 0xFFFF_FFFF

  // ---- bit-by-bit definition

  /** `n` steps of the shift register. */
  function Shift(s: bv32, n: nat): bv32
    decreases n
  {
    if n == 0 then s else Step(Shift(s, n - 1))
  }

  function Word(b: byte): (w: bv32)
    ensures w < 256
  {
    (b as bv8) as bv32
  }

  /** One input byte: added to the low end, then eight steps. */
  function Absorb(s: bv32, b: byte): bv32 {
    Shift(Xor(s, Word(b)), 8)
  }

  /** The register after all of `data`. */
  function Register(s: bv32, data: seq<byte>): bv32
    decreases |data|
  {
    if |data| == 0 then s
    else Absorb(Register(s, data[..|data| - 1]), data[|data| - 1])
  }

  function Crc(data: seq<byte>): bv32 {
    Complement(Register(INITIAL, data))
  }

  // ---- the register is linear and injective

  lemma {:induction false} ShiftLinear(a: bv32, b: bv32, n: nat)
    ensures Shift(Xor(a, b), n) == Xor(Shift(a, n), Shift(b, n))
  {
    hide Step, Xor;
    if n > 0 {
      ShiftLinear(a, b, n - 1);
      StepLinear(Shift(a, n - 1), Shift(b, n - 1));
    }
  }

  lemma {:induction false} ShiftInjective(a: bv32, b: bv32, n: nat)
    requires Shift(a, n) == Shift(b, n)
    ensures a == b
  {
    hide Step;
    if n > 0 {
      StepInjective(Shift(a, n - 1), Shift(b, n - 1));
      ShiftInjective(a, b, n - 1);
    }
  }

  lemma {:induction false} ShiftAdd(s: bv32, m: nat, n: nat)
    ensures Shift(Shift(s, m), n) == Shift(s, m + n)
  {
    hide Step;
    if n > 0 {
      ShiftAdd(s, m, n - 1);
    }
  }

  lemma ShiftFour(s: bv32)
    ensures Shift(s, 4) == Step(Step(Step(Step(s))))
  {
    hide Step;
  }

  /** While the bits shifted out are zero the polynomial never enters. */
  lemma ShiftLowZero(s: bv32)
    requires s & 0xFF == 0
    ensures Shift(s, 8) == s >> 8
  {
    assert s & 0xF == 0 && (s >> 4) & 0xF == 0;
    assert Shift(s, 8) == s >> 8 by {
      hide Shift, Step;
      FourEvenSteps(s);
      FourEvenSteps(s >> 4);
      ShiftFour(s);
      ShiftFour(s >> 4);
      ShiftAdd(s, 4, 4);
    }
  }

  lemma WordRoundTrip(x: bv32)
    requires x < 256
    ensures x as int < 256 && Word(x as int) == x
  {
    Narrowed(x);
    Widened(x as bv8);
    Counted(x as bv8);
  }

  lemma BitsRoundTrip(b: byte)
    ensures (b as bv8) as int == b
  {
    // Small ranges keep the conversion cheap for the solver.
    if b < 16 {
    } else if b < 32 {
    } else if b < 48 {
    } else if b < 64 {
    } else if b < 96 {
    } else if b < 128 {
    } else if b < 192 {
    } else {
    }
  }

  lemma WordInjective(a: byte, b: byte)
    requires Word(a) == Word(b)
    ensures a == b
  {
    BitsRoundTrip(a);
    BitsRoundTrip(b);
    var x, y := a as bv8, b as bv8;
    assert x as bv32 == y as bv32;
    assert x == y;
  }

  // ---- reading by the word

  lemma {:induction false} RegisterConcat(s: bv32, a: seq<byte>, b: seq<byte>)
    ensures Register(s, a + b) == Register(Register(s, a), b)
    decreases |b|
  {
    hide Absorb;
    if |b| == 0 {
      assert a + b == a;
    } else {
      var n := |b| - 1;
      assert (a + b)[..|a + b| - 1] == a + b[..n];
      RegisterConcat(s, a, b[..n]);
    }
  }

  lemma RegisterFour(s: bv32, a: byte, b: byte, c: byte, d: byte)
    ensures Register(s, [a, b, c, d]) == Absorb(Absorb(Absorb(Absorb(s, a), b), c), d)
  {
    hide Absorb;
    assert [a][..0] == [];
    assert [a, b][..1] == [a];
    assert [a, b, c][..2] == [a, b];
    assert [a, b, c, d][..3] == [a, b, c];
    assert Register(s, [a]) == Absorb(s, a);
    assert Register(s, [a, b]) == Absorb(Register(s, [a]), b);
    assert Register(s, [a, b, c]) == Absorb(Register(s, [a, b]), c);
  }

  /** Bytes `a`, `b`, `c`, `d` as one little-endian word. */
  function WordLe(a: byte, b: byte, c: byte, d: byte): bv32 {
    Word(a) | (Word(b) << 8) | (Word(c) << 16) | (Word(d) << 24)
  }

  lemma WordLeIsSum(a: byte, b: byte, c: byte, d: byte)
    ensures WordLe(a, b, c, d) == Sum4(Raise(Word(a), 0), Raise(Word(b), 1), Raise(Word(c), 2), Raise(Word(d), 3))
  {
    SumOfBytes(Word(a), Word(b), Word(c), Word(d));
  }

  lemma ShiftRaisedOne(w: bv32)
    requires w < 0x100_0000
    ensures Shift(w << 8, 8) == w
  {
    hide Shift, Step;
    ShiftLowZero(w << 8);
  }

  lemma ShiftRaisedStep(w: bv32, k: nat, n: nat)
    requires w < 256 && k < 3
    ensures Shift(Raise(w, k + 1), 8 + n) == Shift(Raise(w, k), n)
  {
    hide Shift, Step, Raise;
    RaiseOnce(w, k);
    ShiftRaisedOne(Raise(w, k));
    ShiftAdd(Raise(w, k + 1), 8, n);
  }

  /** A byte entering k bytes later weighs the same as one raised by k bytes. */
  lemma {:induction false} ShiftRaised(w: bv32, k: nat, n: nat)
    requires w < 256 && k < 4
    ensures Shift(Raise(w, k), 8 * k + n) == Shift(w, n)
  {
    hide Shift, Step;
    if k > 0 {
      hide Raise;
      ShiftRaisedStep(w, k - 1, 8 * (k - 1) + n);
      ShiftRaised(w, k - 1, n);
    }
  }

  lemma AbsorbRaised(y: bv32, b: byte, k: nat)
    requires k < 4
    ensures Absorb(Shift(y, 8 * k), b) == Shift(Xor(y, Raise(Word(b), k)), 8 * k + 8)
  {
    hide Shift, Step, Xor, Raise;
    var raised := Raise(Word(b), k);
    ShiftRaised(Word(b), k, 0);
    assert Shift(Word(b), 0) == Word(b) by { ShiftNone(Word(b)); }
    ShiftLinear(y, raised, 8 * k);
    ShiftAdd(Xor(y, raised), 8 * k, 8);
  }

  lemma ShiftNone(s: bv32)
    ensures Shift(s, 0) == s
  {
  }

  /** Four bytes at once: add them as a word, then 32 steps. */
  lemma RegisterWord(s: bv32, a: byte, b: byte, c: byte, d: byte)
    ensures Register(s, [a, b, c, d]) == Shift(Xor(s, WordLe(a, b, c, d)), 32)
  {
    RegisterFour(s, a, b, c, d);
    hide Shift, Step, Word, Xor, Absorb, Register, WordLe, Raise;
    var y1 := Xor(s, Raise(Word(a), 0));
    var y2 := Xor(y1, Raise(Word(b), 1));
    var y3 := Xor(y2, Raise(Word(c), 2));
    ShiftNone(s);
    AbsorbRaised(s, a, 0);
    AbsorbRaised(y1, b, 1);
    AbsorbRaised(y2, c, 2);
    AbsorbRaised(y3, d, 3);
    WordLeIsSum(a, b, c, d);
    XorSum4(s, Raise(Word(a), 0), Raise(Word(b), 1), Raise(Word(c), 2), Raise(Word(d), 3));
  }

  // ---- tables

  /** Entry i of table k: byte i followed by k zero bytes. */
  function Entry(k: nat, w: bv32): bv32 {
    Shift(w, 8 * (k + 1))
  }

  /** The table form of one byte step, and the recurrence that fills the tables. */
  lemma ShiftByTable(s: bv32)
    ensures Shift(s, 8) == Xor(Upper(s), Entry(0, Lane(s, 0)))
  {
    hide Shift, Step, Xor, Lane, Upper;
    SplitLowByte(s);
    ShiftRaisedOne(Upper(s));
    ShiftLinear(Upper(s) << 8, Lane(s, 0), 8);
  }

  lemma ShiftBySlices(w: bv32)
    ensures Shift(w, 64) == Sum4(Entry(7, Lane(w, 0)), Entry(6, Lane(w, 1)), Entry(5, Lane(w, 2)), Entry(4, Lane(w, 3)))
  {
    hide Shift, Step, Xor, Raise, Lane;
    var a, b, c, d := Lane(w, 0), Lane(w, 1), Lane(w, 2), Lane(w, 3);
    WordIsSumOfLanes(w);
    ShiftRaised(a, 0, 64);
    ShiftRaised(b, 1, 56);
    ShiftRaised(c, 2, 48);
    ShiftRaised(d, 3, 40);
    ShiftLinear(Xor(Xor(Raise(a, 0), Raise(b, 1)), Raise(c, 2)), Raise(d, 3), 64);
    ShiftLinear(Xor(Raise(a, 0), Raise(b, 1)), Raise(c, 2), 64);
    ShiftLinear(Raise(a, 0), Raise(b, 1), 64);
  }

  lemma AbsorbSplit(s: bv32, b: byte)
    ensures Absorb(s, b) == Xor(Shift(s, 8), Shift(Word(b), 8))
  {
    hide Shift, Step, Xor, Word;
    ShiftLinear(s, Word(b), 8);
  }

  lemma AbsorbSum(x: bv32, y: bv32, b: byte)
    ensures Absorb(Xor(x, y), b) == Xor(Xor(Shift(x, 8), Shift(y, 8)), Shift(Word(b), 8))
  {
    hide Shift, Step, Xor, Word, Absorb;
    AbsorbSplit(Xor(x, y), b);
    ShiftLinear(x, y, 8);
  }

  /** What one round of the eight-byte loop looks up. */
  function Slices(w: bv32, e: byte, f: byte, g: byte, h: byte): bv32 {
    Sum4(Xor(Sum4(Entry(7, Lane(w, 0)), Entry(6, Lane(w, 1)), Entry(5, Lane(w, 2)), Entry(4, Lane(w, 3))),
             Entry(3, Word(e))),
         Entry(2, Word(f)), Entry(1, Word(g)), Entry(0, Word(h)))
  }

  lemma ShiftByEights(s: bv32, n: nat)
    ensures Shift(Shift(s, n), 8) == Shift(s, n + 8)
  {
    ShiftAdd(s, n, 8);
  }

  lemma AbsorbTwo(s: bv32, a: byte, b: byte)
    ensures Absorb(Absorb(s, a), b) == Xor(Xor(Shift(s, 16), Shift(Word(a), 16)), Shift(Word(b), 8))
  {
    hide Shift, Step, Word, Xor, Absorb;
    AbsorbSplit(s, a);
    AbsorbSum(Shift(s, 8), Shift(Word(a), 8), b);
    ShiftByEights(s, 8);
    ShiftByEights(Word(a), 8);
  }

  lemma AbsorbThree(s: bv32, a: byte, b: byte, c: byte)
    ensures Absorb(Absorb(Absorb(s, a), b), c)
         == Xor(Xor(Xor(Shift(s, 24), Shift(Word(a), 24)), Shift(Word(b), 16)), Shift(Word(c), 8))
  {
    hide Shift, Step, Word, Xor, Absorb;
    AbsorbTwo(s, a, b);
    AbsorbSum(Xor(Shift(s, 16), Shift(Word(a), 16)), Shift(Word(b), 8), c);
    ShiftLinear(Shift(s, 16), Shift(Word(a), 16), 8);
    ShiftByEights(s, 16);
    ShiftByEights(Word(a), 16);
    ShiftByEights(Word(b), 8);
  }

  lemma AbsorbFour(s: bv32, a: byte, b: byte, c: byte, d: byte)
    ensures Absorb(Absorb(Absorb(Absorb(s, a), b), c), d)
         == Sum4(Xor(Shift(s, 32), Shift(Word(a), 32)), Shift(Word(b), 24), Shift(Word(c), 16), Shift(Word(d), 8))
  {
    hide Shift, Step, Word, Xor, Absorb;
    AbsorbThree(s, a, b, c);
    AbsorbSum(Xor(Xor(Shift(s, 24), Shift(Word(a), 24)), Shift(Word(b), 16)), Shift(Word(c), 8), d);
    ShiftLinear(Xor(Shift(s, 24), Shift(Word(a), 24)), Shift(Word(b), 16), 8);
    ShiftLinear(Shift(s, 24), Shift(Word(a), 24), 8);
    ShiftByEights(s, 24);
    ShiftByEights(Word(a), 24);
    ShiftByEights(Word(b), 16);
    ShiftByEights(Word(c), 8);
  }

  /** Eight bytes at once: the first four through the lanes of the register. */
  lemma RegisterEight(s: bv32, p: seq<byte>)
    requires |p| == 8
    ensures Register(s, p) == Slices(Xor(s, WordLe(p[0], p[1], p[2], p[3])), p[4], p[5], p[6], p[7])
  {
    hide Shift, Step, Word, Xor, Absorb, Register, WordLe, Lane;
    var first, last := [p[0], p[1], p[2], p[3]], [p[4], p[5], p[6], p[7]];
    assert p == first + last;
    var w := Xor(s, WordLe(p[0], p[1], p[2], p[3]));
    RegisterConcat(s, first, last);
    RegisterWord(s, p[0], p[1], p[2], p[3]);
    RegisterFour(Shift(w, 32), p[4], p[5], p[6], p[7]);
    AbsorbFour(Shift(w, 32), p[4], p[5], p[6], p[7]);
    ShiftAdd(w, 32, 32);
    ShiftBySlices(w);
  }

  lemma RegisterNothing(s: bv32)
    ensures Register(s, []) == s
  {
  }

  lemma RegisterOne(s: bv32, b: byte)
    ensures Register(s, [b]) == Absorb(s, b)
  {
    hide Absorb;
    assert [b][..0] == [];
  }

  lemma AbsorbByTable(s: bv32, b: byte)
    ensures Absorb(s, b) == Xor(Upper(s), Entry(0, Lane(Xor(s, Word(b)), 0)))
  {
    hide Shift, Step, Word, Xor, Lane, Upper, Entry;
    XorLowByte(s, Word(b));
    ShiftByTable(Xor(s, Word(b)));
  }

  // ---- implementation

  ghost predicate IsTables(t: array2<bv32>)
    reads t
  {
    && t.Length0 == 8 && t.Length1 == 256
    && forall k, i :: 0 <= k < 8 && 0 <= i < 256 ==> t[k, i] == Entry(k, Word(i))
  }

  /** The next table's entry is the previous one pushed through one more zero byte. */
  lemma NextEntry(k: nat, w: bv32)
    ensures Entry(k + 1, w) == Xor(Upper(Entry(k, w)), Entry(0, Lane(Entry(k, w), 0)))
  {
    hide Shift, Step, Xor, Lane, Upper;
    ShiftAdd(w, 8 * (k + 1), 8);
    ShiftByTable(Entry(k, w));
  }

  /** A byte-valued word as a table index. */
  function Index(w: bv32): (i: byte)
    requires w < 256
    ensures Word(i) == w
  {
    WordRoundTrip(w);
    w as int
  }

  method MakeTables() returns (t: array2<bv32>)
    ensures IsTables(t)
  {
    hide Word, Entry;
    t := new bv32[8, 256];
    for i := 0 to 256
      invariant forall j :: 0 <= j < i ==> t[0, j] == Entry(0, Word(j))
    {
      t[0, i] := FirstEntry(i);
    }
    for i := 0 to 256
      invariant forall j :: 0 <= j < 256 ==> t[0, j] == Entry(0, Word(j))
      invariant forall k, j :: 0 <= k < 8 && 0 <= j < i ==> t[k, j] == Entry(k, Word(j))
    {
      FillColumn(t, i);
    }
  }

  /** The loop over k of make_tables: byte i of tables 1 to 7 from those before. */
  method FillColumn(t: array2<bv32>, i: byte)
    requires t.Length0 == 8 && t.Length1 == 256
    requires forall j :: 0 <= j < 256 ==> t[0, j] == Entry(0, Word(j))
    modifies t
    ensures forall k, j :: 0 <= k < 8 && 0 <= j < 256 && (k == 0 || j != i) ==> t[k, j] == old(t[k, j])
    ensures forall k :: 0 <= k < 8 ==> t[k, i] == Entry(k, Word(i))
  {
    hide Word, Shift, Xor, Lane, Entry, Upper;
    for k := 1 to 8
      invariant forall k', j :: 0 <= k' < 8 && 0 <= j < 256 && (k' == 0 || j != i) ==> t[k', j] == old(t[k', j])
      invariant forall k' :: 0 <= k' < k ==> t[k', i] == Entry(k', Word(i))
    {
      NextEntry(k - 1, Word(i));
      t[k, i] := Xor(Upper(t[k - 1, i]), t[0, Index(Lane(t[k - 1, i], 0))]);
    }
  }

  /** The inner loop of make_tables: eight steps from the table index. */
  method FirstEntry(i: byte) returns (crc: bv32)
    ensures crc == Entry(0, Word(i))
  {
    crc := Word(i);
    for bit := 0 to 8
      invariant crc == Shift(Word(i), bit)
    {
      crc := (crc >> 1) ^ (if crc & 1 == 1 then POLYNOMIAL else 0);
    }
  }

  /** One round of the eight-byte loop, on the bytes at p. */
  method SliceRound(t: array2<bv32>, s: bv32, p: seq<byte>) returns (crc: bv32)
    requires IsTables(t) && |p| == 8
    ensures crc == Register(s, p)
  {
    hide Word, Xor, Lane, WordLe, Register, Entry;
    RegisterEight(s, p);
    var lo := Xor(s, WordLe(p[0], p[1], p[2], p[3]));
    crc := Xor(Xor(Xor(Xor(Xor(Xor(Xor(t[7, Index(Lane(lo, 0))], t[6, Index(Lane(lo, 1))]),
                                   t[5, Index(Lane(lo, 2))]), t[4, Index(Lane(lo, 3))]),
                       t[3, p[4]]), t[2, p[5]]), t[1, p[6]]), t[0, p[7]]);
  }

  /** One round of the tail loop. */
  method TailRound(t: array2<bv32>, s: bv32, b: byte) returns (crc: bv32)
    requires IsTables(t)
    ensures crc == Register(s, [b])
  {
    hide Word, Xor, Lane, Register, Entry, Upper;
    RegisterOne(s, b);
    AbsorbByTable(s, b);
    crc := Xor(Upper(s), t[0, Index(Lane(Xor(s, Word(b)), 0))]);
  }

  /** crc32: the slicing-by-8 form agrees with the bit-by-bit definition on every input. */
  method ComputeCrc(bytes: seq<byte>) returns (crc: bv32)
    ensures crc == Crc(bytes)
  {
    hide Register, Entry, Word;
    // The source evaluates the tables at compile time.
    var t := MakeTables();
    crc := INITIAL;
    var p, n := 0, |bytes|;
    RegisterNothing(INITIAL);
    while n >= 8
      invariant IsTables(t)
      invariant 0 <= n && p + n == |bytes|
      invariant crc == Register(INITIAL, bytes[..p])
    {
      RegisterConcat(INITIAL, bytes[..p], bytes[p..p + 8]);
      assert bytes[..p] + bytes[p..p + 8] == bytes[..p + 8];
      crc := SliceRound(t, crc, bytes[p..p + 8]);
      p := p + 8;
      n := n - 8;
    }
    while n > 0
      invariant IsTables(t)
      invariant 0 <= n && p + n == |bytes|
      invariant crc == Register(INITIAL, bytes[..p])
    {
      RegisterConcat(INITIAL, bytes[..p], [bytes[p]]);
      assert bytes[..p] + [bytes[p]] == bytes[..p + 1];
      crc := TailRound(t, crc, bytes[p]);
      p := p + 1;
      n := n - 1;
    }
    assert bytes[..p] == bytes;
    crc := Complement(crc);
  }

  // ---- the definition against the published check value

  lemma AbsorbIsEightSteps(s: bv32, b: byte)
    ensures Absorb(s, b) == EightSteps(Xor(s, Word(b)))
  {
    hide Step, Word, Xor;
    ShiftFour(Xor(s, Word(b)));
    ShiftFour(Shift(Xor(s, Word(b)), 4));
    ShiftAdd(Xor(s, Word(b)), 4, 4);
  }

  lemma DigitWords()
    ensures Word(49) == 0x31 && Word(50) == 0x32 && Word(51) == 0x33 && Word(52) == 0x34 && Word(53) == 0x35
    ensures Word(54) == 0x36 && Word(55) == 0x37 && Word(56) == 0x38 && Word(57) == 0x39
  {
  }

  /** The bytes of "123456789" have the CRC that every CRC-32 catalogue lists. */
  lemma CheckValue()
    ensures Crc([49, 50, 51, 52, 53, 54, 55, 56, 57]) == 0xCBF43926
  {
    hide Absorb, Register, EightSteps, Word, Xor;
    DigitWords();
    CheckRegisters();
    var front, back := [49, 50, 51, 52], [53, 54, 55, 56];
    assert [49, 50, 51, 52, 53, 54, 55, 56, 57] == (front + back) + [57];
    RegisterConcat(INITIAL, front + back, [57]);
    RegisterConcat(INITIAL, front, back);
    RegisterFour(INITIAL, 49, 50, 51, 52);
    RegisterFour(Register(INITIAL, front), 53, 54, 55, 56);
    RegisterOne(Register(INITIAL, front + back), 57);
    AbsorbIsEightSteps(0xFFFFFFFF, 49);
    AbsorbIsEightSteps(0x7C231048, 50);
    AbsorbIsEightSteps(0xB0ACBB32, 51);
    AbsorbIsEightSteps(0x77B79C2D, 52);
    AbsorbIsEightSteps(0x641C1F5C, 53);
    AbsorbIsEightSteps(0x340AC5E3, 54);
    AbsorbIsEightSteps(0xF68D2C9E, 55);
    AbsorbIsEightSteps(0xAFFC9660, 56);
    AbsorbIsEightSteps(0x651F2550, 57);
  }
}
