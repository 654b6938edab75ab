/** Names of segment files and their order (common/capture_writer.cpp, segment_name;
    common/capture_reader.cpp, the sort of the directory listing). */
module SegmentNames {

  const NAMED_IN_ORDER: nat := 1_000_000

  function DigitChar(d: nat): (c: char)
    requires d < 10
    ensures '0' <= c <= '9'
  {
    '0' + d as char
  }

  /** Decimal digits, most significant first, as an output stream writes them. */
  function Decimal(n: nat): (s: string)
    ensures |s| > 0
  {
    if n < 10 then [DigitChar(n)] else Decimal(n / 10) + [DigitChar(n % 10)]
  }

  /** setw(width) with fill character '0'. */
  function Pad(s: string, width: nat): (r: string)
    ensures |r| == if |s| < width then width else |s|
    decreases width - |s|
  {
    if |s| < width then Pad(['0'] + s, width) else s
  }

  function SegmentName(id: nat): string {
    "segment-" + Pad(Decimal(id), 6) + ".bin"
  }

  /** The number a digit string stands for. */
  function Number(s: string): nat {
    if |s| == 0 then 0
    else 10 * Number(s[..|s| - 1]) + (if '0' <= s[|s| - 1] <= '9' then (s[|s| - 1] - '0') as nat else 0)
  }

  // ---- names identify segments

  lemma {:induction false} NumberOfDecimal(n: nat)
    ensures Number(Decimal(n)) == n
  {
    if n < 10 {
      assert Decimal(n)[..0] == [];
    } else {
      NumberOfDecimal(n / 10);
      var s := Decimal(n);
      assert s[..|s| - 1] == Decimal(n / 10);
    }
  }

  lemma {:induction false} NumberOfZero(s: string)
    ensures Number(['0'] + s) == Number(s)
  {
    var z := ['0'] + s;
    if |s| == 0 {
      assert z[..0] == [];
    } else {
      assert z[..|z| - 1] == ['0'] + s[..|s| - 1];
      NumberOfZero(s[..|s| - 1]);
    }
  }

  lemma {:induction false} NumberOfPad(s: string, width: nat)
    ensures Number(Pad(s, width)) == Number(s)
    decreases width - |s|
  {
    if |s| < width {
      NumberOfZero(s);
      NumberOfPad(['0'] + s, width);
    }
  }

  function Digits(id: nat): string {
    Pad(Decimal(id), 6)
  }

  lemma DigitsNumber(id: nat)
    ensures Number(Digits(id)) == id
  {
    NumberOfDecimal(id);
    NumberOfPad(Decimal(id), 6);
  }

  lemma DigitsOfName(id: nat)
    ensures |SegmentName(id)| == 12 + |Digits(id)|
    ensures SegmentName(id)[8..8 + |Digits(id)|] == Digits(id)
  {
  }

  /** Different segments have different names. */
  lemma NameInjective(i: nat, j: nat)
    requires SegmentName(i) == SegmentName(j)
    ensures i == j
  {
    DigitsOfName(i);
    DigitsOfName(j);
    DigitsNumber(i);
    DigitsNumber(j);
  }

  /** The form of a name: a fixed prefix and extension around the segment number in decimal, padded with
      zeros to six digits. */
  lemma NameShape(id: nat)
    ensures var name := SegmentName(id);
            && |name| >= 18 && name[..8] == "segment-" && name[|name| - 4..] == ".bin"
            && AllDigits(name[8..|name| - 4]) && Number(name[8..|name| - 4]) == id
            && (id < 1_000_000 ==> |name| == 18)
  {
    DigitsOfName(id);
    DigitsNumber(id);
    AllDecimal(id);
    PadDigits(Decimal(id), 6);
    if id < 1_000_000 {
      SixDigits(id);
    }
  }

  lemma {:induction false} AllDecimal(n: nat)
    ensures AllDigits(Decimal(n))
  {
    if n >= 10 {
      AllDecimal(n / 10);
    }
  }

  // ---- order of names

  /** Lexicographic order of strings. */
  predicate Less(a: string, b: string) {
    |b| > 0 && (|a| == 0 || a[0] < b[0] || (a[0] == b[0] && Less(a[1..], b[1..])))
  }

  lemma {:induction false} LessTransitive(a: string, b: string, c: string)
    requires Less(a, b) && Less(b, c)
    ensures Less(a, c)
  {
    if |a| > 0 && a[0] == b[0] && b[0] == c[0] {
      LessTransitive(a[1..], b[1..], c[1..]);
    }
  }

  lemma {:induction false} LessTotal(a: string, b: string)
    ensures Less(a, b) || a == b || Less(b, a)
  {
    if |a| > 0 && |b| > 0 && a[0] == b[0] {
      LessTotal(a[1..], b[1..]);
      assert a == [a[0]] + a[1..] && b == [b[0]] + b[1..];
    }
  }

  lemma {:induction false} LessIrreflexive(a: string)
    ensures !Less(a, a)
  {
    if |a| > 0 {
      LessIrreflexive(a[1..]);
    }
  }

  lemma {:induction false} LessCommonPrefix(p: string, a: string, b: string)
    ensures Less(p + a, p + b) <==> Less(a, b)
  {
    if |p| == 0 {
      assert p + a == a && p + b == b;
    } else {
      assert (p + a)[1..] == p[1..] + a && (p + b)[1..] == p[1..] + b;
      LessCommonPrefix(p[1..], a, b);
    }
  }

  lemma {:induction false} LessSameLength(a: string, b: string, x: string, y: string)
    requires |a| == |b| && Less(a, b)
    ensures Less(a + x, b + y)
  {
    if a[0] == b[0] {
      assert (a + x)[1..] == a[1..] + x && (b + y)[1..] == b[1..] + y;
      LessSameLength(a[1..], b[1..], x, y);
    }
  }

  predicate AllDigits(s: string) {
    forall i :: 0 <= i < |s| ==> '0' <= s[i] <= '9'
  }

  lemma {:induction false} LessSnoc(a: string, b: string, x: char, y: char)
    requires |a| == |b|
    ensures Less(a + [x], b + [y]) <==> Less(a, b) || (a == b && x < y)
  {
    if |a| > 0 {
      assert (a + [x])[1..] == a[1..] + [x] && (b + [y])[1..] == b[1..] + [y];
      if a[0] == b[0] {
        LessSnoc(a[1..], b[1..], x, y);
        assert a == [a[0]] + a[1..] && b == [b[0]] + b[1..];
      }
    }
  }

  /** On digit strings of one length the order of strings is the order of numbers. */
  lemma {:induction false} LessIsNumberOrder(a: string, b: string)
    requires |a| == |b| && AllDigits(a) && AllDigits(b)
    ensures Less(a, b) <==> Number(a) < Number(b)
    ensures a == b <==> Number(a) == Number(b)
  {
    if |a| > 0 {
      var n := |a| - 1;
      LessIsNumberOrder(a[..n], b[..n]);
      LessSnoc(a[..n], b[..n], a[n], b[n]);
      assert a == a[..n] + [a[n]] && b == b[..n] + [b[n]];
    }
  }

  lemma {:induction false} DecimalShape(n: nat, width: nat, bound: nat)
    requires bound == Pow10(width) && n < bound && width > 0
    ensures AllDigits(Decimal(n)) && |Decimal(n)| <= width
    decreases width
  {
    if n >= 10 {
      DecimalShape(n / 10, width - 1, Pow10(width - 1));
    }
  }

  function Pow10(n: nat): nat {
    if n == 0 then 1 else 10 * Pow10(n - 1)
  }

  lemma {:induction false} PadDigits(s: string, width: nat)
    requires AllDigits(s)
    ensures AllDigits(Pad(s, width))
    decreases width - |s|
  {
    if |s| < width {
      PadDigits(['0'] + s, width);
    }
  }

  lemma SixDigits(id: nat)
    requires id < NAMED_IN_ORDER
    ensures |Digits(id)| == 6 && AllDigits(Digits(id))
  {
    assert Pow10(6) == NAMED_IN_ORDER;
    DecimalShape(id, 6, NAMED_IN_ORDER);
    PadDigits(Decimal(id), 6);
  }

  /** Below a million segments, name order is segment order. */
  lemma NameOrder(i: nat, j: nat)
    requires i < j < NAMED_IN_ORDER
    ensures Less(SegmentName(i), SegmentName(j))
  {
    SixDigits(i);
    SixDigits(j);
    DigitsNumber(i);
    DigitsNumber(j);
    LessIsNumberOrder(Digits(i), Digits(j));
    LessSameLength(Digits(i), Digits(j), ".bin", ".bin");
    LessCommonPrefix("segment-", Digits(i) + ".bin", Digits(j) + ".bin");
    NameOfDigits(i);
    NameOfDigits(j);
  }

  /** The names of segments 0 to count - 1 come in segment order. */
  ghost predicate InNameOrder(count: nat) {
    forall i: nat, j: nat :: i < j < count ==> Less(SegmentName(i), SegmentName(j))
  }

  lemma MillionthName()
    ensures Less(SegmentName(1_000_000), SegmentName(999_999))
  {
    hide Less, Digits, SegmentName;
    MillionthDigits();
    var a, b := Digits(1_000_000), Digits(999_999);
    LessByFirst(a + ".bin", b + ".bin");
    LessCommonPrefix("segment-", a + ".bin", b + ".bin");
    NameOfDigits(1_000_000);
    NameOfDigits(999_999);
  }

  lemma NameOfDigits(id: nat)
    ensures SegmentName(id) == "segment-" + (Digits(id) + ".bin")
  {
    hide Decimal, Pad;
  }

  lemma LessByFirst(a: string, b: string)
    requires |a| > 0 && |b| > 0 && a[0] < b[0]
    ensures Less(a, b)
  {
  }

  /** '1' comes before '9'. */
  lemma MillionthDigits()
    ensures |Digits(1_000_000)| > 0 && |Digits(999_999)| > 0
    ensures Digits(1_000_000)[0] < Digits(999_999)[0]
  {
    DecimalSteps(999_999);
    DecimalSteps(1_000_000);
    hide Decimal;
  }

  lemma DecimalSteps(n: nat)
    requires n == 999_999 || n == 1_000_000
    ensures Decimal(n) == if n == 999_999 then "999999" else "1000000"
  {
    if n == 999_999 {
      assert Decimal(9) == "9" && Decimal(99) == "99" && Decimal(999) == "999" && Decimal(9999) == "9999"
          && Decimal(99999) == "99999";
    } else {
      assert Decimal(1) == "1" && Decimal(10) == "10" && Decimal(100) == "100" && Decimal(1000) == "1000"
          && Decimal(10000) == "10000" && Decimal(100000) == "100000";
    }
  }

  /** The six-digit padding keeps name order exactly up to a million segments. */
  lemma NameOrderExactly(count: nat)
    ensures InNameOrder(count) <==> count <= 1_000_000
  {
    if count <= NAMED_IN_ORDER {
      forall i: nat, j: nat | i < j < count
        ensures Less(SegmentName(i), SegmentName(j))
      {
        NameOrder(i, j);
      }
    } else {
      MillionthName();
      if Less(SegmentName(999_999), SegmentName(1_000_000)) {
        LessTransitive(SegmentName(999_999), SegmentName(1_000_000), SegmentName(999_999));
        LessIrreflexive(SegmentName(999_999));
      }
    }
  }
}
