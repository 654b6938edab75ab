/** Bit errors between two byte strings (tools/frame_check/frame_compare.cpp, the byte loop). */
module BitErrors {
  import opened Bytes
  import opened Crc32
  import opened CrcDetection

  predicate Masked(x: bv8, mask: bv8) {
    x & mask != 0
  }

  function One(c: bool): nat {
    if c then 1 else 0
  }

  function PopCount(x: bv8): nat {
    One(Masked(x, 0x01)) + One(Masked(x, 0x02)) + One(Masked(x, 0x04)) + One(Masked(x, 0x08))
    + One(Masked(x, 0x10)) + One(Masked(x, 0x20)) + One(Masked(x, 0x40)) + One(Masked(x, 0x80))
  }

  /** The number of differing bits. */
  function Hamming(a: seq<byte>, b: seq<byte>): nat
    requires |a| == |b|
  {
    if |a| == 0 then 0
    else Hamming(a[..|a| - 1], b[..|a| - 1]) + PopCount(Flips(a[|a| - 1], b[|a| - 1]))
  }

  /** The number of differing bytes. */
  function DifferingBytes(a: seq<byte>, b: seq<byte>): nat
    requires |a| == |b|
  {
    if |a| == 0 then 0
    else DifferingBytes(a[..|a| - 1], b[..|a| - 1]) + if a[|a| - 1] == b[|a| - 1] then 0 else 1
  }

  lemma PopCountZero(x: bv8)
    ensures PopCount(x) == 0 <==> x == 0
  {
  }

  lemma FlipsZero(a: byte, b: byte)
    ensures Flips(a, b) == 0 <==> a == b
  {
    BitsRoundTrip(a);
    BitsRoundTrip(b);
    XorZeroBits(a as bv8, b as bv8);
  }

  lemma XorZeroBits(x: bv8, y: bv8)
    ensures x ^ y == 0 <==> x == y
  {
  }

  lemma HammingNothing()
    ensures Hamming([], []) == 0
  {
  }

  lemma HammingNext(a: seq<byte>, b: seq<byte>, x: byte, y: byte)
    requires |a| == |b|
    ensures Hamming(a + [x], b + [y]) == Hamming(a, b) + PopCount(Flips(x, y))
  {
    hide PopCount, Flips;
    assert (a + [x])[..|a|] == a && (b + [y])[..|b|] == b;
  }

  /** No differing bit means the same bytes. */
  lemma {:induction false} HammingZero(a: seq<byte>, b: seq<byte>)
    requires |a| == |b|
    ensures Hamming(a, b) == 0 <==> a == b
  {
    hide PopCount, Flips, Hamming;
    if |a| == 0 {
      HammingNothing();
    } else {
      var n := |a| - 1;
      HammingZero(a[..n], b[..n]);
      HammingNext(a[..n], b[..n], a[n], b[n]);
      PopCountZero(Flips(a[n], b[n]));
      FlipsZero(a[n], b[n]);
      assert a == a[..n] + [a[n]] && b == b[..n] + [b[n]];
    }
  }

  /** Distances add up along concatenations. */
  lemma {:induction false} HammingAppend(a: seq<byte>, b: seq<byte>, c: seq<byte>, d: seq<byte>)
    requires |a| == |b| && |c| == |d|
    ensures Hamming(a + c, b + d) == Hamming(a, b) + Hamming(c, d)
  {
    hide PopCount, Flips, Hamming;
    if |c| == 0 {
      assert a + c == a && b + d == b && c == [] && d == [];
      HammingNothing();
    } else {
      var n := |c| - 1;
      HammingAppend(a, b, c[..n], d[..n]);
      HammingNext(a + c[..n], b + d[..n], c[n], d[n]);
      HammingNext(c[..n], d[..n], c[n], d[n]);
      assert a + c == (a + c[..n]) + [c[n]] && b + d == (b + d[..n]) + [d[n]];
      assert c == c[..n] + [c[n]] && d == d[..n] + [d[n]];
    }
  }

  // ---- the counts as sizes of sets

  /** Bit i of a byte, the least significant first. */
  predicate Bit(b: byte, i: nat)
    requires i < 8
  {
    Masked(b as bv8, 1 << i)
  }

  /** The (byte, bit) positions where `a` and `b` differ. */
  ghost function DifferingBits(a: seq<byte>, b: seq<byte>): set<(nat, nat)>
    requires |a| == |b|
  {
    set k: nat, i: nat | k < |a| && i < 8 && Bit(a[k], i) != Bit(b[k], i) :: (k, i)
  }

  /** The first m bits where x and y differ, as positions in byte n. */
  ghost function ByteBits(n: nat, x: byte, y: byte, m: nat): set<(nat, nat)>
    requires m <= 8
  {
    set i: nat | i < m && Bit(x, i) != Bit(y, i) :: (n, i)
  }

  lemma ByteBitsNext(n: nat, x: byte, y: byte, m: nat)
    requires m < 8
    ensures |ByteBits(n, x, y, m + 1)| == |ByteBits(n, x, y, m)| + BitDiffers(x, y, m)
  {
    hide Bit;
    if Bit(x, m) != Bit(y, m) {
      assert ByteBits(n, x, y, m + 1) == ByteBits(n, x, y, m) + {(n, m)};
    } else {
      assert ByteBits(n, x, y, m + 1) == ByteBits(n, x, y, m);
    }
  }

  lemma FlippedBit(x: bv8, y: bv8, mask: bv8)
    requires mask in {0x01, 0x02, 0x04, 0x08, 0x10, 0x20, 0x40, 0x80}
    ensures Masked(x ^ y, mask) <==> Masked(x, mask) != Masked(y, mask)
  {
  }

  /** 1 if bit i differs. */
  function BitDiffers(x: byte, y: byte, i: nat): nat
    requires i < 8
  {
    One(Bit(x, i) != Bit(y, i))
  }

  /** A bit of the exclusive or is set where the bits differ. */
  lemma BitOfFlips(x: byte, y: byte, i: nat, mask: bv8)
    requires i < 8 && mask == 1 << i
    requires mask in {0x01, 0x02, 0x04, 0x08, 0x10, 0x20, 0x40, 0x80}
    ensures One(Masked(Flips(x, y), mask)) == BitDiffers(x, y, i)
  {
    hide Masked;
    FlippedBit(x as bv8, y as bv8, mask);
  }

  lemma BitsOfFlips(x: byte, y: byte)
    ensures PopCount(Flips(x, y))
         == BitDiffers(x, y, 0) + BitDiffers(x, y, 1) + BitDiffers(x, y, 2) + BitDiffers(x, y, 3)
            + BitDiffers(x, y, 4) + BitDiffers(x, y, 5) + BitDiffers(x, y, 6) + BitDiffers(x, y, 7)
  {
    hide Masked, Bit, One, BitDiffers, Flips;
    BitOfFlips(x, y, 0, 0x01);
    BitOfFlips(x, y, 1, 0x02);
    BitOfFlips(x, y, 2, 0x04);
    BitOfFlips(x, y, 3, 0x08);
    BitOfFlips(x, y, 4, 0x10);
    BitOfFlips(x, y, 5, 0x20);
    BitOfFlips(x, y, 6, 0x40);
    BitOfFlips(x, y, 7, 0x80);
  }

  lemma ByteBitsCount(n: nat, x: byte, y: byte)
    ensures |ByteBits(n, x, y, 8)| == PopCount(Flips(x, y))
  {
    assert |ByteBits(n, x, y, 0)| == 0;
    hide ByteBits, Bit, Flips, PopCount, One, BitDiffers;
    ByteBitsNext(n, x, y, 0);
    ByteBitsNext(n, x, y, 1);
    ByteBitsNext(n, x, y, 2);
    ByteBitsNext(n, x, y, 3);
    ByteBitsNext(n, x, y, 4);
    ByteBitsNext(n, x, y, 5);
    ByteBitsNext(n, x, y, 6);
    ByteBitsNext(n, x, y, 7);
    BitsOfFlips(x, y);
  }

  lemma DifferingBitsNext(a: seq<byte>, b: seq<byte>, x: byte, y: byte)
    requires |a| == |b|
    ensures |DifferingBits(a + [x], b + [y])| == |DifferingBits(a, b)| + PopCount(Flips(x, y))
  {
    hide Bit, PopCount, Flips;
    var last := ByteBits(|a|, x, y, 8);
    assert DifferingBits(a + [x], b + [y]) == DifferingBits(a, b) + last;
    assert DifferingBits(a, b) !! last;
    ByteBitsCount(|a|, x, y);
  }

  /** Bit errors count bits: they are the number of positions whose bits differ. */
  lemma {:induction false} HammingCounts(a: seq<byte>, b: seq<byte>)
    requires |a| == |b|
    ensures Hamming(a, b) == |DifferingBits(a, b)|
  {
    hide PopCount, Flips, Hamming, DifferingBits;
    if |a| == 0 {
      HammingNothing();
      NoBits(a, b);
    } else {
      var n := |a| - 1;
      HammingCounts(a[..n], b[..n]);
      HammingNext(a[..n], b[..n], a[n], b[n]);
      DifferingBitsNext(a[..n], b[..n], a[n], b[n]);
      assert a == a[..n] + [a[n]] && b == b[..n] + [b[n]];
    }
  }

  lemma NoBits(a: seq<byte>, b: seq<byte>)
    requires |a| == |b| == 0
    ensures DifferingBits(a, b) == {}
  {
  }

  lemma {:induction false} DifferingBytesCounts(a: seq<byte>, b: seq<byte>)
    requires |a| == |b|
    ensures DifferingBytes(a, b) == |set k: nat | k < |a| && a[k] != b[k]|
  {
    var bytes := set k: nat | k < |a| && a[k] != b[k];
    if |a| == 0 {
      assert bytes == {};
    } else {
      var n := |a| - 1;
      DifferingBytesCounts(a[..n], b[..n]);
      var before := set k: nat | k < n && a[..n][k] != b[..n][k];
      assert bytes == before + if a[n] != b[n] then {n} else {};
    }
  }
}
