/** Fixed-width little-endian integers (common/frame.cpp, put_le and get_le). */
module Bytes {
  type byte = x: nat | x < 0x100
  type u16 = x: nat | x < 0x1_0000
  type u32 = x: nat | x < 0x1_0000_0000
  type u64 = x: nat | x < 0x1_0000_0000_0000_0000

  function Min(a: nat, b: nat): nat {
    if a < b then a else b
  }

  function Pow256(n: nat): (p: nat)
    ensures p > 0
  {
    if n == 0 then 1 else 256 * Pow256(n - 1)
  }

  lemma Pow256Values()
    ensures Pow256(2) == 0x1_0000 && Pow256(4) == 0x1_0000_0000 && Pow256(8) == 0x1_0000_0000_0000_0000
  {
  }

  function ToByte(n: nat): byte {
    n % 256
  }

  /** The `width` low bytes of `value`, least significant first. */
  function Le(value: nat, width: nat): (b: seq<byte>)
    ensures |b| == width
  {
    if width == 0 then [] else [ToByte(value)] + Le(value / 256, width - 1)
  }

  /** The number whose little-endian bytes are `b`. */
  function FromLe(b: seq<byte>): (value: nat)
    ensures value < Pow256(|b|)
  {
    if |b| == 0 then 0 else b[0] + 256 * FromLe(b[1..])
  }

  /** Reading back what was written gives the value modulo the width. */
  lemma {:induction false} FromLeOfLe(value: nat, width: nat)
    requires value < Pow256(width)
    ensures FromLe(Le(value, width)) == value
  {
    if width > 0 {
      FromLeOfLe(value / 256, width - 1);
      assert Le(value, width)[1..] == Le(value / 256, width - 1);
    }
  }

  /** Writing what was read gives the bytes back. */
  lemma {:induction false} LeOfFromLe(b: seq<byte>)
    ensures Le(FromLe(b), |b|) == b
  {
    if |b| > 0 {
      var low, rest := b[0], FromLe(b[1..]);
      assert (low + 256 * rest) % 256 == low && (low + 256 * rest) / 256 == rest;
      LeOfFromLe(b[1..]);
    }
  }

  lemma FromLeInjective(a: seq<byte>, b: seq<byte>)
    requires |a| == |b| && FromLe(a) == FromLe(b)
    ensures a == b
  {
    LeOfFromLe(a);
    LeOfFromLe(b);
  }

  lemma ScaleBy256(x: nat, p: nat)
    ensures 256 * (x * p) == x * (256 * p)
  {
  }

  lemma {:induction false} FromLeSnoc(b: seq<byte>, x: byte)
    ensures FromLe(b + [x]) == FromLe(b) + x * Pow256(|b|)
  {
    if |b| == 0 {
      assert (b + [x])[1..] == [];
    } else {
      FromLeSnoc(b[1..], x);
      assert (b + [x])[1..] == b[1..] + [x];
      ScaleBy256(x, Pow256(|b| - 1));
    }
  }

  /** put_le into a fixed buffer: stores the bytes and advances the offset.
      `rest` is the source's value >> (8 * i). */
  method PutLe(buf: array<byte>, offset: nat, value: nat, width: nat) returns (next: nat)
    requires offset + width <= buf.Length
    modifies buf
    ensures next == offset + width
    ensures buf[..next] == old(buf[..offset]) + Le(value, width)
  {
    next := offset;
    var rest := value;
    for i := 0 to width
      invariant next == offset + i
      invariant buf[..next] + Le(rest, width - i) == old(buf[..offset]) + Le(value, width)
    {
      ghost var before := buf[..next];
      buf[next] := ToByte(rest);
      next := next + 1;
      assert buf[..next] == before + [ToByte(rest)];
      rest := rest / 256;
    }
  }

  /** get_le: accumulates the value byte by byte and advances the offset.
      `scale` is the weight 1 << (8 * i) of byte i. */
  method GetLe(bytes: seq<byte>, offset: nat, width: nat) returns (value: nat, next: nat)
    requires offset + width <= |bytes|
    ensures next == offset + width
    ensures value == FromLe(bytes[offset..next])
  {
    value, next := 0, offset;
    var scale: nat := 1;
    for i := 0 to width
      invariant next == offset + i && scale == Pow256(i)
      invariant value == FromLe(bytes[offset..next])
    {
      FromLeSnoc(bytes[offset..next], bytes[next]);
      assert bytes[offset..next] + [bytes[next]] == bytes[offset..next + 1];
      value := value + bytes[next] * scale;
      scale := 256 * scale;
      next := next + 1;
    }
  }
}
