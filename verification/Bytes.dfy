/** Fixed-width big-endian integers (encoding/binary, big.Int.FillBytes, SetBytes) and
    the little-endian bit strings the circuit uses. */
module Bytes {
  import opened Field

  type byte = x: int | 0 <= x < 256

  const TWO32: nat := 0x1_0000_0000
  const TWO64: nat := 0x1_0000_0000_0000_0000
  const TWO256: nat := TWO64 * TWO64 * TWO64 * TWO64

  /** A 256-bit word, such as an affine coordinate. */
  type word = x: int | 0 <= x < TWO256

  function Pow256(n: nat): (p: nat)
    ensures p >= 1
  {
    if n == 0 then 1 else 256 * Pow256(n - 1)
  }

  /** The integer a byte string denotes, most significant byte first. */
  function Value(b: seq<byte>): (v: nat)
    ensures v < Pow256(|b|)
  {
    if b == [] then 0 else Value(b[..|b| - 1]) * 256 + b[|b| - 1]
  }

  /** The low `width` bytes of n, most significant first. */
  function Encode(n: nat, width: nat): (b: seq<byte>)
    ensures |b| == width
    ensures n < Pow256(width) ==> Value(b) == n
  {
    if width == 0 then []
    else
      var high: seq<byte> := Encode(n / 256, width - 1);
      var b := high + [n % 256];
      assert b[..width - 1] == high;
      b
  }

  /** Re-encoding a byte string at its own width gives the string back. */
  lemma {:induction false} EncodeValue(b: seq<byte>)
    ensures Encode(Value(b), |b|) == b
  {
    if b != [] {
      var n := |b| - 1;
      EncodeValue(b[..n]);
      assert Value(b) / 256 == Value(b[..n]) && Value(b) % 256 == b[n];
      assert b == b[..n] + [b[n]];
    }
  }

  /** Different numbers that fit have different encodings. */
  lemma EncodeInjective(m: nat, n: nat, width: nat)
    requires m < Pow256(width) && n < Pow256(width)
    requires Encode(m, width) == Encode(n, width)
    ensures m == n
  {
    assert Value(Encode(m, width)) == m;
  }

  lemma Widths()
    ensures Pow256(1) == 256
    ensures Pow256(4) == TWO32
    ensures Pow256(8) == TWO64
    ensures Pow256(32) == TWO256
  {
    assert Pow256(2) == 0x1_0000;
    assert Pow256(4) == TWO32;
    assert Pow256(6) == 0x1_0000_0000_0000;
    assert Pow256(8) == TWO64;
    Pow256Add(8, 8);
    Pow256Add(16, 8);
    Pow256Add(24, 8);
  }

  lemma {:induction false} Pow256Add(m: nat, n: nat)
    ensures Pow256(m + n) == Pow256(m) * Pow256(n)
  {
    if n > 0 {
      Pow256Add(m, n - 1);
      assert Pow256(m + n) == 256 * Pow256(m + (n - 1));
      assert Pow256(m) * (256 * Pow256(n - 1)) == 256 * (Pow256(m) * Pow256(n - 1));
    }
  }

  lemma Regroup(a: seq<byte>, b: seq<byte>, c: seq<byte>)
    ensures a + (b + c) == (a + b) + c
  {
  }

  // --- bits ---------------------------------------------------------------------

  type bit = x: int | 0 <= x < 2

  function Pow2(n: nat): (p: nat)
    ensures p >= 1
  {
    if n == 0 then 1 else 2 * Pow2(n - 1)
  }

  /** The integer a bit string denotes, least significant bit first (api.FromBinary). */
  function FromBits(bits: seq<bit>): (v: nat)
    ensures v < Pow2(|bits|)
  {
    if bits == [] then 0 else bits[0] + 2 * FromBits(bits[1..])
  }

  /** The n low bits of v, least significant first. */
  function ToBits(v: nat, n: nat): (bits: seq<bit>)
    ensures |bits| == n
    ensures v < Pow2(n) ==> FromBits(bits) == v
  {
    if n == 0 then []
    else
      var low: bit := v % 2;
      var bits := [low] + ToBits(v / 2, n - 1);
      assert bits[1..] == ToBits(v / 2, n - 1);
      bits
  }

  lemma {:induction false} FromBitsConcat(a: seq<bit>, b: seq<bit>)
    ensures FromBits(a + b) == FromBits(a) + Pow2(|a|) * FromBits(b)
  {
    if a == [] {
      assert a + b == b;
    } else {
      FromBitsConcat(a[1..], b);
      assert (a + b)[1..] == a[1..] + b;
      Assoc(2, Pow2(|a| - 1), FromBits(b));
    }
  }

  lemma BitWidths()
    ensures Pow2(8) == 256
    ensures Pow2(32) == TWO32
    ensures Pow2(64) == TWO64
    ensures Pow2(256) == TWO256
  {
    assert Pow2(4) == 16;
    assert Pow2(8) == 256;
    assert Pow2(12) == 0x1000;
    assert Pow2(16) == 0x1_0000;
    Pow2Add(16, 16);
    Pow2Add(32, 32);
    Pow2Add(64, 64);
    Pow2Add(128, 64);
    Pow2Add(192, 64);
  }

  lemma {:induction false} Pow2Add(m: nat, n: nat)
    ensures Pow2(m + n) == Pow2(m) * Pow2(n)
  {
    if n > 0 {
      Pow2Add(m, n - 1);
      assert Pow2(m + n) == 2 * Pow2(m + (n - 1));
      assert Pow2(m) * (2 * Pow2(n - 1)) == 2 * (Pow2(m) * Pow2(n - 1));
    }
  }
}
