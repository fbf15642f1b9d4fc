/** The bit and byte gadgets of circuit.go, each as the function the constraints force and as the
    loop that builds them, with what they compute. */
module Gadgets {
  import opened Bytes
  import opened Field

  // --- bytesBits and secpValue -----------------------------------------------------------------

  /** Little-endian bits of one big-endian integer. */
  function BytesBits(data: seq<byte>): (bits: seq<bit>)
    ensures |bits| == 8 * |data|
    ensures FromBits(bits) == Value(data)
  {
    if data == [] then []
    else
      var n := |data| - 1;
      BitWidths();
      FromBitsConcat(ToBits(data[n], 8), BytesBits(data[..n]));
      ToBits(data[n], 8) + BytesBits(data[..n])
  }

  method BytesBitsLoop(data: seq<byte>) returns (out: seq<bit>)
    ensures out == BytesBits(data)
  {
    hide FromBits, Value, ToBits, BytesBits;
    BytesBitsEmpty(data);
    out := [];
    var i := |data|;
    while i > 0
      invariant 0 <= i <= |data|
      invariant BytesBits(data) == out + BytesBits(data[..i])
    {
      i := i - 1;
      BytesBitsSnoc(data, i);
      var b: seq<bit> := ToBits(data[i], 8);
      assert out + (b + BytesBits(data[..i])) == (out + b) + BytesBits(data[..i]);
      out := out + b;
    }
    assert out + [] == out;
  }

  lemma BytesBitsEmpty(data: seq<byte>)
    ensures BytesBits(data[..0]) == []
    ensures data[..|data|] == data
  {
  }

  lemma BytesBitsSnoc(data: seq<byte>, i: nat)
    requires i < |data|
    ensures BytesBits(data[..i + 1]) == ToBits(data[i], 8) + BytesBits(data[..i])
  {
    assert data[..i + 1][..i] == data[..i];
  }

  /** The scalar of a digest: the bits of one integer, reduced modulo ell. */
  function SecpValue(ell: int, data: seq<byte>): int
    requires ell > 0
  {
    FromBits(BytesBits(data)) % ell
  }

  // --- integerBytes and fieldBytes ---------------------------------------------------------------

  /** Eight little-endian bits at a time, the first eight giving the last byte. */
  function Pack(bits: seq<bit>, width: nat): (out: seq<byte>)
    requires |bits| == 8 * width
    ensures |out| == width
    decreases width
  {
    if width == 0 then []
    else
      BitWidths();
      Pack(bits[8..], width - 1) + [FromBits(bits[..8])]
  }

  function Padded(bits: seq<bit>, width: nat): (padded: seq<bit>)
    requires |bits| <= 8 * width
    ensures |padded| == 8 * width
  {
    bits + seq(8 * width - |bits|, _ => 0)
  }

  /** Pads little-endian bits with zeros and packs them into big-endian bytes. */
  function IntegerBytes(bits: seq<bit>, width: nat): seq<byte>
    requires |bits| <= 8 * width
  {
    Pack(Padded(bits, width), width)
  }

  /** The loop fills the buffer from its end. */
  method IntegerBytesLoop(bits: seq<bit>, width: nat) returns (out: array<byte>)
    requires |bits| <= 8 * width
    ensures out[..] == IntegerBytes(bits, width)
  {
    hide FromBits, Pack;
    var padded := Padded(bits, width);
    out := new byte[width];
    for i := 0 to width
      invariant forall j | width - i <= j < width :: out[j] == EightBits(padded, width - 1 - j)
    {
      out[width - 1 - i] := EightBits(padded, i);
    }
    forall j | 0 <= j < width ensures out[j] == Pack(padded, width)[j] {
      PackAt(padded, width, width - 1 - j);
    }
  }

  function EightBits(bits: seq<bit>, i: nat): byte
    requires 8 * (i + 1) <= |bits|
  {
    BitWidths();
    FromBits(bits[i * 8..(i + 1) * 8])
  }

  lemma {:induction false} PackAt(bits: seq<bit>, width: nat, i: nat)
    requires i < width && |bits| == 8 * width
    ensures Pack(bits, width)[width - 1 - i] == EightBits(bits, i)
    decreases width
  {
    if i > 0 {
      PackAt(bits[8..], width - 1, i - 1);
      assert bits[8..][(i - 1) * 8..i * 8] == bits[i * 8..(i + 1) * 8];
    }
  }

  /** Packing is the fixed-width encoding of the integer the bits denote. */
  lemma {:induction false} PackIsEncode(bits: seq<bit>, width: nat)
    requires |bits| == 8 * width
    ensures Pack(bits, width) == Encode(FromBits(bits), width)
    decreases width
  {
    hide FromBits;
    if width > 0 {
      BitWidths();
      PackIsEncode(bits[8..], width - 1);
      assert bits == bits[..8] + bits[8..];
      FromBitsConcat(bits[..8], bits[8..]);
      ByteStep(FromBits(bits[..8]), FromBits(bits[8..]), width);
    }
  }

  lemma ByteStep(low: nat, high: nat, width: nat)
    requires low < 256 && width > 0
    ensures Encode(low + 256 * high, width) == Encode(high, width - 1) + [low]
  {
    RemainderUnique(256, high, low + 256 * high, low);
  }

  lemma {:induction false} ZeroBits(n: nat)
    ensures FromBits(seq(n, _ => 0)) == 0
  {
    if n > 0 {
      ZeroBits(n - 1);
      assert seq(n, _ => 0 as bit)[1..] == seq(n - 1, _ => 0 as bit);
    }
  }

  lemma PaddingIsFree(bits: seq<bit>, n: nat)
    ensures FromBits(bits + seq(n, _ => 0)) == FromBits(bits)
  {
    ZeroBits(n);
    FromBitsConcat(bits, seq(n, _ => 0));
  }

  lemma IntegerBytesIsEncode(bits: seq<bit>, width: nat)
    requires |bits| <= 8 * width
    ensures IntegerBytes(bits, width) == Encode(FromBits(bits), width)
  {
    hide FromBits, Pack, Encode;
    PackIsEncode(Padded(bits, width), width);
    PaddingIsFree(bits, 8 * width - |bits|);
  }

  /** The bytes of an integer constrained to n bits. */
  lemma BoundedBytes(v: nat, n: nat, width: nat)
    requires n <= 8 * width && v < Pow2(n)
    ensures IntegerBytes(ToBits(v, n), width) == Encode(v, width)
  {
    hide IntegerBytes, FromBits, ToBits, Encode;
    IntegerBytesIsEncode(ToBits(v, n), width);
  }

  /** fieldBytes: the 256 canonical bits of a field element, packed. */
  function FieldBytes(v: nat): seq<byte> {
    IntegerBytes(ToBits(v, 256), 32)
  }

  lemma FieldBytesIsEncode(v: word)
    ensures FieldBytes(v) == Encode(v, 32)
  {
    hide IntegerBytes, ToBits, Encode;
    BitWidths();
    BoundedBytes(v, 256, 32);
  }

  // --- nativeValue -----------------------------------------------------------------------------------

  /** Horner's rule in the circuit field. */
  function Horner(r: int, data: seq<byte>): (v: int)
    requires r > 0
    ensures 0 <= v < r
  {
    if data == [] then 0
    else
      var n := |data| - 1;
      ((Horner(r, data[..n]) * 256) % r + data[n]) % r
  }

  method NativeValue(r: int, data: seq<byte>) returns (out: int)
    requires r > 0
    ensures out == Horner(r, data)
  {
    out := 0;
    for i := 0 to |data|
      invariant out == Horner(r, data[..i])
    {
      assert data[..i + 1][..i] == data[..i];
      out := ((out * 256) % r + data[i]) % r;
    }
    assert data[..|data|] == data;
  }

  /** It is the integer modulo r, whatever its size. */
  lemma {:induction false} HornerIsValue(r: int, data: seq<byte>)
    requires r > 0
    ensures Horner(r, data) == Value(data) % r
    decreases |data|
  {
    if data == [] {
      SmallMod(r, 0);
    } else {
      var n := |data| - 1;
      HornerIsValue(r, data[..n]);
      HornerStep(r, Value(data[..n]), data[n]);
    }
  }

  lemma HornerStep(r: int, v: int, b: int)
    requires r > 0
    ensures (((v % r) * 256) % r + b) % r == (v * 256 + b) % r
  {
    ModMul(r, v, 256);
    ModIdempotent(r, (v % r) * 256);
    CongAdd(r, ((v % r) * 256) % r, v * 256, b, b);
  }

  // --- range checks ------------------------------------------------------------------------------------

  /** A field element that api.ToBinary(v, n) accepts: n bits that recompose to it in the field. */
  ghost predicate Fits(r: int, v: int, n: nat)
    requires r > 0
  {
    exists bits: seq<bit> :: |bits| == n && Cong(r, FromBits(bits), v)
  }

  lemma FitsMeaning(r: int, v: int, n: nat)
    requires r >= Pow2(n)
    ensures Fits(r, v, n) <==> v % r < Pow2(n)
  {
    hide FromBits, ToBits, Pow2;
    if bits: seq<bit> :| |bits| == n && Cong(r, FromBits(bits), v) {
      SmallMod(r, FromBits(bits));
    }
    if v % r < Pow2(n) {
      ModIdempotent(r, v);
      assert Cong(r, FromBits(ToBits(v % r, n)), v);
    }
  }

  /** Decomposing k - counter - 1 in the field is a range check: with 32-bit operands there
      is no wrap-around to exploit. */
  lemma CounterRange(r: int, k: nat, counter: nat)
    requires r > 2 * TWO32 && k < TWO32 && counter < TWO32
    ensures Fits(r, k - counter - 1, 32) <==> counter < k
  {
    BitWidths();
    hide Fits, Pow2;
    FitsMeaning(r, k - counter - 1, 32);
    if counter < k {
      SmallMod(r, k - counter - 1);
    } else {
      RemainderUnique(r, -1, k - counter - 1, k - counter - 1 + r);
    }
  }
}
