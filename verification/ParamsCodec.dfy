/** The public-parameter file of setup_encoding.go. */
module ParamsCodec {
  import opened Common
  import opened Bytes
  import opened Field
  import opened Suites
  import opened Accumulator
  import opened Cursors

  const MAGIC: seq<byte> := [76, 75, 84, 82, 83, 80, 48, 49]
  const MAX_BYTES: nat := 12 + 32 + 64 * 2 + (0x1_0000 + 1) * 32

  /** gnark's compressed points: Bytes and SetBytes, which may also accept other spellings. */
  datatype Compressed = Compressed(width: nat, encode: int -> seq<byte>, decode: seq<byte> -> Option<int>)

  ghost predicate CompressedOk(c: Compressed, order: int) {
    && c.width > 0
    && (forall p :: |c.encode(p)| == c.width)
    && (forall p | 0 < p < order :: c.decode(c.encode(p)) == Some(p))
  }

  datatype Codec = Codec(s: Suite, g1: Compressed, g2: Compressed) {
    ghost predicate Valid() {
      s.Valid() && g1.width == 32 && g2.width == 64 && CompressedOk(g1, s.r) && CompressedOk(g2, s.r)
    }
  }

  // --- points ---------------------------------------------------------------------------------

  /** SetBytes, then the canonicality and subgroup checks. */
  function ParsePoint(c: Compressed, order: int, data: seq<byte>): Option<int> {
    match c.decode(data)
    case Some(p) => if c.encode(p) == data && 0 < p < order then Some(p) else None
    case None => None
  }

  lemma PointCodec(c: Compressed, order: int, p: int)
    requires CompressedOk(c, order) && 0 < p < order
    ensures ParsePoint(c, order, c.encode(p)) == Some(p)
  {
  }

  function PowersBytes(c: Compressed, powers: seq<int>): seq<byte> {
    if powers == [] then [] else c.encode(powers[0]) + PowersBytes(c, powers[1..])
  }

  function ParsePowers(c: Compressed, order: int, data: seq<byte>): Option<seq<int>>
    requires c.width > 0
    decreases |data|
  {
    if |data| < c.width then (if data == [] then Some([]) else None)
    else match ParsePoint(c, order, data[..c.width])
      case None => None
      case Some(p) => Prepend([p], ParsePowers(c, order, data[c.width..]))
  }

  function Prepend(a: seq<int>, rest: Option<seq<int>>): Option<seq<int>> {
    match rest
    case None => None
    case Some(b) => Some(a + b)
  }

  lemma {:induction false} PowersOfBytes(c: Compressed, order: int, powers: seq<int>)
    requires CompressedOk(c, order) && forall i | 0 <= i < |powers| :: 0 < powers[i] < order
    ensures |PowersBytes(c, powers)| == c.width * |powers|
    ensures ParsePowers(c, order, PowersBytes(c, powers)) == Some(powers)
    decreases |powers|
  {
    hide ParsePoint;
    if powers != [] {
      var rest := powers[1..];
      PowersOfBytes(c, order, rest);
      PointCodec(c, order, powers[0]);
      var b := PowersBytes(c, powers);
      assert b[..c.width] == c.encode(powers[0]) && b[c.width..] == PowersBytes(c, rest);
      assert [powers[0]] + rest == powers;
    }
  }

  lemma {:induction false} BytesOfPowers(c: Compressed, order: int, data: seq<byte>)
    requires c.width > 0 && ParsePowers(c, order, data).Some?
    ensures PowersBytes(c, ParsePowers(c, order, data).value) == data
    decreases |data|
  {
    if |data| >= c.width {
      BytesOfPowers(c, order, data[c.width..]);
      var p, rest := ParsePoint(c, order, data[..c.width]).value, ParsePowers(c, order, data[c.width..]).value;
      assert ([p] + rest)[1..] == rest;
      assert data == data[..c.width] + data[c.width..];
    }
  }

  // --- the file -----------------------------------------------------------------------------------

  function ParamsBytes(c: Codec, p: Params): seq<byte> {
    MAGIC + (Encode(|p.powers|, 4) + (c.g1.encode(p.g) + (c.g2.encode(p.h) + (c.g2.encode(p.hTau)
    + PowersBytes(c.g1, p.powers)))))
  }

  /** Where everything is: magic, count, G, H, HTau, then the powers of 32 bytes each. */
  lemma ParamsLayout(c: Codec, p: Params, i: nat)
    requires c.Valid() && i < |p.powers|
    ensures var b := ParamsBytes(c, p);
            && |b| == 172 + 32 * |p.powers| && b[0..8] == MAGIC && b[8..12] == Encode(|p.powers|, 4)
            && b[12..44] == c.g1.encode(p.g) && b[44..108] == c.g2.encode(p.h) && b[108..172] == c.g2.encode(p.hTau)
            && b[172 + 32 * i..172 + 32 * i + 32] == c.g1.encode(p.powers[i])
  {
    PowerAt(c.g1, c.s.r, p.powers, i);
    var n, g, h, hTau, rest :=
      Encode(|p.powers|, 4), c.g1.encode(p.g), c.g2.encode(p.h), c.g2.encode(p.hTau), PowersBytes(c.g1, p.powers);
    assert |g| == 32 && |h| == 64 && |hTau| == 64;
    hide *;
    assert ParamsBytes(c, p) == MAGIC + (n + (g + (h + (hTau + rest)))) by { ParamsAre(c, p); }
    FiveParts(MAGIC, n, g, h, hTau, rest, 32 * i);
  }

  lemma ParamsAre(c: Codec, p: Params)
    ensures ParamsBytes(c, p) == MAGIC + (Encode(|p.powers|, 4) + (c.g1.encode(p.g) + (c.g2.encode(p.h) + (c.g2.encode(p.hTau)
                                 + PowersBytes(c.g1, p.powers)))))
  {
  }

  lemma FiveParts(m: seq<byte>, n: seq<byte>, g: seq<byte>, h: seq<byte>, t: seq<byte>, rest: seq<byte>, i: nat)
    requires |m| == 8 && |n| == 4 && |g| == 32 && |h| == 64 && |t| == 64 && i + 32 <= |rest|
    ensures var b := m + (n + (g + (h + (t + rest))));
            && b[0..8] == m && b[8..12] == n && b[12..44] == g && b[44..108] == h && b[108..172] == t
            && b[172 + i..172 + i + 32] == rest[i..i + 32]
  {
  }

  lemma {:induction false} PowerAt(c: Compressed, order: int, powers: seq<int>, i: nat)
    requires CompressedOk(c, order) && c.width == 32 && i < |powers|
    ensures |PowersBytes(c, powers)| == 32 * |powers|
    ensures PowersBytes(c, powers)[32 * i..32 * i + 32] == c.encode(powers[i])
    decreases |powers|
  {
    var first, rest := c.encode(powers[0]), PowersBytes(c, powers[1..]);
    assert PowersBytes(c, powers) == first + rest;
    EncodedWidth(c, order, powers[0]);
    if |powers| == 1 {
      assert powers[1..] == [] && rest == [] && i == 0;
    } else {
      PowerAt(c, order, powers[1..], if i == 0 then 0 else i - 1);
      if i > 0 { Later(first, rest, 32 * (i - 1)); }
    }
  }

  lemma EncodedWidth(c: Compressed, order: int, p: int)
    requires CompressedOk(c, order)
    ensures |c.encode(p)| == c.width
  {
  }

  lemma Later(a: seq<byte>, b: seq<byte>, i: nat)
    requires |a| == 32 && i + 32 <= |b|
    ensures (a + b)[i + 32..i + 64] == b[i..i + 32]
  {
  }

  /** The three leading points. */
  function ParseBases(c: Codec, b: seq<byte>): Option<(int, int, int)>
    requires |b| >= 160
  {
    match (ParsePoint(c.g1, c.s.r, b[..32]), ParsePoint(c.g2, c.s.r, b[32..][..64]), ParsePoint(c.g2, c.s.r, b[32..][64..][..64]))
    case (Some(g), Some(h), Some(hTau)) => Some((g, h, hTau))
    case _ => None
  }

  ghost function ParseParams(c: Codec, raw: seq<byte>): Result<Params>
    requires c.Valid()
  {
    if |raw| < 12 || |raw| > MAX_BYTES || raw[..8] != MAGIC then Err
    else
      var count, b := Value(raw[8..][..4]), raw[8..][4..];
      if count < 2 || count > MAX_POWERS || |raw| != 12 + 32 + 128 + count * 32 then Err
      else match (ParseBases(c, b), ParsePowers(c.g1, c.s.r, b[32..][64..][64..]))
        case (Some((g, h, hTau)), Some(powers)) =>
          if ParamsOk(c.s.r, Params(g, h, hTau, powers)) then Ok(Params(g, h, hTau, powers)) else Err
        case _ => Err
  }

  lemma GoodPowers(c: Codec, p: Params)
    requires c.Valid() && ParamsOk(c.s.r, p)
    ensures 0 < p.g < c.s.r && 0 < p.h < c.s.r && 0 < p.hTau < c.s.r
    ensures forall i | 0 <= i < |p.powers| :: 0 < p.powers[i] < c.s.r
  {
    hide IsPrime;
    SmallMod(c.s.r, p.hTau);
    forall i | 0 <= i < |p.powers| ensures 0 < p.powers[i] < c.s.r {
      PowNonzero(c.s.r, p.hTau, i);
    }
  }

  /** Decoding what was encoded gives the parameters back, within the size budget. */
  lemma ParamsOfBytes(c: Codec, p: Params)
    requires c.Valid() && ParamsOk(c.s.r, p)
    ensures |ParamsBytes(c, p)| == 12 + 32 + 128 + |p.powers| * 32 <= 2097356
    ensures ParseParams(c, ParamsBytes(c, p)) == Ok(p)
  {
    GoodPowers(c, p);
    PowersOfBytes(c.g1, c.s.r, p.powers);
    PointCodec(c.g1, c.s.r, p.g);
    PointCodec(c.g2, c.s.r, p.h);
    PointCodec(c.g2, c.s.r, p.hTau);
    Widths();
    hide ParsePoint, ParsePowers, PowersBytes, ParamsOk, Encode, Value, Pow256, IsPrime;
    var n, powers := Encode(|p.powers|, 4), PowersBytes(c.g1, p.powers);
    var g, h, t := c.g1.encode(p.g), c.g2.encode(p.h), c.g2.encode(p.hTau);
    Peel(MAGIC, n + (g + (h + (t + powers))));
    Peel(n, g + (h + (t + powers)));
    Peel(g, h + (t + powers));
    Peel(h, t + powers);
    Peel(t, powers);
    SizeOf(c, p);
  }

  lemma SizeOf(c: Codec, p: Params)
    requires c.Valid() && ParamsOk(c.s.r, p)
    ensures 2 <= |p.powers| <= MAX_POWERS
  {
  }

  /** Every accepted byte string is the encoding of what it decodes to. */
  lemma BytesOfParams(c: Codec, raw: seq<byte>)
    requires c.Valid() && ParseParams(c, raw).Ok?
    ensures ParamsOk(c.s.r, ParseParams(c, raw).value)
    ensures ParamsBytes(c, ParseParams(c, raw).value) == raw
  {
    var p, b := ParseParams(c, raw).value, raw[8..][4..];
    BytesOfPowers(c.g1, c.s.r, b[32..][64..][64..]);
    PowersCount(c.g1, c.s.r, b[32..][64..][64..]);
    EncodeValue(raw[8..][..4]);
    hide ParsePowers, PowersBytes, ParamsOk, Encode, Value, IsPrime;
    Rejoin(raw, 8);
    Rejoin(raw[8..], 4);
    Rejoin(b, 32);
    Rejoin(b[32..], 64);
    Rejoin(b[32..][64..], 64);
  }

  lemma {:induction false} PowersCount(c: Compressed, order: int, data: seq<byte>)
    requires c.width > 0 && ParsePowers(c, order, data).Some?
    ensures |data| == c.width * |ParsePowers(c, order, data).value|
    decreases |data|
  {
    if |data| >= c.width {
      PowersCount(c, order, data[c.width..]);
    }
  }

  // --- the methods --------------------------------------------------------------------------------------

  method MarshalParams(c: Codec, p: Params) returns (res: Result<seq<byte>>)
    requires c.Valid()
    ensures res.Ok? <==> ParamsOk(c.s.r, p)
    ensures res.Ok? ==> res.value == ParamsBytes(c, p)
  {
    hide IsPrime, ParamsOk, Encode;
    var ok := ValidateParams(c.s, p);
    if !ok { return Err; }
    var b := MAGIC + Encode(|p.powers|, 4) + c.g1.encode(p.g) + c.g2.encode(p.h) + c.g2.encode(p.hTau);
    ghost var head := b;
    var i := 0;
    assert p.powers[0..] == p.powers;
    while i < |p.powers|
      invariant 0 <= i <= |p.powers|
      invariant head + PowersBytes(c.g1, p.powers) == b + PowersBytes(c.g1, p.powers[i..])
    {
      assert p.powers[i..][1..] == p.powers[i + 1..];
      b := b + c.g1.encode(p.powers[i]);
      i := i + 1;
    }
    assert head + PowersBytes(c.g1, p.powers) == b;
    res := Ok(b);
  }

  method ReadPoint(c: Compressed, order: int, r: Cursor) returns (res: Result<int>)
    requires r.Valid() && |r.Rest()| >= c.width
    modifies r`pos
    ensures r.Valid() && r.Rest() == old(r.Rest())[c.width..]
    ensures res.Ok? <==> ParsePoint(c, order, old(r.Rest())[..c.width]).Some?
    ensures res.Ok? ==> Some(res.value) == ParsePoint(c, order, old(r.Rest())[..c.width])
  {
    var data := r.Take(c.width);
    var p := c.decode(data.value);
    if p.None? || c.encode(p.value) != data.value || !(0 < p.value < order) { return Err; }
    res := Ok(p.value);
  }

  method UnmarshalParams(c: Codec, raw: seq<byte>) returns (res: Result<Params>)
    requires c.Valid()
    ensures res == ParseParams(c, raw)
  {
    hide IsPrime, ParamsOk, Value, ParseBases, ParsePowers, CompressedOk;
    if |raw| < 12 || |raw| > MAX_BYTES || raw[..8] != MAGIC { return Err; }
    var r := new Cursor(raw);
    var magic := r.Take(8);
    var count := r.Number(4);
    if count.value < 2 || count.value > MAX_POWERS || |raw| != 12 + 32 + 128 + count.value * 32 { return Err; }
    var bases := ReadBases(c, r);
    if bases.Err? { return Err; }
    var powers := ReadPowers(c, r, count.value);
    if powers.Err? { return Err; }
    var (g, h, hTau) := bases.value;
    var p := Params(g, h, hTau, powers.value);
    var ok := ValidateParams(c.s, p);
    if !ok { return Err; }
    res := Ok(p);
  }

  method ReadBases(c: Codec, r: Cursor) returns (res: Result<(int, int, int)>)
    requires c.Valid() && r.Valid() && |r.Rest()| >= 160
    modifies r`pos
    ensures r.Valid()
    ensures res.Ok? <==> ParseBases(c, old(r.Rest())).Some?
    ensures res.Ok? ==> Some(res.value) == ParseBases(c, old(r.Rest())) && r.Rest() == old(r.Rest())[32..][64..][64..]
  {
    hide IsPrime, ParsePoint, CompressedOk;
    var g := ReadPoint(c.g1, c.s.r, r);
    if g.Err? { return Err; }
    var h := ReadPoint(c.g2, c.s.r, r);
    if h.Err? { return Err; }
    var hTau := ReadPoint(c.g2, c.s.r, r);
    if hTau.Err? { return Err; }
    res := Ok((g.value, h.value, hTau.value));
  }

  method ReadPowers(c: Codec, r: Cursor, count: nat) returns (res: Result<seq<int>>)
    requires c.Valid() && r.Valid() && |r.Rest()| == 32 * count
    modifies r`pos
    ensures r.Valid()
    ensures res.Ok? <==> ParsePowers(c.g1, c.s.r, old(r.Rest())).Some?
    ensures res.Ok? ==> Some(res.value) == ParsePowers(c.g1, c.s.r, old(r.Rest()))
  {
    hide IsPrime, ParsePoint;
    var powers: seq<int> := [];
    PrependNothing(ParsePowers(c.g1, c.s.r, r.Rest()));
    for i := 0 to count
      invariant r.Valid() && |r.Rest()| == 32 * (count - i)
      invariant ParsePowers(c.g1, c.s.r, old(r.Rest())) == Prepend(powers, ParsePowers(c.g1, c.s.r, r.Rest()))
    {
      var p := ReadPoint(c.g1, c.s.r, r);
      if p.Err? { return Err; }
      PrependTwice(powers, p.value, ParsePowers(c.g1, c.s.r, r.Rest()));
      powers := powers + [p.value];
    }
    assert powers + [] == powers;
    res := Ok(powers);
  }

  lemma PrependNothing(rest: Option<seq<int>>)
    ensures Prepend([], rest) == rest
  {
    if rest.Some? { assert [] + rest.value == rest.value; }
  }

  lemma PrependTwice(a: seq<int>, p: int, rest: Option<seq<int>>)
    ensures Prepend(a, Prepend([p], rest)) == Prepend(a + [p], rest)
  {
    if rest.Some? { assert a + ([p] + rest.value) == (a + [p]) + rest.value; }
  }
}
