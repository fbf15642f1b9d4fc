/** The signature envelope of wire.go. */
module Wire {
  import opened Common
  import opened Bytes
  import opened Field
  import opened Suites
  import opened Circuit
  import opened Cursors

  const MAX_PROOF: nat := 0x10_0000
  const STATEMENT_BYTES: nat := 32 * 3 + 64 * 4 + 8 + 4 + 32
  const NUMBER_BYTES: nat := 8 + 4 + 32
  const PREFIX_BYTES: nat := 8 + STATEMENT_BYTES + 32 * 2 + 4

  const MAGIC: seq<byte> := [76, 75, 84, 82, 83, 78, 48, 49]

  /** Affine coordinates: `point` gives the proper group element with these coordinates, if any. */
  datatype Curve = Curve(modulus: nat, coords: int -> (word, word), point: (nat, nat) -> Option<int>)

  ghost predicate CurveOk(c: Curve, order: int) {
    && c.modulus <= TWO256
    && (forall p | 0 < p < order ::
          c.coords(p).0 < c.modulus && c.coords(p).1 < c.modulus && c.point(c.coords(p).0, c.coords(p).1) == Some(p))
    && (forall x: nat, y: nat | c.point(x, y).Some? :: 0 < c.point(x, y).value < order && c.coords(c.point(x, y).value) == (x, y))
  }

  datatype Profile = Profile(s: Suite, bn: Curve, secp: Curve, version: string) {
    ghost predicate Valid() {
      && s.Valid() && CurveOk(bn, s.r) && CurveOk(secp, s.ell)
      && bn.coords == s.bnXY && secp.coords == s.secpXY
    }
  }

  datatype Proof = Proof(version: string, circuitHash: Digest, keyId: Digest, data: seq<byte>)

  datatype Signed = Signed(statement: Statement, proof: Proof)

  // --- points ---------------------------------------------------------------------------------

  function Affine(c: Curve, p: int): (b: seq<byte>)
    ensures |b| == 64
  {
    Encode(c.coords(p).0, 32) + Encode(c.coords(p).1, 32)
  }

  /** readBN and readSecp: canonical coordinates of a proper point. */
  function ParsePoint(c: Curve, b: seq<byte>): Option<int>
    requires |b| == 64
  {
    if Value(b[..32]) >= c.modulus || Value(b[32..]) >= c.modulus then None
    else c.point(Value(b[..32]), Value(b[32..]))
  }

  lemma PointOfBytes(c: Curve, order: int, p: int)
    requires CurveOk(c, order) && 0 < p < order
    ensures ParsePoint(c, Affine(c, p)) == Some(p)
  {
    Widths();
    hide Encode, Value, Pow256;
    var x, y := c.coords(p).0, c.coords(p).1;
    assert Affine(c, p)[..32] == Encode(x, 32) && Affine(c, p)[32..] == Encode(y, 32);
  }

  lemma BytesOfPoint(c: Curve, order: int, b: seq<byte>)
    requires CurveOk(c, order) && |b| == 64 && ParsePoint(c, b).Some?
    ensures 0 < ParsePoint(c, b).value < order && Affine(c, ParsePoint(c, b).value) == b
  {
    hide Encode, Value;
    EncodeValue(b[..32]);
    EncodeValue(b[32..]);
    assert b == b[..32] + b[32..];
  }

  method ReadPoint(c: Curve, r: Cursor) returns (res: Result<int>)
    requires r.Valid()
    modifies r`pos
    ensures r.Valid()
    ensures res.Ok? <==> old(|r.Rest()|) >= 64 && ParsePoint(c, old(r.Rest())[..64]).Some?
    ensures res.Ok? ==> Some(res.value) == ParsePoint(c, old(r.Rest())[..64]) && r.Rest() == old(r.Rest())[64..]
  {
    hide Value;
    var enc := r.Take(64);
    if enc.Err? { return Err; }
    var x, y := Value(enc.value[..32]), Value(enc.value[32..]);
    if x >= c.modulus || y >= c.modulus { return Err; }
    var p := c.point(x, y);
    if p.None? { return Err; }
    res := Ok(p.value);
  }

  // --- statements ----------------------------------------------------------------------------------

  /** What MarshalSigned accepts as a statement, the integer fields being unsigned words. */
  ghost predicate StatementOk(s: Suite, st: Statement) {
    && s.GoodBN(st.v) && s.GoodBN(st.nym) && s.GoodSecp(st.s) && s.GoodSecp(st.t) && s.SecpScalar(st.r)
    && 0 < st.k < TWO32 && st.timestamp < TWO64
  }

  /** The fields of a statement, then the bytes that follow it. */
  function StatementBytes(p: Profile, st: Statement, tail: seq<byte>): (b: seq<byte>)
    requires st.r >= 0
    ensures |b| == STATEMENT_BYTES + |tail|
  {
    st.issue + (st.ringDigest + (st.messageDigest
    + (Affine(p.bn, st.v) + (Affine(p.bn, st.nym) + (Affine(p.secp, st.s) + (Affine(p.secp, st.t)
    + NumberBytes(st, tail)))))))
  }

  function NumberBytes(st: Statement, tail: seq<byte>): (b: seq<byte>)
    requires st.r >= 0
    ensures |b| == NUMBER_BYTES + |tail|
  {
    Encode(st.timestamp, 8) + (Encode(st.k, 4) + (Encode(st.r, 32) + tail))
  }

  /** The four points, then the numbers. */
  function ParsePoints(p: Profile, b: seq<byte>): Option<(int, int, int, int)>
    requires |b| >= 256
  {
    match (ParsePoint(p.bn, b[..64]), ParsePoint(p.bn, b[64..][..64]),
           ParsePoint(p.secp, b[64..][64..][..64]), ParsePoint(p.secp, b[64..][64..][64..][..64]))
    case (Some(v), Some(nym), Some(s), Some(t)) => Some((v, nym, s, t))
    case _ => None
  }

  function ParseNumbers(s: Suite, b: seq<byte>): Option<(nat, nat, nat)>
    requires |b| >= NUMBER_BYTES
  {
    var timestamp, k, r := Value(b[..8]), Value(b[8..][..4]), Value(b[8..][4..][..32]);
    if !s.SecpScalar(r) || k == 0 then None else Some((timestamp, k, r))
  }

  function AfterPoints(b: seq<byte>): (tail: seq<byte>)
    requires |b| >= 256
    ensures |tail| == |b| - 256
  {
    b[64..][64..][64..][64..]
  }

  function AfterNumbers(b: seq<byte>): seq<byte>
    requires |b| >= NUMBER_BYTES
  {
    b[8..][4..][32..]
  }

  function ParseStatement(p: Profile, b: seq<byte>): Result<Statement>
    requires |b| >= STATEMENT_BYTES
  {
    var b3 := b[32..][32..][32..];
    match (ParsePoints(p, b3), ParseNumbers(p.s, AfterPoints(b3)))
    case (Some((v, nym, s, t)), Some((timestamp, k, r))) =>
      Ok(Statement(v, nym, s, t, b[..32], b[32..][..32], b[32..][32..][..32], timestamp, k, r))
    case _ => Err
  }

  function AfterStatement(b: seq<byte>): (tail: seq<byte>)
    requires |b| >= STATEMENT_BYTES
    ensures |tail| == |b| - STATEMENT_BYTES
  {
    AfterNumbers(AfterPoints(b[32..][32..][32..]))
  }

  lemma NumbersOfBytes(s: Suite, st: Statement, tail: seq<byte>)
    requires s.Valid() && StatementOk(s, st)
    ensures ParseNumbers(s, NumberBytes(st, tail)) == Some((st.timestamp, st.k, st.r))
    ensures AfterNumbers(NumberBytes(st, tail)) == tail
  {
    Widths();
    hide Encode, Value, Pow256, IsPrime;
    var a, b, c := Encode(st.timestamp, 8), Encode(st.k, 4), Encode(st.r, 32);
    Peel(a, b + (c + tail));
    Peel(b, c + tail);
    Peel(c, tail);
  }

  lemma BytesOfNumbers(s: Suite, st: Statement, b: seq<byte>)
    requires s.Valid() && |b| >= NUMBER_BYTES
    requires ParseNumbers(s, b) == Some((st.timestamp, st.k, st.r))
    ensures s.SecpScalar(st.r) && NumberBytes(st, AfterNumbers(b)) == b
    ensures 0 < st.k < TWO32 && st.timestamp < TWO64
  {
    Widths();
    EncodeValue(b[..8]);
    EncodeValue(b[8..][..4]);
    EncodeValue(b[8..][4..][..32]);
    hide Encode, Value, Pow256, IsPrime;
    Rejoin(b, 8);
    Rejoin(b[8..], 4);
    Rejoin(b[8..][4..], 32);
  }

  lemma PointsOfBytes(p: Profile, st: Statement, tail: seq<byte>)
    requires p.Valid() && StatementOk(p.s, st)
    ensures var b := Affine(p.bn, st.v) + (Affine(p.bn, st.nym) + (Affine(p.secp, st.s) + (Affine(p.secp, st.t) + tail)));
            |b| == 256 + |tail| && AfterPoints(b) == tail
            && ParsePoints(p, b) == Some((st.v, st.nym, st.s, st.t))
  {
    PointOfBytes(p.bn, p.s.r, st.v);
    PointOfBytes(p.bn, p.s.r, st.nym);
    PointOfBytes(p.secp, p.s.ell, st.s);
    PointOfBytes(p.secp, p.s.ell, st.t);
    hide Affine, ParsePoint, CurveOk, IsPrime;
    var a, b, c, d := Affine(p.bn, st.v), Affine(p.bn, st.nym), Affine(p.secp, st.s), Affine(p.secp, st.t);
    Peel(a, b + (c + (d + tail)));
    Peel(b, c + (d + tail));
    Peel(c, d + tail);
    Peel(d, tail);
  }

  lemma BytesOfPoints(p: Profile, st: Statement, b: seq<byte>)
    requires p.Valid() && |b| >= 256 && ParsePoints(p, b) == Some((st.v, st.nym, st.s, st.t))
    ensures b == Affine(p.bn, st.v) + (Affine(p.bn, st.nym) + (Affine(p.secp, st.s) + (Affine(p.secp, st.t) + AfterPoints(b))))
    ensures p.s.GoodBN(st.v) && p.s.GoodBN(st.nym) && p.s.GoodSecp(st.s) && p.s.GoodSecp(st.t)
  {
    BytesOfPoint(p.bn, p.s.r, b[..64]);
    BytesOfPoint(p.bn, p.s.r, b[64..][..64]);
    BytesOfPoint(p.secp, p.s.ell, b[64..][64..][..64]);
    BytesOfPoint(p.secp, p.s.ell, b[64..][64..][64..][..64]);
    hide Affine, ParsePoint, CurveOk, IsPrime;
    Rejoin(b, 64);
    Rejoin(b[64..], 64);
    Rejoin(b[64..][64..], 64);
    Rejoin(b[64..][64..][64..], 64);
  }

  lemma StatementOfBytes(p: Profile, st: Statement, tail: seq<byte>)
    requires p.Valid() && StatementOk(p.s, st)
    ensures ParseStatement(p, StatementBytes(p, st, tail)) == Ok(st)
    ensures AfterStatement(StatementBytes(p, st, tail)) == tail
  {
    PointsOfBytes(p, st, NumberBytes(st, tail));
    NumbersOfBytes(p.s, st, tail);
    hide Affine, ParsePoints, ParseNumbers, NumberBytes, AfterPoints, AfterNumbers, CurveOk, IsPrime;
    var points := Affine(p.bn, st.v)
                  + (Affine(p.bn, st.nym) + (Affine(p.secp, st.s) + (Affine(p.secp, st.t) + NumberBytes(st, tail))));
    Peel(st.issue, st.ringDigest + (st.messageDigest + points));
    Peel(st.ringDigest, st.messageDigest + points);
    Peel(st.messageDigest, points);
  }

  lemma BytesOfStatement(p: Profile, b: seq<byte>)
    requires p.Valid() && |b| >= STATEMENT_BYTES && ParseStatement(p, b).Ok?
    ensures StatementOk(p.s, ParseStatement(p, b).value)
    ensures StatementBytes(p, ParseStatement(p, b).value, AfterStatement(b)) == b
  {
    var st := ParseStatement(p, b).value;
    var b3 := b[32..][32..][32..];
    BytesOfPoints(p, st, b3);
    BytesOfNumbers(p.s, st, AfterPoints(b3));
    hide Affine, ParsePoints, ParseNumbers, NumberBytes, AfterNumbers, CurveOk, IsPrime;
    Rejoin(b, 32);
    Rejoin(b[32..], 32);
    Rejoin(b[32..][32..], 32);
  }

  // --- envelopes ---------------------------------------------------------------------------------------

  ghost predicate Marshalable(p: Profile, s: Signed) {
    && s.proof.version == p.version && 0 < |s.proof.data| <= MAX_PROOF
    && StatementOk(p.s, s.statement)
  }

  function ProofBytes(proof: Proof): seq<byte> {
    proof.circuitHash + (proof.keyId + (Encode(|proof.data|, 4) + proof.data))
  }

  function SignedBytes(p: Profile, s: Signed): seq<byte>
    requires s.statement.r >= 0
  {
    MAGIC + StatementBytes(p, s.statement, ProofBytes(s.proof))
  }

  function ParseProof(p: Profile, b: seq<byte>): Result<Proof>
    requires |b| >= 68
  {
    var data := b[32..][32..];
    var n := Value(data[..4]);
    if n == 0 || n != |data[4..]| then Err else Ok(Proof(p.version, b[..32], b[32..][..32], data[4..]))
  }

  function ParseSigned(p: Profile, raw: seq<byte>): Result<Signed> {
    if |raw| < PREFIX_BYTES || |raw| > PREFIX_BYTES + MAX_PROOF || raw[..8] != MAGIC then Err
    else match (ParseStatement(p, raw[8..]), ParseProof(p, AfterStatement(raw[8..])))
      case (Ok(st), Ok(proof)) => Ok(Signed(st, proof))
      case _ => Err
  }

  lemma ProofOfBytes(p: Profile, proof: Proof)
    requires proof.version == p.version && 0 < |proof.data| <= MAX_PROOF
    ensures |ProofBytes(proof)| == 68 + |proof.data| && ParseProof(p, ProofBytes(proof)) == Ok(proof)
  {
    Widths();
    hide Encode, Value, Pow256;
    var n, data := Encode(|proof.data|, 4), proof.data;
    Peel(proof.circuitHash, proof.keyId + (n + data));
    Peel(proof.keyId, n + data);
    Peel(n, data);
  }

  lemma BytesOfProof(p: Profile, b: seq<byte>)
    requires |b| >= 68 && ParseProof(p, b).Ok?
    ensures ProofBytes(ParseProof(p, b).value) == b
  {
    var data := b[32..][32..];
    EncodeValue(data[..4]);
    hide Encode, Value;
    Rejoin(b, 32);
    Rejoin(b[32..], 32);
    Rejoin(data, 4);
  }

  lemma ProofSize(p: Profile, b: seq<byte>)
    requires |b| >= 68 && ParseProof(p, b).Ok?
    ensures ParseProof(p, b).value.version == p.version && 0 < |ParseProof(p, b).value.data| == |b| - 68
  {
    hide Value;
  }

  /** Decoding what was encoded gives the signature back. */
  lemma SignedOfBytes(p: Profile, s: Signed)
    requires p.Valid()
    requires s.proof.version == p.version && 1 <= |s.proof.data| <= 1048576
    requires var st := s.statement;
             && 0 < st.v < p.s.r && 0 < st.nym < p.s.r && 0 < st.s < p.s.ell && 0 < st.t < p.s.ell && 0 < st.r < p.s.ell
             && 0 < st.k < TWO32 && st.timestamp < TWO64
    ensures ParseSigned(p, SignedBytes(p, s)) == Ok(s)
  {
    ProofOfBytes(p, s.proof);
    StatementOfBytes(p, s.statement, ProofBytes(s.proof));
    hide StatementBytes, ParseStatement, ProofBytes, ParseProof, AfterStatement, CurveOk, IsPrime;
    Peel(MAGIC, StatementBytes(p, s.statement, ProofBytes(s.proof)));
  }

  /** Every accepted byte string is the encoding of what it decodes to. */
  lemma BytesOfSigned(p: Profile, raw: seq<byte>)
    requires p.Valid() && ParseSigned(p, raw).Ok?
    ensures var s := ParseSigned(p, raw).value;
            var st := s.statement;
            && s.proof.version == p.version && 1 <= |s.proof.data| <= 1048576 && |raw| == 472 + |s.proof.data|
            && 0 < st.v < p.s.r && 0 < st.nym < p.s.r && 0 < st.s < p.s.ell && 0 < st.t < p.s.ell && 0 < st.r < p.s.ell
            && 0 < st.k < TWO32 && st.timestamp < TWO64
            && Marshalable(p, s) && SignedBytes(p, s) == raw
  {
    BytesOfStatement(p, raw[8..]);
    BytesOfProof(p, AfterStatement(raw[8..]));
    ProofSize(p, AfterStatement(raw[8..]));
    hide StatementBytes, ParseStatement, ProofBytes, ParseProof, AfterStatement, CurveOk, IsPrime;
    Rejoin(raw, 8);
  }

  /** Where everything is: magic, issue, ring digest, message digest, the points V, Nym, S and T,
      timestamp, quota, challenge, circuit hash, key id, proof length and proof, at fixed offsets. */
  lemma SignedLayout(p: Profile, s: Signed)
    requires s.statement.r >= 0
    ensures var b, st := SignedBytes(p, s), s.statement;
            && |b| == 472 + |s.proof.data| && b[0..8] == MAGIC
            && b[8..40] == st.issue && b[40..72] == st.ringDigest && b[72..104] == st.messageDigest
            && b[104..168] == Affine(p.bn, st.v) && b[168..232] == Affine(p.bn, st.nym)
            && b[232..296] == Affine(p.secp, st.s) && b[296..360] == Affine(p.secp, st.t)
            && b[360..368] == Encode(st.timestamp, 8) && b[368..372] == Encode(st.k, 4) && b[372..404] == Encode(st.r, 32)
            && b[404..436] == s.proof.circuitHash && b[436..468] == s.proof.keyId
            && b[468..472] == Encode(|s.proof.data|, 4) && b[472..] == s.proof.data
  {
    hide Encode, Affine, NumberBytes, ProofBytes;
    var st := s.statement;
    var tail := NumberBytes(st, ProofBytes(s.proof));
    var points := Affine(p.bn, st.v) + (Affine(p.bn, st.nym) + (Affine(p.secp, st.s) + (Affine(p.secp, st.t) + tail)));
    TailLayout(st, s.proof);
    PointsLayout(p, st, tail);
    HeadLayout(MAGIC, st.issue, st.ringDigest, st.messageDigest, points);
    hide StatementBytes;
    assert SignedBytes(p, s) == MAGIC + (st.issue + (st.ringDigest + (st.messageDigest + points))) by {
      StatementIs(p, st, ProofBytes(s.proof));
    }
  }

  lemma StatementIs(p: Profile, st: Statement, tail: seq<byte>)
    requires st.r >= 0
    ensures StatementBytes(p, st, tail)
            == st.issue + (st.ringDigest + (st.messageDigest + (Affine(p.bn, st.v) + (Affine(p.bn, st.nym)
               + (Affine(p.secp, st.s) + (Affine(p.secp, st.t) + NumberBytes(st, tail)))))))
  {
    hide Affine, NumberBytes;
  }

  lemma HeadLayout(magic: seq<byte>, issue: Digest, ring: Digest, message: Digest, rest: seq<byte>)
    requires |magic| == 8
    ensures var b := magic + (issue + (ring + (message + rest)));
            && b[0..8] == magic && b[8..40] == issue && b[40..72] == ring && b[72..104] == message && b[104..] == rest
            && (forall i, j | 0 <= i <= j <= |rest| :: b[104 + i..104 + j] == rest[i..j])
  {
    Inside(magic, issue + (ring + (message + rest)));
    Inside(issue, ring + (message + rest));
    Inside(ring, message + rest);
    Inside(message, rest);
  }

  lemma PointsLayout(p: Profile, st: Statement, tail: seq<byte>)
    ensures var b := Affine(p.bn, st.v) + (Affine(p.bn, st.nym) + (Affine(p.secp, st.s) + (Affine(p.secp, st.t) + tail)));
            && |b| == 256 + |tail|
            && b[0..64] == Affine(p.bn, st.v) && b[64..128] == Affine(p.bn, st.nym)
            && b[128..192] == Affine(p.secp, st.s) && b[192..256] == Affine(p.secp, st.t)
            && (forall i, j | 0 <= i <= j <= |tail| :: b[256 + i..256 + j] == tail[i..j])
  {
    hide Affine;
    var v, nym, s, t := Affine(p.bn, st.v), Affine(p.bn, st.nym), Affine(p.secp, st.s), Affine(p.secp, st.t);
    Inside(v, nym + (s + (t + tail)));
    Inside(nym, s + (t + tail));
    Inside(s, t + tail);
    Inside(t, tail);
  }

  lemma Inside(a: seq<byte>, b: seq<byte>)
    ensures (a + b)[..|a|] == a && (a + b)[|a|..] == b
    ensures forall i, j | 0 <= i <= j <= |b| :: (a + b)[|a| + i..|a| + j] == b[i..j]
  {
  }

  lemma TailLayout(st: Statement, proof: Proof)
    requires st.r >= 0
    ensures var b := NumberBytes(st, ProofBytes(proof));
            && |b| == 112 + |proof.data|
            && b[0..8] == Encode(st.timestamp, 8) && b[8..12] == Encode(st.k, 4) && b[12..44] == Encode(st.r, 32)
            && b[44..76] == proof.circuitHash && b[76..108] == proof.keyId
            && b[108..112] == Encode(|proof.data|, 4) && b[112..] == proof.data
  {
    hide Encode;
    var b3 := ProofBytes(proof);
    Inside(Encode(st.timestamp, 8), Encode(st.k, 4) + (Encode(st.r, 32) + b3));
    Inside(Encode(st.k, 4), Encode(st.r, 32) + b3);
    Inside(Encode(st.r, 32), b3);
    Inside(proof.circuitHash, proof.keyId + (Encode(|proof.data|, 4) + proof.data));
    Inside(proof.keyId, Encode(|proof.data|, 4) + proof.data);
    Inside(Encode(|proof.data|, 4), proof.data);
  }

  method MarshalSigned(p: Profile, s: Signed) returns (res: Result<seq<byte>>)
    requires p.Valid() && s.statement.k < TWO32 && s.statement.timestamp < TWO64
    ensures res.Ok? <==> Marshalable(p, s)
    ensures res.Ok? ==> res.value == SignedBytes(p, s) && |res.value| == PREFIX_BYTES + |s.proof.data|
  {
    hide IsPrime, CurveOk, StatementBytes, Encode;
    var st := s.statement;
    if s.proof.version != p.version || |s.proof.data| == 0 || |s.proof.data| > MAX_PROOF { return Err; }
    if !p.s.GoodBN(st.v) || !p.s.GoodBN(st.nym) || !p.s.GoodSecp(st.s) || !p.s.GoodSecp(st.t)
       || !p.s.SecpScalar(st.r) || st.k == 0 { return Err; }
    var b := MarshalStatement(p, st);
    b := MAGIC + b;
    b := b + s.proof.circuitHash;
    b := b + s.proof.keyId;
    b := b + Encode(|s.proof.data|, 4);
    b := b + s.proof.data;
    StatementThen(p, st, ProofBytes(s.proof));
    StatementThen(p, st, []);
    assert b == SignedBytes(p, s);
    res := Ok(b);
  }

  method MarshalStatement(p: Profile, st: Statement) returns (b: seq<byte>)
    requires st.r >= 0
    ensures b == StatementBytes(p, st, [])
  {
    hide Affine, Encode;
    b := st.issue + st.ringDigest + st.messageDigest;
    b := b + Affine(p.bn, st.v);
    b := b + Affine(p.bn, st.nym);
    b := b + Affine(p.secp, st.s);
    b := b + Affine(p.secp, st.t);
    b := b + Encode(st.timestamp, 8);
    b := b + Encode(st.k, 4);
    b := b + Encode(st.r, 32);
    StatementThen(p, st, []);
  }

  /** The statement's fields in a row, then the tail. */
  lemma StatementThen(p: Profile, st: Statement, tail: seq<byte>)
    requires st.r >= 0
    ensures StatementBytes(p, st, tail) ==
            st.issue + st.ringDigest + st.messageDigest
            + Affine(p.bn, st.v) + Affine(p.bn, st.nym) + Affine(p.secp, st.s) + Affine(p.secp, st.t)
            + Encode(st.timestamp, 8) + Encode(st.k, 4) + Encode(st.r, 32) + tail
  {
    hide Affine, Encode;
  }

  /** The length test makes every read whose error is ignored succeed. */
  method UnmarshalSigned(p: Profile, raw: seq<byte>) returns (res: Result<Signed>)
    ensures res == ParseSigned(p, raw)
  {
    hide ParseStatement, AfterStatement, Value;
    if |raw| < PREFIX_BYTES || |raw| > PREFIX_BYTES + MAX_PROOF { return Err; }
    var r := new Cursor(raw);
    var magic := r.Take(8);
    if magic.value != MAGIC { return Err; }
    var st := ReadStatement(p, r);
    if st.Err? { return Err; }
    var circuitHash := r.Take(32);
    var keyId := r.Take(32);
    var n := r.Number(4);
    var left := r.Left();
    if n.value == 0 || n.value != left { return Err; }
    ghost var rest := r.Rest();
    var data := r.Take(n.value);
    assert rest[..|rest|] == rest;
    res := Ok(Signed(st.value, Proof(p.version, circuitHash.value, keyId.value, data.value)));
  }

  method ReadStatement(p: Profile, r: Cursor) returns (res: Result<Statement>)
    requires r.Valid() && |r.Rest()| >= STATEMENT_BYTES
    modifies r`pos
    ensures r.Valid()
    ensures res == ParseStatement(p, old(r.Rest()))
    ensures res.Ok? ==> r.Rest() == AfterStatement(old(r.Rest()))
  {
    hide ParsePoints, ParseNumbers, AfterPoints, AfterNumbers;
    var issue := r.Take(32);
    var ringDigest := r.Take(32);
    var messageDigest := r.Take(32);
    var points := ReadPoints(p, r);
    if points.Err? { return Err; }
    var numbers := ReadNumbers(p.s, r);
    if numbers.Err? { return Err; }
    var (v, nym, s, t) := points.value;
    var (timestamp, k, challenge) := numbers.value;
    res := Ok(Statement(v, nym, s, t, issue.value, ringDigest.value, messageDigest.value, timestamp, k, challenge));
  }

  method ReadPoints(p: Profile, r: Cursor) returns (res: Result<(int, int, int, int)>)
    requires r.Valid() && |r.Rest()| >= 256
    modifies r`pos
    ensures r.Valid()
    ensures res.Ok? <==> ParsePoints(p, old(r.Rest())).Some?
    ensures res.Ok? ==> Some(res.value) == ParsePoints(p, old(r.Rest())) && r.Rest() == AfterPoints(old(r.Rest()))
  {
    hide ParsePoint;
    var v := ReadPoint(p.bn, r);
    if v.Err? { return Err; }
    var nym := ReadPoint(p.bn, r);
    if nym.Err? { return Err; }
    var s := ReadPoint(p.secp, r);
    if s.Err? { return Err; }
    var t := ReadPoint(p.secp, r);
    if t.Err? { return Err; }
    res := Ok((v.value, nym.value, s.value, t.value));
  }

  method ReadNumbers(s: Suite, r: Cursor) returns (res: Result<(nat, nat, nat)>)
    requires r.Valid() && |r.Rest()| >= NUMBER_BYTES
    modifies r`pos
    ensures r.Valid() && r.Rest() == AfterNumbers(old(r.Rest()))
    ensures res.Ok? <==> ParseNumbers(s, old(r.Rest())).Some?
    ensures res.Ok? ==> Some(res.value) == ParseNumbers(s, old(r.Rest()))
  {
    hide Value;
    var timestamp := r.Number(8);
    var k := r.Number(4);
    var challenge := r.Number(32);
    if !s.SecpScalar(challenge.value) || k.value == 0 { return Err; }
    res := Ok((timestamp.value, k.value, challenge.value));
  }
}
