/** preflightProof of backend.go: the compressed proof that a verification key's commitment count fixes. */
module ProofLayout {
  import opened Common
  import opened Bytes
  import opened Cursors
  import opened Layout
  import opened ProvingKeys

  const MAX_PROOF: nat := 0x10_0000
  const COUNT_OFFSET: nat := 2 * 32 + 64
  const MAX_COMMITMENTS: nat := (MAX_PROOF - COUNT_OFFSET - 4 - 32) / 32

  /** The three Groth16 points, the commitments and the proof of knowledge. */
  datatype Parts = Parts(ar: seq<byte>, bs: seq<byte>, krs: seq<byte>, points: seq<seq<byte>>)

  predicate PartsOk(commitments: nat, p: Parts) {
    && Compressed(32, p.ar) && Compressed(64, p.bs) && Compressed(32, p.krs)
    && |p.points| == commitments + 1 && AllCompressed(32, p.points)
  }

  function ProofBytes(commitments: nat, p: Parts): seq<byte> {
    p.ar + (p.bs + (p.krs + (Encode(commitments, 4) + Concat(p.points))))
  }

  predicate Accepted(commitments: nat, raw: seq<byte>) {
    && |raw| == COUNT_OFFSET + 4 + 32 * (commitments + 1)
    && Flagged(raw[0]) && Flagged(raw[32]) && Flagged(raw[96])
    && CountedPoints(commitments, raw[32..][64..][32..])
  }

  /** The count and the points that follow it, up to the end. */
  predicate CountedPoints(commitments: nat, b: seq<byte>) {
    && |b| >= 4 && Value(b[..4]) == commitments
    && SkipCompressed(commitments + 1, 32, b[4..]) == Some([])
  }

  method PreflightProof(raw: seq<byte>, commitments: int) returns (ok: bool)
    ensures ok <==> 0 <= commitments <= 32762 && Accepted(commitments, raw)
    ensures ok ==> |raw| <= 1048576
  {
    hide Value, SkipCompressed;
    if commitments < 0 || commitments > MAX_COMMITMENTS { return false; }
    var expected := COUNT_OFFSET + 4 + 32 * (commitments + 1);
    if |raw| != expected { return false; }
    ghost var counted, all := raw[128..], raw[132..];
    assert raw[32..][64..][32..] == counted && counted[..4] == raw[128..132] && counted[4..] == all;
    if Value(raw[128..132]) != commitments { return false; }
    if !Flagged(raw[0]) || !Flagged(raw[32]) || !Flagged(raw[96]) { return false; }
    assert all[0..] == all;
    for i := 0 to commitments + 1
      invariant SkipCompressed(commitments + 1, 32, all) == SkipCompressed(commitments + 1 - i, 32, all[i * 32..])
    {
      PointStep(commitments + 1, i, 32, all, i * 32);
      if !Flagged(raw[132 + i * 32]) { return false; }
    }
    AllDone(commitments + 1, commitments + 1, 32, all[32 * (commitments + 1)..]);
    assert all[32 * (commitments + 1)..] == [];
    ok := true;
  }

  lemma CountAccepted(commitments: nat, points: seq<seq<byte>>)
    requires commitments < TWO32 && |points| == commitments + 1 && AllCompressed(32, points)
    ensures CountedPoints(commitments, Encode(commitments, 4) + Concat(points))
    ensures |Concat(points)| == 32 * (commitments + 1)
  {
    Widths();
    ConcatLength(32, points);
    CompressedSkipped(32, points, []);
    hide Encode, Value, Pow256, SkipCompressed, AllCompressed, Concat;
    assert Concat(points) + [] == Concat(points);
    Peel(Encode(commitments, 4), Concat(points));
  }

  lemma At(a: seq<byte>, b: seq<byte>)
    requires b != []
    ensures (a + b)[|a|] == b[0] && (a + b)[|a|..] == b
  {
  }

  /** The encoding of every proof with that many commitments is accepted. */
  lemma ProofAccepted(commitments: nat, p: Parts)
    requires commitments < TWO32 && PartsOk(commitments, p)
    ensures Accepted(commitments, ProofBytes(commitments, p))
  {
    CountAccepted(commitments, p.points);
    hide Encode, CountedPoints, AllCompressed, Concat;
    var t3 := Encode(commitments, 4) + Concat(p.points);
    var t2 := p.krs + t3;
    var t1 := p.bs + t2;
    At(p.ar, t1);
    At(p.bs, t2);
    At(p.krs, t3);
    assert (p.ar + t1)[96] == t1[64];
  }

  /** Every accepted byte string is exactly the encoding of such a proof. */
  lemma AcceptedProof(commitments: nat, raw: seq<byte>) returns (p: Parts)
    requires Accepted(commitments, raw)
    ensures PartsOk(commitments, p) && ProofBytes(commitments, p) == raw
  {
    var b1 := raw[32..];
    var b2 := b1[64..];
    var b3 := b2[32..];
    var points := SkippedCompressed(commitments + 1, 32, b3[4..]);
    EncodeValue(b3[..4]);
    hide Encode, Value, SkipCompressed, AllCompressed, Concat;
    assert Concat(points) + [] == Concat(points);
    p := Parts(raw[..32], b1[..64], b2[..32], points);
    Rejoin(raw, 32);
    Rejoin(b1, 64);
    Rejoin(b2, 32);
    Rejoin(b3, 4);
  }
}
