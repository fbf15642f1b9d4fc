/** Byte layouts that are walked before gnark's decoders run: points with a compression flag. */
module Layout {
  import opened Common
  import opened Bytes
  import opened Cursors

  const G1_COMPRESSED: nat := 32
  const G1_UNCOMPRESSED: nat := 64
  const G2_COMPRESSED: nat := 64
  const G2_UNCOMPRESSED: nat := 128

  /** b & 0xc0 != 0, the flag of a compressed point's first byte. */
  predicate Flagged(b: byte) { b >= 0x40 }

  lemma FlaggedIsMask(v: bv8)
    ensures Flagged(v as byte) <==> v & 0xc0 != 0
  {
    assert v >= 0x40 <==> v as int >= 0x40;
  }

  function Concat(parts: seq<seq<byte>>): seq<byte> {
    if parts == [] then [] else parts[0] + Concat(parts[1..])
  }

  /** A point of either form: its first byte fixes its length. */
  predicate PointOk(compressed: nat, uncompressed: nat, p: seq<byte>) {
    p != [] && |p| == if Flagged(p[0]) then compressed else uncompressed
  }

  // --- walking over points -------------------------------------------------------------------

  /** What is left after one point. */
  function SkipPoint(compressed: nat, uncompressed: nat, b: seq<byte>): Option<seq<byte>> {
    if b == [] then None
    else
      var size := if Flagged(b[0]) then compressed else uncompressed;
      if size == 0 || size > |b| then None else Some(b[size..])
  }

  function SkipPoints(n: nat, compressed: nat, uncompressed: nat, b: seq<byte>): Option<seq<byte>> {
    if n == 0 then Some(b)
    else
      match SkipPoint(compressed, uncompressed, b)
      case None => None
      case Some(rest) => SkipPoints(n - 1, compressed, uncompressed, rest)
  }

  lemma {:induction false} PointsSkipped(compressed: nat, uncompressed: nat, points: seq<seq<byte>>, tail: seq<byte>)
    requires forall i | 0 <= i < |points| :: PointOk(compressed, uncompressed, points[i])
    ensures SkipPoints(|points|, compressed, uncompressed, Concat(points) + tail) == Some(tail)
    decreases |points|
  {
    if points == [] {
      assert Concat(points) + tail == tail;
    } else {
      var p, rest := points[0], Concat(points[1..]) + tail;
      PointsSkipped(compressed, uncompressed, points[1..], tail);
      Regroup(p, Concat(points[1..]), tail);
      assert Concat(points) + tail == p + rest;
      Peel(p, rest);
    }
  }

  /** The points that a successful walk has passed. */
  lemma {:induction false} SkippedPoints(n: nat, compressed: nat, uncompressed: nat, b: seq<byte>) returns (points: seq<seq<byte>>)
    requires SkipPoints(n, compressed, uncompressed, b).Some?
    ensures |points| == n && forall i | 0 <= i < n :: PointOk(compressed, uncompressed, points[i])
    ensures b == Concat(points) + SkipPoints(n, compressed, uncompressed, b).value
    decreases n
  {
    if n == 0 {
      points := [];
    } else {
      var rest := SkipPoint(compressed, uncompressed, b).value;
      var size := |b| - |rest|;
      var others := SkippedPoints(n - 1, compressed, uncompressed, rest);
      points := [b[..size]] + others;
      assert points[1..] == others;
      Rejoin(b, size);
      Regroup(b[..size], Concat(others), SkipPoints(n, compressed, uncompressed, b).value);
    }
  }

  /** The walkers' point step: no read beyond the input. */
  method Point(r: Cursor, compressed: nat, uncompressed: nat) returns (ok: bool)
    requires r.Valid()
    modifies r`pos
    ensures r.Valid()
    ensures ok <==> SkipPoint(compressed, uncompressed, old(r.Rest())).Some?
    ensures ok ==> SkipPoint(compressed, uncompressed, old(r.Rest())) == Some(r.Rest())
  {
    if r.pos >= |r.raw| { return false; }
    var size := if Flagged(r.raw[r.pos]) then compressed else uncompressed;
    if size == 0 || size > |r.raw| - r.pos { return false; }
    var skipped := r.Take(size);
    ok := true;
  }

  method Points(r: Cursor, n: nat, compressed: nat, uncompressed: nat) returns (ok: bool)
    requires r.Valid()
    modifies r`pos
    ensures r.Valid()
    ensures ok <==> SkipPoints(n, compressed, uncompressed, old(r.Rest())).Some?
    ensures ok ==> SkipPoints(n, compressed, uncompressed, old(r.Rest())) == Some(r.Rest())
  {
    hide SkipPoint;
    for i := 0 to n
      invariant r.Valid()
      invariant SkipPoints(n, compressed, uncompressed, old(r.Rest())) == SkipPoints(n - i, compressed, uncompressed, r.Rest())
    {
      ok := Point(r, compressed, uncompressed);
      if !ok { return false; }
    }
    ok := true;
  }
}
