/** preflightVerifyingKey of backend.go. */
module VerifyingKeys {
  import opened Common
  import opened Bytes
  import opened Cursors
  import opened Layout

  const MAX_ENTRIES: nat := 0x1_0000
  const MAX_TOTAL: nat := 0x10_0000
  const MAX_COMMITMENTS: nat := 64

  /** The parts of a verification key, each part as its bytes: the six fixed points (alpha and beta
      in G1, beta and gamma in G2, delta in G1, delta in G2), the public points, the committed-wire
      rows of 64-bit indices, and two G2 points for each commitment key. */
  datatype Key = Key(
    g1Head: seq<seq<byte>>, g2Head: seq<seq<byte>>, delta1: seq<seq<byte>>, delta2: seq<seq<byte>>,
    publics: seq<seq<byte>>, rows: seq<seq<byte>>, commitments: seq<seq<byte>>)

  predicate G1Points(points: seq<seq<byte>>) {
    forall i | 0 <= i < |points| :: PointOk(G1_COMPRESSED, G1_UNCOMPRESSED, points[i])
  }

  predicate G2Points(points: seq<seq<byte>>) {
    forall i | 0 <= i < |points| :: PointOk(G2_COMPRESSED, G2_UNCOMPRESSED, points[i])
  }

  function Entries(rows: seq<seq<byte>>): nat {
    if rows == [] then 0 else |rows[0]| / 8 + Entries(rows[1..])
  }

  predicate RowOk(row: seq<byte>) { |row| % 8 == 0 && |row| / 8 <= MAX_ENTRIES }

  function RowsBytes(rows: seq<seq<byte>>): seq<byte> {
    if rows == [] then [] else Encode(|rows[0]| / 8, 4) + (rows[0] + RowsBytes(rows[1..]))
  }

  /** The parts as the encoding has them, whatever their number: six fixed points, points whose first
      byte fixes their length, rows of 64-bit words, two points for each commitment. */
  ghost predicate Shaped(k: Key) {
    && |k.g1Head| == 2 && |k.g2Head| == 2 && |k.delta1| == 1 && |k.delta2| == 1
    && Sized(32, 64, k.g1Head) && Sized(64, 128, k.g2Head) && Sized(32, 64, k.delta1) && Sized(64, 128, k.delta2)
    && Sized(32, 64, k.publics) && Sized(64, 128, k.commitments)
    && (forall i | 0 <= i < |k.rows| :: |k.rows[i]| % 8 == 0) && |k.commitments| % 2 == 0
  }

  /** Compressed points have the first size and a first byte of at least 64, the others the second. */
  ghost predicate Sized(compressed: nat, uncompressed: nat, points: seq<seq<byte>>) {
    forall i | 0 <= i < |points| ::
      points[i] != [] && |points[i]| == if points[i][0] >= 64 then compressed else uncompressed
  }

  /** At most 65536 public points, rows and entries of a row, 2^20 entries in all, and 64 commitments. */
  ghost predicate Limited(k: Key) {
    && |k.publics| <= 65536 && |k.rows| <= 65536 && Entries(k.rows) <= 1048576
    && (forall i | 0 <= i < |k.rows| :: |k.rows[i]| / 8 <= 65536) && |k.commitments| / 2 <= 64
  }

  lemma KeyOkMeans(k: Key)
    ensures KeyOk(k) <==> Shaped(k) && Limited(k)
  {
    hide Entries;
    SizedMeans(32, 64, k.g1Head);
    SizedMeans(64, 128, k.g2Head);
    SizedMeans(32, 64, k.delta1);
    SizedMeans(64, 128, k.delta2);
    SizedMeans(32, 64, k.publics);
    SizedMeans(64, 128, k.commitments);
    hide Sized, G1Points, G2Points;
  }

  lemma SizedMeans(compressed: nat, uncompressed: nat, points: seq<seq<byte>>)
    ensures Sized(compressed, uncompressed, points) <==>
            forall i | 0 <= i < |points| :: PointOk(compressed, uncompressed, points[i])
    ensures compressed == 32 && uncompressed == 64 ==> (Sized(32, 64, points) <==> G1Points(points))
    ensures compressed == 64 && uncompressed == 128 ==> (Sized(64, 128, points) <==> G2Points(points))
  {
  }

  ghost predicate KeyOk(k: Key) {
    && |k.g1Head| == 2 && |k.g2Head| == 2 && |k.delta1| == 1 && |k.delta2| == 1
    && G1Points(k.g1Head) && G2Points(k.g2Head) && G1Points(k.delta1) && G2Points(k.delta2)
    && |k.publics| <= MAX_ENTRIES && G1Points(k.publics)
    && |k.rows| <= MAX_ENTRIES && Entries(k.rows) <= MAX_TOTAL && (forall i | 0 <= i < |k.rows| :: RowOk(k.rows[i]))
    && |k.commitments| % 2 == 0 && |k.commitments| / 2 <= MAX_COMMITMENTS && G2Points(k.commitments)
  }

  function KeyBytes(k: Key): seq<byte> {
    Concat(k.g1Head) + (Concat(k.g2Head) + (Concat(k.delta1) + (Concat(k.delta2) + VectorBytes(k))))
  }

  function VectorBytes(k: Key): seq<byte> {
    Encode(|k.publics|, 4) + (Concat(k.publics)
    + (Encode(|k.rows|, 4) + (RowsBytes(k.rows)
    + (Encode(|k.commitments| / 2, 4) + Concat(k.commitments)))))
  }

  // --- rows ----------------------------------------------------------------------------------------

  /** `total` counts the entries of the rows already passed. */
  function SkipRows(n: nat, total: nat, b: seq<byte>): Option<seq<byte>> {
    if n == 0 then Some(b)
    else if |b| < 4 then None
    else
      var inner := Value(b[..4]);
      if inner > MAX_ENTRIES || total + inner > MAX_TOTAL || inner * 8 > |b[4..]| then None
      else SkipRows(n - 1, total + inner, b[4..][inner * 8..])
  }

  lemma {:induction false} RowsSkipped(rows: seq<seq<byte>>, total: nat, tail: seq<byte>)
    requires total + Entries(rows) <= MAX_TOTAL && forall i | 0 <= i < |rows| :: RowOk(rows[i])
    ensures SkipRows(|rows|, total, RowsBytes(rows) + tail) == Some(tail)
    decreases |rows|
  {
    hide Encode, Value;
    if rows == [] {
      assert RowsBytes(rows) + tail == tail;
    } else {
      var row, rest := rows[0], RowsBytes(rows[1..]) + tail;
      CountValue(|row| / 8);
      RowsSkipped(rows[1..], total + |row| / 8, tail);
      Regroup(Encode(|row| / 8, 4), row + RowsBytes(rows[1..]), tail);
      Regroup(row, RowsBytes(rows[1..]), tail);
      Peel(Encode(|row| / 8, 4), row + rest);
      Peel(row, rest);
    }
  }

  lemma CountValue(n: nat)
    requires n <= MAX_ENTRIES
    ensures Value(Encode(n, 4)) == n
  {
    Widths();
  }

  lemma RowShape(row: seq<byte>, inner: nat)
    requires |row| == inner * 8 && inner <= MAX_ENTRIES
    ensures RowOk(row) && |row| / 8 == inner
  {
  }

  lemma {:induction false} SkippedRows(n: nat, total: nat, b: seq<byte>) returns (rows: seq<seq<byte>>)
    requires total <= MAX_TOTAL && SkipRows(n, total, b).Some?
    ensures |rows| == n && total + Entries(rows) <= MAX_TOTAL && forall i | 0 <= i < n :: RowOk(rows[i])
    ensures b == RowsBytes(rows) + SkipRows(n, total, b).value
    decreases n
  {
    hide Encode, Value, RowOk;
    if n == 0 {
      rows := [];
    } else {
      var row, rest := FirstRow(n, total, b);
      var others := SkippedRows(n - 1, total + |row| / 8, rest);
      hide SkipRows;
      rows := [row] + others;
      assert rows[1..] == others;
      var tail := SkipRows(n, total, b).value;
      Regroup(row, RowsBytes(others), tail);
      Regroup(Encode(|row| / 8, 4), row + RowsBytes(others), tail);
    }
  }

  lemma FirstRow(n: nat, total: nat, b: seq<byte>) returns (row: seq<byte>, rest: seq<byte>)
    requires n > 0 && SkipRows(n, total, b).Some?
    ensures RowOk(row) && total + |row| / 8 <= MAX_TOTAL && b == Encode(|row| / 8, 4) + (row + rest)
    ensures SkipRows(n, total, b) == SkipRows(n - 1, total + |row| / 8, rest)
  {
    hide Encode, Value;
    var inner := Value(b[..4]);
    row, rest := b[4..][..inner * 8], b[4..][inner * 8..];
    RowShape(row, inner);
    EncodeValue(b[..4]);
    Rejoin(b, 4);
    Rejoin(b[4..], inner * 8);
  }

  // --- the key ---------------------------------------------------------------------------------------

  function SkipCount(max: nat, b: seq<byte>): Option<(nat, seq<byte>)> {
    if |b| < 4 || Value(b[..4]) > max then None else Some((Value(b[..4]), b[4..]))
  }

  function SkipHead(b: seq<byte>): Option<seq<byte>> {
    match SkipPoints(2, G1_COMPRESSED, G1_UNCOMPRESSED, b)
    case None => None
    case Some(b1) =>
      match SkipPoints(2, G2_COMPRESSED, G2_UNCOMPRESSED, b1)
      case None => None
      case Some(b2) =>
        match SkipPoints(1, G1_COMPRESSED, G1_UNCOMPRESSED, b2)
        case None => None
        case Some(b3) => SkipPoints(1, G2_COMPRESSED, G2_UNCOMPRESSED, b3)
  }

  function SkipVectors(b: seq<byte>): Option<seq<byte>> {
    match SkipCount(MAX_ENTRIES, b)
    case None => None
    case Some((count, b1)) =>
      match SkipPoints(count, G1_COMPRESSED, G1_UNCOMPRESSED, b1)
      case None => None
      case Some(b2) =>
        match SkipCount(MAX_ENTRIES, b2)
        case None => None
        case Some((outer, b3)) =>
          match SkipRows(outer, 0, b3)
          case None => None
          case Some(b4) =>
            match SkipCount(MAX_COMMITMENTS, b4)
            case None => None
            case Some((commitments, b5)) => SkipPoints(2 * commitments, G2_COMPRESSED, G2_UNCOMPRESSED, b5)
  }

  /** The walk accepts: every part is there and nothing is left. */
  predicate Accepted(raw: seq<byte>) {
    SkipHead(raw).Some? && SkipVectors(SkipHead(raw).value) == Some([])
  }

  lemma CountSkipped(n: nat, max: nat, tail: seq<byte>)
    requires n <= max <= MAX_ENTRIES
    ensures SkipCount(max, Encode(n, 4) + tail) == Some((n, tail))
  {
    hide Encode, Value;
    CountValue(n);
    Peel(Encode(n, 4), tail);
  }

  lemma SkippedCount(max: nat, b: seq<byte>)
    requires SkipCount(max, b).Some?
    ensures SkipCount(max, b).value.0 <= max && b == Encode(SkipCount(max, b).value.0, 4) + SkipCount(max, b).value.1
  {
    hide Encode, Value;
    EncodeValue(b[..4]);
    Rejoin(b, 4);
  }

  /** The encoding of every well-formed key is accepted. */
  lemma KeyAccepted(k: Key)
    requires Shaped(k) && Limited(k)
    ensures Accepted(KeyBytes(k))
  {
    KeyOkMeans(k);
    hide Encode, SkipPoints, SkipRows, SkipCount, Concat, RowsBytes;
    var v := VectorBytes(k);
    PointsSkipped(G1_COMPRESSED, G1_UNCOMPRESSED, k.g1Head, Concat(k.g2Head) + (Concat(k.delta1) + (Concat(k.delta2) + v)));
    PointsSkipped(G2_COMPRESSED, G2_UNCOMPRESSED, k.g2Head, Concat(k.delta1) + (Concat(k.delta2) + v));
    PointsSkipped(G1_COMPRESSED, G1_UNCOMPRESSED, k.delta1, Concat(k.delta2) + v);
    PointsSkipped(G2_COMPRESSED, G2_UNCOMPRESSED, k.delta2, v);
    VectorsSkipped(k);
  }

  lemma VectorsSkipped(k: Key)
    requires KeyOk(k)
    ensures SkipVectors(VectorBytes(k)) == Some([])
  {
    hide Encode, SkipPoints, SkipRows, SkipCount, Concat, RowsBytes;
    var n, b5 := |k.commitments| / 2, Concat(k.commitments);
    var b4 := Encode(n, 4) + b5;
    var b3 := RowsBytes(k.rows) + b4;
    var b2 := Encode(|k.rows|, 4) + b3;
    CountSkipped(|k.publics|, MAX_ENTRIES, Concat(k.publics) + b2);
    PointsSkipped(G1_COMPRESSED, G1_UNCOMPRESSED, k.publics, b2);
    CountSkipped(|k.rows|, MAX_ENTRIES, b3);
    RowsSkipped(k.rows, 0, b4);
    CountSkipped(n, MAX_COMMITMENTS, b5);
    PointsSkipped(G2_COMPRESSED, G2_UNCOMPRESSED, k.commitments, []);
    assert b5 + [] == b5;
  }

  /** Every accepted byte string is exactly the encoding of a well-formed key: each declared count is
      backed by that many parts of the input. */
  lemma AcceptedKey(raw: seq<byte>) returns (k: Key)
    requires Accepted(raw)
    ensures Shaped(k) && Limited(k) && KeyBytes(k) == raw
  {
    hide Encode, SkipPoints, SkipRows, SkipCount, Concat, RowsBytes, PointOk, RowOk;
    var b1 := SkipPoints(2, G1_COMPRESSED, G1_UNCOMPRESSED, raw).value;
    var b2 := SkipPoints(2, G2_COMPRESSED, G2_UNCOMPRESSED, b1).value;
    var b3 := SkipPoints(1, G1_COMPRESSED, G1_UNCOMPRESSED, b2).value;
    var g1Head := SkippedPoints(2, G1_COMPRESSED, G1_UNCOMPRESSED, raw);
    var g2Head := SkippedPoints(2, G2_COMPRESSED, G2_UNCOMPRESSED, b1);
    var delta1 := SkippedPoints(1, G1_COMPRESSED, G1_UNCOMPRESSED, b2);
    var delta2 := SkippedPoints(1, G2_COMPRESSED, G2_UNCOMPRESSED, b3);
    k := SkippedVectors(SkipHead(raw).value, Key(g1Head, g2Head, delta1, delta2, [], [], []));
    KeyOkMeans(k);
  }

  lemma SkippedVectors(b: seq<byte>, head: Key) returns (k: Key)
    requires SkipVectors(b) == Some([])
    ensures k == head.(publics := k.publics, rows := k.rows, commitments := k.commitments) && VectorBytes(k) == b
    ensures |k.publics| <= MAX_ENTRIES && G1Points(k.publics)
    ensures |k.rows| <= MAX_ENTRIES && Entries(k.rows) <= MAX_TOTAL && forall i | 0 <= i < |k.rows| :: RowOk(k.rows[i])
    ensures |k.commitments| % 2 == 0 && |k.commitments| / 2 <= MAX_COMMITMENTS && G2Points(k.commitments)
  {
    hide Encode, SkipPoints, SkipRows, SkipCount, Concat, RowsBytes, PointOk, RowOk;
    var (count, b1) := SkipCount(MAX_ENTRIES, b).value;
    var b2 := SkipPoints(count, G1_COMPRESSED, G1_UNCOMPRESSED, b1).value;
    var (outer, b3) := SkipCount(MAX_ENTRIES, b2).value;
    var b4 := SkipRows(outer, 0, b3).value;
    var (n, b5) := SkipCount(MAX_COMMITMENTS, b4).value;
    SkippedCount(MAX_ENTRIES, b);
    SkippedCount(MAX_ENTRIES, b2);
    SkippedCount(MAX_COMMITMENTS, b4);
    var publics := SkippedPoints(count, G1_COMPRESSED, G1_UNCOMPRESSED, b1);
    var rows := SkippedRows(outer, 0, b3);
    var commitments := SkippedPoints(2 * n, G2_COMPRESSED, G2_UNCOMPRESSED, b5);
    assert Concat(commitments) + [] == Concat(commitments);
    k := head.(publics := publics, rows := rows, commitments := commitments);
  }

  // --- the walker ----------------------------------------------------------------------------------------

  method Count(r: Cursor, max: nat) returns (res: Result<nat>)
    requires r.Valid()
    modifies r`pos
    ensures r.Valid()
    ensures res.Ok? <==> SkipCount(max, old(r.Rest())).Some?
    ensures res.Ok? ==> SkipCount(max, old(r.Rest())) == Some((res.value, r.Rest()))
  {
    hide Value;
    res := r.Number(4);
    if res.Ok? && res.value > max { return Err; }
  }

  method Rows(r: Cursor, outer: nat) returns (ok: bool)
    requires r.Valid()
    modifies r`pos
    ensures r.Valid()
    ensures ok <==> SkipRows(outer, 0, old(r.Rest())).Some?
    ensures ok ==> SkipRows(outer, 0, old(r.Rest())) == Some(r.Rest())
  {
    hide Value;
    var total := 0;
    for i := 0 to outer
      invariant r.Valid() && total >= 0
      invariant SkipRows(outer, 0, old(r.Rest())) == SkipRows(outer - i, total, r.Rest())
    {
      var inner := r.Number(4);
      if inner.Err? || inner.value > MAX_ENTRIES { return false; }
      total := total + inner.value;
      var left := r.Left();
      if total > MAX_TOTAL || inner.value * 8 > left { return false; }
      var row := r.Take(inner.value * 8);
    }
    ok := true;
  }

  /** The six fixed points. */
  method WalkHead(r: Cursor) returns (ok: bool)
    requires r.Valid()
    modifies r`pos
    ensures r.Valid()
    ensures ok <==> SkipHead(old(r.Rest())).Some?
    ensures ok ==> SkipHead(old(r.Rest())) == Some(r.Rest())
  {
    hide SkipPoints;
    ok := Points(r, 2, G1_COMPRESSED, G1_UNCOMPRESSED);
    if !ok { return false; }
    ok := Points(r, 2, G2_COMPRESSED, G2_UNCOMPRESSED);
    if !ok { return false; }
    ok := Points(r, 1, G1_COMPRESSED, G1_UNCOMPRESSED);
    if !ok { return false; }
    ok := Points(r, 1, G2_COMPRESSED, G2_UNCOMPRESSED);
  }

  /** The public points, the metadata rows and the commitment keys, each after its count. */
  method WalkVectors(r: Cursor) returns (ok: bool)
    requires r.Valid()
    modifies r`pos
    ensures r.Valid()
    ensures ok <==> SkipVectors(old(r.Rest())).Some?
    ensures ok ==> SkipVectors(old(r.Rest())) == Some(r.Rest())
  {
    hide SkipPoints, SkipRows, SkipCount;
    var count := Count(r, MAX_ENTRIES);
    if count.Err? { return false; }
    ok := Points(r, count.value, G1_COMPRESSED, G1_UNCOMPRESSED);
    if !ok { return false; }
    var outer := Count(r, MAX_ENTRIES);
    if outer.Err? { return false; }
    ok := Rows(r, outer.value);
    if !ok { return false; }
    var commitments := Count(r, MAX_COMMITMENTS);
    if commitments.Err? { return false; }
    ok := Points(r, 2 * commitments.value, G2_COMPRESSED, G2_UNCOMPRESSED);
  }

  method PreflightVerifyingKey(raw: seq<byte>) returns (ok: bool)
    ensures ok <==> Accepted(raw)
  {
    hide SkipHead, SkipVectors;
    var r := new Cursor(raw);
    ok := WalkHead(r);
    if !ok { return false; }
    ok := WalkVectors(r);
    if !ok { return false; }
    var left := r.Left();
    ok := left == 0;
  }
}
