/** preflightProvingKey of setup_encoding.go: a compressed layout whose every size is fixed by the
    compiled circuit. */
module ProvingKeys {
  import opened Common
  import opened Bytes
  import opened Cursors
  import opened Layout

  /** What the compiled circuit fixes: the first 168 bytes of the FFT domain, its cardinality,
      the wires, the private wires, and the committed wires of each commitment. */
  datatype System = System(domain: seq<byte>, cardinality: nat, wires: nat, secrets: int, committed: seq<nat>) {
    ghost predicate Valid() {
      |domain| == 168 && cardinality < TWO32 && wires < TWO32 && |committed| < TWO32
    }
  }

  // --- compressed points ---------------------------------------------------------------------------

  predicate Width(width: nat) { width == 32 || width == 64 }

  /** A compressed point of the given width. */
  predicate Compressed(width: nat, p: seq<byte>) { PointOk(width, 0, p) }

  predicate AllCompressed(width: nat, points: seq<seq<byte>>) {
    forall i | 0 <= i < |points| :: Compressed(width, points[i])
  }

  /** What is left after n compressed points. */
  function SkipCompressed(n: nat, width: nat, b: seq<byte>): Option<seq<byte>> {
    SkipPoints(n, width, 0, b)
  }

  lemma CompressedSkipped(width: nat, points: seq<seq<byte>>, tail: seq<byte>)
    requires AllCompressed(width, points)
    ensures SkipCompressed(|points|, width, Concat(points) + tail) == Some(tail)
  {
    PointsSkipped(width, 0, points, tail);
  }

  lemma SkippedCompressed(n: nat, width: nat, b: seq<byte>) returns (points: seq<seq<byte>>)
    requires SkipCompressed(n, width, b).Some?
    ensures |points| == n && AllCompressed(width, points) && b == Concat(points) + SkipCompressed(n, width, b).value
  {
    points := SkippedPoints(n, width, 0, b);
  }

  lemma {:induction false} SkipLength(n: nat, width: nat, b: seq<byte>)
    requires SkipCompressed(n, width, b).Some?
    ensures |b| == n * width + |SkipCompressed(n, width, b).value|
    decreases n
  {
    if n > 0 {
      SkipLength(n - 1, width, b[width..]);
      assert n * width == (n - 1) * width + width;
    }
  }

  /** More points than the input can hold. */
  lemma TooMany(n: nat, width: nat, b: seq<byte>)
    requires Width(width)
    ensures n > |b| / width <==> n * width > |b|
    ensures n * width > |b| ==> SkipCompressed(n, width, b).None?
  {
    if SkipCompressed(n, width, b).Some? { SkipLength(n, width, b); }
  }

  /** One point of the walk, at its offset in the whole input. */
  lemma PointStep(n: nat, done: nat, width: nat, all: seq<byte>, i: nat)
    requires Width(width) && done <= n && i == done * width < n * width <= |all|
    ensures done < n && i + width <= n * width && i + width == (done + 1) * width
    ensures SkipCompressed(n - done, width, all[i..])
            == if Flagged(all[i]) then SkipCompressed(n - done - 1, width, all[i + width..]) else None
  {
    assert all[i..][width..] == all[i + width..];
    assert all[i..][0] == all[i];
  }

  lemma AllDone(n: nat, done: nat, width: nat, b: seq<byte>)
    requires Width(width) && done * width == n * width
    ensures done == n && SkipCompressed(0, width, b) == Some(b)
  {
  }

  /** The points closure: a bounds check on the count, one slice, then the flag of every point. */
  method TakePoints(r: Cursor, n: nat, width: nat) returns (ok: bool)
    requires r.Valid() && Width(width)
    modifies r`pos
    ensures r.Valid()
    ensures ok <==> SkipCompressed(n, width, old(r.Rest())).Some?
    ensures ok ==> SkipCompressed(n, width, old(r.Rest())) == Some(r.Rest())
  {
    hide SkipCompressed;
    ghost var all := r.Rest();
    var left := r.Left();
    TooMany(n, width, all);
    if n > left / width { return false; }
    var size := n * width;
    var b := r.Take(size);
    var i := 0;
    ghost var done := 0;
    assert all[0..] == all;
    while i < |b.value|
      invariant 0 <= done <= n && i == done * width && i <= size
      invariant r.Valid() && r.Rest() == all[size..]
      invariant SkipCompressed(n, width, all) == SkipCompressed(n - done, width, all[i..])
      decreases |b.value| - i
    {
      PointStep(n, done, width, all, i);
      if !Flagged(b.value[i]) { return false; }
      i := i + width;
      done := done + 1;
    }
    AllDone(n, done, width, all[size..]);
    ok := true;
  }

  // --- counted vectors ---------------------------------------------------------------------------------

  function VectorBytes(points: seq<seq<byte>>): seq<byte> {
    Encode(|points|, 4) + Concat(points)
  }

  /** The count of a vector and what follows it. */
  function SkipVector(width: nat, max: nat, b: seq<byte>): Option<(nat, seq<byte>)> {
    if |b| < 4 || Value(b[..4]) > max then None
    else
      match SkipCompressed(Value(b[..4]), width, b[4..])
      case None => None
      case Some(rest) => Some((Value(b[..4]), rest))
  }

  lemma VectorSkipped(width: nat, max: nat, points: seq<seq<byte>>, tail: seq<byte>)
    requires AllCompressed(width, points) && |points| <= max && |points| < TWO32
    ensures SkipVector(width, max, VectorBytes(points) + tail) == Some((|points|, tail))
  {
    Widths();
    hide Encode, Value, Pow256, SkipCompressed, Concat, AllCompressed;
    CompressedSkipped(width, points, tail);
    Regroup(Encode(|points|, 4), Concat(points), tail);
    Peel(Encode(|points|, 4), Concat(points) + tail);
  }

  lemma SkippedVector(width: nat, max: nat, b: seq<byte>) returns (points: seq<seq<byte>>)
    requires SkipVector(width, max, b).Some?
    ensures AllCompressed(width, points) && |points| == SkipVector(width, max, b).value.0 <= max
    ensures b == VectorBytes(points) + SkipVector(width, max, b).value.1
  {
    hide Encode, Value, SkipCompressed, Concat, AllCompressed;
    points := SkippedCompressed(Value(b[..4]), width, b[4..]);
    EncodeValue(b[..4]);
    Rejoin(b, 4);
    Regroup(b[..4], Concat(points), SkipVector(width, max, b).value.1);
  }

  method TakeVector(r: Cursor, width: nat, max: nat) returns (res: Result<nat>)
    requires r.Valid() && Width(width)
    modifies r`pos
    ensures r.Valid()
    ensures res.Ok? <==> SkipVector(width, max, old(r.Rest())).Some?
    ensures res.Ok? ==> SkipVector(width, max, old(r.Rest())) == Some((res.value, r.Rest()))
  {
    hide Value, SkipCompressed;
    res := r.Number(4);
    if res.Err? || res.value > max { return Err; }
    var ok := TakePoints(r, res.value, width);
    if !ok { return Err; }
  }

  // --- infinity flags --------------------------------------------------------------------------------------

  function Ones(flags: seq<byte>): nat {
    if flags == [] then 0 else Ones(flags[..|flags| - 1]) + flags[|flags| - 1]
  }

  /** One zero-or-one flag for every wire, `ones` of them set. */
  predicate FlagsOk(wires: nat, ones: nat, flags: seq<byte>) {
    |flags| == wires && Ones(flags) == ones && Binary(flags)
  }

  predicate Binary(flags: seq<byte>) {
    forall i | 0 <= i < |flags| :: flags[i] <= 1
  }

  method TakeFlags(r: Cursor, wires: nat, ones: nat) returns (ok: bool)
    requires r.Valid()
    modifies r`pos
    ensures r.Valid()
    ensures ok <==> wires <= |old(r.Rest())| && FlagsOk(wires, ones, old(r.Rest())[..wires])
    ensures ok ==> r.Rest() == old(r.Rest())[wires..]
  {
    var b := r.Take(wires);
    if b.Err? { return false; }
    var count: nat := 0;
    for i := 0 to |b.value|
      invariant Binary(b.value[..i]) && count == Ones(b.value[..i])
    {
      assert b.value[..i + 1][..i] == b.value[..i];
      if b.value[i] > 1 { return false; }
      count := count + b.value[i];
    }
    assert b.value[..|b.value|] == b.value;
    ok := count == ones;
  }

  // --- commitment bases ----------------------------------------------------------------------------------------

  datatype Basis = Basis(first: seq<seq<byte>>, second: seq<seq<byte>>)

  predicate BasisOk(wires: nat, n: nat, basis: Basis) {
    AllCompressed(32, basis.first) && AllCompressed(32, basis.second) && |basis.first| == |basis.second| == n <= wires
  }

  predicate BasesOk(wires: nat, committed: seq<nat>, bases: seq<Basis>) {
    |bases| == |committed| && forall i | 0 <= i < |bases| :: BasisOk(wires, committed[i], bases[i])
  }

  function BasesBytes(bases: seq<Basis>): seq<byte> {
    if bases == [] then []
    else VectorBytes(bases[0].first) + (VectorBytes(bases[0].second) + BasesBytes(bases[1..]))
  }

  function SkipBasis(wires: nat, n: nat, b: seq<byte>): Option<seq<byte>> {
    match SkipVector(32, wires, b)
    case None => None
    case Some((first, rest)) =>
      match SkipVector(32, wires, rest)
      case None => None
      case Some((second, rest')) => if first == second == n then Some(rest') else None
  }

  function SkipBases(wires: nat, committed: seq<nat>, b: seq<byte>): Option<seq<byte>> {
    if committed == [] then Some(b)
    else
      match SkipBasis(wires, committed[0], b)
      case None => None
      case Some(rest) => SkipBases(wires, committed[1..], rest)
  }

  lemma {:induction false} BasesSkipped(wires: nat, committed: seq<nat>, bases: seq<Basis>)
    requires wires < TWO32 && BasesOk(wires, committed, bases)
    ensures SkipBases(wires, committed, BasesBytes(bases)) == Some([])
    decreases |bases|
  {
    hide SkipVector, VectorBytes, AllCompressed;
    if bases != [] {
      var rest := BasesBytes(bases[1..]);
      assert BasisOk(wires, committed[0], bases[0]);
      VectorSkipped(32, wires, bases[0].first, VectorBytes(bases[0].second) + rest);
      VectorSkipped(32, wires, bases[0].second, rest);
      assert forall i | 0 <= i < |bases[1..]| :: bases[1..][i] == bases[i + 1] && committed[1..][i] == committed[i + 1];
      BasesSkipped(wires, committed[1..], bases[1..]);
    }
  }

  lemma {:induction false} SkippedBases(wires: nat, committed: seq<nat>, b: seq<byte>) returns (bases: seq<Basis>)
    requires SkipBases(wires, committed, b) == Some([])
    ensures BasesOk(wires, committed, bases) && BasesBytes(bases) == b
    decreases |committed|
  {
    hide SkipVector, VectorBytes, AllCompressed;
    if committed == [] {
      bases := [];
    } else {
      var rest := SkipVector(32, wires, b).value.1;
      var first := SkippedVector(32, wires, b);
      var second := SkippedVector(32, wires, rest);
      var others := SkippedBases(wires, committed[1..], SkipBasis(wires, committed[0], b).value);
      bases := [Basis(first, second)] + others;
      assert bases[1..] == others;
      assert forall i | 0 <= i < |others| :: committed[1..][i] == committed[i + 1];
    }
  }

  method TakeBases(r: Cursor, cs: System) returns (ok: bool)
    requires r.Valid()
    modifies r`pos
    ensures r.Valid()
    ensures ok <==> SkipBases(cs.wires, cs.committed, old(r.Rest())).Some?
    ensures ok ==> SkipBases(cs.wires, cs.committed, old(r.Rest())) == Some(r.Rest())
  {
    hide SkipVector;
    assert cs.committed[0..] == cs.committed;
    for i := 0 to |cs.committed|
      invariant r.Valid()
      invariant SkipBases(cs.wires, cs.committed, old(r.Rest())) == SkipBases(cs.wires, cs.committed[i..], r.Rest())
    {
      assert cs.committed[i..][1..] == cs.committed[i + 1..];
      var a := TakeVector(r, 32, cs.wires);
      if a.Err? { return false; }
      var b := TakeVector(r, 32, cs.wires);
      if b.Err? { return false; }
      if a.value != b.value || a.value != cs.committed[i] { return false; }
    }
    ok := true;
  }

  // --- the key -----------------------------------------------------------------------------------------------------

  /** The parts of a proving key, each point as its bytes. */
  datatype Key = Key(flag: byte, head: seq<seq<byte>>, a: seq<seq<byte>>, b: seq<seq<byte>>, z: seq<seq<byte>>,
                     k: seq<seq<byte>>, head2: seq<seq<byte>>, b2: seq<seq<byte>>,
                     infinityA: seq<byte>, infinityB: seq<byte>, bases: seq<Basis>)

  predicate G1Ok(cs: System, key: Key) {
    && |key.head| == 3 && AllCompressed(32, key.head)
    && |key.a| <= cs.wires && AllCompressed(32, key.a) && |key.b| <= cs.wires && AllCompressed(32, key.b)
    && |key.z| == cs.cardinality - 1 && AllCompressed(32, key.z)
    && |key.k| == cs.secrets && |key.k| <= cs.wires && AllCompressed(32, key.k)
  }

  predicate G2Ok(cs: System, key: Key) {
    && |key.head2| == 2 && AllCompressed(64, key.head2)
    && |key.b2| <= cs.wires && AllCompressed(64, key.b2)
  }

  /** Everything has the size the circuit fixes, and the vectors hold exactly the points whose
      infinity flag is not set. */
  predicate KeyOk(cs: System, key: Key) {
    && key.flag <= 1 && G1Ok(cs, key) && G2Ok(cs, key)
    && FlagsOk(cs.wires, cs.wires - |key.a|, key.infinityA)
    && FlagsOk(cs.wires, cs.wires - |key.b|, key.infinityB) && |key.b2| == |key.b|
    && BasesOk(cs.wires, cs.committed, key.bases)
  }

  function G1Bytes(key: Key, tail: seq<byte>): seq<byte> {
    Concat(key.head) + (VectorBytes(key.a) + (VectorBytes(key.b) + (VectorBytes(key.z) + (VectorBytes(key.k) + tail))))
  }

  function G2Bytes(key: Key, tail: seq<byte>): seq<byte> {
    Concat(key.head2) + (VectorBytes(key.b2) + tail)
  }

  function InfinityBytes(cs: System, key: Key, tail: seq<byte>): seq<byte> {
    Encode(cs.wires, 8) + (Encode(Ones(key.infinityA), 8) + (Encode(Ones(key.infinityB), 8)
    + (key.infinityA + (key.infinityB + tail))))
  }

  function KeyBytes(cs: System, key: Key): seq<byte> {
    cs.domain + ([key.flag] + G1Bytes(key, G2Bytes(key, InfinityBytes(cs, key,
      Encode(|key.bases|, 4) + BasesBytes(key.bases)))))
  }

  /** The counts of the a and b vectors, and the rest. */
  function SkipG1(cs: System, raw: seq<byte>): Option<(nat, nat, seq<byte>)> {
    match SkipCompressed(3, 32, raw)
    case None => None
    case Some(r1) =>
      match SkipVector(32, cs.wires, r1)
      case None => None
      case Some((na, r2)) =>
        match SkipVector(32, cs.wires, r2)
        case None => None
        case Some((nb, r3)) =>
          match SkipVector(32, cs.cardinality, r3)
          case None => None
          case Some((nz, r4)) =>
            match SkipVector(32, cs.wires, r4)
            case None => None
            case Some((nk, r5)) =>
              if nk != cs.secrets || nz != cs.cardinality - 1 then None else Some((na, nb, r5))
  }

  function SkipG2(cs: System, raw: seq<byte>): Option<(nat, seq<byte>)> {
    match SkipCompressed(2, 64, raw)
    case None => None
    case Some(r1) => SkipVector(64, cs.wires, r1)
  }

  function SkipInfinity(cs: System, na: nat, nb: nat, nb2: nat, raw: seq<byte>): Option<seq<byte>> {
    if |raw| < 24 then None
    else
      var nw, ia, ib := Value(raw[..8]), Value(raw[8..][..8]), Value(raw[8..][8..][..8]);
      var b := raw[8..][8..][8..];
      if nw != cs.wires || ia > nw || ib > nw || na != cs.wires - ia || nb != cs.wires - ib || nb2 != nb then None
      else if |b| < cs.wires || !FlagsOk(cs.wires, ia, b[..cs.wires]) then None
      else if |b[cs.wires..]| < cs.wires || !FlagsOk(cs.wires, ib, b[cs.wires..][..cs.wires]) then None
      else Some(b[cs.wires..][cs.wires..])
  }

  function SkipCommitments(cs: System, raw: seq<byte>): Option<seq<byte>> {
    if |raw| < 4 || Value(raw[..4]) != |cs.committed| then None else SkipBases(cs.wires, cs.committed, raw[4..])
  }

  /** The walk accepts: the domain, every part, and nothing after it. */
  predicate Accepted(cs: System, raw: seq<byte>)
    requires |cs.domain| == 168
  {
    && |raw| >= 169 && raw[..168] == cs.domain && raw[168] <= 1
    && SkipG1(cs, raw[168..][1..]).Some?
    && var (na, nb, r1) := SkipG1(cs, raw[168..][1..]).value;
    && SkipG2(cs, r1).Some?
    && var (nb2, r2) := SkipG2(cs, r1).value;
    && SkipInfinity(cs, na, nb, nb2, r2).Some?
    && SkipCommitments(cs, SkipInfinity(cs, na, nb, nb2, r2).value) == Some([])
  }

  method PreflightProvingKey(cs: System, raw: seq<byte>) returns (ok: bool)
    requires cs.Valid()
    ensures ok <==> Accepted(cs, raw)
  {
    hide SkipG1, SkipG2, SkipInfinity, SkipCommitments;
    if |raw| < 169 || raw[..168] != cs.domain || raw[168] > 1 { return false; }
    var r := new Cursor(raw);
    var domain := r.Take(168);
    var flag := r.Take(1);
    var g1 := WalkG1(cs, r);
    if g1.Err? { return false; }
    var nb2 := WalkG2(cs, r);
    if nb2.Err? { return false; }
    ok := WalkInfinity(cs, r, g1.value.0, g1.value.1, nb2.value);
    if !ok { return false; }
    ok := WalkCommitments(cs, r);
    if !ok { return false; }
    var left := r.Left();
    ok := left == 0;
  }

  method WalkG1(cs: System, r: Cursor) returns (res: Result<(nat, nat)>)
    requires r.Valid()
    modifies r`pos
    ensures r.Valid()
    ensures res.Ok? <==> SkipG1(cs, old(r.Rest())).Some?
    ensures res.Ok? ==> SkipG1(cs, old(r.Rest())) == Some((res.value.0, res.value.1, r.Rest()))
  {
    hide SkipCompressed, SkipVector;
    var ok := TakePoints(r, 3, 32);
    if !ok { return Err; }
    var na := TakeVector(r, 32, cs.wires);
    if na.Err? { return Err; }
    var nb := TakeVector(r, 32, cs.wires);
    if nb.Err? { return Err; }
    var nz := TakeVector(r, 32, cs.cardinality);
    if nz.Err? { return Err; }
    var nk := TakeVector(r, 32, cs.wires);
    if nk.Err? { return Err; }
    if nk.value != cs.secrets || nz.value != cs.cardinality - 1 { return Err; }
    res := Ok((na.value, nb.value));
  }

  method WalkG2(cs: System, r: Cursor) returns (res: Result<nat>)
    requires r.Valid()
    modifies r`pos
    ensures r.Valid()
    ensures res.Ok? <==> SkipG2(cs, old(r.Rest())).Some?
    ensures res.Ok? ==> SkipG2(cs, old(r.Rest())) == Some((res.value, r.Rest()))
  {
    hide SkipCompressed, SkipVector;
    var ok := TakePoints(r, 2, 64);
    if !ok { return Err; }
    res := TakeVector(r, 64, cs.wires);
  }

  method WalkInfinity(cs: System, r: Cursor, na: nat, nb: nat, nb2: nat) returns (ok: bool)
    requires r.Valid()
    modifies r`pos
    ensures r.Valid()
    ensures ok <==> SkipInfinity(cs, na, nb, nb2, old(r.Rest())).Some?
    ensures ok ==> SkipInfinity(cs, na, nb, nb2, old(r.Rest())) == Some(r.Rest())
  {
    hide Value, FlagsOk;
    var nw := r.Number(8);
    if nw.Err? || nw.value != cs.wires { return false; }
    var ia := r.Number(8);
    if ia.Err? || ia.value > nw.value { return false; }
    var ib := r.Number(8);
    if ib.Err? || ib.value > nw.value { return false; }
    if na != cs.wires - ia.value || nb != cs.wires - ib.value || nb2 != nb { return false; }
    ok := TakeFlags(r, cs.wires, ia.value);
    if !ok { return false; }
    ok := TakeFlags(r, cs.wires, ib.value);
  }

  method WalkCommitments(cs: System, r: Cursor) returns (ok: bool)
    requires r.Valid()
    modifies r`pos
    ensures r.Valid()
    ensures ok <==> SkipCommitments(cs, old(r.Rest())).Some?
    ensures ok ==> SkipCommitments(cs, old(r.Rest())) == Some(r.Rest())
  {
    hide Value, SkipBases;
    var nc := r.Number(4);
    if nc.Err? || nc.value != |cs.committed| { return false; }
    ok := TakeBases(r, cs);
  }

  // --- accepted exactly when well-formed ----------------------------------------------------------------------------

  lemma G1Skipped(cs: System, key: Key, tail: seq<byte>)
    requires cs.Valid() && G1Ok(cs, key)
    ensures SkipG1(cs, G1Bytes(key, tail)) == Some((|key.a|, |key.b|, tail))
  {
    hide SkipCompressed, SkipVector, VectorBytes, Concat, AllCompressed;
    var r4 := VectorBytes(key.k) + tail;
    var r3 := VectorBytes(key.z) + r4;
    var r2 := VectorBytes(key.b) + r3;
    CompressedSkipped(32, key.head, VectorBytes(key.a) + r2);
    VectorSkipped(32, cs.wires, key.a, r2);
    VectorSkipped(32, cs.wires, key.b, r3);
    VectorSkipped(32, cs.cardinality, key.z, r4);
    VectorSkipped(32, cs.wires, key.k, tail);
  }

  lemma G2Skipped(cs: System, key: Key, tail: seq<byte>)
    requires cs.Valid() && G2Ok(cs, key)
    ensures SkipG2(cs, G2Bytes(key, tail)) == Some((|key.b2|, tail))
  {
    hide SkipCompressed, SkipVector, VectorBytes, Concat, AllCompressed;
    CompressedSkipped(64, key.head2, VectorBytes(key.b2) + tail);
    VectorSkipped(64, cs.wires, key.b2, tail);
  }

  lemma WordValue(n: nat)
    requires n < TWO64
    ensures Value(Encode(n, 8)) == n
  {
    Widths();
  }

  lemma InfinitySkipped(cs: System, key: Key, tail: seq<byte>)
    requires cs.Valid() && KeyOk(cs, key)
    ensures SkipInfinity(cs, |key.a|, |key.b|, |key.b2|, InfinityBytes(cs, key, tail)) == Some(tail)
  {
    hide Encode, Value, Ones, Binary, G1Ok, G2Ok, BasesOk;
    Limits(cs, key);
    var ia, ib := Ones(key.infinityA), Ones(key.infinityB);
    WordValue(cs.wires);
    WordValue(ia);
    WordValue(ib);
    var b := key.infinityA + (key.infinityB + tail);
    Peel(Encode(cs.wires, 8), Encode(ia, 8) + (Encode(ib, 8) + b));
    Peel(Encode(ia, 8), Encode(ib, 8) + b);
    Peel(Encode(ib, 8), b);
    Peel(key.infinityA, key.infinityB + tail);
    Peel(key.infinityB, tail);
  }

  lemma Limits(cs: System, key: Key)
    requires KeyOk(cs, key)
    ensures |key.a| <= cs.wires && |key.b| <= cs.wires && |key.b2| == |key.b|
    ensures Ones(key.infinityA) == cs.wires - |key.a| && Ones(key.infinityB) == cs.wires - |key.b|
  {
  }

  lemma CommitmentsSkipped(cs: System, bases: seq<Basis>)
    requires cs.Valid() && BasesOk(cs.wires, cs.committed, bases)
    ensures SkipCommitments(cs, Encode(|bases|, 4) + BasesBytes(bases)) == Some([])
  {
    Widths();
    hide Encode, Value, Pow256, SkipBases, BasesBytes, BasisOk;
    BasesSkipped(cs.wires, cs.committed, bases);
    Peel(Encode(|bases|, 4), BasesBytes(bases));
  }

  /** The encoding of every key that fits the circuit is accepted. */
  lemma KeyAccepted(cs: System, key: Key)
    requires cs.Valid() && KeyOk(cs, key)
    ensures Accepted(cs, KeyBytes(cs, key))
  {
    hide SkipG1, SkipG2, SkipInfinity, SkipCommitments, G1Bytes, G2Bytes, InfinityBytes, Encode, BasesBytes,
         FlagsOk, BasesOk, G1Ok, G2Ok;
    var r3 := Encode(|key.bases|, 4) + BasesBytes(key.bases);
    var r2 := InfinityBytes(cs, key, r3);
    var r1 := G2Bytes(key, r2);
    var r0 := G1Bytes(key, r1);
    Peel(cs.domain, [key.flag] + r0);
    Peel([key.flag], r0);
    assert KeyBytes(cs, key)[168] == KeyBytes(cs, key)[168..][0];
    G1Skipped(cs, key, r1);
    G2Skipped(cs, key, r2);
    InfinitySkipped(cs, key, r3);
    CommitmentsSkipped(cs, key.bases);
  }

  lemma SkippedG1(cs: System, raw: seq<byte>, key: Key) returns (out: Key)
    requires SkipG1(cs, raw).Some?
    ensures var (na, nb, rest) := SkipG1(cs, raw).value;
            raw == G1Bytes(out, rest) && G1Ok(cs, out) && |out.a| == na && |out.b| == nb
    ensures out == key.(head := out.head, a := out.a, b := out.b, z := out.z, k := out.k)
  {
    hide SkipCompressed, SkipVector, VectorBytes, Concat, AllCompressed;
    var r1 := SkipCompressed(3, 32, raw).value;
    var r2 := SkipVector(32, cs.wires, r1).value.1;
    var r3 := SkipVector(32, cs.wires, r2).value.1;
    var r4 := SkipVector(32, cs.cardinality, r3).value.1;
    var head := SkippedCompressed(3, 32, raw);
    var a := SkippedVector(32, cs.wires, r1);
    var b := SkippedVector(32, cs.wires, r2);
    var z := SkippedVector(32, cs.cardinality, r3);
    var k := SkippedVector(32, cs.wires, r4);
    out := key.(head := head, a := a, b := b, z := z, k := k);
  }

  lemma SkippedG2(cs: System, raw: seq<byte>, key: Key) returns (out: Key)
    requires SkipG2(cs, raw).Some?
    ensures raw == G2Bytes(out, SkipG2(cs, raw).value.1) && G2Ok(cs, out) && |out.b2| == SkipG2(cs, raw).value.0
    ensures out == key.(head2 := out.head2, b2 := out.b2)
  {
    hide SkipCompressed, SkipVector, VectorBytes, Concat, AllCompressed;
    var head2 := SkippedCompressed(2, 64, raw);
    var b2 := SkippedVector(64, cs.wires, SkipCompressed(2, 64, raw).value);
    out := key.(head2 := head2, b2 := b2);
  }

  lemma SkippedInfinity(cs: System, na: nat, nb: nat, nb2: nat, raw: seq<byte>, key: Key) returns (out: Key)
    requires SkipInfinity(cs, na, nb, nb2, raw).Some?
    ensures raw == InfinityBytes(cs, out, SkipInfinity(cs, na, nb, nb2, raw).value) && nb2 == nb
    ensures FlagsOk(cs.wires, cs.wires - na, out.infinityA) && FlagsOk(cs.wires, cs.wires - nb, out.infinityB)
    ensures out == key.(infinityA := out.infinityA, infinityB := out.infinityB)
  {
    hide Encode, Value, Ones, Binary;
    var b := raw[8..][8..][8..];
    out := key.(infinityA := b[..cs.wires], infinityB := b[cs.wires..][..cs.wires]);
    EncodeValue(raw[..8]);
    EncodeValue(raw[8..][..8]);
    EncodeValue(raw[8..][8..][..8]);
    Rejoin(raw, 8);
    Rejoin(raw[8..], 8);
    Rejoin(raw[8..][8..], 8);
    Rejoin(b, cs.wires);
    Rejoin(b[cs.wires..], cs.wires);
  }

  lemma SkippedCommitments(cs: System, raw: seq<byte>) returns (bases: seq<Basis>)
    requires SkipCommitments(cs, raw) == Some([])
    ensures BasesOk(cs.wires, cs.committed, bases) && raw == Encode(|bases|, 4) + BasesBytes(bases)
  {
    hide Encode, Value, SkipBases, BasesBytes, BasisOk;
    bases := SkippedBases(cs.wires, cs.committed, raw[4..]);
    EncodeValue(raw[..4]);
    Rejoin(raw, 4);
  }

  /** Every accepted byte string is exactly the encoding of a key that fits the circuit. */
  lemma AcceptedKey(cs: System, raw: seq<byte>) returns (key: Key)
    requires |cs.domain| == 168 && Accepted(cs, raw)
    ensures KeyOk(cs, key) && KeyBytes(cs, key) == raw
  {
    hide SkipG1, SkipG2, SkipInfinity, SkipCommitments, G1Bytes, G2Bytes, InfinityBytes, Encode, BasesBytes,
         FlagsOk, BasesOk, G1Ok, G2Ok;
    var (na, nb, r1) := SkipG1(cs, raw[168..][1..]).value;
    var (nb2, r2) := SkipG2(cs, r1).value;
    var r3 := SkipInfinity(cs, na, nb, nb2, r2).value;
    var k1 := SkippedG1(cs, raw[168..][1..], Key(raw[168], [], [], [], [], [], [], [], [], [], []));
    var k2 := SkippedG2(cs, r1, k1);
    var k3 := SkippedInfinity(cs, na, nb, nb2, r2, k2);
    var bases := SkippedCommitments(cs, r3);
    key := k3.(bases := bases);
    SameParts(cs, k1, k2, k3, key, r1, r2, r3);
    Rejoin(raw, 168);
    Rejoin(raw[168..], 1);
    assert raw[168..][..1] == [raw[168]];
  }

  /** Each part depends on its own fields only. */
  lemma SameParts(cs: System, k1: Key, k2: Key, k3: Key, key: Key, r1: seq<byte>, r2: seq<byte>, r3: seq<byte>)
    requires k2 == k1.(head2 := k2.head2, b2 := k2.b2)
    requires k3 == k2.(infinityA := k3.infinityA, infinityB := k3.infinityB)
    requires key == k3.(bases := key.bases)
    ensures G1Bytes(key, r1) == G1Bytes(k1, r1) && (G1Ok(cs, k1) ==> G1Ok(cs, key))
    ensures G2Bytes(key, r2) == G2Bytes(k2, r2) && (G2Ok(cs, k2) ==> G2Ok(cs, key))
    ensures InfinityBytes(cs, key, r3) == InfinityBytes(cs, k3, r3)
  {
  }

  // --- the closed form of the length --------------------------------------------------------------------------------

  function Sum(n: seq<nat>): nat {
    if n == [] then 0 else n[0] + Sum(n[1..])
  }

  lemma {:induction false} ConcatLength(width: nat, points: seq<seq<byte>>)
    requires AllCompressed(width, points)
    ensures |Concat(points)| == width * |points|
    decreases |points|
  {
    if points != [] {
      assert Compressed(width, points[0]);
      ConcatLength(width, points[1..]);
      assert width * |points| == width + width * |points[1..]|;
    }
  }

  lemma {:induction false} BasesLength(wires: nat, committed: seq<nat>, bases: seq<Basis>)
    requires BasesOk(wires, committed, bases)
    ensures |BasesBytes(bases)| == 8 * |committed| + 64 * Sum(committed)
    decreases |bases|
  {
    hide AllCompressed;
    if bases != [] {
      assert BasisOk(wires, committed[0], bases[0]);
      ConcatLength(32, bases[0].first);
      ConcatLength(32, bases[0].second);
      assert forall i | 0 <= i < |bases[1..]| :: bases[1..][i] == bases[i + 1] && committed[1..][i] == committed[i + 1];
      BasesLength(wires, committed[1..], bases[1..]);
    }
  }

  /** The length of an accepted key in closed form: it follows from the circuit and from how many
      infinity flags of each vector are set. */
  lemma AcceptedLength(cs: System, raw: seq<byte>) returns (key: Key, ia: nat, ib: nat)
    requires |cs.domain| == 168 && Accepted(cs, raw)
    ensures KeyOk(cs, key) && KeyBytes(cs, key) == raw
    ensures ia == Ones(key.infinityA) <= cs.wires && ib == Ones(key.infinityB) <= cs.wires
    ensures cs.cardinality >= 1 && cs.secrets >= 0
    ensures |raw| == 169 + 32 * 3 + 16 + 32 * ((cs.wires - ia) + (cs.wires - ib) + (cs.cardinality - 1) + cs.secrets)
                     + 64 * 2 + 4 + 64 * (cs.wires - ib) + 24 + 2 * cs.wires
                     + 4 + 8 * |cs.committed| + 64 * Sum(cs.committed)
  {
    key := AcceptedKey(cs, raw);
    hide Accepted, AllCompressed, Concat, BasesBytes, BasesOk, Encode, Ones, Binary;
    ia, ib := Ones(key.infinityA), Ones(key.infinityB);
    ConcatLength(32, key.head);
    ConcatLength(32, key.a);
    ConcatLength(32, key.b);
    ConcatLength(32, key.z);
    ConcatLength(32, key.k);
    ConcatLength(64, key.head2);
    ConcatLength(64, key.b2);
    BasesLength(cs.wires, cs.committed, key.bases);
  }
}
