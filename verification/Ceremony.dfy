/** The q-SDH contribution chain of ceremony.go. */
module Ceremony {
  import opened Common
  import opened Bytes
  import opened Cursors
  import opened Layout
  import opened ProvingKeys

  const MAX_CONTRIBUTIONS: nat := 64
  const MAX_TRANSCRIPT: nat := 0x400_0000
  const MAX_CAPACITY: nat := 65536

  /** A domain that fits: the 2n-1 powers of tau cover the capacity. */
  predicate Covers(n: nat, capacity: nat) { capacity + 1 <= 2 * n - 1 }

  /** The least power of two from 2 on whose domain covers the capacity. */
  ghost predicate DomainOf(capacity: nat, n: nat) {
    && Covers(n, capacity) && (exists k: nat :: k >= 1 && n == Pow2(k))
    && (forall k: nat | k >= 1 && Covers(Pow2(k), capacity) :: n <= Pow2(k))
  }

  method CeremonyDomain(capacity: int) returns (res: Result<nat>)
    ensures res.Ok? <==> 1 <= capacity <= 65536
    ensures res.Ok? ==> 2 <= res.value <= 65536 && DomainOf(capacity, res.value)
    ensures res.Ok? ==> capacity + 1 <= 2 * res.value - 1 && (res.value > 2 ==> res.value - 1 < capacity + 1)
  {
    if capacity < 1 || capacity > MAX_CAPACITY { return Err; }
    var n := 2;
    ghost var k := 1;
    Doubles(0);
    hide Pow2;
    while 2 * n - 1 < capacity + 1
      invariant k >= 1 && n == Pow2(k) && 2 <= n
      invariant k == 1 || !Covers(Pow2(k - 1), capacity)
      invariant n <= MAX_CAPACITY
      decreases 2 * MAX_CAPACITY - n
    {
      SmallDomain(k, n, capacity);
      Doubles(k);
      n := n * 2;
      k := k + 1;
    }
    LeastDomain(capacity, k);
    res := Ok(n);
  }

  lemma Doubles(k: nat)
    ensures Pow2(0) == 1 && Pow2(k + 1) == 2 * Pow2(k)
  {
  }

  /** A domain that does not cover the largest capacity is at most half of it. */
  lemma SmallDomain(k: nat, n: nat, capacity: nat)
    requires n == Pow2(k) && 2 * n - 1 < capacity + 1 && capacity <= MAX_CAPACITY
    ensures 2 * n <= MAX_CAPACITY
  {
    SixteenBits(k);
  }

  lemma SixteenBits(k: nat)
    ensures k <= 15 ==> Pow2(k) <= 32768
    ensures k >= 16 ==> Pow2(k) >= 65536
  {
    assert Pow2(4) == 16;
    assert Pow2(8) == 256;
    assert Pow2(12) == 4096;
    assert Pow2(15) == 32768;
    assert Pow2(16) == 65536;
    if k <= 15 { Doubling(k, 15); } else { Doubling(16, k); }
  }

  lemma LeastDomain(capacity: nat, k: nat)
    requires k >= 1 && Covers(Pow2(k), capacity) && (k == 1 || !Covers(Pow2(k - 1), capacity))
    ensures DomainOf(capacity, Pow2(k))
  {
    hide Pow2;
    forall j: nat | j >= 1 && Covers(Pow2(j), capacity) ensures Pow2(k) <= Pow2(j) {
      if j < k { Doubling(j, k - 1); } else { Doubling(k, j); }
    }
  }

  lemma {:induction false} Doubling(j: nat, k: nat)
    requires j <= k
    ensures Pow2(j) <= Pow2(k)
    decreases k
  {
    if j < k { Doubling(j, k - 1); }
  }

  function ContributionBytes(n: nat): nat { 192 * n + 265 }

  // --- one contribution -----------------------------------------------------------------------------

  /** The three update proofs: a G1 and a G2 point each. */
  function SkipProofs(k: nat, b: seq<byte>): Option<seq<byte>> {
    if k == 0 then Some(b)
    else
      match SkipCompressed(1, 32, b)
      case None => None
      case Some(b1) =>
        match SkipCompressed(1, 64, b1)
        case None => None
        case Some(b2) => SkipProofs(k - 1, b2)
  }

  function SkipPowers(n: nat, b: seq<byte>): Option<seq<byte>>
    requires n >= 2
  {
    match SkipCompressed(1, 64, b)
    case None => None
    case Some(b1) =>
      match SkipCompressed(2 * n - 2, 32, b1)
      case None => None
      case Some(b2) =>
        match SkipCompressed(n - 1, 64, b2)
        case None => None
        case Some(b3) => SkipCompressed(2 * n, 32, b3)
  }

  /** The layout of a contribution for domain n, followed by a 32-byte challenge. */
  predicate ContributionOk(n: nat, raw: seq<byte>)
    requires n >= 2
  {
    && SkipProofs(3, raw).Some?
    && var b := SkipProofs(3, raw).value;
    && |b| >= 8 && Value(b[..8]) == n
    && SkipPowers(n, b[8..]).Some?
    && var challenge := SkipPowers(n, b[8..]).value;
    && |challenge| == 33 && challenge[0] == 32
  }

  lemma {:induction false} ProofsLength(k: nat, b: seq<byte>)
    requires SkipProofs(k, b).Some?
    ensures |b| == 96 * k + |SkipProofs(k, b).value|
    decreases k
  {
    hide SkipCompressed;
    if k > 0 {
      var b1 := SkipCompressed(1, 32, b).value;
      SkipLength(1, 32, b);
      SkipLength(1, 64, b1);
      ProofsLength(k - 1, SkipCompressed(1, 64, b1).value);
    }
  }

  lemma PowersLength(n: nat, b: seq<byte>)
    requires n >= 2 && SkipPowers(n, b).Some?
    ensures |b| == 192 * n - 64 + |SkipPowers(n, b).value|
  {
    hide SkipCompressed;
    var b1 := SkipCompressed(1, 64, b).value;
    var b2 := SkipCompressed(2 * n - 2, 32, b1).value;
    var b3 := SkipCompressed(n - 1, 64, b2).value;
    SkipLength(1, 64, b);
    SkipLength(2 * n - 2, 32, b1);
    SkipLength(n - 1, 64, b2);
    SkipLength(2 * n, 32, b3);
  }

  /** The walk over a well-formed contribution always lands on its declared length. */
  lemma ContributionLength(n: nat, raw: seq<byte>)
    requires n >= 2 && SkipProofs(3, raw).Some? && |SkipProofs(3, raw).value| >= 8
    requires SkipPowers(n, SkipProofs(3, raw).value[8..]).Some?
    ensures |raw| == ContributionBytes(n) <==> |SkipPowers(n, SkipProofs(3, raw).value[8..]).value| == 33
  {
    hide SkipProofs, SkipPowers;
    ProofsLength(3, raw);
    PowersLength(n, SkipProofs(3, raw).value[8..]);
  }

  /** The parts of a contribution, each point as its bytes. */
  datatype Contribution = Contribution(
    proofs: seq<(seq<byte>, seq<byte>)>,       // three pairs of a G1 and a G2 point
    beta: seq<seq<byte>>,                      // [beta] in G2
    tauG1: seq<seq<byte>>, tauG2: seq<seq<byte>>, alphaBeta: seq<seq<byte>>,
    challenge: seq<byte>)

  predicate CompressedPairs(pairs: seq<(seq<byte>, seq<byte>)>) {
    forall i | 0 <= i < |pairs| :: AllCompressed(32, [pairs[i].0]) && AllCompressed(64, [pairs[i].1])
  }

  predicate PartsOk(n: nat, c: Contribution)
    requires n >= 2
  {
    && |c.proofs| == 3 && CompressedPairs(c.proofs)
    && |c.beta| == 1 && AllCompressed(64, c.beta)
    && |c.tauG1| == 2 * n - 2 && AllCompressed(32, c.tauG1) && |c.tauG2| == n - 1 && AllCompressed(64, c.tauG2)
    && |c.alphaBeta| == 2 * n && AllCompressed(32, c.alphaBeta) && |c.challenge| == 32
  }

  function PairsBytes(pairs: seq<(seq<byte>, seq<byte>)>, tail: seq<byte>): seq<byte> {
    if pairs == [] then tail else Concat([pairs[0].0]) + (Concat([pairs[0].1]) + PairsBytes(pairs[1..], tail))
  }

  function PowersEncoding(c: Contribution, tail: seq<byte>): seq<byte> {
    Concat(c.beta) + (Concat(c.tauG1) + (Concat(c.tauG2) + (Concat(c.alphaBeta) + tail)))
  }

  /** Proofs, domain, powers, and the challenge with its length. */
  function Encoding(n: nat, c: Contribution): seq<byte> {
    PairsBytes(c.proofs, Encode(n, 8) + PowersEncoding(c, [32] + c.challenge))
  }

  lemma {:induction false} PairsSkipped(pairs: seq<(seq<byte>, seq<byte>)>, tail: seq<byte>)
    requires CompressedPairs(pairs)
    ensures SkipProofs(|pairs|, PairsBytes(pairs, tail)) == Some(tail)
    decreases |pairs|
  {
    hide SkipCompressed, Concat, AllCompressed;
    if pairs != [] {
      var rest := PairsBytes(pairs[1..], tail);
      CompressedSkipped(32, [pairs[0].0], Concat([pairs[0].1]) + rest);
      CompressedSkipped(64, [pairs[0].1], rest);
      PairsSkipped(pairs[1..], tail);
    }
  }

  lemma {:induction false} SkippedPairs(k: nat, b: seq<byte>) returns (pairs: seq<(seq<byte>, seq<byte>)>)
    requires SkipProofs(k, b).Some?
    ensures |pairs| == k && CompressedPairs(pairs) && b == PairsBytes(pairs, SkipProofs(k, b).value)
    decreases k
  {
    hide SkipCompressed, Concat, AllCompressed;
    if k == 0 {
      pairs := [];
    } else {
      var b1 := SkipCompressed(1, 32, b).value;
      var g1 := SkippedCompressed(1, 32, b);
      var g2 := SkippedCompressed(1, 64, b1);
      var rest := SkippedPairs(k - 1, SkipCompressed(1, 64, b1).value);
      pairs := [(g1[0], g2[0])] + rest;
      assert g1 == [g1[0]] && g2 == [g2[0]] && pairs[1..] == rest;
    }
  }

  lemma PowersSkipped(n: nat, c: Contribution, tail: seq<byte>)
    requires n >= 2 && PartsOk(n, c)
    ensures SkipPowers(n, PowersEncoding(c, tail)) == Some(tail)
  {
    hide SkipCompressed, Concat, AllCompressed, CompressedPairs;
    CompressedSkipped(64, c.beta, Concat(c.tauG1) + (Concat(c.tauG2) + (Concat(c.alphaBeta) + tail)));
    CompressedSkipped(32, c.tauG1, Concat(c.tauG2) + (Concat(c.alphaBeta) + tail));
    CompressedSkipped(64, c.tauG2, Concat(c.alphaBeta) + tail);
    CompressedSkipped(32, c.alphaBeta, tail);
  }

  /** The encoding of every contribution of this shape is accepted. */
  lemma ContributionAccepted(n: nat, c: Contribution)
    requires 2 <= n < TWO64 && PartsOk(n, c)
    ensures ContributionOk(n, Encoding(n, c))
  {
    Widths();
    var challenge := [32] + c.challenge;
    var b := Encode(n, 8) + PowersEncoding(c, challenge);
    PairsSkipped(c.proofs, b);
    PowersSkipped(n, c, challenge);
    hide SkipProofs, SkipPowers, PairsBytes, PowersEncoding, Encode, Value, Pow256;
    Peel(Encode(n, 8), PowersEncoding(c, challenge));
  }

  /** Every accepted byte string is exactly the encoding of such a contribution. */
  lemma AcceptedContribution(n: nat, raw: seq<byte>) returns (c: Contribution)
    requires n >= 2 && ContributionOk(n, raw)
    ensures PartsOk(n, c) && Encoding(n, c) == raw
  {
    var b := SkipProofs(3, raw).value;
    var pairs := SkippedPairs(3, raw);
    EncodeValue(b[..8]);
    Rejoin(b, 8);
    hide SkipCompressed, SkipPowers, Concat, AllCompressed, CompressedPairs, PairsBytes, SkipProofs, Encode, Value;
    var challenge := SkipPowers(n, b[8..]).value;
    var parts := SkippedPowers(n, b[8..]);
    assert challenge == [32] + challenge[1..];
    c := parts.(proofs := pairs, challenge := challenge[1..]);
    assert PowersEncoding(c, challenge) == PowersEncoding(parts, challenge);
  }

  lemma SkippedPowers(n: nat, b: seq<byte>) returns (c: Contribution)
    requires n >= 2 && SkipPowers(n, b).Some?
    ensures |c.beta| == 1 && AllCompressed(64, c.beta)
    ensures |c.tauG1| == 2 * n - 2 && AllCompressed(32, c.tauG1) && |c.tauG2| == n - 1 && AllCompressed(64, c.tauG2)
    ensures |c.alphaBeta| == 2 * n && AllCompressed(32, c.alphaBeta)
    ensures b == PowersEncoding(c, SkipPowers(n, b).value)
  {
    hide SkipCompressed, Concat, AllCompressed;
    var b1 := SkipCompressed(1, 64, b).value;
    var b2 := SkipCompressed(2 * n - 2, 32, b1).value;
    var b3 := SkipCompressed(n - 1, 64, b2).value;
    var beta := SkippedCompressed(1, 64, b);
    var tauG1 := SkippedCompressed(2 * n - 2, 32, b1);
    var tauG2 := SkippedCompressed(n - 1, 64, b2);
    var alphaBeta := SkippedCompressed(2 * n, 32, b3);
    c := Contribution([], beta, tauG1, tauG2, alphaBeta, []);
  }

  /** The point closure, for n points in a row. */
  method Walk(r: Cursor, n: nat, size: nat) returns (ok: bool)
    requires r.Valid() && Width(size)
    modifies r`pos
    ensures r.Valid()
    ensures ok <==> SkipCompressed(n, size, old(r.Rest())).Some?
    ensures ok ==> SkipCompressed(n, size, old(r.Rest())) == Some(r.Rest())
  {
    for i := 0 to n
      invariant r.Valid()
      invariant SkipCompressed(n, size, old(r.Rest())) == SkipCompressed(n - i, size, r.Rest())
    {
      if r.pos + size > |r.raw| || !Flagged(r.raw[r.pos]) { return false; }
      var skipped := r.Take(size);
    }
    ok := true;
  }

  method WalkPowers(r: Cursor, n: nat) returns (ok: bool)
    requires r.Valid() && n >= 2
    modifies r`pos
    ensures r.Valid()
    ensures ok <==> SkipPowers(n, old(r.Rest())).Some?
    ensures ok ==> SkipPowers(n, old(r.Rest())) == Some(r.Rest())
  {
    hide SkipCompressed;
    ok := Walk(r, 1, 64);
    if !ok { return false; }
    ok := Walk(r, 2 * n - 2, 32);
    if !ok { return false; }
    ok := Walk(r, n - 1, 64);
    if !ok { return false; }
    ok := Walk(r, 2 * n, 32);
  }

  /** The walk of decodeQSDHContribution, before the bytes reach gnark. */
  method CheckContribution(raw: seq<byte>, n: nat) returns (ok: bool)
    requires n >= 2
    ensures ok <==> ContributionOk(n, raw)
    ensures ok ==> |raw| == ContributionBytes(n)
  {
    hide SkipCompressed, SkipPowers, Value;
    if |raw| != ContributionBytes(n) {
      WrongLength(n, raw);
      return false;
    }
    var r := new Cursor(raw);
    for i := 0 to 3
      invariant r.Valid()
      invariant SkipProofs(3, raw) == SkipProofs(3 - i, r.Rest())
    {
      ok := Walk(r, 1, 32);
      if !ok { return false; }
      ok := Walk(r, 1, 64);
      if !ok { return false; }
    }
    ProofsLength(3, raw);
    var domain := r.Number(8);
    if domain.value != n { return false; }
    ok := WalkPowers(r, n);
    if !ok { return false; }
    ContributionLength(n, raw);
    assert r.pos + 33 == |raw|;
    ok := r.raw[r.pos] == 32;
  }

  lemma WrongLength(n: nat, raw: seq<byte>)
    requires n >= 2 && |raw| != ContributionBytes(n)
    ensures !ContributionOk(n, raw)
  {
    if ContributionOk(n, raw) { ContributionLength(n, raw); }
  }

  // --- the chain ----------------------------------------------------------------------------------------

  /** What gnark decides: whether the bytes decode canonically, and whether a contribution (None for
      the initial state) is followed by another. */
  datatype Gnark = Gnark(decodes: seq<byte> -> bool, follows: (Option<seq<byte>>, seq<byte>) -> bool)

  function Total(chain: seq<seq<byte>>): nat {
    if chain == [] then 0 else Total(chain[..|chain| - 1]) + |chain[|chain| - 1]|
  }

  function Last(chain: seq<seq<byte>>): Option<seq<byte>> {
    if chain == [] then None else Some(chain[|chain| - 1])
  }

  /** Every contribution is well-formed and follows the one before. */
  predicate Linked(g: Gnark, n: nat, chain: seq<seq<byte>>)
    requires n >= 2
  {
    chain == [] ||
    var m := |chain| - 1;
    Linked(g, n, chain[..m]) && ContributionOk(n, chain[m]) && g.decodes(chain[m]) && g.follows(Last(chain[..m]), chain[m])
  }

  predicate ChainOk(g: Gnark, n: nat, chain: seq<seq<byte>>)
    requires n >= 2
  {
    |chain| <= MAX_CONTRIBUTIONS && Total(chain) <= MAX_TRANSCRIPT && Linked(g, n, chain)
  }

  method TotalOf(chain: seq<seq<byte>>) returns (total: nat)
    ensures total == Total(chain)
  {
    total := 0;
    for i := 0 to |chain|
      invariant total == Total(chain[..i])
    {
      assert chain[..i + 1][..i] == chain[..i];
      total := total + |chain[i]|;
    }
    assert chain[..|chain|] == chain;
  }

  /** checkedQSDHChain. */
  method CheckedChain(g: Gnark, capacity: int, chain: seq<seq<byte>>) returns (res: Result<(Option<seq<byte>>, nat)>)
    ensures res.Ok? <==>
            1 <= capacity <= 65536 && exists n: nat :: n >= 2 && DomainOf(capacity, n) && ChainOk(g, n, chain)
    ensures res.Ok? ==> capacity >= 1 && DomainOf(capacity, res.value.1) && res.value.0 == Last(chain)
  {
    hide ContributionOk, Total;
    var domain := CeremonyDomain(capacity);
    if domain.Err? { return Err; }
    var n := domain.value;
    DomainUnique(capacity, n);
    if |chain| > MAX_CONTRIBUTIONS { return Err; }
    var total := TotalOf(chain);
    if total > MAX_TRANSCRIPT { return Err; }
    var previous: Option<seq<byte>> := None;
    for i := 0 to |chain|
      invariant Linked(g, n, chain[..i]) && previous == Last(chain[..i])
    {
      assert chain[..i + 1][..i] == chain[..i];
      var ok := CheckContribution(chain[i], n);
      if !ok || !g.decodes(chain[i]) || !g.follows(previous, chain[i]) {
        BrokenLink(g, n, chain, i + 1);
        return Err;
      }
      previous := Some(chain[i]);
    }
    assert chain[..|chain|] == chain;
    res := Ok((previous, n));
  }

  lemma DomainUnique(capacity: nat, n: nat)
    requires DomainOf(capacity, n)
    ensures forall m: nat | DomainOf(capacity, m) :: m == n
  {
    forall m: nat | DomainOf(capacity, m) ensures m == n {
      var j: nat :| j >= 1 && n == Pow2(j);
      var k: nat :| k >= 1 && m == Pow2(k);
      assert Covers(Pow2(j), capacity) && Covers(Pow2(k), capacity);
    }
  }

  lemma {:induction false} BrokenLink(g: Gnark, n: nat, chain: seq<seq<byte>>, i: nat)
    requires n >= 2 && i <= |chain| && !Linked(g, n, chain[..i])
    ensures !Linked(g, n, chain)
    decreases |chain|
  {
    hide ContributionOk;
    if i == |chain| {
      assert chain[..i] == chain;
    } else {
      assert chain[..|chain| - 1][..i] == chain[..i];
      BrokenLink(g, n, chain[..|chain| - 1], i);
    }
  }

  lemma {:induction false} LinkedTotal(g: Gnark, n: nat, chain: seq<seq<byte>>)
    requires n >= 2 && Linked(g, n, chain)
    ensures Total(chain) == |chain| * ContributionBytes(n)
    decreases |chain|
  {
    if chain != [] {
      var m := |chain| - 1;
      LinkedTotal(g, n, chain[..m]);
      ContributionLength(n, chain[m]);
      assert |chain| * ContributionBytes(n) == m * ContributionBytes(n) + ContributionBytes(n);
    }
  }

  /** ContributeQSDH's budget test is exact: the next contribution fits the chain limits exactly when
      the test passes. */
  lemma BudgetExact(g: Gnark, n: nat, chain: seq<seq<byte>>, next: seq<byte>)
    requires n >= 2 && ChainOk(g, n, chain)
    requires ContributionOk(n, next) && g.decodes(next) && g.follows(Last(chain), next)
    ensures ChainOk(g, n, chain + [next]) <==>
            |chain| < 64 && (|chain| + 1) * ContributionBytes(n) <= 67108864
  {
    var longer := chain + [next];
    assert longer[..|chain|] == chain;
    hide ContributionOk;
    LinkedTotal(g, n, longer);
  }

  /** Every prefix of an accepted chain is accepted. */
  lemma {:induction false} PrefixAccepted(g: Gnark, n: nat, chain: seq<seq<byte>>, i: nat)
    requires n >= 2 && ChainOk(g, n, chain) && i <= |chain|
    ensures ChainOk(g, n, chain[..i])
    decreases |chain|
  {
    hide ContributionOk;
    if i < |chain| {
      var m := |chain| - 1;
      PrefixAccepted(g, n, chain[..m], i);
      assert chain[..m][..i] == chain[..i];
    } else {
      assert chain[..i] == chain;
    }
  }
}
