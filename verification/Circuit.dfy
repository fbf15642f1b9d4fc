/** The connected relation of circuit.go next to the host computation of profile.go: seeds,
    challenge, statement construction, and the constraints a proof attests. */
module Circuit {
  import opened Common
  import opened Bytes
  import opened Field
  import opened Gadgets
  import opened Polynomial
  import opened Suites
  import opened Accumulator

  datatype Statement = Statement(
    v: int, nym: int, s: int, t: int,
    issue: Digest, ringDigest: Digest, messageDigest: Digest,
    timestamp: nat, k: nat, r: int)

  datatype SecretWitness = SecretWitness(x: int, d: int, account: Account, w: int, counter: nat)

  // --- seeds, pseudonym, tags -----------------------------------------------------------------

  function SeedPreimage(x: nat, issue: Digest, branch: byte): seq<byte> {
    Encode(x, 32) + issue + [branch]
  }

  function ChallengePreimage(s: Suite, st: Statement): seq<byte> {
    Ascii("lktrs/challenge/v1") + st.issue + st.ringDigest + st.messageDigest
    + s.BnBytes(st.nym) + Encode(st.timestamp, 8) + Encode(st.k, 4)
  }

  function RingPreimage(s: Suite, accounts: seq<Account>): seq<byte> {
    Ascii("lktrs/ring/v1") + Encode(|accounts|, 4) + PointBytes(s, accounts)
  }

  function PointBytes(s: Suite, accounts: seq<Account>): seq<byte> {
    if accounts == [] then []
    else
      var n := |accounts| - 1;
      PointBytes(s, accounts[..n]) + s.SecpBytes(accounts[n].u) + s.SecpBytes(accounts[n].y)
  }

  /** The digest that binds a signature to its ordered ring. */
  method RingDigest(s: Suite, accounts: seq<Account>) returns (res: Result<Digest>)
    requires s.Valid()
    ensures res.Ok? <==> RingOk(s, accounts)
    ensures res.Ok? ==> res.value == s.sha(RingPreimage(s, accounts))
  {
    hide RingOk, Ascii, Encode, Suite.Valid, Suite.SecpBytes;
    var members := MembersOf(s, accounts);
    if members.Err? { return Err; }
    var data := Ascii("lktrs/ring/v1") + Encode(|accounts|, 4);
    ghost var header := data;
    var i := 0;
    assert data == header + PointBytes(s, accounts[..0]);
    while i < |accounts|
      invariant 0 <= i <= |accounts|
      invariant data == header + PointBytes(s, accounts[..i])
    {
      assert accounts[..i + 1][..i] == accounts[..i];
      var u, y := s.SecpBytes(accounts[i].u), s.SecpBytes(accounts[i].y);
      assert header + (PointBytes(s, accounts[..i]) + u + y) == data + u + y;
      data := data + u;
      data := data + y;
      i := i + 1;
    }
    assert accounts[..i] == accounts;
    res := Ok(s.sha(data));
  }

  /** Both seed hashes of the canonical secret; an error if one reduces to zero. */
  function Seeds(s: Suite, x: int, issue: Digest): (res: Result<(int, int)>)
    ensures res.Ok? ==> 0 < res.value.0 < s.ell && 0 < res.value.1 < s.ell
  {
    if !s.SecpScalar(x) then Err
    else match (s.HashScalar(SeedPreimage(x, issue, 0), s.ell), s.HashScalar(SeedPreimage(x, issue, 1), s.ell))
      case (Ok(a), Ok(b)) => Ok((a, b))
      case _ => Err
  }

  /** The transcript hash that both T and tracing use. */
  function Challenge(s: Suite, st: Statement): (res: Result<int>)
    ensures res.Ok? ==> 0 < res.value < s.ell
  {
    if st.k == 0 || !s.GoodBN(st.nym) then Err else s.HashScalar(ChallengePreimage(s, st), s.ell)
  }

  /** The integer of a digest of the data modulo m. */
  function Reduced(s: Suite, data: seq<byte>, m: int): int
    requires m > 0
  {
    Value(s.sha(data)) % m
  }

  /** Seeds exist exactly for a canonical nonzero secret whose two hashes do not reduce to zero, and a
      challenge exactly for a nonzero quota and a proper pseudonym whose transcript does not. */
  lemma HashesExact(s: Suite, x: int, st: Statement)
    requires s.ell >= 2
    ensures Seeds(s, x, st.issue).Ok? <==>
            && 0 < x < s.ell && Reduced(s, SeedPreimage(x, st.issue, 0), s.ell) != 0
            && Reduced(s, SeedPreimage(x, st.issue, 1), s.ell) != 0
    ensures Seeds(s, x, st.issue).Ok? ==>
              Seeds(s, x, st.issue).value
              == (Reduced(s, SeedPreimage(x, st.issue, 0), s.ell), Reduced(s, SeedPreimage(x, st.issue, 1), s.ell))
    ensures Challenge(s, st).Ok? <==>
            st.k != 0 && 0 < st.nym < s.r && Reduced(s, ChallengePreimage(s, st), s.ell) != 0
    ensures Challenge(s, st).Ok? ==> Challenge(s, st).value == Reduced(s, ChallengePreimage(s, st), s.ell)
  {
    hide SeedPreimage, ChallengePreimage, Value;
  }

  /** [s]g0 + [t]g1 + [x]g2, each exponent reduced into the pairing group's order. */
  function Nym(s: Suite, seeds: (int, int), x: int): (n: int)
    requires s.r > 0
    ensures 0 <= n < s.r
  {
    Combine(s.r, s.nymBases, seeds.0 % s.r, seeds.1 % s.r, x % s.r)
  }

  function Combine(r: int, g: (int, int, int), a: int, b: int, c: int): (n: int)
    requires r > 0
    ensures 0 <= n < r
  {
    (a * g.0 + b * g.1 + c * g.2) % r
  }

  function Denominator(ell: int, seed: int, counter: int): int
    requires ell > 0
  {
    (seed + counter + 1) % ell
  }

  /** S = [1/(s + cnt + 1)]ut. */
  function Serial(ell: int, ut: int, seed: int, counter: int): int
    requires IsPrime(ell) && Denominator(ell, seed, counter) != 0
  {
    (ut * Inv(ell, seed + counter + 1)) % ell
  }

  /** T = [x]u + [R/(t + cnt + 1)]ut. */
  function TraceTag(ell: int, x: int, ut: int, challenge: int, seed: int, counter: int): int
    requires IsPrime(ell) && Denominator(ell, seed, counter) != 0
  {
    (x + ut * (challenge * Inv(ell, seed + counter + 1))) % ell
  }

  // --- the relation ---------------------------------------------------------------------------

  ghost predicate Canonical(s: Suite, p: Params, st: Statement, wit: SecretWitness) {
    && s.GoodSecp(s.issuePoint(st.issue)) && s.GoodSecp(st.s) && s.GoodSecp(st.t)
    && s.GoodSecp(wit.account.u) && s.GoodSecp(wit.account.y)
    && s.GoodBN(st.v) && s.GoodBN(wit.w) && s.GoodBN(st.nym)
    && s.GoodBN(p.h) && s.GoodBN(p.hTau)
    && s.SecpScalar(wit.x) && s.SecpScalar(wit.d) && s.SecpScalar(st.r)
  }

  /** Counter, quota and timestamp are field elements with bit decompositions. */
  ghost predicate Ranges(s: Suite, st: Statement, wit: SecretWitness)
    requires s.r > 0
  {
    && wit.counter < s.r && st.k < s.r && st.timestamp < s.r
    && Fits(s.r, wit.counter, 32) && Fits(s.r, st.k, 32) && st.k != 0
    && Fits(s.r, st.k - wit.counter - 1, 32)
    && Fits(s.r, st.timestamp, 64)
  }

  /** The two seed hashes over the packed bits of x. */
  function CircuitSeeds(s: Suite, x: nat, issue: Digest): (int, int)
    requires s.ell > 0
  {
    var message := FieldBytes(x) + issue;
    (SecpValue(s.ell, s.sha(message + [0])), SecpValue(s.ell, s.sha(message + [1])))
  }

  /** The packed bits of both coordinates of a point. */
  function PackedPoint(xy: (word, word)): seq<byte> {
    FieldBytes(xy.0) + FieldBytes(xy.1)
  }

  /** The member handle as a native field element. */
  function CircuitMember(s: Suite, a: Account): int
    requires s.r > 0
  {
    Horner(s.r, s.sha(Ascii("lktrs/member/v1") + PackedPoint(s.secpXY(a.u)) + PackedPoint(s.secpXY(a.y))))
  }

  /** The packed bytes of seeds and secret as native exponents, summed in the circuit's order. */
  function CircuitNym(s: Suite, seeds: (int, int), x: nat): int
    requires s.r > 0 && seeds.0 >= 0 && seeds.1 >= 0
  {
    var sbn, tbn, xbn := Horner(s.r, FieldBytes(seeds.0)), Horner(s.r, FieldBytes(seeds.1)), Horner(s.r, FieldBytes(x));
    CombineTwoFirst(s.r, s.nymBases, sbn, tbn, xbn)
  }

  function CombineTwoFirst(r: int, g: (int, int, int), a: int, b: int, c: int): int
    requires r > 0
  {
    AddThree(r, a * g.0, b * g.1, c * g.2)
  }

  /** The sum of three group elements, two first. */
  function AddThree(r: int, a: int, b: int, c: int): int
    requires r > 0
  {
    ((a % r + b % r) % r + c % r) % r
  }

  function CircuitTranscript(s: Suite, st: Statement): seq<byte> {
    Ascii("lktrs/challenge/v1") + st.issue + st.ringDigest + st.messageDigest
    + FieldBytes(s.bnXY(st.nym).0) + FieldBytes(s.bnXY(st.nym).1)
    + IntegerBytes(ToBits(st.timestamp, 64), 8) + IntegerBytes(ToBits(st.k, 32), 4)
  }

  /** Ownership, member hash and the pairing equation e([a]W - V, H) e(W, HTau) = 1. */
  ghost predicate Membership(s: Suite, p: Params, st: Statement, wit: SecretWitness)
    requires s.r > 0 && s.ell > 0
  {
    && wit.account.u == wit.d
    && wit.account.y == (wit.account.u * wit.x) % s.ell
    && var a := CircuitMember(s, wit.account);
    && a != 0
    && (((a * wit.w - st.v) % s.r) * p.h + wit.w * p.hTau) % s.r == 0
  }

  /** S and T, computed with emulated scalars from the bits of the counter. */
  ghost predicate TagEquations(ell: int, seeds: (int, int), x: int, ut: int, challenge: int, counter: nat, s: int, t: int)
    requires IsPrime(ell)
  {
    var cnt := FromBits(ToBits(counter, 32));
    Solved(ell, ((seeds.0 + cnt) % ell + 1) % ell, ((seeds.1 + cnt) % ell + 1) % ell, x, ut, challenge, s, t)
  }

  ghost predicate Solved(ell: int, denS: int, denT: int, x: int, ut: int, challenge: int, s: int, t: int)
    requires IsPrime(ell)
  {
    && denS % ell != 0 && denT % ell != 0
    && s == (ut * Inv(ell, denS)) % ell
    && t == (x + (ut * ((challenge * Inv(ell, denT)) % ell)) % ell) % ell
  }

  ghost predicate Tags(s: Suite, st: Statement, wit: SecretWitness)
    requires IsPrime(s.ell) && s.r > 0 && wit.x >= 0
  {
    var seeds := CircuitSeeds(s, wit.x, st.issue);
    && seeds.0 != 0 && seeds.1 != 0
    && st.nym == CircuitNym(s, seeds, wit.x)
    && st.r == SecpValue(s.ell, s.sha(CircuitTranscript(s, st)))
    && TagEquations(s.ell, seeds, wit.x, s.issuePoint(st.issue), st.r, wit.counter, st.s, st.t)
  }

  /** All constraints of the circuit: what a verifying proof attests for the public part. */
  ghost predicate Define(s: Suite, p: Params, st: Statement, wit: SecretWitness)
    requires s.Valid()
  {
    && Canonical(s, p, st, wit)
    && Ranges(s, st, wit)
    && Membership(s, p, st, wit)
    && Tags(s, st, wit)
  }

  // --- the same facts in the host's terms -------------------------------------------------------------

  ghost predicate HostRanges(st: Statement, wit: SecretWitness) {
    wit.counter < st.k < TWO32 && st.timestamp < TWO64
  }

  /** The account is the one NewAccount derives, and VerifyMembership accepts its handle. */
  ghost predicate HostMember(s: Suite, p: Params, st: Statement, wit: SecretWitness)
    requires s.Valid()
  {
    && s.NewAccount(wit.x, wit.d).Ok?
    && var own := s.NewAccount(wit.x, wit.d).value;
    && own.u == wit.account.u && own.y == wit.account.y
    && s.Member(own).Ok? && Verifies(s, p, st.v, wit.w, s.Member(own).value)
  }

  /** Pseudonym, challenge, S and T are those of the host's seeds. */
  ghost predicate HostTagged(s: Suite, st: Statement, wit: SecretWitness)
    requires s.Valid()
  {
    && Seeds(s, wit.x, st.issue).Ok?
    && var seeds, ut := Seeds(s, wit.x, st.issue).value, s.issuePoint(st.issue);
    && st.nym == Nym(s, seeds, wit.x) && Challenge(s, st) == Ok(st.r)
    && Denominator(s.ell, seeds.0, wit.counter) != 0 && Denominator(s.ell, seeds.1, wit.counter) != 0
    && st.s == Serial(s.ell, ut, seeds.0, wit.counter)
    && st.t == TraceTag(s.ell, wit.x, ut, st.r, seeds.1, wit.counter)
  }

  // --- host and circuit agree --------------------------------------------------------------------

  lemma RangesAgree(s: Suite, st: Statement, wit: SecretWitness)
    requires s.Valid()
    ensures Ranges(s, st, wit) <==> HostRanges(st, wit)
  {
    hide Fits, IsPrime;
    BitWidths();
    FitsSmall(s.r, wit.counter, 32);
    FitsSmall(s.r, st.k, 32);
    FitsSmall(s.r, st.timestamp, 64);
    if wit.counter < TWO32 && st.k < TWO32 { CounterRange(s.r, st.k, wit.counter); }
  }

  /** For a canonical field element the decomposition is a bound. */
  lemma FitsSmall(r: int, v: nat, n: nat)
    requires r >= Pow2(n)
    ensures v < r ==> (Fits(r, v, n) <==> v < Pow2(n))
  {
    hide Fits, Pow2;
    FitsMeaning(r, v, n);
    if v < r { SmallMod(r, v); }
  }

  /** The packed bits of x and the host's bytes of x hash to the same seeds. */
  lemma SeedsAgree(s: Suite, x: int, issue: Digest)
    requires s.Valid() && s.SecpScalar(x)
    ensures var seeds := CircuitSeeds(s, x, issue);
            Seeds(s, x, issue) == if seeds.0 != 0 && seeds.1 != 0 then Ok(seeds) else Err
    ensures 0 <= CircuitSeeds(s, x, issue).0 < s.ell && 0 <= CircuitSeeds(s, x, issue).1 < s.ell
  {
    FieldBytesIsEncode(x);
    hide FieldBytes, Encode, IsPrime, SecpValue, Suite.HashScalar;
    HashAgrees(s, SeedPreimage(x, issue, 0));
    HashAgrees(s, SeedPreimage(x, issue, 1));
  }

  /** Reducing the bits of a digest is the host's hash scalar, zero excepted. */
  lemma HashAgrees(s: Suite, data: seq<byte>)
    requires s.ell > 1
    ensures var c := SecpValue(s.ell, s.sha(data));
            0 <= c < s.ell && s.HashScalar(data, s.ell) == if c != 0 then Ok(c) else Err
  {
    hide BytesBits, FromBits, Value;
  }

  /** Packing nym, timestamp and quota gives the transcript the host hashes. */
  lemma ChallengeAgrees(s: Suite, st: Statement)
    requires s.Valid() && 0 < st.k < TWO32 && st.timestamp < TWO64 && s.GoodBN(st.nym)
    ensures CircuitTranscript(s, st) == ChallengePreimage(s, st)
    ensures var c := SecpValue(s.ell, s.sha(CircuitTranscript(s, st)));
            Challenge(s, st) == if c != 0 then Ok(c) else Err
  {
    TranscriptAgrees(s, st);
    hide CircuitTranscript, ChallengePreimage, IsPrime, SecpValue, Suite.HashScalar;
    HashAgrees(s, ChallengePreimage(s, st));
  }

  lemma TranscriptAgrees(s: Suite, st: Statement)
    requires st.k < TWO32 && st.timestamp < TWO64
    ensures CircuitTranscript(s, st) == ChallengePreimage(s, st)
  {
    BitWidths();
    FieldBytesIsEncode(s.bnXY(st.nym).0);
    FieldBytesIsEncode(s.bnXY(st.nym).1);
    BoundedBytes(st.timestamp, 64, 8);
    BoundedBytes(st.k, 32, 4);
    hide FieldBytes, IntegerBytes, ToBits, Encode, Ascii;
    var head := Ascii("lktrs/challenge/v1") + st.issue + st.ringDigest + st.messageDigest;
    Regroup(head, Encode(s.bnXY(st.nym).0, 32), Encode(s.bnXY(st.nym).1, 32));
  }

  /** Reducing the packed bytes in the field is reducing the integers. */
  lemma NymAgrees(s: Suite, seeds: (int, int), x: int)
    requires s.Valid() && 0 <= seeds.0 < s.ell && 0 <= seeds.1 < s.ell && 0 <= x < s.ell
    ensures CircuitNym(s, seeds, x) == Nym(s, seeds, x)
  {
    PackedExponent(s.r, seeds.0);
    PackedExponent(s.r, seeds.1);
    PackedExponent(s.r, x);
    hide FieldBytes, Horner, IsPrime, Combine, CombineTwoFirst;
    CombineAgrees(s.r, s.nymBases, seeds.0 % s.r, seeds.1 % s.r, x % s.r);
  }

  lemma PackedExponent(r: int, v: word)
    requires r > 0
    ensures Horner(r, FieldBytes(v)) == v % r
  {
    Widths();
    FieldBytesIsEncode(v);
    HornerIsValue(r, Encode(v, 32));
  }

  lemma CombineAgrees(r: int, g: (int, int, int), a: int, b: int, c: int)
    requires r > 0
    ensures CombineTwoFirst(r, g, a, b, c) == Combine(r, g, a, b, c)
  {
    hide AddThree;
    SumOfThree(r, a * g.0, b * g.1, c * g.2);
  }

  lemma SumOfThree(r: int, a: int, b: int, c: int)
    requires r > 0
    ensures AddThree(r, a, b, c) == (a + b + c) % r
  {
    ReducedSum(r, a, b);
    ReducedSum(r, a + b, c);
  }

  lemma ReducedSum(r: int, a: int, b: int)
    requires r > 0
    ensures (a % r + b % r) % r == (a + b) % r
  {
    ModIdempotent(r, a);
    ModIdempotent(r, b);
    CongAdd(r, a % r, a, b % r, b);
  }

  /** The emulated equations say S = [1/(s + cnt + 1)]ut and T = [x]u + [R/(t + cnt + 1)]ut. */
  lemma EquationsAgree(ell: int, seeds: (int, int), x: int, ut: int, c: int, counter: nat, s: int, t: int)
    requires IsPrime(ell) && counter < TWO32 && 0 < ut < ell
    ensures TagEquations(ell, seeds, x, ut, c, counter, s, t) <==>
            && Denominator(ell, seeds.0, counter) != 0 && Denominator(ell, seeds.1, counter) != 0
            && s == Serial(ell, ut, seeds.0, counter) && t == TraceTag(ell, x, ut, c, seeds.1, counter)
  {
    hide IsPrime, Serial, TraceTag, Solved, Denominator, ToBits, FromBits;
    BitWidths();
    EmulatedDenominator(ell, seeds.0, counter);
    EmulatedDenominator(ell, seeds.1, counter);
    SolvedMeans(ell, seeds, x, ut, c, counter, s, t);
  }

  lemma SolvedMeans(ell: int, seeds: (int, int), x: int, ut: int, c: int, counter: nat, s: int, t: int)
    requires IsPrime(ell) && 0 < ut < ell
    ensures Solved(ell, Denominator(ell, seeds.0, counter), Denominator(ell, seeds.1, counter), x, ut, c, s, t) <==>
            && Denominator(ell, seeds.0, counter) != 0 && Denominator(ell, seeds.1, counter) != 0
            && s == Serial(ell, ut, seeds.0, counter) && t == TraceTag(ell, x, ut, c, seeds.1, counter)
  {
    hide IsPrime, Serial, TraceTag;
    EmulatedDenominator(ell, seeds.0, counter);
    EmulatedDenominator(ell, seeds.1, counter);
    hide Denominator;
    if Denominator(ell, seeds.0, counter) != 0 && Denominator(ell, seeds.1, counter) != 0 {
      HostTags(ell, x, ut, c, seeds.0, seeds.1, counter);
    }
  }

  lemma EmulatedDenominator(ell: int, seed: int, counter: nat)
    requires ell > 1
    ensures ((seed + counter) % ell + 1) % ell == Denominator(ell, seed, counter) == Denominator(ell, seed, counter) % ell
  {
    ModIdempotent(ell, seed + counter);
    CongAdd(ell, (seed + counter) % ell, seed + counter, 1, 1);
    ModIdempotent(ell, seed + counter + 1);
  }

  lemma TagsAgree(s: Suite, st: Statement, wit: SecretWitness)
    requires s.Valid() && s.SecpScalar(wit.x) && s.GoodBN(st.nym) && s.GoodSecp(s.issuePoint(st.issue))
    requires s.SecpScalar(st.r) && HostRanges(st, wit)
    ensures Tags(s, st, wit) <==> HostTagged(s, st, wit)
  {
    hide IsPrime, Seeds, Challenge, CircuitSeeds, CircuitNym, CircuitTranscript, SecpValue, Nym, Serial, TraceTag,
         TagEquations, Denominator;
    SeedsAgree(s, wit.x, st.issue);
    ChallengeAgrees(s, st);
    var seeds := CircuitSeeds(s, wit.x, st.issue);
    NymAgrees(s, seeds, wit.x);
    EquationsAgree(s.ell, seeds, wit.x, s.issuePoint(st.issue), st.r, wit.counter, st.s, st.t);
  }

  /** The regrouped pairing product says the same as VerifyMembership's. */
  lemma MembershipRegrouped(r: int, a: int, w: int, v: int, tau: int)
    requires r > 0 && 0 <= v < r
    ensures (((a * w - v) % r) * 1 + w * tau) % r == 0 <==> (w * (a + tau)) % r == v
  {
    ModIdempotent(r, a * w - v);
    CongAdd(r, (a * w - v) % r, a * w - v, w * tau, w * tau);
    assert a * w - v + w * tau == w * (a + tau) - v by {
      assert w * (a + tau) == w * a + w * tau;
      Commute(a, w);
    }
    DifferenceZero(r, w * (a + tau), v);
    SmallMod(r, v);
  }

  /** The packed coordinates, hashed and evaluated natively, give the host's handle. */
  lemma MemberAgrees(s: Suite, a: Account)
    requires s.Valid() && s.ValidAccount(a)
    ensures var m := CircuitMember(s, a); s.Member(a) == if m != 0 then Ok(m) else Err
  {
    FieldBytesIsEncode(s.secpXY(a.u).0);
    FieldBytesIsEncode(s.secpXY(a.u).1);
    FieldBytesIsEncode(s.secpXY(a.y).0);
    FieldBytesIsEncode(s.secpXY(a.y).1);
    HornerIsValue(s.r, s.sha(s.MemberPreimage(a)));
    hide FieldBytes, Encode, Value, Horner, IsPrime, Ascii;
    assert PackedPoint(s.secpXY(a.u)) == s.SecpBytes(a.u) && PackedPoint(s.secpXY(a.y)) == s.SecpBytes(a.y);
  }

  lemma MembershipAgrees(s: Suite, p: Params, st: Statement, wit: SecretWitness)
    requires s.Valid() && ParamsOk(s.r, p) && Canonical(s, p, st, wit)
    ensures Membership(s, p, st, wit) <==> HostMember(s, p, st, wit)
  {
    hide IsPrime, CircuitMember, Suite.Member, Suite.MemberPreimage;
    s.NewAccountSucceeds(wit.x, wit.d);
    var own := s.NewAccount(wit.x, wit.d).value;
    SameHandle(s, own, wit.account);
    MemberAgrees(s, own);
    var a := CircuitMember(s, own);
    MembershipRegrouped(s.r, a, wit.w, st.v, p.hTau);
    if (wit.w * (a + p.hTau)) % s.r == st.v { NonzeroFactor(s.r, wit.w, a + p.hTau, st.v); }
  }

  /** The handle does not depend on the published exponent. */
  lemma SameHandle(s: Suite, a: Account, b: Account)
    requires s.r > 0
    ensures a.u == b.u && a.y == b.y ==> CircuitMember(s, a) == CircuitMember(s, b)
  {
  }

  /** The circuit relation is, fact for fact, what the host computes and checks: the counter is below
      the quota, the account and its membership are real, and pseudonym, challenge, S and T are those
      of the secret. */
  lemma CircuitIsHost(s: Suite, p: Params, st: Statement, wit: SecretWitness)
    requires s.Valid() && ParamsOk(s.r, p)
    ensures Define(s, p, st, wit) <==>
            && Canonical(s, p, st, wit) && HostRanges(st, wit)
            && HostMember(s, p, st, wit) && HostTagged(s, st, wit)
  {
    hide IsPrime, Membership, HostMember, Tags, HostTagged, Ranges, HostRanges, ParamsOk;
    RangesAgree(s, st, wit);
    if Canonical(s, p, st, wit) {
      MembershipAgrees(s, p, st, wit);
      if HostRanges(st, wit) { TagsAgree(s, st, wit); }
    }
  }

  /** The part of it that does not need the parameters. */
  lemma DefineMeans(s: Suite, p: Params, st: Statement, wit: SecretWitness)
    requires s.Valid() && Define(s, p, st, wit)
    ensures HostRanges(st, wit) && HostTagged(s, st, wit) && s.SecpScalar(wit.x) && s.SecpScalar(st.r)
  {
    hide IsPrime, Membership, Tags, HostTagged, Ranges, HostRanges;
    RangesAgree(s, st, wit);
    TagsAgree(s, st, wit);
  }

  lemma NonzeroFactor(r: int, w: int, f: int, v: int)
    requires IsPrime(r) && 0 < v < r && (w * f) % r == v
    ensures f % r != 0
  {
    NoZeroDivisors(r, w, f);
  }

  // --- building a statement ---------------------------------------------------------------------

  /** The selected index holds the account of secret x with exponent d. */
  predicate OwnsSelected(s: Suite, accounts: seq<Account>, selected: int, x: int, d: int)
    requires s.ell > 0
  {
    && 0 <= selected < |accounts|
    && s.NewAccount(x, d).Ok?
    && s.NewAccount(x, d).value.u == accounts[selected].u
    && s.NewAccount(x, d).value.y == accounts[selected].y
    && (accounts[selected].d.Some? ==> accounts[selected].d.value == d)
  }

  /** The public statement, as far as the challenge hash sees it. */
  function Draft(s: Suite, p: Params, accounts: seq<Account>, x: int, seeds: (int, int), issue: Digest,
                 message: Digest, timestamp: nat, k: nat): Statement
    requires s.r > 1
  {
    var v := match AccumulatorOf(s, p, accounts) case Ok(v) => v case Err => 0;
    Statement(v, Nym(s, seeds, x), 0, 0, issue, s.sha(RingPreimage(s, accounts)), message, timestamp, k, 0)
  }

  /** Exactly the inputs from which a statement can be built. */
  ghost predicate Signable(s: Suite, p: Params, accounts: seq<Account>, selected: int, x: int, d: int, issue: Digest,
                           message: Digest, timestamp: nat, k: nat, counter: nat)
    requires s.Valid()
  {
    && 0 < k && counter < k
    && OwnsSelected(s, accounts, selected, x, d)
    && AccumulatorOf(s, p, accounts).Ok?
    && Seeds(s, x, issue).Ok?
    && var seeds := Seeds(s, x, issue).value;
    && var c := Challenge(s, Draft(s, p, accounts, x, seeds, issue, message, timestamp, k));
    && c.Ok?
    && s.GoodSecp(s.issuePoint(issue))
    && Denominator(s.ell, seeds.0, counter) != 0
    && Denominator(s.ell, seeds.1, counter) != 0
    && TraceTag(s.ell, x, s.issuePoint(issue), c.value, seeds.1, counter) != 0
  }

  method NymLoop(s: Suite, seeds: (int, int), x: int) returns (nym: int)
    requires s.Valid()
    ensures nym == Nym(s, seeds, x)
  {
    var exponents := [seeds.0, seeds.1, x];
    var bases := [s.nymBases.0, s.nymBases.1, s.nymBases.2];
    nym := 0;
    var i := 0;
    ghost var sum := 0;
    while i < 3
      invariant 0 <= i <= 3 && 0 <= nym < s.r
      invariant Cong(s.r, nym, sum)
      invariant i == 0 ==> sum == 0
      invariant i >= 1 ==> sum == (seeds.0 % s.r) * s.nymBases.0
                                  + (if i >= 2 then (seeds.1 % s.r) * s.nymBases.1 else 0)
                                  + (if i >= 3 then (x % s.r) * s.nymBases.2 else 0)
    {
      var residue := exponents[i] % s.r;
      var term := (bases[i] * residue) % s.r;
      Commute(bases[i], residue);
      ModIdempotent(s.r, residue * bases[i]);
      CongAdd(s.r, nym, sum, term, residue * bases[i]);
      ModIdempotent(s.r, nym + term);
      nym := (nym + term) % s.r;
      sum := sum + residue * bases[i];
      i := i + 1;
    }
    SmallMod(s.r, nym);
  }

  /** Builds statement and witness; it succeeds exactly on the signable inputs, and what it
      returns satisfies every constraint of the circuit. */
  method MakeStatement(s: Suite, p: Params, accounts: seq<Account>, selected: int, x: int, d: int, issue: Digest,
                       message: Digest, timestamp: nat, k: nat, counter: nat)
    returns (res: Result<(Statement, SecretWitness)>)
    requires s.Valid() && timestamp < TWO64 && k < TWO32 && counter < TWO32
    ensures res.Ok? <==> Signable(s, p, accounts, selected, x, d, issue, message, timestamp, k, counter)
    ensures res.Ok? ==>
              var (st, wit) := res.value;
              && Define(s, p, st, wit)
              && wit.x == x && wit.d == d && wit.counter == counter
              && st == Draft(s, p, accounts, x, Seeds(s, x, issue).value, issue, message, timestamp, k)
                       .(s := st.s, t := st.t, r := st.r)
              && st.issue == issue && st.messageDigest == message && st.timestamp == timestamp && st.k == k
              && st.ringDigest == s.sha(RingPreimage(s, accounts)) && AccumulatorOf(s, p, accounts) == Ok(st.v)
  {
    hide Nym, ChallengePreimage, RingPreimage, IsPrime, Define, Serial, TraceTag, Suite.HashScalar, WitnessOf,
         ParamsOk, RingValue, Verifies, Suite.SecpBytes, Suite.BnBytes;
    if k == 0 || counter >= k { return Err; }
    if selected < 0 || selected >= |accounts| { return Err; }
    var own := s.NewAccount(x, d);
    if own.Err? { return Err; }
    if own.value.u != accounts[selected].u || own.value.y != accounts[selected].y { return Err; }
    if accounts[selected].d.Some? && accounts[selected].d.value != d { return Err; }
    var v := Accumulate(s, p, accounts);
    if v.Err? { return Err; }
    WitnessComplete(s, p, accounts, selected);
    var w := MembershipWitness(s, p, accounts, selected);
    if w.Err? { return Err; }
    var ring := RingDigest(s, accounts);
    if ring.Err? { return Err; }
    var seeds := Seeds(s, x, issue);
    if seeds.Err? { return Err; }
    var nym := NymLoop(s, seeds.value, x);
    if !s.GoodBN(nym) { return Err; }
    var st := Statement(v.value, nym, 0, 0, issue, ring.value, message, timestamp, k, 0);
    var challenge := Challenge(s, st);
    if challenge.Err? { return Err; }
    var ut := s.issuePoint(issue);
    if !s.GoodSecp(ut) { return Err; }
    var ds := (seeds.value.0 + (counter + 1)) % s.ell;
    var dt := (seeds.value.1 + (counter + 1)) % s.ell;
    if ds == 0 || dt == 0 { return Err; }
    assert seeds.value.0 + (counter + 1) == seeds.value.0 + counter + 1;
    assert seeds.value.1 + (counter + 1) == seeds.value.1 + counter + 1;
    HostTags(s.ell, x, ut, challenge.value, seeds.value.0, seeds.value.1, counter);
    var serial := (ut * Inv(s.ell, ds)) % s.ell;
    var exponent := (challenge.value * Inv(s.ell, dt)) % s.ell;
    var rt := (ut * exponent) % s.ell;
    var tag := (x + rt) % s.ell;
    if !s.GoodSecp(serial) || !s.GoodSecp(tag) { return Err; }
    var st' := st.(s := serial, t := tag, r := challenge.value);
    var wit := SecretWitness(x, d, own.value, w.value, counter);
    HostSatisfiesCircuit(s, p, accounts, selected, st, st', wit, seeds.value);
    res := Ok((st', wit));
  }

  /** The host's stepwise reductions give S and T, and S is never the identity. */
  lemma HostTags(ell: int, x: int, ut: int, c: int, s: int, t: int, counter: nat)
    requires IsPrime(ell) && 0 < ut < ell
    requires Denominator(ell, s, counter) != 0 && Denominator(ell, t, counter) != 0
    ensures Denominator(ell, s, counter) % ell != 0 && Denominator(ell, t, counter) % ell != 0
    ensures (ut * Inv(ell, Denominator(ell, s, counter))) % ell == Serial(ell, ut, s, counter)
    ensures 0 < Serial(ell, ut, s, counter) < ell
    ensures (x + (ut * ((c * Inv(ell, Denominator(ell, t, counter))) % ell)) % ell) % ell
            == TraceTag(ell, x, ut, c, t, counter)
  {
    InvOfResidue(ell, s + counter + 1);
    InvOfResidue(ell, t + counter + 1);
    var i, j := Inv(ell, s + counter + 1), Inv(ell, t + counter + 1);
    SmallMod(ell, ut);
    SmallMod(ell, i);
    NoZeroDivisors(ell, ut, i);
    ModMul(ell, c * j, ut);
    ModIdempotent(ell, ut * ((c * j) % ell));
    CongAdd(ell, x, x, (ut * ((c * j) % ell)) % ell, ut * (c * j));
  }

  lemma InvOfResidue(q: int, a: int)
    requires IsPrime(q) && a % q != 0
    ensures (a % q) % q != 0 && Inv(q, a % q) == Inv(q, a)
  {
    ModIdempotent(q, a);
  }

  lemma HostSatisfiesCircuit(s: Suite, p: Params, accounts: seq<Account>, selected: nat,
                             draft: Statement, st: Statement, wit: SecretWitness, seeds: (int, int))
    requires s.Valid() && selected < |accounts| && AccumulatorOf(s, p, accounts) == Ok(st.v)
    requires OwnsSelected(s, accounts, selected, wit.x, wit.d) && wit.account == s.NewAccount(wit.x, wit.d).value
    requires WitnessOf(s, p, accounts, selected) == Ok(wit.w)
    requires Seeds(s, wit.x, st.issue) == Ok(seeds)
    requires HostRanges(st, wit) && s.GoodBN(st.nym) && st.nym == Nym(s, seeds, wit.x)
    requires draft == st.(s := 0, t := 0, r := 0) && Challenge(s, draft) == Ok(st.r)
    requires s.GoodSecp(s.issuePoint(st.issue)) && s.GoodSecp(st.s) && s.GoodSecp(st.t)
    requires Denominator(s.ell, seeds.0, wit.counter) != 0 && Denominator(s.ell, seeds.1, wit.counter) != 0
    requires st.s == Serial(s.ell, s.issuePoint(st.issue), seeds.0, wit.counter)
    requires st.t == TraceTag(s.ell, wit.x, s.issuePoint(st.issue), st.r, seeds.1, wit.counter)
    ensures Define(s, p, st, wit)
  {
    hide IsPrime, Serial, TraceTag, HostMember, Define, WitnessOf, AccumulatorOf, Nym, Suite.NewAccount, Suite.Member;
    HostMembership(s, p, accounts, selected, st, wit);
    s.NewAccountSucceeds(wit.x, wit.d);
    assert s.ValidAccount(wit.account);
    assert ChallengePreimage(s, draft) == ChallengePreimage(s, st);
    CircuitIsHost(s, p, st, wit);
  }

  lemma HostMembership(s: Suite, p: Params, accounts: seq<Account>, selected: nat, st: Statement, wit: SecretWitness)
    requires s.Valid() && selected < |accounts| && AccumulatorOf(s, p, accounts) == Ok(st.v)
    requires OwnsSelected(s, accounts, selected, wit.x, wit.d) && wit.account == s.NewAccount(wit.x, wit.d).value
    requires WitnessOf(s, p, accounts, selected) == Ok(wit.w)
    ensures ParamsOk(s.r, p) && HostMember(s, p, st, wit)
    ensures s.GoodBN(st.v) && s.GoodBN(wit.w) && s.GoodBN(p.h) && s.GoodBN(p.hTau)
  {
    hide IsPrime, Prod;
    WitnessComplete(s, p, accounts, selected);
    ValueOfRing(s, p, accounts);
    s.NewAccountSucceeds(wit.x, wit.d);
    var a := accounts[selected];
    assert s.Member(a).Ok?;
    assert s.MemberPreimage(a) == s.MemberPreimage(wit.account);
  }
}
