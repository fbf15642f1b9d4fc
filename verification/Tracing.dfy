/** Verification contexts, Link and Trace, and the k-traceability they give. */
module Tracing {
  import opened Sequences
  import opened Common
  import opened Bytes
  import opened Field
  import opened Suites
  import opened Accumulator
  import opened Registries
  import opened Circuit

  datatype Context = Context(params: Params, accounts: seq<Account>, issue: Digest, k: nat)

  datatype TraceResult = Legal | Replay | Invalid | Traced(userId: string, key: int)

  // --- verification -----------------------------------------------------------------------

  /** NewVerificationContext accepts: a positive quota, good parameters, a signing ring. */
  predicate ContextOk(s: Suite, ctx: Context)
    requires s.r > 1
  {
    ctx.k > 0 && AccumulatorOf(s, ctx.params, ctx.accounts).Ok? && RingOk(s, ctx.accounts)
  }

  /** VerificationContext.check: the public fields belong to the expected ring, issue, quota
      and message, and the challenge is the transcript's. */
  predicate Check(s: Suite, ctx: Context, message: seq<byte>, st: Statement)
    requires s.r > 1
  {
    && st.issue == ctx.issue && st.k == ctx.k
    && st.messageDigest == s.sha(message)
    && st.ringDigest == s.sha(RingPreimage(s, ctx.accounts))
    && AccumulatorOf(s, ctx.params, ctx.accounts) == Ok(st.v)
    && s.GoodBN(st.nym) && s.GoodSecp(st.s) && s.GoodSecp(st.t)
    && s.SecpScalar(st.r)
    && Challenge(s, st) == Ok(st.r)
  }

  /** A verifying signature: the check passes and the proven relation has a witness. */
  ghost predicate Verified(s: Suite, ctx: Context, message: seq<byte>, st: Statement)
    requires s.Valid()
  {
    Check(s, ctx, message, st) && exists wit :: Define(s, ctx.params, st, wit)
  }

  /** The statement a verifier would write itself: its own ring, issue, quota and message, the
      challenge over all of them, and the signer's points and timestamp. */
  function Expected(s: Suite, ctx: Context, message: seq<byte>, nym: int, serial: int, tag: int, timestamp: nat): Result<Statement>
    requires s.r > 1
  {
    match AccumulatorOf(s, ctx.params, ctx.accounts)
    case Err => Err
    case Ok(v) =>
      var st := Statement(v, nym, serial, tag, ctx.issue, s.sha(RingPreimage(s, ctx.accounts)), s.sha(message),
                          timestamp, ctx.k, 0);
      match Challenge(s, st) case Ok(c) => Ok(st.(r := c)) case Err => Err
  }

  /** The check passes exactly for proper points in exactly that statement, so nothing in it can be
      exchanged for another context or message. */
  lemma CheckMeans(s: Suite, ctx: Context, message: seq<byte>, st: Statement)
    requires s.r > 1
    ensures Check(s, ctx, message, st) <==>
            && 0 < st.nym < s.r && 0 < st.s < s.ell && 0 < st.t < s.ell
            && Expected(s, ctx, message, st.nym, st.s, st.t, st.timestamp) == Ok(st)
  {
    hide RingPreimage, AccumulatorOf;
    match AccumulatorOf(s, ctx.params, ctx.accounts)
    case Err =>
    case Ok(v) =>
      var draft := Statement(v, st.nym, st.s, st.t, ctx.issue, s.sha(RingPreimage(s, ctx.accounts)), s.sha(message),
                             st.timestamp, ctx.k, 0);
      if st.issue == ctx.issue && st.k == ctx.k && st.messageDigest == draft.messageDigest && st.ringDigest == draft.ringDigest {
        assert ChallengePreimage(s, draft) == ChallengePreimage(s, st);
      }
  }

  /** The two contexts and messages bind the same public values. */
  ghost predicate SameContext(s: Suite, a: Context, ma: seq<byte>, b: Context, mb: seq<byte>)
    requires s.Valid()
  {
    && a.issue == b.issue && a.k == b.k && s.sha(ma) == s.sha(mb)
    && s.sha(RingPreimage(s, a.accounts)) == s.sha(RingPreimage(s, b.accounts))
    && AccumulatorOf(s, a.params, a.accounts) == AccumulatorOf(s, b.params, b.accounts)
  }

  /** What MakeStatement builds for a context and message. */
  ghost predicate BuiltFor(s: Suite, ctx: Context, message: seq<byte>, st: Statement, wit: SecretWitness, x: int, timestamp: nat)
    requires s.Valid()
  {
    && ContextOk(s, ctx) && Seeds(s, x, ctx.issue).Ok? && Define(s, ctx.params, st, wit)
    && st == Draft(s, ctx.params, ctx.accounts, x, Seeds(s, x, ctx.issue).value, ctx.issue,
                   s.sha(message), timestamp, ctx.k).(s := st.s, t := st.t, r := st.r)
  }

  /** Under parameters p the signer's handle does not cancel the trapdoor, so it has a witness. */
  ghost predicate HandleFits(s: Suite, p: Params, wit: SecretWitness)
    requires s.Valid()
  {
    (CircuitMember(s, wit.account) + p.hTau) % s.r != 0
  }

  /** A built statement passes the check of a context with a message exactly when that binds the same
      issue, quota, message digest, ring digest and accumulator. With the same parameters it then also
      verifies; with others, whenever they give the signer's handle a witness. */
  lemma SignedVerifies(s: Suite, ctx: Context, message: seq<byte>, st: Statement, wit: SecretWitness,
                       x: int, timestamp: nat, ctx': Context, message': seq<byte>)
    requires s.Valid() && BuiltFor(s, ctx, message, st, wit, x, timestamp)
    ensures Check(s, ctx', message', st) <==> SameContext(s, ctx, message, ctx', message')
    ensures Verified(s, ctx', message', st) ==> SameContext(s, ctx, message, ctx', message')
    ensures ctx'.params == ctx.params || HandleFits(s, ctx'.params, wit) ==>
              (Verified(s, ctx', message', st) <==> SameContext(s, ctx, message, ctx', message'))
  {
    hide *;
    BuiltChecks(s, ctx, message, st, wit, x, timestamp, ctx', message');
    if SameContext(s, ctx, message, ctx', message') && HandleFits(s, ctx'.params, wit) {
      OtherParams(s, ctx.params, ctx'.params, st, wit);
    }
    VerifiedMeans(s, ctx', message', st);
  }

  lemma VerifiedMeans(s: Suite, ctx: Context, message: seq<byte>, st: Statement)
    requires s.Valid()
    ensures Verified(s, ctx, message, st) ==> Check(s, ctx, message, st)
    ensures Check(s, ctx, message, st) && (exists w :: Define(s, ctx.params, st, w)) ==> Verified(s, ctx, message, st)
  {
    hide IsPrime, Define, Check;
  }

  lemma BuiltChecks(s: Suite, ctx: Context, message: seq<byte>, st: Statement, wit: SecretWitness,
                    x: int, timestamp: nat, ctx': Context, message': seq<byte>)
    requires s.Valid() && BuiltFor(s, ctx, message, st, wit, x, timestamp)
    ensures Define(s, ctx.params, st, wit) && ParamsOk(s.r, ctx.params)
    ensures Check(s, ctx', message', st) <==> SameContext(s, ctx, message, ctx', message')
    ensures SameContext(s, ctx, message, ctx', message') ==> ParamsOk(s.r, ctx'.params)
  {
    ContextParams(s, ctx);
    AccumulatorParams(s, ctx'.params, ctx'.accounts);
    hide IsPrime, RingPreimage, Nym, RingOk, Define, AccumulatorOf, Challenge, Seeds, Serial, TraceTag, Denominator, ParamsOk;
    DefineMeans(s, ctx.params, st, wit);
    DefinePoints(s, ctx.params, st, wit);
  }

  lemma ContextParams(s: Suite, ctx: Context)
    requires s.Valid() && ContextOk(s, ctx)
    ensures ParamsOk(s.r, ctx.params) && AccumulatorOf(s, ctx.params, ctx.accounts).Ok?
  {
    hide IsPrime;
  }

  lemma AccumulatorParams(s: Suite, p: Params, accounts: seq<Account>)
    requires s.Valid()
    ensures AccumulatorOf(s, p, accounts).Ok? ==> ParamsOk(s.r, p)
  {
    hide IsPrime, ParamsOk, RingOk;
  }

  lemma DefinePoints(s: Suite, p: Params, st: Statement, wit: SecretWitness)
    requires s.Valid() && Define(s, p, st, wit)
    ensures s.GoodBN(st.v) && s.GoodBN(st.nym) && s.GoodSecp(st.s) && s.GoodSecp(st.t)
  {
    hide IsPrime, Membership, Tags, Ranges;
  }

  /** The same statement has a witness under other parameters that do not cancel its handle. */
  lemma OtherParams(s: Suite, p: Params, p': Params, st: Statement, wit: SecretWitness)
    requires s.Valid() && ParamsOk(s.r, p) && ParamsOk(s.r, p') && Define(s, p, st, wit)
    requires HandleFits(s, p', wit)
    ensures exists w :: Define(s, p', st, w)
  {
    hide IsPrime, Define, CircuitMember, Suite.Member, Suite.NewAccount, Seeds, Challenge, Nym, Serial, TraceTag, Denominator;
    CircuitIsHost(s, p, st, wit);
    var own := s.NewAccount(wit.x, wit.d).value;
    MemberAgrees(s, own);
    SameHandle(s, own, wit.account);
    var a := s.Member(own).value;
    var w := (st.v * Inv(s.r, a + p'.hTau)) % s.r;
    WitnessUnique(s, p', st.v, w, a);
    var wit' := wit.(w := w);
    CircuitIsHost(s, p', st, wit');
    assert Define(s, p', st, wit');
  }

  // --- tracing -----------------------------------------------------------------------------

  /** ([R2]T1 - [R1]T2) / (R2 - R1). */
  function Extract(s: Suite, x: Statement, y: Statement): int
    requires IsPrime(s.ell) && (y.r - x.r) % s.ell != 0
  {
    (((x.t * y.r) % s.ell - (y.t * x.r) % s.ell) * Inv(s.ell, (y.r - x.r) % s.ell)) % s.ell
  }

  /** The comparison that Trace performs once both signatures verified. */
  ghost function Compare(s: Suite, x: Statement, y: Statement, entries: seq<Registration>): TraceResult
    requires s.Valid()
  {
    if x.s != y.s then Legal
    else if (y.r - x.r) % s.ell == 0 then
      if x.t == y.t then Replay else Invalid
    else
      var ux := Extract(s, x, y);
      match ResolveOf(s, entries, ux)
      case Ok(user) => Traced(user, ux)
      case Err => Invalid
  }

  ghost function Trace(s: Suite, a: Context, ma: seq<byte>, x: Statement,
                       b: Context, mb: seq<byte>, y: Statement, entries: seq<Registration>): TraceResult
    requires s.Valid()
  {
    if !Verified(s, a, ma, x) || !Verified(s, b, mb, y) then Invalid
    else if a.issue != b.issue || a.k != b.k || x.nym != y.nym then Invalid
    else Compare(s, x, y, entries)
  }

  ghost function Link(s: Suite, a: Context, ma: seq<byte>, x: Statement,
                      b: Context, mb: seq<byte>, y: Statement): Result<bool>
    requires s.Valid()
  {
    if !Verified(s, a, ma, x) || !Verified(s, b, mb, y) then Err
    else Ok(a.issue == b.issue && x.nym == y.nym)
  }

  /** The pseudonym of a secret for an issue, if its seeds exist. */
  function PseudonymOf(s: Suite, x: int, issue: Digest): Result<int>
    requires s.r > 0
  {
    match Seeds(s, x, issue) case Ok(seeds) => Ok(Nym(s, seeds, x)) case Err => Err
  }

  /** Link answers at all exactly when both signatures verify, and then yes exactly when the issues
      agree and the secrets behind the two proofs have one pseudonym for it. */
  lemma LinkExact(s: Suite, a: Context, ma: seq<byte>, st1: Statement, w1: SecretWitness,
                  b: Context, mb: seq<byte>, st2: Statement, w2: SecretWitness)
    requires s.Valid()
    ensures Link(s, a, ma, st1, b, mb, st2).Err? <==> !Verified(s, a, ma, st1) || !Verified(s, b, mb, st2)
    ensures Link(s, a, ma, st1, b, mb, st2).Ok? && Define(s, a.params, st1, w1) && Define(s, b.params, st2, w2) ==>
              (Link(s, a, ma, st1, b, mb, st2).value <==>
               a.issue == b.issue && PseudonymOf(s, w1.x, a.issue) == PseudonymOf(s, w2.x, b.issue))
  {
    hide IsPrime, Define, Seeds, Challenge, Nym, Serial, TraceTag, Denominator;
    if Define(s, a.params, st1, w1) { DefineMeans(s, a.params, st1, w1); }
    if Define(s, b.params, st2, w2) { DefineMeans(s, b.params, st2, w2); }
  }

  /** Trace says something only about linked signatures of one quota: legal exactly when the serials
      differ, a replay exactly when serial, challenge and tag agree, and a user with a key exactly when
      the serials agree, the challenges differ, the two tags determine that key, and the user is
      registered for it. */
  lemma TraceExact(s: Suite, a: Context, ma: seq<byte>, x: Statement, b: Context, mb: seq<byte>, y: Statement,
                   entries: seq<Registration>, user: string, key: int)
    requires s.Valid() && RegistryOk(s, entries)
    ensures var res := Trace(s, a, ma, x, b, mb, y, entries);
            var comparable := Link(s, a, ma, x, b, mb, y) == Ok(true) && x.k == y.k;
            && (res == Legal <==> comparable && x.s != y.s)
            && (res == Replay <==> comparable && x.s == y.s && x.r == y.r && x.t == y.t)
            && (res == Traced(user, key) <==>
                  && comparable && x.s == y.s && x.r != y.r
                  && 0 < key < s.ell && Cong(s.ell, key * (y.r - x.r), x.t * y.r - y.t * x.r)
                  && RegisteredFor(s, entries, user, key))
  {
    hide IsPrime, Define, RegistryOk, RingPreimage, AccumulatorOf, Challenge, ResolveOf, RegisteredFor;
    if Verified(s, a, ma, x) && Verified(s, b, mb, y) {
      DifferenceZero(s.ell, y.r, x.r);
      SmallMod(s.ell, x.r);
      SmallMod(s.ell, y.r);
      assert x.k == a.k && y.k == b.k;
      if x.r != y.r {
        ExtractMeans(s, x, y);
        ExtractUnique(s, x, y, key);
        var ux := Extract(s, x, y);
        ResolvedKey(s, entries, ux);
        if s.GoodSecp(ux) { ResolvesRegistered(s, entries, ux, user); }
      }
    }
  }

  lemma ResolvesRegistered(s: Suite, entries: seq<Registration>, ux: int, user: string)
    requires s.Valid() && RegistryOk(s, entries) && s.GoodSecp(ux)
    ensures ResolveOf(s, entries, ux) == Ok(user) <==> RegisteredFor(s, entries, user, ux)
  {
    hide IsPrime, RegistryOk, ResolveOf, KeyOf;
    ResolveMeaning(s, entries, ux, user);
  }

  /** Only the extracted key solves the equation of the two tags. */
  lemma ExtractUnique(s: Suite, x: Statement, y: Statement, key: int)
    requires s.Valid() && (y.r - x.r) % s.ell != 0
    ensures 0 <= key < s.ell ==>
              (Cong(s.ell, key * (y.r - x.r), x.t * y.r - y.t * x.r) <==> key == Extract(s, x, y))
  {
    ExtractMeans(s, x, y);
    hide IsPrime;
    var d, ux := y.r - x.r, Extract(s, x, y);
    if 0 <= key < s.ell && Cong(s.ell, key * d, ux * d) {
      Commute(key, d);
      Commute(ux, d);
      Cancel(s.ell, d, key, ux);
      SmallMod(s.ell, key);
      SmallMod(s.ell, ux);
    }
  }

  /** Resolving needs a proper point. */
  lemma ResolvedKey(s: Suite, entries: seq<Registration>, ux: int)
    requires s.Valid()
    ensures ResolveOf(s, entries, ux).Ok? ==> s.GoodSecp(ux)
  {
  }

  /** What extraction computes, for any two tags. */
  lemma ExtractMeans(s: Suite, x: Statement, y: Statement)
    requires s.Valid() && (y.r - x.r) % s.ell != 0
    ensures Cong(s.ell, Extract(s, x, y) * (y.r - x.r), x.t * y.r - y.t * x.r)
  {
    hide IsPrime;
    var d := y.r - x.r;
    InvOfResidue(s.ell, d);
    var i := Inv(s.ell, d);
    var n := (x.t * y.r) % s.ell - (y.t * x.r) % s.ell;
    ModIdempotent(s.ell, x.t * y.r);
    ModIdempotent(s.ell, y.t * x.r);
    CongSub(s.ell, (x.t * y.r) % s.ell, x.t * y.r, (y.t * x.r) % s.ell, y.t * x.r);
    ModMul(s.ell, n * i, d);
    Commute(n * i, d);
    Assoc(d, n, i);
    UndoInverse(s.ell, d, i, n);
    Commute((n * i) % s.ell, d);
  }

  // --- algebra -----------------------------------------------------------------------------

  /** Serials of different counters differ. */
  lemma SerialInjective(ell: int, ut: int, seed: int, c1: int, c2: int)
    requires IsPrime(ell) && 0 < ut < ell && -ell < c1 - c2 < ell
    requires Denominator(ell, seed, c1) != 0 && Denominator(ell, seed, c2) != 0
    ensures Serial(ell, ut, seed, c1) == Serial(ell, ut, seed, c2) <==> c1 == c2
  {
    var i, j := Inv(ell, seed + c1 + 1), Inv(ell, seed + c2 + 1);
    if Serial(ell, ut, seed, c1) == Serial(ell, ut, seed, c2) {
      SmallMod(ell, ut);
      Cancel(ell, ut, i, j);
      SmallMod(ell, i);
      SmallMod(ell, j);
      InvInjective(ell, seed + c1 + 1, seed + c2 + 1);
      CongSub(ell, seed + c1 + 1, seed + c2 + 1, seed + c2 + 1, seed + c2 + 1);
      SmallDifference(ell, c1 - c2);
    }
  }

  lemma SmallDifference(ell: int, d: int)
    requires ell > 0 && -ell < d < ell && d % ell == 0
    ensures d == 0
  {
  }

  /** The tags of one user with one counter and two challenges reveal [x]u. */
  lemma Elimination(ell: int, x: int, m: int, r1: int, r2: int, t1: int, t2: int)
    requires IsPrime(ell) && 0 < x < ell && (r2 - r1) % ell != 0
    requires t1 == (x + m * r1) % ell && t2 == (x + m * r2) % ell
    ensures ((r2 - r1) % ell) % ell != 0
    ensures (((t1 * r2) % ell - (t2 * r1) % ell) * Inv(ell, (r2 - r1) % ell)) % ell == x
  {
    var d := r2 - r1;
    InvOfResidue(ell, d);
    var i := Inv(ell, d);
    CrossTerms(ell, x, m, r1, r2, t1, t2);
    CongScale(ell, (t1 * r2) % ell - (t2 * r1) % ell, x * d, i);
    assert x * d * i == d * x * i by { Commute(x, d); }
    UndoInverse(ell, d, i, x);
    SmallMod(ell, x);
  }

  lemma CrossTerms(ell: int, x: int, m: int, r1: int, r2: int, t1: int, t2: int)
    requires ell > 0 && t1 == (x + m * r1) % ell && t2 == (x + m * r2) % ell
    ensures Cong(ell, (t1 * r2) % ell - (t2 * r1) % ell, x * (r2 - r1))
  {
    ModMul(ell, x + m * r1, r2);
    ModMul(ell, x + m * r2, r1);
    ModIdempotent(ell, t1 * r2);
    ModIdempotent(ell, t2 * r1);
    CongSub(ell, (t1 * r2) % ell, (x + m * r1) * r2, (t2 * r1) % ell, (x + m * r2) * r1);
    CrossArith(x, m, r1, r2);
  }

  lemma CrossArith(x: int, m: int, r1: int, r2: int)
    ensures (x + m * r1) * r2 - (x + m * r2) * r1 == x * (r2 - r1)
  {
    assert (x + m * r1) * r2 == x * r2 + m * (r1 * r2);
    assert (x + m * r2) * r1 == x * r1 + m * (r2 * r1);
    Commute(r1, r2);
  }

  lemma TagForm(ell: int, x: int, ut: int, c: int, seed: int, counter: int)
    requires IsPrime(ell) && Denominator(ell, seed, counter) != 0
    ensures TraceTag(ell, x, ut, c, seed, counter) == (x + (ut * Inv(ell, seed + counter + 1)) * c) % ell
  {
    var i := Inv(ell, seed + counter + 1);
    assert ut * (c * i) == (ut * i) * c;
  }

  // --- two statements of one secret ------------------------------------------------------------

  /** Both statements prove the same secret for the same issue. */
  ghost predicate SameSecret(s: Suite, p1: Params, st1: Statement, w1: SecretWitness,
                             p2: Params, st2: Statement, w2: SecretWitness)
    requires s.Valid()
  {
    && Define(s, p1, st1, w1) && Define(s, p2, st2, w2)
    && w1.x == w2.x && st1.issue == st2.issue
  }

  /** One user's statements for one issue share their pseudonym, whatever ring or account. */
  lemma SamePseudonym(s: Suite, p1: Params, st1: Statement, w1: SecretWitness,
                      p2: Params, st2: Statement, w2: SecretWitness)
    requires s.Valid() && SameSecret(s, p1, st1, w1, p2, st2, w2)
    ensures st1.nym == st2.nym
    ensures Seeds(s, w1.x, st1.issue) == Seeds(s, w2.x, st2.issue)
  {
    hide Define, Nym, Seeds, Challenge, Serial, TraceTag, Denominator, IsPrime;
    DefineMeans(s, p1, st1, w1);
    DefineMeans(s, p2, st2, w2);
  }

  /** Equal serials mean equal counters, and then the tags agree exactly when the challenges do,
      and otherwise give the key away. */
  lemma PairAlgebra(s: Suite, p1: Params, st1: Statement, w1: SecretWitness,
                    p2: Params, st2: Statement, w2: SecretWitness)
    requires s.Valid() && SameSecret(s, p1, st1, w1, p2, st2, w2)
    ensures st1.s == st2.s <==> w1.counter == w2.counter
    ensures (st2.r - st1.r) % s.ell == 0 <==> st1.r == st2.r
    ensures w1.counter == w2.counter && st1.r == st2.r ==> st1.t == st2.t
    ensures w1.counter == w2.counter && st1.r != st2.r ==> Extract(s, st1, st2) == w1.x
  {
    hide Nym, Seeds, Challenge, Ranges, Membership, Tags, Serial, TraceTag, Denominator, Extract, IsPrime;
    SamePseudonym(s, p1, st1, w1, p2, st2, w2);
    DefineMeans(s, p1, st1, w1);
    DefineMeans(s, p2, st2, w2);
    var ut := s.issuePoint(st1.issue);
    var seeds := Seeds(s, w1.x, st1.issue).value;
    SerialInjective(s.ell, ut, seeds.0, w1.counter, w2.counter);
    DifferenceZero(s.ell, st2.r, st1.r);
    SmallMod(s.ell, st1.r);
    SmallMod(s.ell, st2.r);
    if w1.counter == w2.counter && st1.r != st2.r {
      ExtractSecret(s, st1, st2, w1.x, ut, seeds.1, w1.counter);
    }
  }

  lemma ExtractSecret(s: Suite, st1: Statement, st2: Statement, x: int, ut: int, seed: int, counter: nat)
    requires s.Valid() && s.SecpScalar(x) && (st2.r - st1.r) % s.ell != 0
    requires Denominator(s.ell, seed, counter) != 0
    requires st1.t == TraceTag(s.ell, x, ut, st1.r, seed, counter)
    requires st2.t == TraceTag(s.ell, x, ut, st2.r, seed, counter)
    ensures Extract(s, st1, st2) == x
  {
    hide TraceTag, IsPrime;
    TagForm(s.ell, x, ut, st1.r, seed, counter);
    TagForm(s.ell, x, ut, st2.r, seed, counter);
    Elimination(s.ell, x, ut * Inv(s.ell, seed + counter + 1), st1.r, st2.r, st1.t, st2.t);
  }

  /** The user is registered under the trace key of secret x. */
  ghost predicate RegisteredFor(s: Suite, entries: seq<Registration>, user: string, x: int)
    requires s.Valid()
  {
    exists i :: 0 <= i < |entries| && entries[i].userId == user && KeyOf(s, entries[i].account) == x
  }

  /** The full classification: legal iff the counters differ, replay iff counter and challenge
      agree, otherwise traced to that user with key [x]u. Never invalid. */
  lemma Classification(s: Suite, p1: Params, st1: Statement, w1: SecretWitness,
                       p2: Params, st2: Statement, w2: SecretWitness,
                       entries: seq<Registration>, user: string)
    requires s.Valid() && SameSecret(s, p1, st1, w1, p2, st2, w2)
    requires RegistryOk(s, entries) && RegisteredFor(s, entries, user, w1.x)
    ensures Compare(s, st1, st2, entries) ==
            if w1.counter != w2.counter then Legal
            else if st1.r == st2.r then Replay
            else Traced(user, w1.x)
  {
    hide KeyOf, Define, RegistryOk, Extract, ResolveOf, IsPrime;
    PairAlgebra(s, p1, st1, w1, p2, st2, w2);
    SecretIsGood(s, p1, st1, w1);
    ResolveMeaning(s, entries, w1.x, user);
  }

  lemma SecretIsGood(s: Suite, p: Params, st: Statement, wit: SecretWitness)
    requires s.Valid() && Define(s, p, st, wit)
    ensures s.GoodSecp(wit.x) && wit.counter < st.k
  {
    hide Define, HostTagged, IsPrime;
    DefineMeans(s, p, st, wit);
  }

  /** The same over whole verifications, and Link answers yes. */
  lemma TraceClassifies(s: Suite, a: Context, ma: seq<byte>, st1: Statement, w1: SecretWitness,
                        b: Context, mb: seq<byte>, st2: Statement, w2: SecretWitness,
                        entries: seq<Registration>, user: string)
    requires s.Valid() && SameSecret(s, a.params, st1, w1, b.params, st2, w2)
    requires Verified(s, a, ma, st1) && Verified(s, b, mb, st2) && a.k == b.k
    requires RegistryOk(s, entries) && RegisteredFor(s, entries, user, w1.x)
    ensures Link(s, a, ma, st1, b, mb, st2) == Ok(true)
    ensures Trace(s, a, ma, st1, b, mb, st2, entries) ==
            if w1.counter != w2.counter then Legal
            else if st1.r == st2.r then Replay
            else Traced(user, w1.x)
  {
    hide Compare, Define, RegistryOk, RegisteredFor, IsPrime;
    Classification(s, a.params, st1, w1, b.params, st2, w2, entries, user);
    SamePseudonym(s, a.params, st1, w1, b.params, st2, w2);
  }

  // --- k-traceability ---------------------------------------------------------------------------

  /** A verified signature with the witness behind it. */
  datatype Signed = Signed(ctx: Context, message: seq<byte>, st: Statement, wit: SecretWitness)

  /** Verified for the issue and quota, and made with secret x. */
  ghost predicate MadeBy(s: Suite, g: Signed, x: int, issue: Digest, k: nat)
    requires s.Valid()
  {
    && Verified(s, g.ctx, g.message, g.st) && g.ctx.issue == issue && g.ctx.k == k
    && Define(s, g.ctx.params, g.st, g.wit) && g.wit.x == x
  }

  ghost function TraceOf(s: Suite, a: Signed, b: Signed, entries: seq<Registration>): TraceResult
    requires s.Valid()
  {
    Trace(s, a.ctx, a.message, a.st, b.ctx, b.message, b.st, entries)
  }

  ghost predicate AllMadeBy(s: Suite, all: seq<Signed>, x: int, issue: Digest, k: nat)
    requires s.Valid()
  {
    forall i | 0 <= i < |all| :: MadeBy(s, all[i], x, issue, k)
  }

  predicate DifferentChallenges(all: seq<Signed>) {
    forall i, j | 0 <= i < j < |all| :: all[i].st.r != all[j].st.r
  }

  ghost predicate SomePairTraces(s: Suite, all: seq<Signed>, entries: seq<Registration>, user: string, x: int)
    requires s.Valid()
  {
    exists i, j :: 0 <= i < j < |all| && TraceOf(s, all[i], all[j], entries) == Traced(user, x)
  }

  /** k-traceability. Among more than k verified signatures of one secret under one issue and
      quota, with pairwise different challenges, Trace returns the registered user and key [x]u
      for some pair - whatever rings, accounts and messages were used. */
  lemma KTraceability(s: Suite, all: seq<Signed>, x: int, issue: Digest, k: nat, entries: seq<Registration>, user: string)
    requires s.Valid() && RegistryOk(s, entries) && RegisteredFor(s, entries, user, x)
    requires |all| > k && AllMadeBy(s, all, x, issue, k) && DifferentChallenges(all)
    ensures SomePairTraces(s, all, entries, user, x)
  {
    hide Trace, Define, RegistryOk, RegisteredFor, IsPrime, Check;
    var counters := seq(|all|, i requires 0 <= i < |all| => all[i].wit.counter);
    forall i | 0 <= i < |all| ensures counters[i] < k && all[i].st.issue == issue && all[i].st.k == k {
      assert MadeBy(s, all[i], x, issue, k);
      CheckedFields(s, all[i].ctx, all[i].message, all[i].st);
      SecretIsGood(s, all[i].ctx.params, all[i].st, all[i].wit);
    }
    Pigeonhole(counters, k);
    var i, j :| 0 <= i < j < |counters| && counters[i] == counters[j];
    var a, b := all[i], all[j];
    assert MadeBy(s, a, x, issue, k) && MadeBy(s, b, x, issue, k);
    TraceClassifies(s, a.ctx, a.message, a.st, a.wit, b.ctx, b.message, b.st, b.wit, entries, user);
    assert TraceOf(s, all[i], all[j], entries) == Traced(user, x);
  }

  lemma CheckedFields(s: Suite, ctx: Context, message: seq<byte>, st: Statement)
    requires s.Valid() && Verified(s, ctx, message, st)
    ensures st.issue == ctx.issue && st.k == ctx.k
  {
  }
}
