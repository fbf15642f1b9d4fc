/** The q-SDH accumulator of profile.go: public powers of an unknown trapdoor, the ring's
    polynomial combined with them, membership witnesses and their verification. */
module Accumulator {
  import opened Sequences
  import opened Common
  import opened Field
  import opened Polynomial
  import opened Suites

  const MAX_POWERS := 65537

  /** Public q-SDH material. powers[i] is claimed to be [tau^i]G and hTau to be [tau]H. */
  datatype Params = Params(g: int, h: int, hTau: int, powers: seq<int>)

  /** The powers are exactly those of the one nonzero trapdoor behind hTau. */
  predicate ParamsOk(r: int, p: Params)
    requires r > 0
  {
    && p.g == 1 && p.h == 1 && 0 < p.hTau < r
    && 2 <= |p.powers| <= MAX_POWERS
    && forall i | 0 <= i < |p.powers| :: p.powers[i] == Pow(p.hTau, i) % r
  }

  /** e(next, H) * e(-previous, HTau) == 1. */
  predicate PowerStep(r: int, p: Params, previous: int, next: int)
    requires r > 0
  {
    (next * p.h + ((-previous) % r) * p.hTau) % r == 0
  }

  lemma PowerStepMeaning(r: int, p: Params, previous: int, next: int, i: nat)
    requires r > 1 && p.h == 1 && 0 <= next < r
    requires previous == Pow(p.hTau, i) % r
    ensures PowerStep(r, p, previous, next) <==> next == Pow(p.hTau, i + 1) % r
  {
    var tau := p.hTau;
    assert next * p.h == next;
    Balance(r, next, previous, tau);
    NextPower(r, tau, i);
    SmallMod(r, next);
  }

  lemma {:induction false} PowNonzero(r: int, x: int, n: nat)
    requires IsPrime(r) && x % r != 0
    ensures Pow(x, n) % r != 0
  {
    if n == 0 {
      SmallMod(r, 1);
    } else {
      PowNonzero(r, x, n - 1);
      NoZeroDivisors(r, x, Pow(x, n - 1));
    }
  }

  /** Accepts exactly the geometric sequences of a nonzero trapdoor. */
  method ValidateParams(s: Suite, p: Params) returns (ok: bool)
    requires s.Valid()
    ensures ok <==> ParamsOk(s.r, p)
  {
    if |p.powers| < 2 || |p.powers| > MAX_POWERS { return false; }
    if !s.GoodBN(p.g) || !s.GoodBN(p.h) || !s.GoodBN(p.hTau) { return false; }
    SmallMod(s.r, 1);
    if p.g != 1 || p.h != 1 || p.powers[0] != p.g { return false; }
    SmallMod(s.r, p.hTau);
    var i := 0;
    while i < |p.powers|
      invariant 0 <= i <= |p.powers|
      invariant forall j | 0 <= j < i :: p.powers[j] == Pow(p.hTau, j) % s.r
    {
      PowNonzero(s.r, p.hTau, i);
      if !s.GoodBN(p.powers[i]) {
        return false;
      }
      if i > 0 {
        PowerStepMeaning(s.r, p, p.powers[i - 1], p.powers[i], i - 1);
        if !PowerStep(s.r, p, p.powers[i - 1], p.powers[i]) { return false; }
      }
      i := i + 1;
    }
    ok := true;
  }

  lemma NextPower(r: int, tau: int, n: nat)
    requires r > 0
    ensures ((Pow(tau, n) % r) * tau) % r == Pow(tau, n + 1) % r
    ensures (Pow(tau, n) % r) % r == Pow(tau, n) % r
  {
    ModMul(r, Pow(tau, n), tau);
    assert Pow(tau, n) * tau == Pow(tau, n + 1);
    ModIdempotent(r, Pow(tau, n));
  }

  /** What Setup publishes for a trapdoor and a capacity: the powers and nothing else. */
  function Published(r: int, tau: int, capacity: nat): Params
    requires r > 0
  {
    Params(1, 1, tau, seq(capacity + 1, i requires 0 <= i => Pow(tau, i) % r))
  }

  /** Good parameters are exactly those that Setup publishes for some nonzero trapdoor and capacity. */
  lemma ParamsExact(s: Suite, p: Params)
    requires s.Valid()
    ensures ParamsOk(s.r, p) <==>
            0 < p.hTau < s.r && exists capacity: nat :: 1 <= capacity <= 65536 && p == Published(s.r, p.hTau, capacity)
  {
    hide IsPrime, Pow;
    if ParamsOk(s.r, p) {
      assert p == Published(s.r, p.hTau, |p.powers| - 1);
    }
  }

  /** Setup publishes the powers of the sampled trapdoor. */
  method Setup(s: Suite, capacity: int, tau: int) returns (res: Result<Params>)
    requires s.Valid() && s.BNScalar(tau)
    ensures res.Ok? <==> 1 <= capacity <= 65536
    ensures res.Ok? ==> res.value == Published(s.r, tau, capacity) && ParamsOk(s.r, res.value)
  {
    if capacity < 1 || capacity > 65536 { return Err; }
    SmallMod(s.r, tau);
    SmallMod(s.r, 1);
    var powers: seq<int> := [];
    var power := 1;
    while |powers| < capacity + 1
      invariant |powers| <= capacity + 1
      invariant power == Pow(tau, |powers|) % s.r
      invariant forall j | 0 <= j < |powers| :: powers[j] == Pow(tau, j) % s.r
    {
      NextPower(s.r, tau, |powers|);
      powers := powers + [power % s.r];
      power := (power * tau) % s.r;
    }
    res := Ok(Params(1, 1, tau % s.r, powers));
  }

  lemma LinearStep(q: int, c: seq<int>, m: int, carry: int, i: nat)
    requires q > 1 && i < |c|
    ensures TimesLinear(q, c[i..], m, carry) == [(carry + c[i] * m) % q] + TimesLinear(q, c[i + 1..], m, (0 + c[i]) % q)
  {
    assert c[i..][1..] == c[i + 1..];
  }

  lemma LinearEnd(q: int, c: seq<int>, m: int, carry: int)
    requires q > 1
    ensures TimesLinear(q, c[|c|..], m, carry) == [carry]
  {
  }

  /** One pass of the coefficient loop: multiply by (X + member). */
  method MultiplyByMember(q: int, c: seq<int>, member: int) returns (next: seq<int>)
    requires q > 1 && c != []
    ensures next == TimesLinear(q, c, member, 0)
  {
    hide TimesLinear;
    var a := new int[|c| + 1](_ => 0);
    var i := 0;
    assert c[0..] == c;
    while i < |c|
      invariant 0 <= i <= |c|
      invariant forall j | i < j <= |c| :: a[j] == 0
      invariant TimesLinear(q, c, member, 0) == a[..i] + TimesLinear(q, c[i..], member, a[i])
    {
      ghost var before := a[..i];
      var product := c[i] * member;
      ghost var carry := a[i];
      LinearStep(q, c, member, carry, i);
      a[i] := (a[i] + product) % q;
      a[i + 1] := (a[i + 1] + c[i]) % q;
      assert a[..i + 1] == before + [(carry + c[i] * member) % q];
      i := i + 1;
    }
    LinearEnd(q, c, member, a[i]);
    assert a[..] == a[..i] + [a[i]];
    next := a[..];
  }

  /** The in-place coefficient loop computes prod(X + a_i): canonical, monic coefficients
      whose value at every x is the product of the factors. */
  method MemberPolynomial(q: int, members: seq<int>) returns (c: seq<int>)
    requires q > 1
    ensures c == ProductCoefficients(q, members)
    ensures |c| == |members| + 1 && Reduced(q, c) && c[|members|] == 1
    ensures forall x :: Cong(q, Eval(c, x), Prod(members, x))
  {
    c := [1];
    var i := 0;
    while i < |members|
      invariant 0 <= i <= |members|
      invariant c == ProductCoefficients(q, members[..i])
    {
      assert members[..i + 1][..i] == members[..i];
      c := MultiplyByMember(q, c, members[i]);
      i := i + 1;
    }
    assert members[..i] == members;
    ProductCoefficientsShape(q, members);
    forall x ensures Cong(q, Eval(c, x), Prod(members, x)) {
      ProductCoefficientsEval(q, members, x);
    }
  }

  /** The exponent that the powers and the ring polynomial combine to. */
  function RingValue(r: int, tau: int, members: seq<int>): int
    requires r > 0
  {
    Prod(members, tau) % r
  }

  lemma AddTerm(r: int, sum: int, tau: int, c: seq<int>, i: nat, power: int)
    requires r > 1 && i < |c| && power == Pow(tau, i) % r
    requires Cong(r, sum, Eval(c[..i], tau))
    ensures Cong(r, (sum + (power * c[i]) % r) % r, Eval(c[..i + 1], tau))
  {
    assert c[..i + 1] == c[..i] + [c[i]];
    EvalSnoc(c[..i], c[i], tau);
    ModIdempotent(r, Pow(tau, i));
    CongMul(r, power, Pow(tau, i), c[i], c[i]);
    ModIdempotent(r, power * c[i]);
    CongAdd(r, sum, Eval(c[..i], tau), (power * c[i]) % r, Pow(tau, i) * c[i]);
    ModIdempotent(r, sum + (power * c[i]) % r);
  }

  /** Without the trapdoor, the powers yield the trapdoor product [prod(tau + a_i)]G. */
  method CombinePowers(s: Suite, p: Params, members: seq<int>) returns (res: Result<int>)
    requires s.Valid() && ParamsOk(s.r, p)
    ensures res.Ok? <==> |members| < |p.powers| && RingValue(s.r, p.hTau, members) != 0
    ensures res.Ok? ==> res.value == RingValue(s.r, p.hTau, members)
  {
    if |members| >= |p.powers| { return Err; }
    var c := MemberPolynomial(s.r, members);
    var sum := 0;
    var i := 0;
    assert Eval(c[..0], p.hTau) == 0;
    while i < |c|
      invariant 0 <= i <= |c| && 0 <= sum < s.r
      invariant Cong(s.r, sum, Eval(c[..i], p.hTau))
    {
      AddTerm(s.r, sum, p.hTau, c, i, p.powers[i]);
      var term := (p.powers[i] * c[i]) % s.r;
      sum := (sum + term) % s.r;
      i := i + 1;
    }
    assert c[..i] == c;
    SmallMod(s.r, sum);
    if !s.GoodBN(sum) { return Err; }
    res := Ok(sum);
  }

  // --- rings of accounts ---------------------------------------------------------------

  predicate MembersExist(s: Suite, accounts: seq<Account>)
  {
    forall i | 0 <= i < |accounts| :: s.Member(accounts[i]).Ok?
  }

  function Handles(s: Suite, accounts: seq<Account>): (h: seq<int>)
    ensures |h| == |accounts|
    ensures forall i | 0 <= i < |h| :: h[i] == s.Handle(accounts[i])
  {
    Map(s.Handle, accounts)
  }

  /** membersOf accepts: a nonempty list of valid accounts with different handles. */
  predicate RingOk(s: Suite, accounts: seq<Account>)
  {
    && 0 < |accounts| < 0x1_0000_0000
    && MembersExist(s, accounts)
    && Distinct(Handles(s, accounts))
  }

  /** A ring has 1 to 2^32 - 1 accounts, each with a handle, and no two with the same one. */
  lemma RingExact(s: Suite, accounts: seq<Account>)
    ensures RingOk(s, accounts) <==>
            && 1 <= |accounts| <= 4294967295 && (forall i | 0 <= i < |accounts| :: s.Member(accounts[i]).Ok?)
            && (forall i, j | 0 <= i < j < |accounts| :: s.Handle(accounts[i]) != s.Handle(accounts[j]))
  {
    hide Suite.Member, Suite.Handle;
  }

  lemma RepeatedHandle(s: Suite, accounts: seq<Account>, members: seq<int>, i: nat)
    requires |members| <= i < |accounts|
    requires forall k | 0 <= k < |members| ::
               s.Member(accounts[k]).Ok? && members[k] == s.Member(accounts[k]).value
    requires s.Member(accounts[i]).Ok? && s.Member(accounts[i]).value in members
    ensures !RingOk(s, accounts)
  {
    var j :| 0 <= j < |members| && members[j] == s.Member(accounts[i]).value;
    if MembersExist(s, accounts) {
      var h := Handles(s, accounts);
      assert h[j] == h[i];
    }
  }

  method MembersOf(s: Suite, accounts: seq<Account>) returns (res: Result<seq<int>>)
    requires s.Valid()
    ensures res.Ok? <==> RingOk(s, accounts)
    ensures res.Ok? ==> res.value == Handles(s, accounts)
  {
    if |accounts| == 0 || |accounts| > 0xffff_ffff { return Err; }
    var members: seq<int> := [];
    var seen: set<int> := {};
    while |members| < |accounts|
      invariant |members| <= |accounts|
      invariant forall i | 0 <= i < |members| ::
                  s.Member(accounts[i]).Ok? && members[i] == s.Member(accounts[i]).value
      invariant seen == set m | m in members
      invariant Distinct(members)
    {
      var i := |members|;
      var member := s.Member(accounts[i]);
      if member.Err? { return Err; }
      if member.value in seen {
        RepeatedHandle(s, accounts, members, i);
        return Err;
      }
      seen := seen + {member.value};
      members := members + [member.value];
    }
    assert members == Handles(s, accounts);
    res := Ok(members);
  }

  /** The accumulator of a ring: the trapdoor product of its handles. */
  function AccumulatorOf(s: Suite, p: Params, accounts: seq<Account>): (v: Result<int>)
    requires s.r > 1
    ensures v.Ok? ==> ParamsOk(s.r, p) && s.GoodBN(v.value)
  {
    if !ParamsOk(s.r, p) then Err
    else if accounts == [] then Ok(1)
    else if !RingOk(s, accounts) || |accounts| >= |p.powers| then Err
    else
      var v := RingValue(s.r, p.hTau, Handles(s, accounts));
      if v == 0 then Err else Ok(v)
  }

  /** The empty ring's value G is the empty product. */
  lemma ValueOfRing(s: Suite, p: Params, accounts: seq<Account>)
    requires s.Valid() && AccumulatorOf(s, p, accounts).Ok?
    ensures AccumulatorOf(s, p, accounts).value == RingValue(s.r, p.hTau, Handles(s, accounts))
    ensures Distinct(Handles(s, accounts)) && MembersExist(s, accounts)
  {
    SmallMod(s.r, 1);
    assert accounts == [] ==> Handles(s, accounts) == [];
  }

  /** The handle of an account is minus the trapdoor, so that no witness exists for it. */
  predicate Cancels(s: Suite, p: Params, a: Account)
    requires s.r > 0
  {
    (s.Handle(a) + p.hTau) % s.r == 0
  }

  lemma ZeroRing(s: Suite, p: Params, accounts: seq<Account>)
    requires s.Valid()
    ensures RingValue(s.r, p.hTau, Handles(s, accounts)) == 0 <==>
            exists i :: 0 <= i < |accounts| && Cancels(s, p, accounts[i])
  {
    hide Suite.Handle, IsPrime;
    var h := Handles(s, accounts);
    ProdZero(s.r, h, p.hTau);
    forall i | 0 <= i < |accounts| ensures (p.hTau + h[i]) % s.r == 0 <==> Cancels(s, p, accounts[i]) {
      assert p.hTau + h[i] == s.Handle(accounts[i]) + p.hTau;
    }
  }

  /** A ring has an accumulator exactly if the parameters are good and its accounts are valid, with
      different handles, fewer than the powers, and none cancels the trapdoor. */
  lemma AccumulatorExact(s: Suite, p: Params, accounts: seq<Account>)
    requires s.Valid()
    ensures AccumulatorOf(s, p, accounts).Ok? <==>
            && ParamsOk(s.r, p)
            && |accounts| < |p.powers| && |accounts| < 0x1_0000_0000
            && (forall i | 0 <= i < |accounts| :: s.Member(accounts[i]).Ok?)
            && (forall i, j | 0 <= i < j < |accounts| :: s.Handle(accounts[i]) != s.Handle(accounts[j]))
            && (forall i | 0 <= i < |accounts| :: !Cancels(s, p, accounts[i]))
  {
    assert ParamsOk(s.r, p) ==> |p.powers| > 0;
    ZeroRing(s, p, accounts);
    hide ParamsOk, Suite.Handle, Suite.Member, IsPrime, RingValue, Cancels;
  }

  method Accumulate(s: Suite, p: Params, accounts: seq<Account>) returns (res: Result<int>)
    requires s.Valid()
    ensures res == AccumulatorOf(s, p, accounts)
  {
    var ok := ValidateParams(s, p);
    if !ok { return Err; }
    if |accounts| == 0 { return Ok(p.g); }
    var members := MembersOf(s, accounts);
    if members.Err? { return Err; }
    res := CombinePowers(s, p, members.value);
  }

  /** The witness of one index: the trapdoor product of the other handles. */
  function WitnessOf(s: Suite, p: Params, accounts: seq<Account>, selected: int): Result<int>
    requires s.r > 1
  {
    if !ParamsOk(s.r, p) || !(0 <= selected < |accounts|) || !RingOk(s, accounts) || |accounts| >= |p.powers| then Err
    else
      var w := RingValue(s.r, p.hTau, Without(Handles(s, accounts), selected));
      if w == 0 then Err else Ok(w)
  }

  method MembershipWitness(s: Suite, p: Params, accounts: seq<Account>, selected: int) returns (res: Result<int>)
    requires s.Valid()
    ensures res == WitnessOf(s, p, accounts, selected)
  {
    var ok := ValidateParams(s, p);
    if !ok { return Err; }
    if selected < 0 || selected >= |accounts| { return Err; }
    var members := MembersOf(s, accounts);
    if members.Err? { return Err; }
    if |members.value| >= |p.powers| { return Err; }
    var remaining := members.value[..selected] + members.value[selected + 1..];
    res := CombinePowers(s, p, remaining);
  }

  /** What the pairing equation says about exponents: w * (tau + a) == v. */
  predicate Verifies(s: Suite, p: Params, v: int, w: int, member: int)
    requires s.r > 1
  {
    && s.BNScalar(member) && s.GoodBN(v) && s.GoodBN(w) && ParamsOk(s.r, p)
    && (member + p.hTau) % s.r != 0
    && (w * (member + p.hTau)) % s.r == v
  }

  method VerifyMembership(s: Suite, p: Params, v: int, w: int, member: int) returns (ok: bool)
    requires s.Valid()
    ensures ok <==> Verifies(s, p, v, w, member)
  {
    if !s.BNScalar(member) || !s.GoodBN(v) || !s.GoodBN(w) { return false; }
    var valid := ValidateParams(s, p);
    if !valid { return false; }
    var ha := (p.h * member) % s.r;
    var hat := (ha + p.hTau) % s.r;
    assert p.h * member == member;
    SmallMod(s.r, member);
    if !s.GoodBN(hat) { return false; }
    var negV := (-v) % s.r;
    PairingMeaning(s.r, v, w, member + p.hTau);
    ok := (w * hat + negV * p.h) % s.r == 0;
  }

  lemma PairingMeaning(r: int, v: int, w: int, e: int)
    requires r > 1 && 0 < v < r
    ensures (w * (e % r) + (-v) % r) % r == 0 <==> (w * e) % r == v
  {
    ModMul(r, e, w);
    CongAdd(r, w * (e % r), w * e, (-v) % r, (-v) % r);
    assert ((-v) % r) * 1 == (-v) % r && v * 1 == v;
    Balance(r, w * e, v, 1);
    SmallMod(r, v);
  }

  // --- properties -----------------------------------------------------------------------

  /** Exactly one element verifies for an accumulator value and a member. */
  lemma WitnessUnique(s: Suite, p: Params, v: int, w: int, member: int)
    requires s.Valid()
    ensures Verifies(s, p, v, w, member) <==>
            && 0 < member < s.r && 0 < v < s.r && ParamsOk(s.r, p)
            && (member + p.hTau) % s.r != 0
            && w == (v * Inv(s.r, member + p.hTau)) % s.r
  {
    if s.BNScalar(member) && s.GoodBN(v) && ParamsOk(s.r, p) && (member + p.hTau) % s.r != 0 {
      SolveWitness(s.r, member + p.hTau, v, w);
    }
  }

  lemma SolveWitness(r: int, e: int, v: int, w: int)
    requires IsPrime(r) && e % r != 0 && 0 < v < r
    ensures 0 < w < r && (w * e) % r == v <==> w == (v * Inv(r, e)) % r
  {
    var i := Inv(r, e);
    var w' := (v * i) % r;
    SolutionWorks(r, e, v, i);
    assert 0 < w' < r && (w' * e) % r == v;
    if 0 < w < r && (w * e) % r == v {
      assert e * w == w * e && e * w' == w' * e;
      Cancel(r, e, w, w');
      SmallMod(r, w);
      SmallMod(r, w');
    }
  }

  lemma SolutionWorks(r: int, e: int, v: int, i: int)
    requires IsPrime(r) && 0 < v < r && 0 < i < r && (e * i) % r == 1
    ensures 0 < (v * i) % r < r
    ensures (((v * i) % r) * e) % r == v
  {
    SmallMod(r, v);
    SmallMod(r, i);
    NoZeroDivisors(r, v, i);
    ModMul(r, v * i, e);
    assert (v * i) * e == e * v * i;
    UndoInverse(r, e, i, v);
  }

  /** Every account of an accumulated ring has a witness, and it verifies. */
  lemma WitnessComplete(s: Suite, p: Params, accounts: seq<Account>, selected: nat)
    requires s.Valid() && selected < |accounts|
    requires AccumulatorOf(s, p, accounts).Ok?
    ensures WitnessOf(s, p, accounts, selected).Ok?
    ensures Verifies(s, p, AccumulatorOf(s, p, accounts).value,
                     WitnessOf(s, p, accounts, selected).value, Handles(s, accounts)[selected])
  {
    FactorOut(s.r, p.hTau, Handles(s, accounts), selected);
  }

  /** An index has a witness exactly if the parameters are good, the accounts are valid with different
      handles and fewer than the powers, and no other account cancels the trapdoor. */
  lemma WitnessExact(s: Suite, p: Params, accounts: seq<Account>, selected: int)
    requires s.Valid()
    ensures WitnessOf(s, p, accounts, selected).Ok? <==>
            && ParamsOk(s.r, p) && 0 <= selected < |accounts| < |p.powers|
            && (forall i | 0 <= i < |accounts| :: s.Member(accounts[i]).Ok?)
            && (forall i, j | 0 <= i < j < |accounts| :: s.Handle(accounts[i]) != s.Handle(accounts[j]))
            && (forall i | 0 <= i < |accounts| && i != selected :: !Cancels(s, p, accounts[i]))
  {
    assert ParamsOk(s.r, p) ==> |p.powers| <= 65537;
    hide ParamsOk, Suite.Handle, Suite.Member, IsPrime, RingValue, Cancels;
    if 0 <= selected < |accounts| {
      var others := Without(accounts, selected);
      assert Handles(s, others) == Without(Handles(s, accounts), selected);
      ZeroRing(s, p, others);
      OtherAccounts(s, p, accounts, selected);
    }
  }

  lemma OtherAccounts(s: Suite, p: Params, accounts: seq<Account>, selected: nat)
    requires s.Valid() && selected < |accounts|
    ensures var others := Without(accounts, selected);
            (exists i :: 0 <= i < |others| && Cancels(s, p, others[i])) <==>
            (exists i :: 0 <= i < |accounts| && i != selected && Cancels(s, p, accounts[i]))
  {
    hide Cancels, IsPrime;
    var others := Without(accounts, selected);
    if i :| 0 <= i < |others| && Cancels(s, p, others[i]) {
      var j := if i < selected then i else i + 1;
      assert accounts[j] == others[i];
    }
    if i :| 0 <= i < |accounts| && i != selected && Cancels(s, p, accounts[i]) {
      var j := if i < selected then i else i - 1;
      assert others[j] == accounts[i];
    }
  }

  lemma FactorOut(r: int, tau: int, h: seq<int>, i: nat)
    requires IsPrime(r) && i < |h|
    ensures RingValue(r, tau, h) != 0 <==> RingValue(r, tau, Without(h, i)) != 0 && (h[i] + tau) % r != 0
    ensures (RingValue(r, tau, Without(h, i)) * (h[i] + tau)) % r == RingValue(r, tau, h)
  {
    var others := Prod(Without(h, i), tau);
    ProdWithout(h, i, tau);
    assert tau + h[i] == h[i] + tau;
    NoZeroDivisors(r, others, h[i] + tau);
    ModMul(r, others, h[i] + tau);
  }

  /** The accumulator only depends on which accounts are in the ring. */
  lemma OrderIndependent(s: Suite, p: Params, a: seq<Account>, b: seq<Account>)
    requires s.Valid() && multiset(a) == multiset(b)
    ensures RingOk(s, a) ==> RingOk(s, b) && multiset(Handles(s, a)) == multiset(Handles(s, b))
    ensures AccumulatorOf(s, p, a) == AccumulatorOf(s, p, b)
  {
    assert |a| == |multiset(a)| && |b| == |multiset(b)|;
    if RingOk(s, a) { PermutedRing(s, a, b); }
    if RingOk(s, b) { PermutedRing(s, b, a); }
    if RingOk(s, a) {
      ProdPermute(Handles(s, a), Handles(s, b), p.hTau);
    }
  }

  lemma PermutedRing(s: Suite, a: seq<Account>, b: seq<Account>)
    requires s.Valid() && RingOk(s, a) && multiset(a) == multiset(b)
    ensures RingOk(s, b) && multiset(Handles(s, a)) == multiset(Handles(s, b))
  {
    assert |a| == |multiset(a)| && |b| == |multiset(b)|;
    forall i | 0 <= i < |b| ensures s.Member(b[i]).Ok? {
      assert b[i] in multiset(b);
      assert b[i] in multiset(a);
      var j :| 0 <= j < |a| && a[j] == b[i];
    }
    MapMultiset(s.Handle, a, b);
    DistinctMultiset(Handles(s, a), Handles(s, b));
  }

  // --- the reduction to q-SDH ---------------------------------------------------------------

  /** Synthetic division from the top coefficient down, as the reduction performs it. */
  method SyntheticDivision(q: int, c: seq<int>, b: int) returns (quotient: seq<int>, remainder: int)
    requires q > 1 && c != []
    ensures (quotient, remainder) == Divide(q, c, b)
  {
    var i := |c| - 1;
    quotient := [];
    remainder := c[i];
    while i > 0
      invariant 0 <= i < |c|
      invariant (quotient, remainder) == Divide(q, c[i..], b)
    {
      assert c[i - 1..][1..] == c[i..];
      quotient := [remainder] + quotient;
      remainder := (c[i - 1] - b * remainder) % q;
      i := i - 1;
    }
    assert c[0..] == c;
  }

  /** F(-b) is nonzero when b is none of the accumulated handles. */
  lemma RemainderNonzero(r: int, members: seq<int>, b: int)
    requires IsPrime(r) && 0 < b < r
    requires forall i | 0 <= i < |members| :: 0 <= members[i] < r && members[i] != b
    ensures Divide(r, ProductCoefficients(r, members), b).1 % r != 0
    ensures Cong(r, Divide(r, ProductCoefficients(r, members), b).1, Prod(members, -b))
  {
    var c := ProductCoefficients(r, members);
    var d := Divide(r, c, b);
    ProductCoefficientsEval(r, members, -b);
    DivideEval(r, c, b, -b);
    assert (-b + b) * Eval(d.0, -b) == 0;
    ProdZero(r, members, -b);
    forall i | 0 <= i < |members| ensures (-b + members[i]) % r != 0 {
      if members[i] > b {
        SmallMod(r, members[i] - b);
      } else {
        RemainderUnique(r, -1, members[i] - b, members[i] - b + r);
      }
    }
  }

  /** From a witness accepted for a handle outside the ring, the public powers alone
      produce [1/(tau + b)]G: a forged membership breaks q-SDH. */
  method ExtractQsdh(s: Suite, p: Params, members: seq<int>, w: int, b: int) returns (solution: int)
    requires s.Valid() && |members| < |p.powers|
    requires forall i | 0 <= i < |members| :: s.BNScalar(members[i]) && members[i] != b
    requires Verifies(s, p, RingValue(s.r, p.hTau, members), w, b)
    ensures solution == Inv(s.r, p.hTau + b)
  {
    var c := MemberPolynomial(s.r, members);
    var q, remainder := SyntheticDivision(s.r, c, b);
    var quotient := 0;
    var i := 0;
    assert Eval(q[..0], p.hTau) == 0;
    while i < |q|
      invariant 0 <= i <= |q| && 0 <= quotient < s.r
      invariant Cong(s.r, quotient, Eval(q[..i], p.hTau))
    {
      AddTerm(s.r, quotient, p.hTau, q, i, p.powers[i]);
      quotient := (quotient + (p.powers[i] * q[i]) % s.r) % s.r;
      i := i + 1;
    }
    assert q[..i] == q;
    RemainderNonzero(s.r, members, b);
    ExtractionIdentity(s, p, members, w, b, quotient);
    solution := (((w - quotient) % s.r) * Inv(s.r, remainder)) % s.r;
  }

  lemma ExtractionIdentity(s: Suite, p: Params, members: seq<int>, w: int, b: int, quotient: int)
    requires s.Valid() && s.BNScalar(b)
    requires Verifies(s, p, RingValue(s.r, p.hTau, members), w, b)
    requires Divide(s.r, ProductCoefficients(s.r, members), b).1 % s.r != 0
    requires Cong(s.r, quotient, Eval(Divide(s.r, ProductCoefficients(s.r, members), b).0, p.hTau))
    ensures (((w - quotient) % s.r) * Inv(s.r, Divide(s.r, ProductCoefficients(s.r, members), b).1)) % s.r
            == Inv(s.r, p.hTau + b)
  {
    var r, tau := s.r, p.hTau;
    var c := ProductCoefficients(r, members);
    var (q, rem) := Divide(r, c, b);
    var e := tau + b;
    ProductCoefficientsEval(r, members, tau);
    DivideEval(r, c, b, tau);
    ModIdempotent(r, Prod(members, tau));
    assert w * (b + tau) == w * e;
    SubtractQuotient(r, e, w, quotient, Eval(q, tau), rem);
    SolveForInverse(r, e, w - quotient, rem);
  }

  lemma SubtractQuotient(r: int, e: int, w: int, quotient: int, v: int, rem: int)
    requires r > 0 && Cong(r, w * e, e * v + rem) && Cong(r, quotient, v)
    ensures Cong(r, (w - quotient) * e, rem)
  {
    CongScale(r, quotient, v, e);
    Commute(v, e);
    CongSub(r, w * e, e * v + rem, quotient * e, e * v);
    assert w * e - quotient * e == (w - quotient) * e;
  }

  lemma SolveForInverse(r: int, e: int, y: int, rem: int)
    requires IsPrime(r) && e % r != 0 && rem % r != 0
    requires Cong(r, y * e, rem)
    ensures ((y % r) * Inv(r, rem)) % r == Inv(r, e)
  {
    var i := Inv(r, rem);
    ModMul(r, y, i);
    MoveFactor(r, e, y, i);
    CongMul(r, y * e, rem, i, i);
    InvUnique(r, e, (y * i) % r);
  }

  lemma MoveFactor(r: int, e: int, y: int, i: int)
    requires r > 0
    ensures (e * ((y * i) % r)) % r == ((y * e) * i) % r
  {
    ModMul(r, y * i, e);
    assert e * (y * i) == (y * e) * i;
  }
}
