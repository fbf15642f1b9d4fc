/** The stateful q-SDH accumulator of accumulator.cpp: an arbitrary generator and pairing base,
    join-ordered members, and witnesses bound to a version and a set digest. */
module ClearAccumulator {
  import opened Sequences
  import opened Common
  import opened Field
  import opened Polynomial
  import opened Suites
  import opened Accumulator

  const MAX_VERSION: nat := 0xffff_ffff_ffff_ffff

  /** A public q-SDH tuple; `owner` is the identity of the parameter object. */
  datatype Sdh = Sdh(r: int, g: int, h: int, sdh: seq<int>, hTau: int, owner: nat, digest: multiset<int> -> Digest)

  /** Exponents are reduced; the order is prime. */
  ghost predicate WellTyped(p: Sdh) {
    && IsPrime(p.r)
    && 0 <= p.g < p.r && 0 <= p.h < p.r && 0 <= p.hTau < p.r
    && forall i | 0 <= i < |p.sdh| :: 0 <= p.sdh[i] < p.r
  }

  /** The trapdoor that hTau = [tau]h determines. */
  function Tau(p: Sdh): int
    requires IsPrime(p.r) && p.h % p.r != 0
  {
    (p.hTau * Inv(p.r, p.h)) % p.r
  }

  /** A usable tuple: the powers of one nonzero trapdoor, starting at a proper generator. */
  ghost predicate SdhOk(p: Sdh) {
    && WellTyped(p)
    && 0 < p.g && 0 < p.h && 0 < p.hTau && p.sdh != []
    && p.h % p.r != 0
    && forall i | 0 <= i < |p.sdh| :: p.sdh[i] == (p.g * Pow(Tau(p), i)) % p.r
  }

  lemma TauTimesBase(p: Sdh)
    requires WellTyped(p) && 0 < p.h && 0 < p.hTau
    ensures p.h % p.r != 0 && 0 < Tau(p) < p.r
    ensures Cong(p.r, p.h * Tau(p), p.hTau)
  {
    SmallMod(p.r, p.h);
    SmallMod(p.r, p.hTau);
    var i := Inv(p.r, p.h);
    SolutionWorks(p.r, p.h, p.hTau, i);
    Commute(p.h, Tau(p));
  }

  /** e(next, h) == e(previous, h_tau) says that next is the previous power times tau. */
  lemma PairStep(p: Sdh, previous: int, next: int)
    requires WellTyped(p) && 0 < p.h && 0 < p.hTau && 0 <= next < p.r
    ensures p.h % p.r != 0
    ensures (next * p.h) % p.r == (previous * p.hTau) % p.r <==> next == (previous * Tau(p)) % p.r
  {
    TauTimesBase(p);
    hide IsPrime, Tau;
    var m := previous * Tau(p);
    CongMul(p.r, previous, previous, p.h * Tau(p), p.hTau);
    Swap(previous, p.h, Tau(p));
    Commute(next, p.h);
    if (next * p.h) % p.r == (previous * p.hTau) % p.r { Cancel(p.r, p.h, next, m); }
    if next == m % p.r { ModMul(p.r, m, p.h); }
    SmallMod(p.r, next);
  }

  lemma NextSdh(r: int, g: int, tau: int, i: nat)
    requires r > 0
    ensures (((g * Pow(tau, i)) % r) * tau) % r == (g * Pow(tau, i + 1)) % r
  {
    ModMul(r, g * Pow(tau, i), tau);
    assert g * Pow(tau, i) * tau == g * Pow(tau, i + 1) by {
      assert g * Pow(tau, i) * tau == g * (tau * Pow(tau, i));
    }
  }

  /** The tuple of a trapdoor: proper bases, [tau]h, and the powers of tau times g. */
  ghost predicate TupleOf(p: Sdh, tau: int)
    requires p.r > 0
  {
    && 0 < tau < p.r && 0 < p.g < p.r && 0 < p.h < p.r && p.hTau == (p.h * tau) % p.r
    && |p.sdh| >= 1 && forall i | 0 <= i < |p.sdh| :: p.sdh[i] == (p.g * Pow(tau, i)) % p.r
  }

  /** A usable tuple is exactly the tuple of some trapdoor. */
  lemma SdhExact(p: Sdh)
    requires WellTyped(p)
    ensures SdhOk(p) <==> exists tau :: TupleOf(p, tau)
  {
    hide IsPrime, Pow;
    if SdhOk(p) {
      TauTimesBase(p);
      SmallMod(p.r, p.hTau);
      assert TupleOf(p, Tau(p));
    }
    if tau :| TupleOf(p, tau) { TauOfTuple(p, tau); }
  }

  lemma TauOfTuple(p: Sdh, tau: int)
    requires WellTyped(p) && TupleOf(p, tau)
    ensures 0 < p.hTau && p.h % p.r != 0 && Tau(p) == tau
  {
    hide Pow;
    SmallMod(p.r, p.h);
    SmallMod(p.r, tau);
    NoZeroDivisors(p.r, p.h, tau);
    TauTimesBase(p);
    ModIdempotent(p.r, p.h * tau);
    hide IsPrime;
    Cancel(p.r, p.h, Tau(p), tau);
    SmallMod(p.r, Tau(p));
  }

  /** The constructor accepts exactly the tuples of a nonzero trapdoor. */
  method CheckSdh(p: Sdh) returns (ok: bool)
    requires WellTyped(p)
    ensures ok <==> SdhOk(p)
  {
    hide IsPrime;
    if p.sdh == [] { return false; }
    if p.g == 0 || p.h == 0 || p.hTau == 0 { return false; }
    if p.sdh[0] != p.g {
      SmallMod(p.r, p.g);
      return false;
    }
    TauTimesBase(p);
    SmallMod(p.r, p.g);
    assert p.g * Pow(Tau(p), 0) == p.g;
    var i := 1;
    while i < |p.sdh|
      invariant 1 <= i <= |p.sdh|
      invariant forall j | 0 <= j < i :: p.sdh[j] == (p.g * Pow(Tau(p), j)) % p.r
    {
      PairStep(p, p.sdh[i - 1], p.sdh[i]);
      NextSdh(p.r, p.g, Tau(p), i - 1);
      if (p.sdh[i] * p.h) % p.r != (p.sdh[i - 1] * p.hTau) % p.r { return false; }
      i := i + 1;
    }
    ok := true;
  }

  /** [prod(tau + a_i)]g. */
  function SetValue(p: Sdh, members: seq<int>): int
    requires IsPrime(p.r) && p.h % p.r != 0
  {
    (p.g * Prod(members, Tau(p))) % p.r
  }

  /** accumulate() has a result: the set fits the tuple and no factor is zero. */
  ghost predicate Accumulable(p: Sdh, members: seq<int>)
    requires SdhOk(p)
  {
    |members| < |p.sdh| && SetValue(p, members) != 0
  }

  lemma AddScaledTerm(r: int, g: int, sum: int, tau: int, c: seq<int>, i: nat, power: int)
    requires r > 1 && i < |c| && power == (g * Pow(tau, i)) % r
    requires Cong(r, sum, g * Eval(c[..i], tau))
    ensures Cong(r, (sum + (power * c[i]) % r) % r, g * Eval(c[..i + 1], tau))
  {
    assert c[..i + 1] == c[..i] + [c[i]];
    EvalSnoc(c[..i], c[i], tau);
    ModMul(r, g * Pow(tau, i), c[i]);
    ModIdempotent(r, power * c[i]);
    CongAdd(r, sum, g * Eval(c[..i], tau), (power * c[i]) % r, (g * Pow(tau, i)) * c[i]);
    ModIdempotent(r, sum + (power * c[i]) % r);
    ScaleSum(g, Eval(c[..i], tau), Pow(tau, i), c[i]);
  }

  lemma ScaleSum(g: int, e: int, q: int, c: int)
    ensures g * e + (g * q) * c == g * (e + q * c)
  {
    assert g * (e + q * c) == g * e + g * (q * c);
    assert g * (q * c) == (g * q) * c;
  }

  method AccumulateSet(p: Sdh, handles: seq<int>) returns (res: Result<int>)
    requires SdhOk(p)
    ensures res.Ok? <==> Accumulable(p, handles)
    ensures res.Ok? ==> res.value == SetValue(p, handles)
  {
    if |handles| > |p.sdh| - 1 { return Err; }
    var c := MemberPolynomial(p.r, handles);
    var result := 0;
    var i := 0;
    assert Eval(c[..0], Tau(p)) == 0;
    assert p.g * Eval(c[..0], Tau(p)) == 0;
    while i < |c|
      invariant 0 <= i <= |c| && 0 <= result < p.r
      invariant Cong(p.r, result, p.g * Eval(c[..i], Tau(p)))
    {
      AddScaledTerm(p.r, p.g, result, Tau(p), c, i, p.sdh[i]);
      result := (result + (p.sdh[i] * c[i]) % p.r) % p.r;
      i := i + 1;
    }
    assert c[..i] == c;
    CongMul(p.r, p.g, p.g, Eval(c, Tau(p)), Prod(handles, Tau(p)));
    SmallMod(p.r, result);
    if result == 0 { return Err; }
    res := Ok(result);
  }

  // --- the accumulator state -----------------------------------------------------------------

  datatype Acc = Acc(members: seq<int>, value: int, version: nat, setId: Digest)

  datatype Witness = Witness(handle: int, value: int, version: nat, setId: Digest, owner: nat)

  ghost predicate AccOk(p: Sdh, a: Acc)
    requires SdhOk(p)
  {
    && Distinct(a.members) && Accumulable(p, a.members)
    && a.value == SetValue(p, a.members)
    && a.version <= MAX_VERSION
    && a.setId == p.digest(multiset(a.members))
  }

  /** The state after replacing the member list, if update() accepts it. */
  ghost function Updated(p: Sdh, a: Acc, members: seq<int>): Result<Acc>
    requires SdhOk(p)
  {
    if !Distinct(members) || !Accumulable(p, members) || a.version == MAX_VERSION then Err
    else Ok(Acc(members, SetValue(p, members), a.version + 1, p.digest(multiset(members))))
  }

  /** The member list without a handle. */
  function Dropped(members: seq<int>, handle: int): seq<int> {
    if members == [] then []
    else
      var n := |members| - 1;
      var d := Dropped(members[..n], handle);
      if members[n] == handle then d else d + [members[n]]
  }

  lemma {:induction false} DroppedAt(members: seq<int>, i: nat)
    requires Distinct(members) && i < |members|
    ensures Dropped(members, members[i]) == Without(members, i)
    decreases |members|
  {
    var n := |members| - 1;
    if i == n {
      DroppedNone(members[..n], members[n]);
    } else {
      DroppedAt(members[..n], i);
      assert Without(members, i) == Without(members[..n], i) + [members[n]];
    }
  }

  lemma {:induction false} DroppedNone(members: seq<int>, handle: int)
    requires handle !in members
    ensures Dropped(members, handle) == members
  {
    if members != [] {
      var n := |members| - 1;
      DroppedNone(members[..n], handle);
      assert members[n] in members;
      assert members == members[..n] + [members[n]];
    }
  }

  class AccumulatorObject {
    const p: Sdh
    var members: seq<int>
    var value: int
    var version: nat
    var setId: Digest

    ghost function View(): Acc
      reads this
    {
      Acc(members, value, version, setId)
    }

    ghost predicate Valid()
      reads this
    {
      SdhOk(p) && AccOk(p, View())
    }

    /** The empty set is the generator. */
    constructor (p: Sdh)
      requires SdhOk(p)
      ensures Valid() && this.p == p && View() == Start(p)
    {
      this.p := p;
      members, value, version := [], p.g, 0;
      setId := p.digest(multiset{});
      new;
      EmptyValue(p);
      assert multiset(members) == multiset{};
    }

    /** Duplicate check, accumulate, commit. */
    method Update(handles: seq<int>) returns (ok: bool)
      requires Valid()
      modifies this
      ensures Valid()
      ensures ok <==> Updated(p, old(View()), handles).Ok?
      ensures ok ==> Updated(p, old(View()), handles) == Ok(View())
      ensures !ok ==> View() == old(View())
    {
      hide IsPrime, SdhOk;
      var candidate: seq<int> := [];
      while |candidate| < |handles|
        invariant |candidate| <= |handles| && candidate == handles[..|candidate|]
        invariant Distinct(candidate)
      {
        var i := |candidate|;
        if handles[i] in candidate {
          Repeated(handles, i);
          return false;
        }
        candidate := candidate + [handles[i]];
      }
      assert candidate == handles;
      var v := AccumulateSet(p, candidate);
      if v.Err? { return false; }
      if version == MAX_VERSION { return false; }
      members := candidate;
      value := v.value;
      setId := p.digest(multiset(handles));
      version := version + 1;
      ok := true;
    }

    method Join(handle: int) returns (ok: bool)
      requires Valid()
      modifies this
      ensures Valid()
      ensures ok <==> handle !in old(members) && Accumulable(p, old(members) + [handle]) && old(version) < MAX_VERSION
      ensures ok ==> Updated(p, old(View()), old(members) + [handle]) == Ok(View())
      ensures !ok ==> View() == old(View())
    {
      hide IsPrime, SdhOk;
      if handle in members { return false; }
      AppendDistinct(members, handle);
      ok := Update(members + [handle]);
    }

    /** A member can always leave - unless the version counter is exhausted. */
    method Exit(handle: int) returns (ok: bool)
      requires Valid()
      modifies this
      ensures Valid()
      ensures ok <==> handle in old(members) && old(version) < MAX_VERSION
      ensures ok ==> Updated(p, old(View()), Dropped(old(members), handle)) == Ok(View())
      ensures !ok ==> View() == old(View())
    {
      hide IsPrime, SdhOk, SetValue;
      if handle !in members { return false; }
      var candidate: seq<int> := [];
      var i := 0;
      while i < |members|
        invariant 0 <= i <= |members| && candidate == Dropped(members[..i], handle)
      {
        assert members[..i + 1][..i] == members[..i];
        if members[i] != handle { candidate := candidate + [members[i]]; }
        i := i + 1;
      }
      assert members[..i] == members;
      DropAccumulable(p, members, handle);
      ok := Update(candidate);
    }

    /** Every member has a witness, and it verifies at this version. */
    method WitnessFor(handle: int) returns (res: Result<Witness>)
      requires Valid()
      ensures res.Ok? <==> handle in members
      ensures res.Ok? ==>
                && res.value == Witness(handle, SetValue(p, Dropped(members, handle)), version, setId, p.owner)
                && Accepts(p, View(), handle, res.value)
    {
      hide IsPrime, SdhOk, SetValue;
      if handle !in members { return Err; }
      var others: seq<int> := [];
      var removed := false;
      var i := 0;
      while i < |members|
        invariant 0 <= i <= |members|
        invariant removed <==> handle in members[..i]
        invariant others == Dropped(members[..i], handle)
      {
        assert members[..i + 1][..i] == members[..i];
        assert members[..i + 1] == members[..i] + [members[i]];
        if !removed && members[i] == handle {
          removed := true;
        } else {
          assert members[i] != handle;
          others := others + [members[i]];
        }
        i := i + 1;
      }
      assert members[..i] == members;
      DropAccumulable(p, members, handle);
      var w := AccumulateSet(p, others);
      WitnessAccepted(p, View(), handle);
      res := Ok(Witness(handle, w.value, version, setId, p.owner));
    }

    method VerifyRaw(handle: int, w: int) returns (ok: bool)
      requires Valid() && 0 <= w < p.r
      ensures ok <==> Opens(p, value, handle, w)
    {
      var memberTerm := (p.h * handle + p.hTau) % p.r;
      PairingOpens(p, value, handle, w);
      ok := (w * memberTerm) % p.r == (value * p.h) % p.r;
    }

    /** Version, set digest, owner and handle must match before the pairing counts. */
    method Verify(handle: int, w: Witness) returns (ok: bool)
      requires Valid() && 0 <= w.value < p.r
      ensures ok <==> Accepts(p, View(), handle, w)
    {
      if w.owner != p.owner || w.version != version || w.setId != setId || w.handle != handle { return false; }
      ok := VerifyRaw(handle, w.value);
    }
  }

  /** w * (tau + a) == value. */
  ghost predicate Opens(p: Sdh, value: int, handle: int, w: int)
    requires SdhOk(p)
  {
    Cong(p.r, w * (handle + Tau(p)), value)
  }

  ghost predicate Accepts(p: Sdh, a: Acc, handle: int, w: Witness)
    requires SdhOk(p)
  {
    && w.owner == p.owner && w.version == a.version && w.setId == a.setId && w.handle == handle
    && Opens(p, a.value, handle, w.value)
  }

  lemma PairingOpens(p: Sdh, value: int, handle: int, w: int)
    requires SdhOk(p)
    ensures (w * ((p.h * handle + p.hTau) % p.r)) % p.r == (value * p.h) % p.r <==> Opens(p, value, handle, w)
  {
    TauTimesBase(p);
    var e := handle + Tau(p);
    CongAdd(p.r, p.h * handle, p.h * handle, p.h * Tau(p), p.hTau);
    assert p.h * handle + p.h * Tau(p) == p.h * e;
    ModMul(p.r, p.h * handle + p.hTau, w);
    CongMul(p.r, w, w, p.h * handle + p.hTau, p.h * e);
    Swap(w, p.h, e);
    Commute(value, p.h);
    if Cong(p.r, p.h * (w * e), p.h * value) { Cancel(p.r, p.h, w * e, value); }
    if Cong(p.r, w * e, value) { CongMul(p.r, p.h, p.h, w * e, value); }
  }

  lemma Swap(a: int, b: int, c: int)
    ensures a * (b * c) == b * (a * c)
  {
  }

  lemma EmptyValue(p: Sdh)
    requires SdhOk(p)
    ensures SetValue(p, []) == p.g && Accumulable(p, [])
  {
    SmallMod(p.r, p.g);
  }

  lemma AppendDistinct(members: seq<int>, handle: int)
    requires Distinct(members) && handle !in members
    ensures Distinct(members + [handle])
  {
  }

  lemma FactorSet(p: Sdh, members: seq<int>, i: nat)
    requires SdhOk(p) && i < |members|
    ensures (SetValue(p, Without(members, i)) * (members[i] + Tau(p))) % p.r == SetValue(p, members)
    ensures SetValue(p, members) != 0 ==> SetValue(p, Without(members, i)) != 0
  {
    var others := p.g * Prod(Without(members, i), Tau(p));
    ProdWithout(members, i, Tau(p));
    var f := members[i] + Tau(p);
    assert Tau(p) + members[i] == f;
    Assoc(p.g, Prod(Without(members, i), Tau(p)), f);
    ModMul(p.r, others, f);
    NoZeroDivisors(p.r, others, f);
  }

  /** Removing a member keeps the rest distinct and accumulable. */
  lemma DropAccumulable(p: Sdh, members: seq<int>, handle: int)
    requires SdhOk(p) && Distinct(members) && Accumulable(p, members) && handle in members
    ensures Distinct(Dropped(members, handle)) && Accumulable(p, Dropped(members, handle))
    ensures multiset(Dropped(members, handle)) == multiset(members) - multiset{handle}
    ensures (SetValue(p, Dropped(members, handle)) * (handle + Tau(p))) % p.r == SetValue(p, members)
  {
    hide SdhOk, SetValue, IsPrime, Distinct;
    var i :| 0 <= i < |members| && members[i] == handle;
    DroppedAt(members, i);
    FactorSet(p, members, i);
    RemoveDistinct(members, i);
  }

  lemma RemoveDistinct(members: seq<int>, i: nat)
    requires Distinct(members) && i < |members|
    ensures Distinct(Without(members, i))
    ensures multiset(Without(members, i)) == multiset(members) - multiset{members[i]}
  {
    WithoutMultiset(members, i);
    assert multiset(Without(members, i)) == multiset(members) - multiset{members[i]};
    DistinctSubset(members, Without(members, i));
  }

  lemma WitnessAccepted(p: Sdh, a: Acc, handle: int)
    requires SdhOk(p) && AccOk(p, a) && handle in a.members
    ensures Accepts(p, a, handle, Witness(handle, SetValue(p, Dropped(a.members, handle)), a.version, a.setId, p.owner))
  {
    DropAccumulable(p, a.members, handle);
    SmallMod(p.r, a.value);
  }

  /** Exactly one element opens the accumulator at a member: the value of the other members. */
  lemma OpensOnce(p: Sdh, a: Acc, handle: int, w: int)
    requires SdhOk(p) && AccOk(p, a) && handle in a.members && 0 <= w < p.r
    ensures Opens(p, a.value, handle, w) <==> w == SetValue(p, Dropped(a.members, handle))
  {
    WitnessAccepted(p, a, handle);
    var own, e := SetValue(p, Dropped(a.members, handle)), handle + Tau(p);
    assert Cong(p.r, own * e, a.value);
    assert a.value % p.r != 0 by { SmallMod(p.r, a.value); }
    if e % p.r == 0 { NoZeroDivisors(p.r, own, e); }
    if Opens(p, a.value, handle, w) {
      Commute(w, e);
      Commute(own, e);
      Cancel(p.r, e, w, own);
      SmallMod(p.r, w);
      SmallMod(p.r, own);
    }
  }

  /** Exactly one witness record is accepted for a member: owner, version, set digest, handle and value
      are all determined by the current state. */
  lemma AcceptsExact(p: Sdh, a: Acc, handle: int, w: Witness)
    requires SdhOk(p) && AccOk(p, a) && handle in a.members && 0 <= w.value < p.r
    ensures Accepts(p, a, handle, w) <==>
            w == Witness(handle, SetValue(p, Dropped(a.members, handle)), a.version, a.setId, p.owner)
  {
    hide SdhOk, AccOk, SetValue, Opens, Dropped;
    OpensOnce(p, a, handle, w.value);
  }

  /** The stored value is that of the members in any order. */
  lemma ValueForAnyOrder(p: Sdh, a: Acc, order: seq<int>)
    requires SdhOk(p) && AccOk(p, a) && multiset(order) == multiset(a.members)
    ensures Distinct(order) && Accumulable(p, order) && SetValue(p, order) == a.value
  {
    DistinctMultiset(a.members, order);
    ProdPermute(a.members, order, Tau(p));
    assert |order| == |multiset(order)| && |a.members| == |multiset(a.members)|;
  }

  ghost predicate Succeeds(p: Sdh, a: Acc, b: Acc)
    requires SdhOk(p)
  {
    exists members :: Updated(p, a, members) == Ok(b)
  }

  /** Any chain of successful updates. */
  ghost predicate Evolves(p: Sdh, states: seq<Acc>)
    requires SdhOk(p)
  {
    forall i | 0 <= i < |states| - 1 :: Succeeds(p, states[i], states[i + 1])
  }

  lemma {:induction false} VersionsIncrease(p: Sdh, states: seq<Acc>, i: nat, j: nat)
    requires SdhOk(p) && Evolves(p, states) && i < j < |states|
    ensures states[i].version < states[j].version
    decreases j - i
  {
    hide SdhOk, IsPrime;
    assert Succeeds(p, states[j - 1], states[j - 1 + 1]);
    var members :| Updated(p, states[j - 1], members) == Ok(states[j]);
    if i < j - 1 { VersionsIncrease(p, states, i, j - 1); }
  }

  /** A witness issued at one version is rejected at every later one, whatever the algebra says. */
  lemma WitnessExpires(p: Sdh, states: seq<Acc>, i: nat, j: nat, handle: int, w: Witness)
    requires SdhOk(p) && Evolves(p, states) && i < j < |states|
    requires Accepts(p, states[i], handle, w)
    ensures !Accepts(p, states[j], handle, w)
  {
    VersionsIncrease(p, states, i, j);
  }

  // --- when a member cannot leave ----------------------------------------------------------------

  lemma AccumulableExact(p: Sdh, members: seq<int>)
    requires SdhOk(p)
    ensures Accumulable(p, members) <==> |members| < |p.sdh| && forall i | 0 <= i < |members| :: (Tau(p) + members[i]) % p.r != 0
  {
    SmallMod(p.r, p.g);
    NoZeroDivisors(p.r, p.g, Prod(members, Tau(p)));
    ProdZero(p.r, members, Tau(p));
    hide IsPrime, Pow, Tau, Prod;
  }

  /** update() accepts a member list exactly if it has no duplicates, fits the tuple, no member cancels
      the trapdoor, and a version is left; the state is then that of the list, one version later. */
  lemma UpdateExact(p: Sdh, a: Acc, members: seq<int>)
    requires SdhOk(p)
    ensures Updated(p, a, members).Ok? <==>
            && (forall i, j | 0 <= i < j < |members| :: members[i] != members[j])
            && |members| < |p.sdh| && (forall i | 0 <= i < |members| :: (Tau(p) + members[i]) % p.r != 0)
            && a.version != 0xffff_ffff_ffff_ffff
    ensures Updated(p, a, members).Ok? ==>
              Updated(p, a, members).value
              == Acc(members, (p.g * Prod(members, Tau(p))) % p.r, a.version + 1, p.digest(multiset(members)))
  {
    AccumulableExact(p, members);
    hide SdhOk, IsPrime, Tau, Prod, Accumulable;
  }

  /** The exit of a member is rejected exactly when the version counter is exhausted. */
  lemma ExitBlocked(p: Sdh, a: Acc, handle: int)
    requires SdhOk(p) && AccOk(p, a) && handle in a.members
    ensures Updated(p, a, Dropped(a.members, handle)).Err? <==> a.version == 0xffff_ffff_ffff_ffff
  {
    hide SdhOk, IsPrime, SetValue;
    DropAccumulable(p, a.members, handle);
  }

  /** The state of a new accumulator. */
  function Start(p: Sdh): Acc {
    Acc([], p.g, 0, p.digest(multiset{}))
  }

  /** One successful join or exit of the handle. */
  ghost predicate JoinOrExit(p: Sdh, a: Acc, b: Acc, handle: int)
    requires SdhOk(p)
  {
    if handle in a.members then Updated(p, a, Dropped(a.members, handle)) == Ok(b)
    else Updated(p, a, a.members + [handle]) == Ok(b)
  }

  /** The state after i joins and exits of one handle in turn. */
  ghost function Alternating(p: Sdh, handle: int, i: nat): Acc
    requires SdhOk(p)
  {
    if i % 2 == 0 then Acc([], p.g, i, p.digest(multiset{}))
    else Acc([handle], SetValue(p, [handle]), i, p.digest(multiset{handle}))
  }

  lemma AlternatingStep(p: Sdh, handle: int, i: nat)
    requires SdhOk(p) && Accumulable(p, [handle]) && i < MAX_VERSION
    ensures JoinOrExit(p, Alternating(p, handle, i), Alternating(p, handle, i + 1), handle)
    ensures Succeeds(p, Alternating(p, handle, i), Alternating(p, handle, i + 1))
  {
    EmptyValue(p);
    hide SdhOk, IsPrime, SetValue;
    var a, b := Alternating(p, handle, i), Alternating(p, handle, i + 1);
    assert [] + [handle] == [handle] && multiset([handle]) == multiset{handle} && multiset(b.members) == multiset(b.members);
    assert [handle][..0] == [];
    assert Dropped([handle], handle) == [];
    if i % 2 == 0 {
      assert Updated(p, a, [handle]) == Ok(b);
    } else {
      assert Updated(p, a, []) == Ok(b);
    }
  }

  /** It happens over every usable tuple and for every handle that can join at all: joins and exits of
      that handle alone lead from a new accumulator to one that holds it and cannot let it go. */
  lemma ExitCanFail(p: Sdh, handle: int) returns (states: seq<Acc>)
    requires SdhOk(p) && Accumulable(p, [handle])
    ensures |states| == MAX_VERSION + 1 && states[0] == Start(p) && Evolves(p, states)
    ensures forall i | 0 <= i < MAX_VERSION :: JoinOrExit(p, states[i], states[i + 1], handle)
    ensures var last := states[MAX_VERSION];
            && AccOk(p, last) && last.members == [handle] && last.version == MAX_VERSION
            && Updated(p, last, Dropped(last.members, handle)).Err?
  {
    hide JoinOrExit, Succeeds, SdhOk, IsPrime, SetValue;
    states := seq(MAX_VERSION + 1, i requires 0 <= i <= MAX_VERSION => Alternating(p, handle, i));
    forall i | 0 <= i < MAX_VERSION
      ensures JoinOrExit(p, states[i], states[i + 1], handle) && Succeeds(p, states[i], states[i + 1])
    {
      AlternatingStep(p, handle, i);
    }
    assert multiset([handle]) == multiset{handle};
    ExitBlocked(p, states[MAX_VERSION], handle);
  }
}
