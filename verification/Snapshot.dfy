/** Immutable rings with their accumulator: NewSnapshot, Join and Exit of profile.go. */
module Snapshots {
  import opened Sequences
  import opened Common
  import opened Field
  import opened Polynomial
  import opened Suites
  import opened Accumulator

  datatype Snapshot = Snapshot(params: Params, accounts: seq<Account>, value: int)

  function NewSnapshot(s: Suite, p: Params, accounts: seq<Account>): (res: Result<Snapshot>)
    requires s.r > 1
    ensures res.Ok? ==> res.value.params == p && res.value.accounts == accounts
  {
    match AccumulatorOf(s, p, accounts)
    case Ok(v) => Ok(Snapshot(p, accounts, v))
    case Err => Err
  }

  /** A snapshot as NewSnapshot builds it. */
  predicate ValidSnapshot(s: Suite, snap: Snapshot)
    requires s.r > 1
  {
    NewSnapshot(s, snap.params, snap.accounts) == Ok(snap)
  }

  function Join(s: Suite, snap: Snapshot, a: Account): Result<Snapshot>
    requires s.r > 1
  {
    NewSnapshot(s, snap.params, snap.accounts + [a])
  }

  /** The accounts whose handle is not in `drop`, in their order. */
  function Keep(s: Suite, accounts: seq<Account>, drop: set<int>): (kept: seq<Account>)
  {
    if accounts == [] then []
    else
      var n := |accounts| - 1;
      var kept := Keep(s, accounts[..n], drop);
      if s.Handle(accounts[n]) in drop then kept else kept + [accounts[n]]
  }

  lemma {:induction false} KeepElements(s: Suite, accounts: seq<Account>, drop: set<int>)
    ensures multiset(Keep(s, accounts, drop)) <= multiset(accounts)
    ensures forall a :: a in Keep(s, accounts, drop) <==> a in accounts && s.Handle(a) !in drop
  {
    hide Suite.Handle;
    if accounts != [] {
      var n := |accounts| - 1;
      assert accounts == accounts[..n] + [accounts[n]];
      KeepElements(s, accounts[..n], drop);
    }
  }

  function ExitOf(s: Suite, snap: Snapshot, member: int): Result<Snapshot>
    requires s.r > 1
  {
    if !s.BNScalar(member) || !MembersExist(s, snap.accounts) || member !in Handles(s, snap.accounts) then Err
    else NewSnapshot(s, snap.params, Keep(s, snap.accounts, {member}))
  }

  method Exit(s: Suite, snap: Snapshot, member: int) returns (res: Result<Snapshot>)
    requires s.Valid()
    ensures res == ExitOf(s, snap, member)
  {
    if !s.BNScalar(member) { return Err; }
    var keep: seq<Account> := [];
    var found := false;
    var i := 0;
    while i < |snap.accounts|
      invariant 0 <= i <= |snap.accounts|
      invariant MembersExist(s, snap.accounts[..i])
      invariant found <==> member in Handles(s, snap.accounts[..i])
      invariant keep == Keep(s, snap.accounts[..i], {member})
    {
      var a := snap.accounts[i];
      var m := s.Member(a);
      if m.Err? { return Err; }
      SnocHandles(s, snap.accounts, i);
      if m.value == member {
        found := true;
      } else {
        keep := keep + [a];
      }
      i := i + 1;
    }
    assert snap.accounts[..i] == snap.accounts;
    if !found { return Err; }
    var v := Accumulate(s, snap.params, keep);
    res := match v case Ok(value) => Ok(Snapshot(snap.params, keep, value)) case Err => Err;
  }

  lemma SnocHandles(s: Suite, a: seq<Account>, i: nat)
    requires i < |a|
    ensures a[..i + 1][..i] == a[..i]
    ensures Handles(s, a[..i + 1]) == Handles(s, a[..i]) + [s.Handle(a[i])]
  {
  }

  // --- removing members ------------------------------------------------------------------

  /** Any sub-ring of a ring with an accumulator has one too, down to the empty ring. */
  lemma RemovalClosed(s: Suite, p: Params, accounts: seq<Account>, rest: seq<Account>)
    requires s.Valid() && NewSnapshot(s, p, accounts).Ok?
    requires multiset(rest) <= multiset(accounts)
    ensures NewSnapshot(s, p, rest).Ok?
  {
    if rest != [] {
      assert |rest| == |multiset(rest)| && |accounts| == |multiset(accounts)|;
      MultisetSize(multiset(rest), multiset(accounts));
      forall i | 0 <= i < |rest| ensures s.Member(rest[i]).Ok? {
        assert rest[i] in multiset(rest);
        assert rest[i] in multiset(accounts);
        var j :| 0 <= j < |accounts| && accounts[j] == rest[i];
      }
      MapSubset(s.Handle, accounts, rest);
      var h, k := Handles(s, accounts), Handles(s, rest);
      DistinctSubset(h, k);
      SubProductNonzero(s.r, p.hTau, h, k);
    }
  }

  lemma SubProductNonzero(r: int, tau: int, h: seq<int>, k: seq<int>)
    requires IsPrime(r) && RingValue(r, tau, h) != 0 && multiset(k) <= multiset(h)
    ensures RingValue(r, tau, k) != 0
  {
    ProdZero(r, h, tau);
    ProdZero(r, k, tau);
    forall i | 0 <= i < |k| ensures (tau + k[i]) % r != 0 {
      assert k[i] in multiset(k);
      assert k[i] in multiset(h);
      var j :| 0 <= j < |h| && h[j] == k[i];
    }
  }

  /** In a ring with different handles, dropping one handle removes exactly its index. */
  lemma {:induction false} KeepOne(s: Suite, accounts: seq<Account>, i: nat)
    requires i < |accounts| && Distinct(Handles(s, accounts))
    ensures Keep(s, accounts, {Handles(s, accounts)[i]}) == Without(accounts, i)
    decreases |accounts|
  {
    hide Suite.Handle;
    var n := |accounts| - 1;
    var h := Handles(s, accounts);
    assert Handles(s, accounts[..n]) == h[..n];
    if i == n {
      KeepNone(s, accounts[..n], {h[n]});
    } else {
      KeepOne(s, accounts[..n], i);
      assert Without(accounts, i) == Without(accounts[..n], i) + [accounts[n]];
    }
  }

  lemma {:induction false} KeepNone(s: Suite, accounts: seq<Account>, drop: set<int>)
    requires forall m | m in drop :: m !in Handles(s, accounts)
    ensures Keep(s, accounts, drop) == accounts
  {
    hide Suite.Handle;
    if accounts != [] {
      var n := |accounts| - 1;
      assert Handles(s, accounts[..n]) == Handles(s, accounts)[..n];
      KeepNone(s, accounts[..n], drop);
      assert s.Handle(accounts[n]) in Handles(s, accounts);
      assert accounts == accounts[..n] + [accounts[n]];
    }
  }

  lemma RemoveIndex(s: Suite, snap: Snapshot, i: nat)
    requires s.Valid() && ValidSnapshot(s, snap) && i < |snap.accounts|
    ensures NewSnapshot(s, snap.params, Without(snap.accounts, i)).Ok?
  {
    hide AccumulatorOf;
    var rest := Without(snap.accounts, i);
    WithoutMultiset(snap.accounts, i);
    assert multiset(rest) <= multiset(snap.accounts);
    RemovalClosed(s, snap.params, snap.accounts, rest);
  }

  lemma ExitIsRemoval(s: Suite, snap: Snapshot, i: nat)
    requires s.Valid() && ValidSnapshot(s, snap) && i < |snap.accounts|
    ensures ExitOf(s, snap, s.Handle(snap.accounts[i]))
            == NewSnapshot(s, snap.params, Without(snap.accounts, i))
  {
    hide Suite.HashScalar, RingValue, ParamsOk;
    var h := Handles(s, snap.accounts);
    ValueOfRing(s, snap.params, snap.accounts);
    assert h[i] in h && h[i] == s.Handle(snap.accounts[i]);
    assert s.Member(snap.accounts[i]).Ok?;
    KeepOne(s, snap.accounts, i);
  }

  /** Every member of a valid snapshot can exit; exactly its account is removed, and its
      factor tau + a leaves the value. */
  lemma ExitSucceeds(s: Suite, snap: Snapshot, i: nat)
    requires s.Valid() && ValidSnapshot(s, snap) && i < |snap.accounts|
    ensures ExitOf(s, snap, s.Handle(snap.accounts[i]))
            == NewSnapshot(s, snap.params, Without(snap.accounts, i))
    ensures NewSnapshot(s, snap.params, Without(snap.accounts, i)).Ok?
    ensures (NewSnapshot(s, snap.params, Without(snap.accounts, i)).value.value
             * (s.Handle(snap.accounts[i]) + snap.params.hTau)) % s.r == snap.value
  {
    hide Suite.Handle, RingValue, AccumulatorOf, ExitOf;
    ExitIsRemoval(s, snap, i);
    RemoveIndex(s, snap, i);
    var h := Handles(s, snap.accounts);
    var rest := Without(snap.accounts, i);
    ValueOfRing(s, snap.params, snap.accounts);
    ValueOfRing(s, snap.params, rest);
    MapWithout(s.Handle, snap.accounts, i);
    FactorOut(s.r, snap.params.hTau, h, i);
  }

  /** Exactly the members of a valid snapshot can exit. */
  lemma ExitExact(s: Suite, snap: Snapshot, member: int)
    requires s.Valid() && ValidSnapshot(s, snap)
    ensures ExitOf(s, snap, member).Ok? <==> exists i :: 0 <= i < |snap.accounts| && s.Handle(snap.accounts[i]) == member
  {
    hide Suite.Handle, RingValue, AccumulatorOf, NewSnapshot, IsPrime, Suite.Member;
    if i :| 0 <= i < |snap.accounts| && s.Handle(snap.accounts[i]) == member {
      ExitSucceeds(s, snap, i);
    }
    if member in Handles(s, snap.accounts) {
      var i :| 0 <= i < |snap.accounts| && Handles(s, snap.accounts)[i] == member;
      assert s.Handle(snap.accounts[i]) == member;
    }
  }

  /** Joining multiplies the value by tau + a. */
  lemma JoinValue(s: Suite, snap: Snapshot, a: Account)
    requires s.Valid() && ValidSnapshot(s, snap) && Join(s, snap, a).Ok?
    ensures Join(s, snap, a).value.value == (snap.value * (s.Handle(a) + snap.params.hTau)) % s.r
  {
    hide Suite.Handle, RingValue;
    var h := Handles(s, snap.accounts);
    var joined := snap.accounts + [a];
    ValueOfRing(s, snap.params, snap.accounts);
    ValueOfRing(s, snap.params, joined);
    var h' := Handles(s, joined);
    assert h' == h + [s.Handle(a)];
    assert Without(h', |h|) == h;
    FactorOut(s.r, snap.params.hTau, h', |h|);
  }

  /** Joining succeeds exactly if there is room and the account is valid, with a handle that is new
      and does not cancel the trapdoor. */
  lemma JoinExact(s: Suite, snap: Snapshot, a: Account)
    requires s.Valid() && ValidSnapshot(s, snap)
    ensures Join(s, snap, a).Ok? <==>
            && |snap.accounts| + 1 < |snap.params.powers| && |snap.accounts| + 1 < 0x1_0000_0000
            && s.Member(a).Ok? && !Cancels(s, snap.params, a)
            && (forall i | 0 <= i < |snap.accounts| :: s.Handle(snap.accounts[i]) != s.Handle(a))
  {
    hide AccumulatorOf, ParamsOk, Suite.Handle, Suite.Member, IsPrime, Cancels;
    AccumulatorExact(s, snap.params, snap.accounts + [a]);
    FitsOneMore(s, snap.params, snap.accounts, a);
  }

  lemma FitsOneMore(s: Suite, p: Params, accounts: seq<Account>, a: Account)
    requires s.Valid() && AccumulatorOf(s, p, accounts).Ok?
    ensures ParamsOk(s.r, p)
    ensures var joined := accounts + [a];
            && (forall i | 0 <= i < |joined| :: s.Member(joined[i]).Ok?)
            && (forall i, j | 0 <= i < j < |joined| :: s.Handle(joined[i]) != s.Handle(joined[j]))
            && (forall i | 0 <= i < |joined| :: !Cancels(s, p, joined[i])) <==>
            && s.Member(a).Ok? && !Cancels(s, p, a)
            && (forall i | 0 <= i < |accounts| :: s.Handle(accounts[i]) != s.Handle(a))
  {
    hide AccumulatorOf, ParamsOk, Suite.Handle, Suite.Member, IsPrime, Cancels;
    AccumulatorExact(s, p, accounts);
    var n, joined := |accounts|, accounts + [a];
    assert joined[n] == a;
    assert forall i | 0 <= i < n :: joined[i] == accounts[i];
  }

  lemma ScaledValue(r: int, v: int, f: int)
    requires IsPrime(r) && 0 < v < r
    ensures (v * f) % r == v <==> f % r == 1
  {
    SmallMod(r, v);
    SmallMod(r, 1);
    assert v * 1 == v;
    if (v * f) % r == v { Cancel(r, v, f, 1); }
    if f % r == 1 { CongMul(r, v, v, f, 1); }
  }

  /** After a join, an old witness survives only if tau + m = 1. */
  lemma StaleAfterJoin(s: Suite, snap: Snapshot, a: Account, w: int, member: int)
    requires s.Valid() && ValidSnapshot(s, snap) && Join(s, snap, a).Ok?
    requires Verifies(s, snap.params, snap.value, w, member)
    ensures Verifies(s, snap.params, Join(s, snap, a).value.value, w, member)
            <==> (s.Handle(a) + snap.params.hTau) % s.r == 1
  {
    hide Suite.Handle, AccumulatorOf, ParamsOk;
    JoinValue(s, snap, a);
    ScaledValue(s.r, snap.value, s.Handle(a) + snap.params.hTau);
  }

  /** After an exit, an old witness - the leaver's included - survives only if tau + m = 1. */
  lemma StaleAfterExit(s: Suite, snap: Snapshot, i: nat, w: int, member: int)
    requires s.Valid() && ValidSnapshot(s, snap) && i < |snap.accounts|
    requires Verifies(s, snap.params, snap.value, w, member)
    ensures var next := ExitOf(s, snap, s.Handle(snap.accounts[i]));
            next.Ok? && (Verifies(s, snap.params, next.value.value, w, member)
                         <==> (s.Handle(snap.accounts[i]) + snap.params.hTau) % s.r == 1)
  {
    hide Suite.Handle, AccumulatorOf, ParamsOk, ExitOf;
    ExitSucceeds(s, snap, i);
    var next := ExitOf(s, snap, s.Handle(snap.accounts[i])).value;
    ScaledValue(s.r, next.value, s.Handle(snap.accounts[i]) + snap.params.hTau);
  }

  /** Leaving right after joining restores the snapshot. */
  lemma ExitUndoesJoin(s: Suite, snap: Snapshot, a: Account)
    requires s.Valid() && ValidSnapshot(s, snap) && Join(s, snap, a).Ok?
    ensures ExitOf(s, Join(s, snap, a).value, s.Handle(a)) == Ok(snap)
  {
    hide Suite.Handle, RingOk;
    var joined := Join(s, snap, a).value;
    ExitSucceeds(s, joined, |snap.accounts|);
    assert Without(joined.accounts, |snap.accounts|) == snap.accounts;
  }
}
