/** What each request of the service needs and changes in every reachable state, and what whole
    runs of requests add up to. */
module Requests {
  import opened Sequences
  import opened Common
  import opened Bytes
  import opened Field
  import opened Suites
  import opened Accumulator
  import opened Snapshots
  import opened Registries
  import opened Circuit
  import opened Tracing
  import opened Text
  import opened Ledgers
  import opened Service

  // --- the ring after a departure ------------------------------------------------------------

  /** The ids of q that are not dropped, in their order. */
  ghost function Remaining(q: seq<string>, drop: set<string>): seq<string> {
    if q == [] then []
    else
      var n := |q| - 1;
      var rest := Remaining(q[..n], drop);
      if q[n] in drop then rest else rest + [q[n]]
  }

  lemma {:induction false} RemainingElements(q: seq<string>, drop: set<string>)
    ensures forall x :: x in Remaining(q, drop) <==> x in q && x !in drop
  {
    if q != [] {
      var n := |q| - 1;
      RemainingElements(q[..n], drop);
      assert q == q[..n] + [q[n]];
    }
  }

  lemma {:induction false} RemainingSorted(q: seq<string>, drop: set<string>)
    requires Sorted(q)
    ensures Sorted(Remaining(q, drop))
  {
    hide Less;
    if q != [] {
      var n := |q| - 1;
      RemainingSorted(q[..n], drop);
      RemainingElements(q[..n], drop);
      var rest := Remaining(q[..n], drop);
      forall i | 0 <= i < |rest| ensures Less(rest[i], q[n]) {
        assert rest[i] in rest;
        var j :| 0 <= j < n && q[..n][j] == rest[i];
      }
    }
  }

  /** Listing a smaller set keeps the order. */
  lemma ListingDrop(active: set<string>, drop: set<string>)
    ensures Listing(active - drop) == Remaining(Listing(active), drop)
  {
    var q := Listing(active);
    RemainingElements(q, drop);
    RemainingSorted(q, drop);
    ListsUnique(Listing(active - drop), Remaining(q, drop), active - drop);
  }

  /** Dropping ids drops exactly the accounts with their handles. */
  lemma {:induction false} MapRemaining(s: Suite, f: string -> Account, q: seq<string>, drop: set<string>, gone: set<int>)
    requires forall id | id in q :: s.Handle(f(id)) in gone <==> id in drop
    ensures Map(f, Remaining(q, drop)) == Keep(s, Map(f, q), gone)
  {
    hide Suite.Handle;
    if q != [] {
      var n := |q| - 1;
      forall id | id in q[..n] ensures id in q {}
      MapRemaining(s, f, q[..n], drop, gone);
      assert q[n] in q;
      assert Map(f, q)[..n] == Map(f, q[..n]);
      var rest := Remaining(q[..n], drop);
      assert Map(f, rest + [q[n]]) == Map(f, rest) + [f(q[n])];
    }
  }

  /** The handles of a set of accounts. */
  ghost function HandlesOf(s: Suite, accounts: map<string, Registration>, ids: set<string>): set<int> {
    set id | id in ids :: s.Handle(AccountAt(accounts)(id))
  }

  /** Active accounts have different handles. */
  lemma DifferentHandles(s: Suite, t: State, a: string, b: string)
    requires s.Valid() && RingValid(s, t) && a in t.active && b in t.active && a != b
    ensures s.Handle(AccountAt(t.accounts)(a)) != s.Handle(AccountAt(t.accounts)(b))
  {
    hide Suite.Handle, RingValue, IsPrime, ParamsOk;
    var q := Listing(t.active);
    assert a in q && b in q;
    var i :| 0 <= i < |q| && q[i] == a;
    var j :| 0 <= j < |q| && q[j] == b;
    ValueOfRing(s, t.params.value, Ring(t.accounts, t.active));
    var h := Handles(s, Ring(t.accounts, t.active));
    assert h[i] == s.Handle(AccountAt(t.accounts)(a)) && h[j] == s.Handle(AccountAt(t.accounts)(b));
  }

  /** In every reachable state the ring without some accounts is the old ring with exactly their
      handles removed, the others in their order. */
  lemma RingDrop(s: Suite, t: State, drop: set<string>)
    requires s.Valid() && RingValid(s, t)
    ensures Ring(t.accounts, t.active - drop)
            == Keep(s, Ring(t.accounts, t.active), HandlesOf(s, t.accounts, t.active * drop))
  {
    var f, q := AccountAt(t.accounts), Listing(t.active);
    var gone := HandlesOf(s, t.accounts, t.active * drop);
    ListingDrop(t.active, drop);
    forall id | id in q ensures s.Handle(f(id)) in gone <==> id in drop {
      if s.Handle(f(id)) in gone {
        var b :| b in t.active * drop && s.Handle(f(b)) == s.Handle(f(id));
        if id != b { DifferentHandles(s, t, id, b); }
      }
      if id in drop { assert id in t.active * drop; }
    }
    MapRemaining(s, f, q, drop, gone);
  }

  lemma RingSize(accounts: map<string, Registration>, active: set<string>)
    ensures |Ring(accounts, active)| == |active|
  {
    var q := Listing(active);
    ListedMultiset(q, active);
    assert |multiset(q)| == |q| && |multiset(active)| == |active|;
  }

  lemma InRing(accounts: map<string, Registration>, active: set<string>, id: string) returns (i: nat)
    requires id in active
    ensures i < |Ring(accounts, active)| && Ring(accounts, active)[i] == AccountAt(accounts)(id)
    ensures Listing(active)[i] == id
  {
    var q := Listing(active);
    assert id in q;
    i :| i < |q| && q[i] == id;
  }

  // --- joining, leaving and revoking ------------------------------------------------------------

  ghost predicate NewHandle(s: Suite, t: State, a: Account) {
    forall id | id in t.active :: s.Handle(AccountAt(t.accounts)(id)) != s.Handle(a)
  }

  /** What a join needs: room, and a valid account of an unrevoked user whose handle is new and does
      not cancel the trapdoor. */
  ghost predicate MayJoin(s: Suite, t: State, account: string)
    requires s.Valid()
  {
    && t.params.Some? && account in t.accounts && account !in t.active
    && t.accounts[account].userId !in t.ledger.revoked
    && var p, a := t.params.value, t.accounts[account].account;
    && |t.active| + 1 < |p.powers| && |t.active| + 1 < TWO32
    && s.Member(a).Ok? && !Cancels(s, p, a) && NewHandle(s, t, a)
  }

  lemma HandleIsNew(s: Suite, t: State, a: Account)
    ensures var ring := Ring(t.accounts, t.active);
            NewHandle(s, t, a) <==> forall i | 0 <= i < |ring| :: s.Handle(ring[i]) != s.Handle(a)
  {
    hide Suite.Handle;
    var q, ring := Listing(t.active), Ring(t.accounts, t.active);
    forall i | 0 <= i < |ring| ensures q[i] in t.active && ring[i] == AccountAt(t.accounts)(q[i]) {
      assert q[i] in q;
    }
    if forall i | 0 <= i < |ring| :: s.Handle(ring[i]) != s.Handle(a) {
      forall id | id in t.active ensures s.Handle(AccountAt(t.accounts)(id)) != s.Handle(a) {
        var i := InRing(t.accounts, t.active, id);
      }
    }
  }

  lemma JoinNeeds(s: Suite, t: State, account: string)
    requires s.Valid() && RingValid(s, t) && t.params.Some? && account in t.accounts
    ensures var a, snap := t.accounts[account].account, NewSnapshot(s, t.params.value, Ring(t.accounts, t.active)).value;
            MayJoin(s, t, account) <==> t.accounts[account].userId !in t.ledger.revoked && Join(s, snap, a).Ok?
  {
    hide AccumulatorOf, Suite.Handle, Suite.Member, Cancels, ParamsOk, Ring, IsPrime;
    var a, snap := t.accounts[account].account, NewSnapshot(s, t.params.value, Ring(t.accounts, t.active)).value;
    RingSize(t.accounts, t.active);
    JoinExact(s, snap, a);
    HandleIsNew(s, t, a);
    if account in t.active { assert AccountAt(t.accounts)(account) == a; }
  }

  /** In every reachable state a join is granted exactly under MayJoin. The new ring's accumulator is
      the old one raised to the new handle plus the trapdoor. */
  lemma EnterExact(s: Suite, t: State, account: string, io: Io)
    requires s.Valid() && Invariant(s, t)
    ensures EnterStep(s, t, account, io).1 <==> MayJoin(s, t, account) && Acked(t, io)
    ensures !MayJoin(s, t, account) ==> EnterStep(s, t, account, io).0 == t
    ensures MayJoin(s, t, account) ==>
              var t' := EnterStep(s, t, account, io).0;
              var old', new' := NewSnapshot(s, t.params.value, Ring(t.accounts, t.active)),
                                NewSnapshot(s, t.params.value, Ring(t'.accounts, t'.active));
              && t'.active == t.active + {account} && old'.Ok? && new'.Ok?
              && new'.value.value == (old'.value.value * (s.Handle(t.accounts[account].account) + t.params.value.hTau)) % s.r
  {
    hide PeopleOk, LedgersOk, ReleasesOk, AcceptedOk, LedgerOk, LedgerLe, IsPrime, Ring, AccumulatorOf, ParamsOk, MayJoin,
         Suite.Handle, Suite.Member, Join;
    if t.params.Some? && account in t.accounts {
      JoinNeeds(s, t, account);
      if MayJoin(s, t, account) { EnterValue(s, t, account); }
    } else {
      NeedsAccount(s, t, account);
    }
  }

  lemma NeedsAccount(s: Suite, t: State, account: string)
    requires s.Valid()
    ensures MayJoin(s, t, account) ==> t.params.Some? && account in t.accounts && account !in t.active
  {
  }

  lemma EnterValue(s: Suite, t: State, account: string)
    requires s.Valid() && RingValid(s, t) && MayJoin(s, t, account)
    ensures t.params.Some? && account in t.accounts
    ensures var old', new' := NewSnapshot(s, t.params.value, Ring(t.accounts, t.active)),
                              NewSnapshot(s, t.params.value, Ring(t.accounts, t.active + {account}));
            && old'.Ok? && new'.Ok?
            && new'.value.value == (old'.value.value * (s.Handle(t.accounts[account].account) + t.params.value.hTau)) % s.r
  {
    hide IsPrime, Ring, ParamsOk, AccumulatorOf, Suite.Handle, Suite.Member, MayJoin;
    NeedsAccount(s, t, account);
    JoinNeeds(s, t, account);
    var p, ring := t.params.value, Ring(t.accounts, t.active);
    var snap := NewSnapshot(s, p, ring).value;
    JoinValue(s, snap, t.accounts[account].account);
    RingInsert(t.accounts, t.active, account);
    OrderIndependent(s, p, ring + [AccountAt(t.accounts)(account)], Ring(t.accounts, t.active + {account}));
  }

  /** Every active account is registered, valid, and in the ring of a service that is set up. */
  lemma ActiveAccount(s: Suite, t: State, id: string) returns (i: nat)
    requires s.Valid() && Invariant(s, t) && id in t.active
    ensures t.params.Some? && id in t.accounts && s.Member(t.accounts[id].account).Ok?
    ensures NewSnapshot(s, t.params.value, Ring(t.accounts, t.active)).Ok?
    ensures i < |Ring(t.accounts, t.active)| && Ring(t.accounts, t.active)[i] == t.accounts[id].account
  {
    hide LedgersOk, ReleasesOk, AcceptedOk, AccountOk, IsPrime, AccumulatorOf, ParamsOk, Suite.Member, Ring, Blank;
    i := InRing(t.accounts, t.active, id);
    ValueOfRing(s, t.params.value, Ring(t.accounts, t.active));
  }

  /** In every reachable state exactly the active accounts can leave. The new ring is what Exit makes
      of the old one: all other accounts in their order, and an accumulator that is the old one
      divided by the departing handle plus the trapdoor. */
  lemma LeaveExact(s: Suite, t: State, account: string, io: Io)
    requires s.Valid() && Invariant(s, t)
    ensures LeaveStep(s, t, account, io).1 <==> account in t.active && Acked(t, io)
    ensures account !in t.active ==> LeaveStep(s, t, account, io).0 == t
    ensures account in t.active ==>
              var t' := LeaveStep(s, t, account, io).0;
              && t.params.Some? && account in t.accounts && t'.active == t.active - {account}
              && var handle, old', new' := s.Handle(t.accounts[account].account),
                   NewSnapshot(s, t.params.value, Ring(t.accounts, t.active)),
                   NewSnapshot(s, t.params.value, Ring(t'.accounts, t'.active));
              && old'.Ok? && new'.Ok? && ExitOf(s, old'.value, handle) == new'
              && (new'.value.value * (handle + t.params.value.hTau)) % s.r == old'.value.value
  {
    hide PeopleOk, LedgersOk, ReleasesOk, AcceptedOk, LedgerOk, LedgerLe, IsPrime, Ring, AccumulatorOf, ParamsOk,
         Suite.Handle, Suite.Member, ExitOf;
    if account in t.active {
      var i := ActiveAccount(s, t, account);
      var snap := NewSnapshot(s, t.params.value, Ring(t.accounts, t.active)).value;
      ExitSucceeds(s, snap, i);
      LeaveRing(s, t, account);
    }
  }

  lemma LeaveRing(s: Suite, t: State, account: string)
    requires s.Valid() && RingValid(s, t) && account in t.active && account in t.accounts && t.params.Some?
    requires NewSnapshot(s, t.params.value, Ring(t.accounts, t.active)).Ok?
    requires ExitOf(s, NewSnapshot(s, t.params.value, Ring(t.accounts, t.active)).value, s.Handle(t.accounts[account].account)).Ok?
    ensures ExitOf(s, NewSnapshot(s, t.params.value, Ring(t.accounts, t.active)).value, s.Handle(t.accounts[account].account))
            == NewSnapshot(s, t.params.value, Ring(t.accounts, t.active - {account}))
  {
    RingDrop(s, t, {account});
    hide IsPrime, Ring, AccumulatorOf, ParamsOk, Suite.Handle;
    assert t.active * {account} == {account};
    assert HandlesOf(s, t.accounts, {account}) == {s.Handle(t.accounts[account].account)};
  }

  /** A revocation is granted exactly for a known user of a service that is set up. It deactivates
      exactly that user's accounts: the new ring is what exits for their handles, one after the
      other and in any order, make of the old one. */
  lemma RevokeExact(s: Suite, t: State, user: string, io: Io, members: seq<int>)
    requires s.Valid() && Invariant(s, t)
    requires Distinct(members) && Elements(members) == HandlesOf(s, t.accounts, t.active * Owned(t.accounts, user))
    ensures RevokeStep(t, user, io).1 <==> t.params.Some? && user in t.users && Acked(t, io)
    ensures t.params.None? || user !in t.users ==> RevokeStep(t, user, io).0 == t
    ensures t.params.Some? && user in t.users ==>
              var t' := RevokeStep(t, user, io).0;
              && (forall id :: id in t'.active <==> id in t.active && id in t.accounts && t.accounts[id].userId != user)
              && t'.ledger.revoked == t.ledger.revoked + {user}
              && var old', new' := NewSnapshot(s, t.params.value, Ring(t.accounts, t.active)),
                   NewSnapshot(s, t.params.value, Ring(t'.accounts, t'.active));
              && old'.Ok? && new'.Ok? && ExitAll(s, old'.value, members) == new'
  {
    hide LedgersOk, ReleasesOk, AcceptedOk, IsPrime, AccountOk, Blank, Ring, NewSnapshot, ParamsOk, ExitAll, HandlesOf;
    ActiveUnrevoked(s, t);
    if t.params.Some? && user in t.users {
      ShrinkRing(s, t, t.active - Owned(t.accounts, user));
      RevokeRing(s, t, user, members);
    }
  }

  lemma RevokeRing(s: Suite, t: State, user: string, members: seq<int>)
    requires s.Valid() && RingValid(s, t) && t.params.Some?
    requires NewSnapshot(s, t.params.value, Ring(t.accounts, t.active)).Ok?
    requires Distinct(members) && Elements(members) == HandlesOf(s, t.accounts, t.active * Owned(t.accounts, user))
    ensures ExitAll(s, NewSnapshot(s, t.params.value, Ring(t.accounts, t.active)).value, members)
            == NewSnapshot(s, t.params.value, Ring(t.accounts, t.active - Owned(t.accounts, user)))
  {
    hide IsPrime, AccumulatorOf, ParamsOk, Suite.Handle, ExitAll;
    var ring := Ring(t.accounts, t.active);
    forall m | m in members ensures m in Handles(s, ring) {
      assert m in Elements(members);
      var id :| id in t.active && s.Handle(AccountAt(t.accounts)(id)) == m;
      var i := InRing(t.accounts, t.active, id);
      assert Handles(s, ring)[i] == m;
    }
    RingDrop(s, t, Owned(t.accounts, user));
    hide Ring, HandlesOf;
    ExitAllKeeps(s, NewSnapshot(s, t.params.value, ring).value, members);
  }

  // --- registering, signing and verifying ----------------------------------------------------------

  /** The secret an account of the user would get. */
  function SecretOf(t: State, user: string, x: int): int {
    if user in t.users then t.users[user].x else x
  }

  /** What key generation needs: fresh names, an unrevoked user, and canonical scalars. */
  ghost predicate MayRegister(s: Suite, t: State, user: string, account: string, x: int, d: int)
    requires s.Valid()
  {
    && t.params.Some? && !Blank(user) && !Blank(account)
    && account !in t.accounts && user !in t.ledger.revoked
    && (user in t.users || s.SecpScalar(x)) && s.SecpScalar(d)
  }

  /** In every reachable state key generation is granted exactly under MayRegister. A known user's
      account gets that user's secret. */
  lemma KeygenExact(s: Suite, t: State, user: string, account: string, x: int, d: int, io: Io)
    requires s.Valid() && Invariant(s, t)
    ensures KeygenStep(s, t, user, account, x, d, io).1 <==> MayRegister(s, t, user, account, x, d) && Acked(t, io)
    ensures !MayRegister(s, t, user, account, x, d) ==> KeygenStep(s, t, user, account, x, d, io).0 == t
    ensures MayRegister(s, t, user, account, x, d) ==>
              var t', secret := KeygenStep(s, t, user, account, x, d, io).0, SecretOf(t, user, x);
              t'.accounts == if Acked(t, io) then t.accounts[account := Registration(user, Account(d, (d * secret) % s.ell, Some(d)))]
                             else t.accounts
  {
    hide LedgersOk, ReleasesOk, AcceptedOk, RingValid, IsPrime, Blank, Suite.NewAccount;
    s.NewAccountSucceeds(SecretOf(t, user, x), d);
  }

  /** The hashes of the request give usable seeds, a challenge and tags for the counter. */
  ghost predicate HashesFit(s: Suite, p: Params, ring: seq<Account>, x: int, issue: Digest, message: Digest,
                            timestamp: nat, k: nat, counter: nat)
    requires s.Valid()
  {
    && Seeds(s, x, issue).Ok?
    && var seeds := Seeds(s, x, issue).value;
    && var c := Challenge(s, Draft(s, p, ring, x, seeds, issue, message, timestamp, k));
    && c.Ok? && s.GoodSecp(s.issuePoint(issue))
    && Denominator(s.ell, seeds.0, counter) != 0 && Denominator(s.ell, seeds.1, counter) != 0
    && TraceTag(s.ell, x, s.issuePoint(issue), c.value, seeds.1, counter) != 0
  }

  /** The signer of an account. */
  function SignerOf(t: State, account: string): Signer {
    if account in t.accounts && t.accounts[account].userId in t.users then t.users[t.accounts[account].userId]
    else Signer(0, map[])
  }

  /** The issue has no quota yet, or this one. */
  predicate QuotaFits(t: State, issue: Digest, k: nat) {
    k != 0 && (issue in t.ledger.policies ==> t.ledger.policies[issue] == k)
  }

  /** What a signing request needs: an active account, the issue's quota, and a counter left. */
  ghost predicate MaySign(s: Suite, t: State, account: string, issue: Digest, k: nat, message: Digest, timestamp: nat)
    requires s.Valid()
  {
    && account in t.active && t.params.Some? && QuotaFits(t, issue, k)
    && var signer := SignerOf(t, account);
    && Count(signer.next, issue) < k
    && HashesFit(s, t.params.value, Ring(t.accounts, t.active), signer.x, issue, message, timestamp, k,
                 Count(signer.next, issue))
  }

  /** In every reachable state nothing else stops an active account from signing. */
  lemma SignExact(s: Suite, t: State, account: string, issue: Digest, k: nat, message: Digest, timestamp: nat)
    requires s.Valid() && Invariant(s, t)
    ensures CanSign(s, t, account, issue, k, message, timestamp) <==> MaySign(s, t, account, issue, k, message, timestamp)
  {
    hide LedgersOk, ReleasesOk, AcceptedOk, IsPrime, Blank, Ring, AccumulatorOf, ParamsOk, Seeds, Challenge, Draft,
         Denominator, TraceTag, RingOk, Suite.Member;
    if account in t.active {
      var i := ActiveAccount(s, t, account);
      SelectedOwn(s, t, account);
      NonemptyContext(s, t, issue, k);
    }
  }

  /** The selected account of a sign request belongs to its signer. */
  lemma SelectedOwn(s: Suite, t: State, account: string)
    requires s.Valid() && PeopleOk(s, t) && account in t.active
    ensures account in t.accounts && t.accounts[account].userId in t.users && t.accounts[account].account.d.Some?
    ensures OwnsSelected(s, Ring(t.accounts, t.active), IndexOf(Listing(t.active), account),
                         t.users[t.accounts[account].userId].x, t.accounts[account].account.d.value)
  {
    hide IsPrime, Blank;
  }

  /** The current ring makes a verification context for a positive quota exactly if it is not empty. */
  lemma NonemptyContext(s: Suite, t: State, issue: Digest, k: nat)
    requires s.Valid() && RingValid(s, t) && t.params.Some?
    ensures ContextOk(s, Context(t.params.value, Ring(t.accounts, t.active), issue, k)) <==> k > 0 && t.active != {}
  {
    hide IsPrime, ParamsOk, Suite.Handle, Suite.Member, RingValue, Ring;
    RingSize(t.accounts, t.active);
  }

  /** What verification needs: the pinned quota, a member, an envelope not seen before, a proof, and
      exactly the statement the verifier would write itself. */
  ghost predicate MayVerify(s: Suite, t: State, issue: Digest, k: nat, digest: Digest, text: seq<byte>, st: Statement, proves: bool)
    requires s.Valid()
  {
    && t.params.Some? && issue in t.ledger.policies && t.ledger.policies[issue] == k
    && t.active != {} && digest !in t.ledger.seen && proves
    && 0 < st.nym < s.r && 0 < st.s < s.ell && 0 < st.t < s.ell
    && Expected(s, Context(t.params.value, Ring(t.accounts, t.active), issue, k), text, st.nym, st.s, st.t, st.timestamp) == Ok(st)
  }

  lemma VerifyExact(s: Suite, t: State, issue: Digest, k: nat, digest: Digest, text: seq<byte>, st: Statement, proves: bool, io: Io)
    requires s.Valid() && Invariant(s, t)
    ensures var (t', ok) := VerifyStep(s, t, issue, k, digest, Passes(s, t, issue, k, text, st, proves), io);
            && (ok <==> MayVerify(s, t, issue, k, digest, text, st, proves) && Acked(t, io))
            && (!MayVerify(s, t, issue, k, digest, text, st, proves) ==> t' == t)
  {
    VerifyNeeds(s, t, issue, k, digest, text, st, proves);
    hide Invariant, IsPrime, Ring, ContextOk, Passes, MayVerify, PolicyOk;
  }

  lemma VerifyNeeds(s: Suite, t: State, issue: Digest, k: nat, digest: Digest, text: seq<byte>, st: Statement, proves: bool)
    requires s.Valid() && Invariant(s, t)
    ensures MayVerify(s, t, issue, k, digest, text, st, proves) <==>
            && t.params.Some? && PolicyOk(t.ledger, issue, k, false)
            && ContextOk(s, Context(t.params.value, Ring(t.accounts, t.active), issue, k))
            && digest !in t.ledger.seen && Passes(s, t, issue, k, text, st, proves)
  {
    hide PeopleOk, ReleasesOk, AcceptedOk, IsPrime, Ring, AccumulatorOf, ParamsOk, Expected, Check, ContextOk, LedgerLe, Blank;
    if t.params.Some? {
      CheckMeans(s, Context(t.params.value, Ring(t.accounts, t.active), issue, k), text, st);
      NonemptyContext(s, t, issue, k);
    }
  }

  /** A persistent service in a reachable state always restarts, whichever version of its ledger it finds. */
  lemma RestartExact(s: Suite, t: State, crash: bool)
    requires s.Valid() && Invariant(s, t)
    ensures RestartStep(t, crash).1 <==> t.persistent
    ensures !t.persistent ==> RestartStep(t, crash).0 == t
  {
    hide PeopleOk, RingValid, ReleasesOk, AcceptedOk, IsPrime, LedgerLe, LedgerOk;
    if t.persistent {
      LedgerLeTransitive(t.durable, t.visible, t.ledger);
      LedgerLeOk(t.durable, t.ledger);
      LedgerLeOk(t.visible, t.ledger);
    }
  }

  // --- every request ------------------------------------------------------------------------------------

  /** The request takes effect in memory. */
  ghost predicate Granted(s: Suite, t: State, op: Op)
    requires s.Valid()
  {
    match op
    case SetUp(p, io) => t.params.None? && ParamsOk(s.r, p)
    case Keygen(user, account, x, d, io) => MayRegister(s, t, user, account, x, d)
    case Enter(account, io) => MayJoin(s, t, account)
    case Leave(account, io) => account in t.active
    case Revoke(user, io) => t.params.Some? && user in t.users
    case Sign(account, issue, k, message, ts, prover, io) => MaySign(s, t, account, issue, k, message, ts) && !prover.ProofFails?
    case Verify(issue, k, digest, text, st, proves, io) => MayVerify(s, t, issue, k, digest, text, st, proves)
    case Flush => true
    case Restart(crash) => t.persistent
  }

  /** Nothing after that fails: encoding the signature, writing the ledger. */
  predicate Completes(t: State, op: Op) {
    match op
    case Sign(account, issue, k, message, ts, prover, io) => prover.Proves? && Acked(t, io)
    case Flush => true
    case Restart(crash) => true
    case _ => Acked(t, op.io)
  }

  /** In every reachable state a request is answered with success exactly if it is granted and
      completes, and a request that is not granted changes nothing. */
  lemma StepExact(s: Suite, t: State, op: Op)
    requires s.Valid() && Invariant(s, t)
    ensures Step(s, t, op).1 <==> Granted(s, t, op) && Completes(t, op)
    ensures !Granted(s, t, op) ==> Step(s, t, op).0 == t
  {
    hide Invariant, IsPrime, ParamsOk, KeygenStep, EnterStep, LeaveStep, RevokeStep, VerifyStep, RestartStep, CanSign, Ring,
         MayRegister, MayJoin, MaySign, MayVerify, Passes, HandlesOf;
    match op
    case SetUp(p, io) =>
    case Keygen(user, account, x, d, io) => KeygenExact(s, t, user, account, x, d, io);
    case Enter(account, io) => EnterExact(s, t, account, io);
    case Leave(account, io) => LeaveExact(s, t, account, io);
    case Revoke(user, io) => RevokeAnswer(t, user, io);
    case Sign(account, issue, k, message, ts, prover, io) =>
      SignExact(s, t, account, issue, k, message, ts);
      SignAnswer(s, t, account, issue, k, message, ts, prover, io);
    case Verify(issue, k, digest, text, st, proves, io) => VerifyExact(s, t, issue, k, digest, text, st, proves, io);
    case Flush =>
    case Restart(crash) => RestartExact(s, t, crash);
  }

  lemma RevokeAnswer(t: State, user: string, io: Io)
    ensures RevokeStep(t, user, io).1 <==> t.params.Some? && user in t.users && Acked(t, io)
    ensures t.params.None? || user !in t.users ==> RevokeStep(t, user, io).0 == t
  {
  }

  lemma SignAnswer(s: Suite, t: State, account: string, issue: Digest, k: nat, message: Digest, timestamp: nat,
                   prover: ProverOutcome, io: Io)
    requires s.Valid()
    ensures var can := CanSign(s, t, account, issue, k, message, timestamp) && !prover.ProofFails?;
            var (t', ok) := SignStep(s, t, account, issue, k, message, timestamp, prover, io);
            && (ok <==> can && prover.Proves? && Acked(t, io))
            && (!can ==> t' == t)
  {
    hide IsPrime, Signable, ContextOk, Ring, PolicyOk;
  }

  /** A new process: nothing but the ledger carries over. */
  predicate Restarted(t: State, op: Op) {
    op.Restart? && t.persistent
  }

  lemma KeygenFrame(s: Suite, t: State, user: string, account: string, x: int, d: int, io: Io)
    requires s.Valid()
    ensures var t' := KeygenStep(s, t, user, account, x, d, io).0;
            t' == t.(users := t'.users, accounts := t'.accounts, visible := t'.visible, durable := t'.durable)
  {
    hide IsPrime, Blank, Suite.NewAccount;
  }

  lemma RingFrames(s: Suite, t: State, account: string, io: Io)
    requires s.Valid()
    ensures var t' := EnterStep(s, t, account, io).0;
            t' == t.(active := t'.active, visible := t'.visible, durable := t'.durable)
    ensures var t' := LeaveStep(s, t, account, io).0;
            t' == t.(active := t'.active, visible := t'.visible, durable := t'.durable)
  {
    hide IsPrime, NewSnapshot, ExitOf, Join, Suite.Member, Suite.Handle, Ring;
  }

  lemma RevokeFrame(t: State, user: string, io: Io)
    ensures var t' := RevokeStep(t, user, io).0;
            t' == t.(active := t'.active, ledger := t.ledger.(revoked := t'.ledger.revoked),
                     visible := t'.visible, durable := t'.durable, acked := t.acked.(revoked := t'.acked.revoked))
  {
  }

  lemma SignFrame(s: Suite, t: State, account: string, issue: Digest, k: nat, message: Digest, timestamp: nat,
                  prover: ProverOutcome, io: Io)
    requires s.Valid()
    ensures var t' := SignStep(s, t, account, issue, k, message, timestamp, prover, io).0;
            t' == t.(users := t'.users, ledger := t.ledger.(policies := t'.ledger.policies), visible := t'.visible,
                     durable := t'.durable, released := t'.released, acked := t.acked.(policies := t'.acked.policies))
  {
    hide IsPrime, Signable, ContextOk, Ring, PolicyOk;
  }

  lemma VerifyFrame(s: Suite, t: State, issue: Digest, k: nat, digest: Digest, valid: bool, io: Io)
    requires s.Valid()
    ensures var t' := VerifyStep(s, t, issue, k, digest, valid, io).0;
            t' == t.(ledger := t.ledger.(seen := t'.ledger.seen), visible := t'.visible, durable := t'.durable,
                     accepted := t'.accepted, acked := t.acked.(seen := t'.acked.seen))
  {
    hide IsPrime, ContextOk, Ring, PolicyOk;
  }

  /** Which parts of the state each request can touch. */
  lemma StepFrame(s: Suite, t: State, op: Op)
    requires s.Valid()
    ensures var t' := Step(s, t, op).0;
            match op
            case SetUp(p, io) => t' == t.(params := t'.params, visible := t'.visible, durable := t'.durable)
            case Keygen(user, account, x, d, io) =>
              t' == t.(users := t'.users, accounts := t'.accounts, visible := t'.visible, durable := t'.durable)
            case Enter(account, io) => t' == t.(active := t'.active, visible := t'.visible, durable := t'.durable)
            case Leave(account, io) => t' == t.(active := t'.active, visible := t'.visible, durable := t'.durable)
            case Revoke(user, io) =>
              t' == t.(active := t'.active, ledger := t.ledger.(revoked := t'.ledger.revoked),
                       visible := t'.visible, durable := t'.durable, acked := t.acked.(revoked := t'.acked.revoked))
            case Sign(account, issue, k, message, ts, prover, io) =>
              t' == t.(users := t'.users, ledger := t.ledger.(policies := t'.ledger.policies), visible := t'.visible,
                       durable := t'.durable, released := t'.released, acked := t.acked.(policies := t'.acked.policies))
            case Verify(issue, k, digest, text, st, proves, io) =>
              t' == t.(ledger := t.ledger.(seen := t'.ledger.seen), visible := t'.visible, durable := t'.durable,
                       accepted := t'.accepted, acked := t.acked.(seen := t'.acked.seen))
            case Flush => t' == t.(durable := t.visible)
            case Restart(crash) => t'.persistent == t.persistent && t'.accepted == t.accepted && t'.acked == t.acked
  {
    hide IsPrime, ParamsOk, LedgerOk, Passes, KeygenStep, EnterStep, LeaveStep, RevokeStep, SignStep, VerifyStep;
    match op
    case Keygen(user, account, x, d, io) => KeygenFrame(s, t, user, account, x, d, io);
    case Enter(account, io) => RingFrames(s, t, account, io);
    case Leave(account, io) => RingFrames(s, t, account, io);
    case Revoke(user, io) => RevokeFrame(t, user, io);
    case Sign(account, issue, k, message, ts, prover, io) => SignFrame(s, t, account, issue, k, message, ts, prover, io);
    case Verify(issue, k, digest, text, st, proves, io) =>
      VerifyFrame(s, t, issue, k, digest, Passes(s, t, issue, k, text, st, proves), io);
    case _ =>
  }

  /** An account is active after a request exactly if it was active and neither left nor lost its
      user nor its process, or if it just joined. */
  lemma MembershipExact(s: Suite, t: State, op: Op, id: string)
    requires s.Valid() && Invariant(s, t)
    ensures id in Step(s, t, op).0.active <==>
            || (op.Enter? && op.account == id && MayJoin(s, t, id))
            || (&& id in t.active && id in t.accounts && !Restarted(t, op)
                && !(op.Leave? && op.account == id)
                && !(op.Revoke? && op.user == t.accounts[id].userId))
  {
    hide Invariant, IsPrime, Step, MayJoin;
    ActiveOwner(s, t, id);
    StepActive(s, t, op);
  }

  lemma StepActive(s: Suite, t: State, op: Op)
    requires s.Valid() && Invariant(s, t)
    ensures Step(s, t, op).0.active ==
            match op
            case Enter(account, io) => if MayJoin(s, t, account) then t.active + {account} else t.active
            case Leave(account, io) => t.active - {account}
            case Revoke(user, io) => if t.params.Some? && user in t.users then t.active - Owned(t.accounts, user) else t.active
            case Restart(crash) => if t.persistent then {} else t.active
            case _ => t.active
  {
    hide Invariant, IsPrime, ParamsOk, KeygenStep, EnterStep, LeaveStep, VerifyStep, SignStep, RestartStep, MayJoin,
         Passes, Owned, LedgerOk;
    StepFrame(s, t, op);
    match op
    case Enter(account, io) => RingMoves(s, t, account, io);
    case Leave(account, io) => RingMoves(s, t, account, io);
    case Restart(crash) => RestartClears(s, t, crash);
    case _ =>
  }

  lemma RingMoves(s: Suite, t: State, account: string, io: Io)
    requires s.Valid() && Invariant(s, t)
    ensures EnterStep(s, t, account, io).0.active == if MayJoin(s, t, account) then t.active + {account} else t.active
    ensures LeaveStep(s, t, account, io).0.active == t.active - {account}
  {
    hide Invariant, IsPrime, ParamsOk, EnterStep, LeaveStep, MayJoin, NewSnapshot, Ring, ExitOf, Suite.Handle;
    EnterExact(s, t, account, io);
    LeaveExact(s, t, account, io);
    if account !in t.active { assert t.active - {account} == t.active; }
  }

  lemma RestartClears(s: Suite, t: State, crash: bool)
    requires s.Valid() && Invariant(s, t)
    ensures var t', l := RestartStep(t, crash).0, if crash then t.durable else t.visible;
            t' == if t.persistent then State(None, map[], map[], {}, l, true, l, t.durable, [], t.accepted, t.acked) else t
  {
    RestartExact(s, t, crash);
    hide Invariant, IsPrime, LedgerOk;
  }

  lemma ActiveOwner(s: Suite, t: State, id: string)
    requires s.Valid() && Invariant(s, t)
    ensures id in t.active ==> id in t.accounts && t.accounts[id].userId in t.users && t.params.Some?
  {
    hide LedgersOk, ReleasesOk, AcceptedOk, IsPrime, ParamsOk, Ring, Blank, Suite.NewAccount, NewSnapshot;
  }

  /** Accounts are never changed and only lost with the process. The only new one is that of a
      completed key generation, which opens under its user's secret. */
  lemma AccountsExact(s: Suite, t: State, op: Op, id: string)
    requires s.Valid() && Invariant(s, t)
    ensures var t' := Step(s, t, op).0;
            && (id in t.accounts && !Restarted(t, op) ==> id in t'.accounts && t'.accounts[id] == t.accounts[id])
            && (id in t'.accounts && id !in t.accounts <==>
                  op.Keygen? && op.account == id && MayRegister(s, t, op.user, id, op.x, op.d) && Acked(t, op.io))
            && (id in t'.accounts && id !in t.accounts ==>
                  t'.accounts[id] == Registration(op.user, Account(op.d, (op.d * SecretOf(t, op.user, op.x)) % s.ell, Some(op.d))))
            && (Restarted(t, op) ==> t'.accounts == map[])
  {
    hide Invariant, IsPrime, ParamsOk, KeygenStep, EnterStep, LeaveStep, RevokeStep, VerifyStep, SignStep, RestartStep,
         MayRegister, Passes, LedgerOk;
    StepFrame(s, t, op);
    match op
    case Keygen(user, account, x, d, io) =>
      KeygenExact(s, t, user, account, x, d, io);
      FreshAccount(s, t, user, account, x, d);
    case Restart(crash) => RestartClears(s, t, crash);
    case _ =>
  }

  lemma FreshAccount(s: Suite, t: State, user: string, account: string, x: int, d: int)
    requires s.Valid()
    ensures MayRegister(s, t, user, account, x, d) ==> account !in t.accounts
  {
  }

  /** The request spends a counter of the user for the issue. */
  ghost predicate Spends(s: Suite, t: State, op: Op, user: string, issue: Digest)
    requires s.Valid()
  {
    && op.Sign? && op.issue == issue && !op.prover.ProofFails?
    && MaySign(s, t, op.account, issue, op.k, op.message, op.timestamp)
    && op.account in t.accounts && t.accounts[op.account].userId == user
  }

  /** Secrets never change while the process lives, and a user's counter for an issue grows by one
      exactly with each signature that the prover makes for it; a new user starts at zero. */
  lemma CountersExact(s: Suite, t: State, op: Op, user: string, issue: Digest)
    requires s.Valid() && Invariant(s, t)
    ensures var t' := Step(s, t, op).0;
            && (user in t.users && !Restarted(t, op) ==>
                  && user in t'.users && t'.users[user].x == t.users[user].x
                  && Count(t'.users[user].next, issue)
                     == Count(t.users[user].next, issue) + if Spends(s, t, op, user, issue) then 1 else 0)
            && (user in t'.users && user !in t.users <==>
                  op.Keygen? && op.user == user && user !in t.users && MayRegister(s, t, user, op.account, op.x, op.d))
            && (user in t'.users && user !in t.users ==> t'.users[user].x == op.x && Count(t'.users[user].next, issue) == 0)
            && (Restarted(t, op) ==> t'.users == map[])
  {
    hide Invariant, IsPrime, ParamsOk, KeygenStep, EnterStep, LeaveStep, RevokeStep, VerifyStep, SignStep, RestartStep,
         MayRegister, Passes, LedgerOk, MaySign;
    StepFrame(s, t, op);
    match op
    case Keygen(user, account, x, d, io) => KeygenUsers(s, t, user, account, x, d, io);
    case Sign(account, issue, k, message, ts, prover, io) => SignUsers(s, t, account, issue, k, message, ts, prover, io);
    case Restart(crash) => RestartClears(s, t, crash);
    case _ =>
  }

  lemma KeygenUsers(s: Suite, t: State, user: string, account: string, x: int, d: int, io: Io)
    requires s.Valid() && Invariant(s, t)
    ensures KeygenStep(s, t, user, account, x, d, io).0.users
            == if MayRegister(s, t, user, account, x, d) && user !in t.users then t.users[user := Signer(x, map[])] else t.users
  {
    hide LedgersOk, ReleasesOk, AcceptedOk, RingValid, IsPrime, Blank, Suite.NewAccount;
    s.NewAccountSucceeds(SecretOf(t, user, x), d);
  }

  lemma SignUsers(s: Suite, t: State, account: string, issue: Digest, k: nat, message: Digest, timestamp: nat,
                  prover: ProverOutcome, io: Io)
    requires s.Valid() && Invariant(s, t)
    ensures var t' := SignStep(s, t, account, issue, k, message, timestamp, prover, io).0;
            if MaySign(s, t, account, issue, k, message, timestamp) && !prover.ProofFails? then
              && account in t.accounts && t.accounts[account].userId in t.users
              && var user := t.accounts[account].userId;
              t'.users == t.users[user := t.users[user].(next := t.users[user].next[issue := Count(t.users[user].next, issue) + 1])]
            else t'.users == t.users
  {
    hide Invariant, IsPrime, CanSign, MaySign, SignStep;
    SignExact(s, t, account, issue, k, message, timestamp);
    if CanSign(s, t, account, issue, k, message, timestamp) && !prover.ProofFails? {
      SignMoves(s, t, account, issue, k, message, timestamp, prover, io);
    } else {
      SignAnswer(s, t, account, issue, k, message, timestamp, prover, io);
    }
  }

  /** What a signature changes once nothing stands in its way. */
  lemma SignMoves(s: Suite, t: State, account: string, issue: Digest, k: nat, message: Digest, timestamp: nat,
                  prover: ProverOutcome, io: Io)
    requires s.Valid() && CanSign(s, t, account, issue, k, message, timestamp) && !prover.ProofFails?
    ensures account in t.accounts && t.accounts[account].userId in t.users && Count(SignerOf(t, account).next, issue) < k
    ensures var t' := SignStep(s, t, account, issue, k, message, timestamp, prover, io).0;
            var user, signer := t.accounts[account].userId, SignerOf(t, account);
            var count, out := Count(signer.next, issue), prover.Proves? && Acked(t, io);
            && t'.users == t.users[user := signer.(next := signer.next[issue := count + 1])]
            && t'.ledger.policies == (if prover.Proves? then t.ledger.policies[issue := k] else t.ledger.policies)
            && t'.released == (if out then t.released + [Release(user, signer.x, issue, k, count)] else t.released)
            && t'.acked.policies == (if out then t.acked.policies[issue := k] else t.acked.policies)
            && t'.visible == (if prover.Proves? && t.persistent && !io.NotWritten? then t'.ledger else t.visible)
            && t'.durable == (if prover.Proves? && t.persistent && io.Synced? then t'.ledger else t.durable)
  {
    hide IsPrime, Signable, ContextOk, Ring, PolicyOk;
  }

  /** The ledger in memory: a granted revocation adds its user, a proven signature pins its quota, a
      granted verification adds its envelope, and a restart loads what the file holds. */
  lemma LedgerExact(s: Suite, t: State, op: Op)
    requires s.Valid() && Invariant(s, t)
    ensures var l, l' := t.ledger, Step(s, t, op).0.ledger;
            if Restarted(t, op) then l' == if op.crash then t.durable else t.visible
            else
              && l'.revoked == l.revoked + (if op.Revoke? && Granted(s, t, op) then {op.user} else {})
              && l'.policies == (if op.Sign? && Granted(s, t, op) && op.prover.Proves? then l.policies[op.issue := op.k] else l.policies)
              && l'.seen == l.seen + if op.Verify? && Granted(s, t, op) then {op.digest} else {}
  {
    hide Invariant, IsPrime, ParamsOk, KeygenStep, EnterStep, LeaveStep, VerifyStep, SignStep, RestartStep,
         MayRegister, MayJoin, MaySign, MayVerify, Passes, LedgerOk;
    StepFrame(s, t, op);
    match op
    case Sign(account, issue, k, message, ts, prover, io) => SignLedgers(s, t, account, issue, k, message, ts, prover, io);
    case Verify(issue, k, digest, text, st, proves, io) => VerifyMoves(s, t, issue, k, digest, text, st, proves, io);
    case Restart(crash) => RestartClears(s, t, crash);
    case _ =>
  }

  lemma SignLedgers(s: Suite, t: State, account: string, issue: Digest, k: nat, message: Digest, timestamp: nat,
                    prover: ProverOutcome, io: Io)
    requires s.Valid() && Invariant(s, t)
    ensures var granted := MaySign(s, t, account, issue, k, message, timestamp) && !prover.ProofFails?;
            var out := granted && prover.Proves? && Acked(t, io);
            var t' := SignStep(s, t, account, issue, k, message, timestamp, prover, io).0;
            && t'.ledger.policies == (if granted && prover.Proves? then t.ledger.policies[issue := k] else t.ledger.policies)
            && t'.released == (if out && account in t.accounts then
                 t.released + [Release(t.accounts[account].userId, SignerOf(t, account).x, issue, k, Count(SignerOf(t, account).next, issue))]
               else t.released)
            && t'.acked.policies == (if out then t.acked.policies[issue := k] else t.acked.policies)
            && t'.visible == (if granted && prover.Proves? && t.persistent && !io.NotWritten? then t'.ledger else t.visible)
            && t'.durable == (if granted && prover.Proves? && t.persistent && io.Synced? then t'.ledger else t.durable)
            && (granted ==> account in t.accounts)
  {
    hide Invariant, IsPrime, CanSign, MaySign, SignStep;
    SignExact(s, t, account, issue, k, message, timestamp);
    if CanSign(s, t, account, issue, k, message, timestamp) && !prover.ProofFails? {
      SignMoves(s, t, account, issue, k, message, timestamp, prover, io);
    } else {
      SignAnswer(s, t, account, issue, k, message, timestamp, prover, io);
    }
  }

  lemma VerifyMoves(s: Suite, t: State, issue: Digest, k: nat, digest: Digest, text: seq<byte>, st: Statement, proves: bool, io: Io)
    requires s.Valid() && Invariant(s, t)
    ensures var granted := MayVerify(s, t, issue, k, digest, text, st, proves);
            var (t', ok) := VerifyStep(s, t, issue, k, digest, Passes(s, t, issue, k, text, st, proves), io);
            && t'.ledger.seen == t.ledger.seen + (if granted then {digest} else {})
            && t'.accepted == t.accepted + (if ok then [digest] else [])
            && t'.acked.seen == t.acked.seen + (if ok then {digest} else {})
            && t'.visible == (if granted && t.persistent && !io.NotWritten? then t'.ledger else t.visible)
            && t'.durable == (if granted && t.persistent && io.Synced? then t'.ledger else t.durable)
  {
    hide Invariant, IsPrime, MayVerify, Passes, ContextOk, Ring, PolicyOk, VerifyStep;
    VerifyNeeds(s, t, issue, k, digest, text, st, proves);
    VerifyExact(s, t, issue, k, digest, text, st, proves, io);
    if MayVerify(s, t, issue, k, digest, text, st, proves) { Consumed(s, t, issue, k, digest, io); }
  }

  lemma Consumed(s: Suite, t: State, issue: Digest, k: nat, digest: Digest, io: Io)
    requires s.Valid() && t.params.Some? && PolicyOk(t.ledger, issue, k, false) && digest !in t.ledger.seen
    requires ContextOk(s, Context(t.params.value, Ring(t.accounts, t.active), issue, k))
    ensures var (t', ok) := VerifyStep(s, t, issue, k, digest, true, io);
            && t'.ledger.seen == t.ledger.seen + {digest}
            && t'.accepted == t.accepted + (if ok then [digest] else [])
            && t'.acked.seen == t.acked.seen + (if ok then {digest} else {})
            && t'.visible == (if t.persistent && !io.NotWritten? then t'.ledger else t.visible)
            && t'.durable == (if t.persistent && io.Synced? then t'.ledger else t.durable)
  {
    hide IsPrime, ContextOk, Ring, PolicyOk;
  }

  /** The request writes the ledger file: it was granted, and a signature could be encoded. */
  ghost predicate Writes(s: Suite, t: State, op: Op)
    requires s.Valid()
  {
    Granted(s, t, op) && t.persistent && !op.Flush? && !op.Restart? && (op.Sign? ==> op.prover.Proves?)
  }

  /** Both versions of the file after every request: a write that gets as far as the rename is what a
      restart reads, and only a synced one or a flush survives a crash. */
  lemma FilesExact(s: Suite, t: State, op: Op)
    requires s.Valid() && Invariant(s, t)
    ensures var t' := Step(s, t, op).0;
            && t'.visible == (if Restarted(t, op) || (Writes(s, t, op) && !op.io.NotWritten?) then t'.ledger else t.visible)
            && t'.durable == if op.Flush? then t.visible else if Writes(s, t, op) && op.io.Synced? then t'.ledger else t.durable
  {
    hide Invariant, IsPrime, ParamsOk, KeygenStep, EnterStep, LeaveStep, VerifyStep, SignStep, RestartStep,
         MayRegister, MayJoin, MaySign, MayVerify, Passes, LedgerOk;
    StepFrame(s, t, op);
    match op
    case Keygen(user, account, x, d, io) => KeygenFiles(s, t, user, account, x, d, io);
    case Enter(account, io) => RingFiles(s, t, account, io);
    case Leave(account, io) => RingFiles(s, t, account, io);
    case Sign(account, issue, k, message, ts, prover, io) => SignLedgers(s, t, account, issue, k, message, ts, prover, io);
    case Verify(issue, k, digest, text, st, proves, io) => VerifyMoves(s, t, issue, k, digest, text, st, proves, io);
    case Restart(crash) => RestartClears(s, t, crash);
    case _ =>
  }

  lemma KeygenFiles(s: Suite, t: State, user: string, account: string, x: int, d: int, io: Io)
    requires s.Valid() && Invariant(s, t)
    ensures var t', granted := KeygenStep(s, t, user, account, x, d, io).0, MayRegister(s, t, user, account, x, d);
            && t'.visible == (if granted && t.persistent && !io.NotWritten? then t'.ledger else t.visible)
            && t'.durable == (if granted && t.persistent && io.Synced? then t'.ledger else t.durable)
  {
    hide LedgersOk, ReleasesOk, AcceptedOk, RingValid, IsPrime, Blank, Suite.NewAccount;
    s.NewAccountSucceeds(SecretOf(t, user, x), d);
  }

  lemma RingFiles(s: Suite, t: State, account: string, io: Io)
    requires s.Valid() && Invariant(s, t)
    ensures var t', granted := EnterStep(s, t, account, io).0, MayJoin(s, t, account);
            && t'.visible == (if granted && t.persistent && !io.NotWritten? then t'.ledger else t.visible)
            && t'.durable == (if granted && t.persistent && io.Synced? then t'.ledger else t.durable)
    ensures var t', granted := LeaveStep(s, t, account, io).0, account in t.active;
            && t'.visible == (if granted && t.persistent && !io.NotWritten? then t'.ledger else t.visible)
            && t'.durable == (if granted && t.persistent && io.Synced? then t'.ledger else t.durable)
  {
    hide Invariant, IsPrime, MayJoin, NewSnapshot, Join, ExitOf, Ring, Suite.Handle, Suite.Member;
    RingMoves(s, t, account, io);
    EnterAnswer(s, t, account, io);
    LeaveAnswer(s, t, account, io);
    NeedsAccount(s, t, account);
  }

  lemma KeygenAnswer(s: Suite, t: State, user: string, account: string, x: int, d: int, io: Io)
    requires s.Valid() && Invariant(s, t)
    ensures KeygenStep(s, t, user, account, x, d, io).1 <==> MayRegister(s, t, user, account, x, d) && Acked(t, io)
  {
    hide *;
    KeygenExact(s, t, user, account, x, d, io);
  }

  lemma EnterAnswer(s: Suite, t: State, account: string, io: Io)
    requires s.Valid() && Invariant(s, t)
    ensures EnterStep(s, t, account, io).1 <==> MayJoin(s, t, account) && Acked(t, io)
    ensures !MayJoin(s, t, account) ==> EnterStep(s, t, account, io).0 == t
  {
    hide *;
    EnterExact(s, t, account, io);
  }

  lemma LeaveAnswer(s: Suite, t: State, account: string, io: Io)
    requires s.Valid() && Invariant(s, t)
    ensures LeaveStep(s, t, account, io).1 <==> account in t.active && Acked(t, io)
    ensures account !in t.active ==> LeaveStep(s, t, account, io).0 == t
  {
    hide *;
    LeaveExact(s, t, account, io);
  }

  /** The histories: exactly the completed signatures, verifications and revocations. */
  lemma HistoryExact(s: Suite, t: State, op: Op)
    requires s.Valid() && Invariant(s, t)
    ensures var (t', ok) := Step(s, t, op);
            && t'.accepted == t.accepted + (if op.Verify? && ok then [op.digest] else [])
            && t'.acked.revoked == t.acked.revoked + (if op.Revoke? && ok then {op.user} else {})
            && t'.acked.seen == t.acked.seen + (if op.Verify? && ok then {op.digest} else {})
            && t'.acked.policies == (if op.Sign? && ok then t.acked.policies[op.issue := op.k] else t.acked.policies)
            && t'.released == if Restarted(t, op) then []
                 else if op.Sign? && ok && op.account in t.accounts then
                   var signer := SignerOf(t, op.account);
                   t.released + [Release(t.accounts[op.account].userId, signer.x, op.issue, op.k, Count(signer.next, op.issue))]
                 else t.released
    ensures op.Sign? && Step(s, t, op).1 ==> op.account in t.accounts
  {
    hide Invariant, IsPrime, ParamsOk, KeygenStep, EnterStep, LeaveStep, VerifyStep, SignStep, RestartStep,
         MayRegister, MayJoin, MaySign, MayVerify, Passes, LedgerOk, Granted;
    StepFrame(s, t, op);
    match op
    case Sign(account, issue, k, message, ts, prover, io) =>
      SignLedgers(s, t, account, issue, k, message, ts, prover, io);
      SignAnswers(s, t, account, issue, k, message, ts, prover, io);
    case Verify(issue, k, digest, text, st, proves, io) => VerifyMoves(s, t, issue, k, digest, text, st, proves, io);
    case Restart(crash) => RestartClears(s, t, crash);
    case _ =>
  }

  lemma SignAnswers(s: Suite, t: State, account: string, issue: Digest, k: nat, message: Digest, timestamp: nat,
                    prover: ProverOutcome, io: Io)
    requires s.Valid() && Invariant(s, t)
    ensures SignStep(s, t, account, issue, k, message, timestamp, prover, io).1 <==>
            MaySign(s, t, account, issue, k, message, timestamp) && prover.Proves? && Acked(t, io)
  {
    hide Invariant, IsPrime, CanSign, MaySign, SignStep;
    SignExact(s, t, account, issue, k, message, timestamp);
    SignAnswer(s, t, account, issue, k, message, timestamp, prover, io);
  }

  // --- whole runs ---------------------------------------------------------------------------------------

  lemma RunSnoc(s: Suite, t: State, ops: seq<Op>)
    requires s.Valid() && ops != []
    ensures var n := |ops| - 1; Run(s, t, ops) == Step(s, Run(s, t, ops[..n]), ops[n]).0
  {
    hide Step, IsPrime;
    var n := |ops| - 1;
    RunConcat(s, t, ops[..n], [ops[n]]);
    assert ops == ops[..n] + [ops[n]];
  }

  /** The i-th request of a run, in the state it found. */
  ghost predicate Happened(s: Suite, t: State, ops: seq<Op>, i: int)
    requires s.Valid()
  {
    0 <= i < |ops| && Granted(s, Run(s, t, ops[..i]), ops[i]) && Completes(Run(s, t, ops[..i]), ops[i])
  }

  lemma HappenedBefore(s: Suite, t: State, ops: seq<Op>, n: nat, i: int)
    requires s.Valid() && n <= |ops| && 0 <= i < n
    ensures Happened(s, t, ops[..n], i) <==> Happened(s, t, ops, i)
  {
    hide Run, Granted, Completes, IsPrime;
    assert ops[..n][..i] == ops[..i];
  }

  /** Over a whole run, with any crashes and restarts, the accepted envelopes are exactly those of the
      verify requests that found, in their own state, a known issue with its quota, an unseen envelope,
      a proof, and a statement for exactly their message, issue, quota and that state's ring. */
  lemma {:induction false} AcceptedProvenance(s: Suite, t: State, ops: seq<Op>, digest: Digest)
    requires s.Valid() && Invariant(s, t)
    ensures digest in Run(s, t, ops).accepted <==>
            digest in t.accepted || exists i :: Happened(s, t, ops, i) && ops[i].Verify? && ops[i].digest == digest
    decreases |ops|
  {
    hide Step, IsPrime, Invariant, Granted, Completes;
    if ops != [] {
      var n := |ops| - 1;
      var u := Run(s, t, ops[..n]);
      AcceptedProvenance(s, t, ops[..n], digest);
      RunKeeps(s, t, ops[..n]);
      RunSnoc(s, t, ops);
      StepExact(s, u, ops[n]);
      AcceptedNow(s, u, ops[n], digest);
      hide Run;
      forall i | 0 <= i < n ensures Happened(s, t, ops[..n], i) <==> Happened(s, t, ops, i) {
        HappenedBefore(s, t, ops, n, i);
      }
      assert Happened(s, t, ops, n) <==> Step(s, u, ops[n]).1;
      assert forall i | Happened(s, t, ops[..n], i) :: ops[..n][i] == ops[i];
    }
  }

  lemma AcceptedNow(s: Suite, t: State, op: Op, digest: Digest)
    requires s.Valid() && Invariant(s, t)
    ensures digest in Step(s, t, op).0.accepted <==>
            digest in t.accepted || (op.Verify? && op.digest == digest && Step(s, t, op).1)
  {
    hide Step, IsPrime, Invariant;
    HistoryExact(s, t, op);
  }

  /** The request takes an active account out of the ring. */
  predicate Removes(t: State, op: Op, id: string) {
    || Restarted(t, op)
    || (op.Leave? && op.account == id)
    || (op.Revoke? && id in t.accounts && op.user == t.accounts[id].userId)
  }

  /** The i-th request let the account join, and none since took it out. */
  ghost predicate MemberSince(s: Suite, t: State, ops: seq<Op>, id: string, i: int)
    requires s.Valid()
  {
    && 0 <= i < |ops| && ops[i].Enter? && ops[i].account == id && Granted(s, Run(s, t, ops[..i]), ops[i])
    && forall j | i < j < |ops| :: !Removes(Run(s, t, ops[..j]), ops[j], id)
  }

  lemma MemberBefore(s: Suite, t: State, ops: seq<Op>, id: string, i: int)
    requires s.Valid() && ops != []
    ensures var n := |ops| - 1;
            && (i < n ==> (MemberSince(s, t, ops, id, i) <==>
                  MemberSince(s, t, ops[..n], id, i) && !Removes(Run(s, t, ops[..n]), ops[n], id)))
            && (MemberSince(s, t, ops, id, n) <==>
                  ops[n].Enter? && ops[n].account == id && Granted(s, Run(s, t, ops[..n]), ops[n]))
  {
    hide Run, Granted, Removes, IsPrime;
    var n := |ops| - 1;
    assert forall j | 0 <= j < n :: ops[..n][..j] == ops[..j] && ops[..n][j] == ops[j];
  }

  /** Over every run, an account is in the ring at the end exactly if some request let it join and no
      exit, revocation of its user or restart came after that. */
  lemma {:induction false} RingHistory(s: Suite, t: State, ops: seq<Op>, id: string)
    requires s.Valid() && Initial(t)
    ensures id in Run(s, t, ops).active <==> exists i :: MemberSince(s, t, ops, id, i)
    decreases |ops|
  {
    hide Step, IsPrime, Invariant, Granted, MemberSince;
    if ops == [] {
      forall i ensures !MemberSince(s, t, ops, id, i) { NeverMember(s, t, id, i); }
    } else {
      var n := |ops| - 1;
      var u := Run(s, t, ops[..n]);
      RingHistory(s, t, ops[..n], id);
      InitialOk(s, t);
      RunKeeps(s, t, ops[..n]);
      RunSnoc(s, t, ops);
      MemberNow(s, u, ops[n], id);
      hide Run, Removes, MayJoin;
      MemberBefore(s, t, ops, id, n);
      if i :| MemberSince(s, t, ops, id, i) {
        LastMember(s, t, ops, id, i);
        MemberBefore(s, t, ops, id, i);
      }
      if i :| MemberSince(s, t, ops[..n], id, i) {
        LastMember(s, t, ops[..n], id, i);
        MemberBefore(s, t, ops, id, i);
      }
    }
  }

  lemma NeverMember(s: Suite, t: State, id: string, i: int)
    requires s.Valid()
    ensures !MemberSince(s, t, [], id, i)
  {
  }

  lemma LastMember(s: Suite, t: State, ops: seq<Op>, id: string, i: int)
    requires s.Valid()
    ensures MemberSince(s, t, ops, id, i) ==> i < |ops|
  {
  }

  lemma MemberNow(s: Suite, t: State, op: Op, id: string)
    requires s.Valid() && Invariant(s, t)
    ensures id in Step(s, t, op).0.active <==>
            (op.Enter? && op.account == id && Granted(s, t, op)) || (id in t.active && !Removes(t, op, id))
  {
    hide Step, IsPrime, Invariant, MayJoin;
    MembershipExact(s, t, op, id);
    ActiveOwner(s, t, id);
  }

  /** What was acknowledged as revoked stays so: at every later point of the run, across restarts, a
      revoked user registers no account, and no account of theirs joins or signs. */
  lemma RevokedRefused(s: Suite, t: State, before: seq<Op>, after: seq<Op>, user: string, op: Op)
    requires s.Valid() && Initial(t) && user in Run(s, t, before).acked.revoked
    requires var e := Run(s, t, before + after);
             || (op.Keygen? && op.user == user)
             || ((op.Enter? || op.Sign?) && op.account in e.accounts && e.accounts[op.account].userId == user)
    ensures var e := Run(s, t, before + after);
            !Granted(s, e, op) && !Step(s, e, op).1 && Step(s, e, op).0 == e
  {
    hide Run, Step, IsPrime, LedgerOk, Blank, Ring, HashesFit;
    AcknowledgedSurvives(s, t, before, after);
    InitialOk(s, t);
    RunKeeps(s, t, before + after);
    hide Invariant;
    StepExact(s, Run(s, t, before + after), op);
  }

  // --- spending a quota --------------------------------------------------------------------------------

  /** A signing request of one of the user's active accounts that nothing but the quota could stop when
      it comes to use the given counter. */
  ghost predicate Ready(s: Suite, t: State, op: Op, user: string, issue: Digest, k: nat, counter: nat)
    requires s.Valid()
  {
    && op.Sign? && op.issue == issue && op.k == k && op.prover.Proves? && Acked(t, op.io)
    && op.account in t.active && op.account in t.accounts && t.accounts[op.account].userId == user
    && t.params.Some? && user in t.users
    && (counter < k ==>
          HashesFit(s, t.params.value, Ring(t.accounts, t.active), t.users[user].x, issue, op.message, op.timestamp, k, counter))
  }

  /** n signatures with consecutive counters. */
  function Burst(user: string, x: int, issue: Digest, k: nat, first: nat, n: nat): seq<Release> {
    seq(n, i requires 0 <= i < n => Release(user, x, issue, k, first + i))
  }

  /** How many of n requests a quota k still allows after `used`. */
  function Allowed(used: nat, n: nat, k: nat): nat {
    if used + n <= k then n else if used <= k then k - used else 0
  }

  /** Requests in a row are signed with consecutive counters from where the user stands, without a gap
      or a repetition, until the quota is used up and not one request longer. */
  lemma {:induction false} QuotaIsUsable(s: Suite, t: State, ops: seq<Op>, user: string, issue: Digest, k: nat)
    requires s.Valid() && Invariant(s, t) && QuotaFits(t, issue, k) && user in t.users
    requires forall i | 0 <= i < |ops| :: Ready(s, t, ops[i], user, issue, k, Count(t.users[user].next, issue) + i)
    ensures var used := Count(t.users[user].next, issue);
            var n := Allowed(used, |ops|, k);
            var e := Run(s, t, ops);
            && e.released == t.released + Burst(user, t.users[user].x, issue, k, used, n)
            && user in e.users && Count(e.users[user].next, issue) == used + n
    decreases |ops|
  {
    hide Step, IsPrime, Invariant, HashesFit, Ring;
    var used, x := Count(t.users[user].next, issue), t.users[user].x;
    if ops == [] {
      assert Burst(user, x, issue, k, used, 0) == [];
    } else {
      var u := Step(s, t, ops[0]).0;
      assert Ready(s, t, ops[0], user, issue, k, used + 0);
      StepKeeps(s, t, ops[0]);
      SignNow(s, t, ops[0], user, issue, k);
      forall i | 0 <= i < |ops[1..]| ensures Ready(s, u, ops[1..][i], user, issue, k, Count(u.users[user].next, issue) + i) {
        assert Ready(s, t, ops[i + 1], user, issue, k, used + (i + 1));
      }
      QuotaIsUsable(s, u, ops[1..], user, issue, k);
      if used < k {
        BurstFirst(user, x, issue, k, used, Allowed(used + 1, |ops| - 1, k));
      } else {
        assert Burst(user, x, issue, k, used, 0) == [];
      }
    }
  }

  lemma BurstFirst(user: string, x: int, issue: Digest, k: nat, first: nat, n: nat)
    ensures [Release(user, x, issue, k, first)] + Burst(user, x, issue, k, first + 1, n) == Burst(user, x, issue, k, first, n + 1)
  {
  }

  /** One such request: refused at the quota, otherwise signed with the user's counter. */
  lemma SignNow(s: Suite, t: State, op: Op, user: string, issue: Digest, k: nat)
    requires s.Valid() && Invariant(s, t) && QuotaFits(t, issue, k) && user in t.users
    requires Ready(s, t, op, user, issue, k, Count(t.users[user].next, issue))
    ensures var used, u := Count(t.users[user].next, issue), Step(s, t, op).0;
            && u.params == t.params && u.accounts == t.accounts && u.active == t.active && u.persistent == t.persistent
            && user in u.users && u.users[user].x == t.users[user].x && QuotaFits(u, issue, k)
            && (used >= k ==> u == t)
            && (used < k ==>
                  && u.released == t.released + [Release(user, t.users[user].x, issue, k, used)]
                  && Count(u.users[user].next, issue) == used + 1)
  {
    hide Step, IsPrime, Invariant, HashesFit, Ring;
    assert SignerOf(t, op.account) == t.users[user];
    StepExact(s, t, op);
    StepFrame(s, t, op);
    HistoryExact(s, t, op);
    LedgerExact(s, t, op);
    CountersExact(s, t, op, user, issue);
  }

  // --- a signature comes back -----------------------------------------------------------------------------

  /** A signature made for a ring, issue, quota and message is granted verification, in any reachable
      state, exactly if the issue has that quota there, the envelope is new, and the state's ring and
      the presented message bind the same values. */
  lemma SignedGranted(s: Suite, ctx: Context, message: seq<byte>, st: Statement, wit: SecretWitness, x: int, timestamp: nat,
                      t: State, issue: Digest, k: nat, digest: Digest, text: seq<byte>)
    requires s.Valid() && Invariant(s, t) && t.params.Some? && BuiltFor(s, ctx, message, st, wit, x, timestamp)
    ensures MayVerify(s, t, issue, k, digest, text, st, true) <==>
            && issue in t.ledger.policies && t.ledger.policies[issue] == k
            && t.active != {} && digest !in t.ledger.seen
            && SameContext(s, ctx, message, Context(t.params.value, Ring(t.accounts, t.active), issue, k), text)
  {
    hide IsPrime, Invariant, Ring, BuiltFor, Check, Verified, SameContext, Expected, HandleFits;
    var now := Context(t.params.value, Ring(t.accounts, t.active), issue, k);
    SignedVerifies(s, ctx, message, st, wit, x, timestamp, now, text);
    CheckMeans(s, now, text, st);
  }

  /** Signing and then verifying: the statement built for a signing request of the service verifies
      right after it for its message, and for a text with another digest it does not. */
  lemma SignThenVerify(s: Suite, t: State, account: string, issue: Digest, k: nat, text: seq<byte>, timestamp: nat, io: Io,
                       st: Statement, wit: SecretWitness, digest: Digest, presented: seq<byte>)
    requires s.Valid() && Invariant(s, t)
    requires Step(s, t, Sign(account, issue, k, s.sha(text), timestamp, Proves, io)).1 && t.params.Some?
    requires BuiltFor(s, Context(t.params.value, Ring(t.accounts, t.active), issue, k), text, st, wit,
                      SignerOf(t, account).x, timestamp)
    ensures var u := Step(s, t, Sign(account, issue, k, s.sha(text), timestamp, Proves, io)).0;
            MayVerify(s, u, issue, k, digest, presented, st, true) <==> digest !in t.ledger.seen && s.sha(presented) == s.sha(text)
  {
    hide IsPrime, Invariant, Ring, BuiltFor, Step, MayVerify, HashesFit;
    var op := Sign(account, issue, k, s.sha(text), timestamp, Proves, io);
    var u := Step(s, t, op).0;
    var ctx := Context(t.params.value, Ring(t.accounts, t.active), issue, k);
    StepExact(s, t, op);
    StepKeeps(s, t, op);
    StepFrame(s, t, op);
    LedgerExact(s, t, op);
    SignedGranted(s, ctx, text, st, wit, SignerOf(t, account).x, timestamp, u, issue, k, digest, presented);
  }
}
