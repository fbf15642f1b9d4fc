/** The signing service of service.go as a state machine: requests, failures of the prover and
    of the ledger file, crashes and restarts. Its safety holds over every run. */
module Service {
  import opened Sequences
  import opened Common
  import opened Bytes
  import opened Field
  import opened Polynomial
  import opened Suites
  import opened Accumulator
  import opened Snapshots
  import opened Registries
  import opened Circuit
  import opened Tracing
  import opened Text
  import opened Ledgers

  datatype Signer = Signer(x: int, next: map<Digest, nat>)

  /** persistState: everything synced, nothing written, or renamed but not synced. */
  datatype Io = Synced | NotWritten | Unsynced

  datatype ProverOutcome = Proves | ProofFails | MarshalFails

  /** A signature handed to the caller. */
  datatype Release = Release(user: string, x: int, issue: Digest, k: nat, counter: nat)

  datatype State = State(
    params: Option<Params>,
    users: map<string, Signer>,
    accounts: map<string, Registration>,
    active: set<string>,
    ledger: Ledger,
    persistent: bool,
    visible: Ledger,             // what loadState would read now
    durable: Ledger,             // what it would read after a machine crash
    released: seq<Release>,      // history: signatures of this lifetime
    accepted: seq<Digest>,       // history: envelopes verified with ok, over all lifetimes
    acked: Ledger                // history: facts acknowledged with ok, over all lifetimes
  )

  datatype Op =
    | SetUp(p: Params, io: Io)
    | Keygen(user: string, account: string, x: int, d: int, io: Io)
    | Enter(account: string, io: Io)                                        // "join"
    | Leave(account: string, io: Io)                                        // "exit"
    | Revoke(user: string, io: Io)
    | Sign(account: string, issue: Digest, k: nat, message: Digest, timestamp: nat, prover: ProverOutcome, io: Io)
    | Verify(issue: Digest, k: nat, digest: Digest, text: seq<byte>, st: Statement, proves: bool, io: Io)
    | Flush
    | Restart(crash: bool)

  // --- transitions ----------------------------------------------------------------------------

  /** accounts[id], with Go's zero value for a missing key. */
  function AccountAt(accounts: map<string, Registration>): string -> Account {
    (id: string) => if id in accounts then accounts[id].account else Account(0, 0, None)
  }

  /** The active accounts in the order of their ids. */
  ghost function Ring(accounts: map<string, Registration>, active: set<string>): seq<Account> {
    Map(AccountAt(accounts), Listing(active))
  }

  predicate Acked(s: State, io: Io) {
    s.persistent ==> io.Synced?
  }

  function Persist(s: State, io: Io): State {
    if !s.persistent || io.NotWritten? then s
    else if io.Unsynced? then s.(visible := s.ledger)
    else s.(visible := s.ledger, durable := s.ledger)
  }

  /** Service.policy. */
  predicate PolicyOk(l: Ledger, issue: Digest, k: nat, create: bool) {
    k != 0 && if issue in l.policies then l.policies[issue] == k else create
  }

  function Count(next: map<Digest, nat>, issue: Digest): nat {
    if issue in next then next[issue] else 0
  }

  ghost function SetUpStep(s: Suite, t: State, p: Params, io: Io): (State, bool)
    requires s.Valid()
  {
    if t.params.Some? || !ParamsOk(s.r, p) then (t, false)
    else (Persist(t.(params := Some(p)), io), Acked(t, io))
  }

  ghost function KeygenStep(s: Suite, t: State, user: string, account: string, x: int, d: int, io: Io): (State, bool)
    requires s.Valid()
  {
    if t.params.None? || Blank(user) || Blank(account) || account in t.accounts || user in t.ledger.revoked then (t, false)
    else
      var secret := if user in t.users then t.users[user].x else x;
      match s.NewAccount(secret, d)
      case Err => (t, false)
      case Ok(a) => StoreStep(t, user, account, x, a, io)
  }

  /** A new signer stays even if the ledger cannot be written; the account does not. */
  function StoreStep(t: State, user: string, account: string, x: int, a: Account, io: Io): (State, bool) {
    var users := if user in t.users then t.users else t.users[user := Signer(x, map[])];
    if Acked(t, io) then
      (Persist(t.(users := users, accounts := t.accounts[account := Registration(user, a)]), io), true)
    else
      (Persist(t.(users := users), io), false)
  }

  ghost function EnterStep(s: Suite, t: State, account: string, io: Io): (State, bool)
    requires s.Valid()
  {
    if t.params.None? || account !in t.accounts then (t, false)
    else match NewSnapshot(s, t.params.value, Ring(t.accounts, t.active))
      case Err => (t, false)
      case Ok(snap) =>
        var reg := t.accounts[account];
        if reg.userId in t.ledger.revoked || Join(s, snap, reg.account).Err? then (t, false)
        else (Persist(t.(active := t.active + {account}), io), Acked(t, io))
  }

  ghost function LeaveStep(s: Suite, t: State, account: string, io: Io): (State, bool)
    requires s.Valid()
  {
    if t.params.None? || account !in t.accounts then (t, false)
    else match NewSnapshot(s, t.params.value, Ring(t.accounts, t.active))
      case Err => (t, false)
      case Ok(snap) =>
        var reg := t.accounts[account];
        if account !in t.active || s.Member(reg.account).Err? || ExitOf(s, snap, s.Handle(reg.account)).Err? then (t, false)
        else (Persist(t.(active := t.active - {account}), io), Acked(t, io))
  }

  function Owned(accounts: map<string, Registration>, user: string): set<string> {
    set id | id in accounts && accounts[id].userId == user
  }

  function RevokeStep(t: State, user: string, io: Io): (State, bool) {
    if t.params.None? || user !in t.users then (t, false)
    else
      var u := t.(active := t.active - Owned(t.accounts, user),
                  ledger := t.ledger.(revoked := t.ledger.revoked + {user}));
      var v := Persist(u, io);
      if Acked(t, io) then (v.(acked := v.acked.(revoked := v.acked.revoked + {user})), true) else (v, false)
  }

  /** The index of an account in the sorted ring. */
  ghost function IndexOf(q: seq<string>, id: string): (i: nat)
    requires id in q
    ensures i < |q| && q[i] == id
  {
    var i: nat :| i < |q| && q[i] == id;
    i
  }

  /** What the request needs before a counter is spent. */
  ghost predicate CanSign(s: Suite, t: State, account: string, issue: Digest, k: nat, message: Digest, timestamp: nat)
    requires s.Valid()
  {
    && t.params.Some? && PolicyOk(t.ledger, issue, k, true)
    && var p := t.params.value;
    && var ring := Ring(t.accounts, t.active);
    && ContextOk(s, Context(p, ring, issue, k))
    && account in t.active && account in t.accounts && t.accounts[account].userId in t.users
    && var signer := t.users[t.accounts[account].userId];
    && var count := Count(signer.next, issue);
    && count < k && t.accounts[account].account.d.Some?
    && Signable(s, p, ring, IndexOf(Listing(t.active), account), signer.x, t.accounts[account].account.d.value,
                issue, message, timestamp, k, count)
  }

  ghost function SignStep(s: Suite, t: State, account: string, issue: Digest, k: nat, message: Digest, timestamp: nat,
                          prover: ProverOutcome, io: Io): (State, bool)
    requires s.Valid()
  {
    if !CanSign(s, t, account, issue, k, message, timestamp) || prover.ProofFails? then (t, false)
    else
      var user := t.accounts[account].userId;
      var signer := t.users[user];
      var count := Count(signer.next, issue);
      var spent := t.(users := t.users[user := signer.(next := signer.next[issue := count + 1])]);
      if prover.MarshalFails? then (spent, false)
      else
        var v := Persist(spent.(ledger := t.ledger.(policies := t.ledger.policies[issue := k])), io);
        if Acked(t, io) then
          (v.(released := v.released + [Release(user, signer.x, issue, k, count)],
              acked := v.acked.(policies := v.acked.policies[issue := k])), true)
        else (v, false)
  }

  /** Verifier.Verify for the current ring: the context's check, and the proof is accepted. */
  ghost predicate Passes(s: Suite, t: State, issue: Digest, k: nat, message: seq<byte>, st: Statement, proves: bool)
    requires s.Valid()
  {
    && t.params.Some? && proves
    && Check(s, Context(t.params.value, Ring(t.accounts, t.active), issue, k), message, st)
  }

  ghost function VerifyStep(s: Suite, t: State, issue: Digest, k: nat, digest: Digest, valid: bool, io: Io): (State, bool)
    requires s.Valid()
  {
    if t.params.None? || !PolicyOk(t.ledger, issue, k, false)
       || !ContextOk(s, Context(t.params.value, Ring(t.accounts, t.active), issue, k))
       || digest in t.ledger.seen || !valid then (t, false)
    else
      var v := Persist(t.(ledger := t.ledger.(seen := t.ledger.seen + {digest})), io);
      if Acked(t, io) then
        (v.(accepted := v.accepted + [digest], acked := v.acked.(seen := v.acked.seen + {digest})), true)
      else (v, false)
  }

  /** A new process over the ledger file; signers, accounts and the ring start empty. */
  function RestartStep(t: State, crash: bool): (State, bool) {
    var l := if crash then t.durable else t.visible;
    if !t.persistent || !LedgerOk(l) then (t, false)
    else (State(None, map[], map[], {}, l, true, l, t.durable, [], t.accepted, t.acked), true)
  }

  ghost function Step(s: Suite, t: State, op: Op): (State, bool)
    requires s.Valid()
  {
    match op
    case SetUp(p, io) => SetUpStep(s, t, p, io)
    case Keygen(user, account, x, d, io) => KeygenStep(s, t, user, account, x, d, io)
    case Enter(account, io) => EnterStep(s, t, account, io)
    case Leave(account, io) => LeaveStep(s, t, account, io)
    case Revoke(user, io) => RevokeStep(t, user, io)
    case Sign(account, issue, k, message, ts, prover, io) => SignStep(s, t, account, issue, k, message, ts, prover, io)
    case Verify(issue, k, digest, message, st, proves, io) =>
      VerifyStep(s, t, issue, k, digest, Passes(s, t, issue, k, message, st, proves), io)
    case Flush => (t.(durable := t.visible), true)
    case Restart(crash) => RestartStep(t, crash)
  }

  ghost function Run(s: Suite, t: State, ops: seq<Op>): State
    requires s.Valid()
    decreases |ops|
  {
    if ops == [] then t else Run(s, Step(s, t, ops[0]).0, ops[1..])
  }

  // --- the invariant ------------------------------------------------------------------------------

  /** Everything a records, b records too. */
  predicate LedgerLe(a: Ledger, b: Ledger) {
    && a.revoked <= b.revoked && a.seen <= b.seen
    && forall i | i in a.policies :: i in b.policies && b.policies[i] == a.policies[i]
  }

  /** Accounts and users fit together, and nobody revoked is active. */
  ghost predicate PeopleOk(s: Suite, t: State)
    requires s.Valid()
  {
    && (forall u | u in t.users :: s.SecpScalar(t.users[u].x) && !Blank(u))
    && (forall id | id in t.accounts :: AccountOk(s, t.users, t.accounts[id]))
    && t.active <= t.accounts.Keys
    && (forall id | id in t.active :: t.accounts[id].userId !in t.ledger.revoked)
  }

  /** The account opens under its user's signer secret. */
  ghost predicate AccountOk(s: Suite, users: map<string, Signer>, reg: Registration)
    requires s.Valid()
  {
    && reg.userId in users && !Blank(reg.userId)
    && reg.account.d.Some?
    && s.NewAccount(users[reg.userId].x, reg.account.d.value) == Ok(reg.account)
  }

  /** The id-sorted active ring has an accumulator. */
  ghost predicate RingValid(s: Suite, t: State)
    requires s.Valid()
  {
    match t.params
    case Some(p) => ParamsOk(s.r, p) && NewSnapshot(s, p, Ring(t.accounts, t.active)).Ok?
    case None => t.active == {} && t.accounts == map[]
  }

  predicate LedgersOk(t: State) {
    && LedgerOk(t.ledger)
    && LedgerLe(t.acked, t.ledger)
    && (t.persistent ==> LedgerLe(t.acked, t.durable) && LedgerLe(t.durable, t.visible) && LedgerLe(t.visible, t.ledger))
  }

  predicate ReleaseOk(t: State, e: Release) {
    && e.user in t.users && t.users[e.user].x == e.x
    && e.counter < Count(t.users[e.user].next, e.issue) && e.counter < e.k
    && e.issue in t.ledger.policies && t.ledger.policies[e.issue] == e.k
  }

  /** Released signatures: one quota per issue, and per user and issue increasing counters below it. */
  predicate ReleasesSafe(released: seq<Release>) {
    && (forall i | 0 <= i < |released| :: released[i].counter < released[i].k)
    && forall i, j | 0 <= i < j < |released| && released[i].issue == released[j].issue ::
         && released[i].k == released[j].k
         && (released[i].user == released[j].user ==> released[i].counter < released[j].counter && released[i].x == released[j].x)
  }

  predicate ReleasesOk(t: State) {
    ReleasesSafe(t.released) && forall i | 0 <= i < |t.released| :: ReleaseOk(t, t.released[i])
  }

  /** No envelope was accepted twice, and each is on the acknowledged ledger. */
  predicate AcceptedOk(t: State) {
    && (forall i | 0 <= i < |t.accepted| :: t.accepted[i] in t.acked.seen)
    && forall i, j | 0 <= i < j < |t.accepted| :: t.accepted[i] != t.accepted[j]
  }

  ghost predicate Invariant(s: Suite, t: State)
    requires s.Valid()
  {
    PeopleOk(s, t) && RingValid(s, t) && LedgersOk(t) && ReleasesOk(t) && AcceptedOk(t)
  }

  /** A fresh service over no file, or over a file an earlier process left. */
  predicate Initial(t: State) {
    && t.params.None? && t.users == map[] && t.accounts == map[] && t.active == {}
    && LedgerOk(t.ledger) && t.visible == t.ledger && t.durable == t.ledger
    && t.released == [] && t.accepted == [] && t.acked == EMPTY
  }

  // --- rings -----------------------------------------------------------------------------------------

  /** Joining in id order accumulates the same accounts as appending. */
  lemma RingInsert(accounts: map<string, Registration>, active: set<string>, id: string)
    requires id !in active
    ensures multiset(Ring(accounts, active + {id})) == multiset(Ring(accounts, active) + [AccountAt(accounts)(id)])
  {
    var f, q := AccountAt(accounts), Listing(active);
    ListedMultiset(q, active);
    ListedMultiset(Listing(active + {id}), active + {id});
    assert multiset(active + {id}) == multiset(active) + multiset{id};
    MapMultiset(f, Listing(active + {id}), q + [id]);
    assert Map(f, q + [id]) == Map(f, q) + [f(id)];
  }

  /** A smaller active set has a sub-ring. */
  lemma RingSubset(accounts: map<string, Registration>, active: set<string>, more: set<string>)
    requires active <= more
    ensures multiset(Ring(accounts, active)) <= multiset(Ring(accounts, more))
  {
    ListedMultiset(Listing(active), active);
    ListedMultiset(Listing(more), more);
    assert multiset(active) <= multiset(more);
    MapSubset(AccountAt(accounts), Listing(more), Listing(active));
  }

  /** The ring only depends on the active accounts themselves. */
  lemma RingSame(a: map<string, Registration>, b: map<string, Registration>, active: set<string>)
    requires forall id | id in active :: AccountAt(a)(id) == AccountAt(b)(id)
    ensures Ring(a, active) == Ring(b, active)
  {
    var q := Listing(active);
    forall i | 0 <= i < |q| ensures AccountAt(a)(q[i]) == AccountAt(b)(q[i]) {
      assert q[i] in q;
    }
  }

  /** An account that is already active cannot join again. */
  lemma NoSecondJoin(s: Suite, p: Params, accounts: map<string, Registration>, active: set<string>, id: string)
    requires s.Valid() && id in active
    ensures NewSnapshot(s, p, Ring(accounts, active) + [AccountAt(accounts)(id)]).Err?
  {
    hide Suite.Handle, Suite.Member, IsPrime;
    var q := Listing(active);
    assert id in q;
    var i :| 0 <= i < |q| && q[i] == id;
    var ring := Ring(accounts, active);
    var joined := ring + [AccountAt(accounts)(id)];
    var h := Handles(s, joined);
    assert h[i] == h[|ring|];
    assert !Distinct(h);
  }

  lemma ShrinkRing(s: Suite, t: State, active: set<string>)
    requires s.Valid() && RingValid(s, t) && t.params.Some? && active <= t.active
    ensures NewSnapshot(s, t.params.value, Ring(t.accounts, active)).Ok?
  {
    hide AccumulatorOf, Ring;
    RingSubset(t.accounts, active, t.active);
    RemovalClosed(s, t.params.value, Ring(t.accounts, t.active), Ring(t.accounts, active));
  }

  // --- every step keeps the invariant -----------------------------------------------------------------

  lemma LedgerLeTransitive(a: Ledger, b: Ledger, c: Ledger)
    requires LedgerLe(a, b) && LedgerLe(b, c)
    ensures LedgerLe(a, c)
  {
  }

  lemma LedgerLeOk(a: Ledger, b: Ledger)
    requires LedgerLe(a, b) && LedgerOk(b)
    ensures LedgerOk(a)
  {
  }

  /** After writing, the disk is no further ahead than memory; an acknowledged write is durable. */
  lemma PersistOk(t: State, io: Io, prior: Ledger)
    requires LedgerOk(t.ledger) && LedgerLe(prior, t.ledger) && LedgerLe(t.acked, prior)
    requires t.persistent ==> LedgerLe(t.acked, t.durable) && LedgerLe(t.durable, t.visible) && LedgerLe(t.visible, prior)
    ensures LedgersOk(Persist(t, io))
    ensures t.persistent && io.Synced? ==> Persist(t, io).durable == t.ledger == Persist(t, io).visible
  {
    LedgerLeTransitive(t.acked, prior, t.ledger);
    if t.persistent {
      LedgerLeTransitive(t.visible, prior, t.ledger);
      LedgerLeTransitive(t.durable, t.visible, t.ledger);
    }
  }

  // Parts of the invariant that a step does not touch.

  lemma RingFrame(s: Suite, t: State, t': State)
    requires s.Valid() && RingValid(s, t)
    requires t'.params == t.params && t'.accounts == t.accounts && t'.active == t.active
    ensures RingValid(s, t')
  {
    hide NewSnapshot, Ring, ParamsOk, IsPrime;
  }

  lemma PeopleFrame(s: Suite, t: State, t': State)
    requires s.Valid() && PeopleOk(s, t)
    requires t'.users == t.users && t'.accounts == t.accounts && t'.active == t.active && t'.ledger.revoked == t.ledger.revoked
    ensures PeopleOk(s, t')
  {
    hide AccountOk, Blank, IsPrime;
  }

  lemma ReleasesFrame(t: State, t': State)
    requires ReleasesOk(t) && t'.released == t.released && LedgerLe(t.ledger, t'.ledger)
    requires forall u | u in t.users :: u in t'.users && t'.users[u] == t.users[u]
    ensures ReleasesOk(t')
  {
    forall i | 0 <= i < |t.released| ensures ReleaseOk(t', t.released[i]) {
      assert ReleaseOk(t, t.released[i]);
    }
  }

  lemma AcceptedFrame(t: State, t': State)
    requires AcceptedOk(t) && t'.accepted == t.accepted && t'.acked.seen == t.acked.seen
    ensures AcceptedOk(t')
  {
  }

  lemma SetUpKeeps(s: Suite, t: State, p: Params, io: Io)
    requires s.Valid() && Invariant(s, t)
    ensures Invariant(s, SetUpStep(s, t, p, io).0)
  {
    hide PeopleOk, LedgersOk, ReleasesOk, AcceptedOk, LedgerLe, LedgerOk, IsPrime;
    var t' := SetUpStep(s, t, p, io).0;
    LedgerLeReflexive(t.ledger);
    UnchangedLedger(t, t', io);
    PeopleFrame(s, t, t');
    ReleasesFrame(t, t');
    AcceptedFrame(t, t');
    Unlisted(Listing({}));
  }

  /** Writing an unchanged ledger. */
  lemma UnchangedLedger(t: State, t': State, io: Io)
    requires LedgersOk(t)
    requires t' == t || (t'.ledger == t.ledger && t'.persistent == t.persistent && t'.acked == t.acked
                         && t'.visible == Persist(t, io).visible && t'.durable == Persist(t, io).durable)
    ensures LedgersOk(t')
  {
    hide LedgerLe, LedgerOk;
    LedgerLeReflexive(t.ledger);
    PersistOk(t, io, t.ledger);
  }

  lemma Unlisted(q: seq<string>)
    requires Lists(q, {})
    ensures q == []
  {
    HasFirst(q);
  }

  lemma LedgerLeReflexive(a: Ledger)
    ensures LedgerLe(a, a)
  {
  }

  lemma KeygenPeople(s: Suite, t: State, user: string, account: string, x: int, d: int, a: Account)
    requires s.Valid() && PeopleOk(s, t) && account !in t.accounts && !Blank(user)
    requires s.NewAccount(if user in t.users then t.users[user].x else x, d) == Ok(a)
    ensures var users := if user in t.users then t.users else t.users[user := Signer(x, map[])];
            && PeopleOk(s, t.(users := users))
            && PeopleOk(s, t.(users := users, accounts := t.accounts[account := Registration(user, a)]))
  {
    hide Blank, IsPrime;
  }

  lemma KeygenKeeps(s: Suite, t: State, user: string, account: string, x: int, d: int, io: Io)
    requires s.Valid() && Invariant(s, t)
    ensures Invariant(s, KeygenStep(s, t, user, account, x, d, io).0)
  {
    hide PeopleOk, LedgersOk, ReleasesOk, AcceptedOk, LedgerLe, IsPrime, Blank, Suite.NewAccount, NewSnapshot, Ring, ParamsOk;
    var t' := KeygenStep(s, t, user, account, x, d, io).0;
    var secret := if user in t.users then t.users[user].x else x;
    if t' != t && s.NewAccount(secret, d).Ok? {
      LedgerLeReflexive(t.ledger);
      UnchangedLedger(t, t', io);
      ReleasesFrame(t, t');
      AcceptedFrame(t, t');
      var a := s.NewAccount(secret, d).value;
      KeygenPeople(s, t, user, account, x, d, a);
      var users := if user in t.users then t.users else t.users[user := Signer(x, map[])];
      var base := if Acked(t, io) then t.(users := users, accounts := t.accounts[account := Registration(user, a)])
                  else t.(users := users);
      PeopleFrame(s, base, t');
      NotActive(s, t, account);
      RingSame(t.accounts, t'.accounts, t.active);
    }
  }

  lemma NotActive(s: Suite, t: State, account: string)
    requires s.Valid() && PeopleOk(s, t) && account !in t.accounts
    ensures account !in t.active
  {
    hide AccountOk, Blank, IsPrime;
  }

  lemma EnterKeeps(s: Suite, t: State, account: string, io: Io)
    requires s.Valid() && Invariant(s, t)
    ensures Invariant(s, EnterStep(s, t, account, io).0)
  {
    hide PeopleOk, LedgersOk, ReleasesOk, AcceptedOk, LedgerLe, IsPrime, Ring, AccumulatorOf, ParamsOk;
    var t' := EnterStep(s, t, account, io).0;
    LedgerLeReflexive(t.ledger);
    UnchangedLedger(t, t', io);
    ReleasesFrame(t, t');
    AcceptedFrame(t, t');
    if t' != t {
      var p, ring := t.params.value, Ring(t.accounts, t.active);
      var joined := ring + [AccountAt(t.accounts)(account)];
      assert NewSnapshot(s, p, joined).Ok?;
      EnterPeople(s, t, t', account);
      if account in t.active {
        NoSecondJoin(s, p, t.accounts, t.active, account);
      } else {
        RingInsert(t.accounts, t.active, account);
        OrderIndependent(s, p, joined, Ring(t.accounts, t.active + {account}));
      }
    }
  }

  lemma EnterPeople(s: Suite, t: State, t': State, account: string)
    requires s.Valid() && PeopleOk(s, t) && account in t.accounts && t.accounts[account].userId !in t.ledger.revoked
    requires t'.users == t.users && t'.accounts == t.accounts && t'.ledger == t.ledger && t'.active == t.active + {account}
    ensures PeopleOk(s, t')
  {
    hide AccountOk, Blank, IsPrime;
  }

  lemma LeavePeople(s: Suite, t: State, t': State)
    requires s.Valid() && PeopleOk(s, t) && t'.active <= t.active
    requires t'.users == t.users && t'.accounts == t.accounts
    requires forall id | id in t'.active :: id in t.accounts && t.accounts[id].userId !in t'.ledger.revoked
    ensures PeopleOk(s, t')
  {
    hide AccountOk, Blank, IsPrime;
  }

  lemma ActiveUnrevoked(s: Suite, t: State)
    requires s.Valid() && PeopleOk(s, t)
    ensures forall id | id in t.active :: id in t.accounts && t.accounts[id].userId !in t.ledger.revoked
  {
    hide AccountOk, Blank, IsPrime;
  }

  lemma LeaveKeeps(s: Suite, t: State, account: string, io: Io)
    requires s.Valid() && Invariant(s, t)
    ensures Invariant(s, LeaveStep(s, t, account, io).0)
  {
    hide PeopleOk, LedgersOk, ReleasesOk, AcceptedOk, LedgerLe, IsPrime, Ring, NewSnapshot, ExitOf, ParamsOk, Suite.Member;
    var t' := LeaveStep(s, t, account, io).0;
    LedgerLeReflexive(t.ledger);
    UnchangedLedger(t, t', io);
    ReleasesFrame(t, t');
    AcceptedFrame(t, t');
    ActiveUnrevoked(s, t);
    LeavePeople(s, t, t');
    if t' != t {
      ShrinkRing(s, t, t.active - {account});
    }
  }

  lemma RevokeLedger(t: State, user: string, io: Io)
    requires LedgersOk(t) && !Blank(user) && t.params.Some? && user in t.users
    ensures LedgersOk(RevokeStep(t, user, io).0)
  {
    var l := t.ledger.(revoked := t.ledger.revoked + {user});
    var u := t.(active := t.active - Owned(t.accounts, user), ledger := l);
    assert LedgerLe(t.ledger, l);
    PersistOk(u, io, t.ledger);
  }

  lemma RevokeKeeps(s: Suite, t: State, user: string, io: Io)
    requires s.Valid() && Invariant(s, t)
    ensures Invariant(s, RevokeStep(t, user, io).0)
  {
    hide LedgersOk, ReleasesOk, AcceptedOk, IsPrime, Blank, AccountOk, Ring, NewSnapshot, ParamsOk;
    var t' := RevokeStep(t, user, io).0;
    assert LedgerLe(t.ledger, t'.ledger);
    ReleasesFrame(t, t');
    AcceptedFrame(t, t');
    if t.params.Some? && user in t.users {
      ActiveUnrevoked(s, t);
      LeavePeople(s, t, t');
      ShrinkRing(s, t, t.active - Owned(t.accounts, user));
      RevokeLedger(t, user, io);
    }
  }

  lemma SignLedger(s: Suite, t: State, account: string, issue: Digest, k: nat, message: Digest, timestamp: nat,
                   prover: ProverOutcome, io: Io)
    requires s.Valid() && LedgersOk(t)
    ensures LedgersOk(SignStep(s, t, account, issue, k, message, timestamp, prover, io).0)
    ensures LedgerLe(t.ledger, SignStep(s, t, account, issue, k, message, timestamp, prover, io).0.ledger)
  {
    hide Signable, ContextOk, Ring, IsPrime;
    if CanSign(s, t, account, issue, k, message, timestamp) && prover.Proves? {
      var l := t.ledger.(policies := t.ledger.policies[issue := k]);
      assert LedgerLe(t.ledger, l);
      var user := t.accounts[account].userId;
      var signer := t.users[user];
      var u := t.(users := t.users[user := signer.(next := signer.next[issue := Count(signer.next, issue) + 1])], ledger := l);
      PersistOk(u, io, t.ledger);
    }
  }

  /** What a signing request may change: one counter, one quota, and the history. */
  lemma SignShape(s: Suite, t: State, account: string, issue: Digest, k: nat, message: Digest, timestamp: nat,
                  prover: ProverOutcome, io: Io)
    requires s.Valid()
    ensures var t' := SignStep(s, t, account, issue, k, message, timestamp, prover, io).0;
            && t'.params == t.params && t'.accounts == t.accounts && t'.active == t.active
            && t'.accepted == t.accepted && t'.acked.seen == t.acked.seen && t'.ledger.revoked == t.ledger.revoked
            && t'.persistent == t.persistent
            && (t' != t ==>
                  && account in t.accounts && t.accounts[account].userId in t.users
                  && PolicyOk(t.ledger, issue, k, true)
                  && var user := t.accounts[account].userId;
                  && var signer := t.users[user];
                  && var count := Count(signer.next, issue);
                  && count < k
                  && t'.users == t.users[user := signer.(next := signer.next[issue := count + 1])]
                  && (t'.ledger == t.ledger || t'.ledger == t.ledger.(policies := t.ledger.policies[issue := k]))
                  && (t'.released == t.released
                      || (t'.released == t.released + [Release(user, signer.x, issue, k, count)]
                          && t'.ledger == t.ledger.(policies := t.ledger.policies[issue := k]))))
  {
    hide Signable, ContextOk, Ring, IsPrime;
  }

  lemma SignReleases(s: Suite, t: State, account: string, issue: Digest, k: nat, message: Digest, timestamp: nat,
                     prover: ProverOutcome, io: Io)
    requires s.Valid() && ReleasesOk(t)
    ensures ReleasesOk(SignStep(s, t, account, issue, k, message, timestamp, prover, io).0)
  {
    hide SignStep, IsPrime;
    var t' := SignStep(s, t, account, issue, k, message, timestamp, prover, io).0;
    SignShape(s, t, account, issue, k, message, timestamp, prover, io);
    if t' != t {
      OldReleases(t, t', t.accounts[account].userId, issue, k);
      if t'.released != t.released {
        AppendRelease(t.released, t'.released[|t.released|]);
      }
    }
  }

  lemma OldReleases(t: State, t': State, user: string, issue: Digest, k: nat)
    requires ReleasesOk(t) && user in t.users && PolicyOk(t.ledger, issue, k, true)
    requires t'.users == t.users[user := t.users[user].(next := t.users[user].next[issue := Count(t.users[user].next, issue) + 1])]
    requires t'.ledger == t.ledger || t'.ledger == t.ledger.(policies := t.ledger.policies[issue := k])
    ensures forall i | 0 <= i < |t.released| :: ReleaseOk(t', t.released[i])
    ensures forall i | 0 <= i < |t.released| && t.released[i].issue == issue ::
              && t.released[i].k == k
              && (t.released[i].user == user ==>
                    t.released[i].counter < Count(t.users[user].next, issue) && t.released[i].x == t.users[user].x)
  {
    forall i | 0 <= i < |t.released|
      ensures ReleaseOk(t', t.released[i])
      ensures t.released[i].issue == issue ==>
                && t.released[i].k == k
                && (t.released[i].user == user ==>
                      t.released[i].counter < Count(t.users[user].next, issue) && t.released[i].x == t.users[user].x)
    {
      assert ReleaseOk(t, t.released[i]);
    }
  }

  lemma AppendRelease(released: seq<Release>, e: Release)
    requires ReleasesSafe(released) && e.counter < e.k
    requires forall i | 0 <= i < |released| && released[i].issue == e.issue ::
               && released[i].k == e.k
               && (released[i].user == e.user ==> released[i].counter < e.counter && released[i].x == e.x)
    ensures ReleasesSafe(released + [e])
  {
  }

  lemma SignPeople(s: Suite, t: State, account: string, issue: Digest, k: nat, message: Digest, timestamp: nat,
                   prover: ProverOutcome, io: Io)
    requires s.Valid() && PeopleOk(s, t)
    ensures PeopleOk(s, SignStep(s, t, account, issue, k, message, timestamp, prover, io).0)
  {
    hide SignStep, IsPrime, Blank, Suite.NewAccount, Suite.SecpScalar, PolicyOk;
    SignShape(s, t, account, issue, k, message, timestamp, prover, io);
  }

  lemma SignKeeps(s: Suite, t: State, account: string, issue: Digest, k: nat, message: Digest, timestamp: nat,
                  prover: ProverOutcome, io: Io)
    requires s.Valid() && Invariant(s, t)
    ensures Invariant(s, SignStep(s, t, account, issue, k, message, timestamp, prover, io).0)
  {
    hide SignStep, RingValid, IsPrime, LedgersOk, ReleasesOk, PeopleOk, AcceptedOk;
    var t' := SignStep(s, t, account, issue, k, message, timestamp, prover, io).0;
    SignLedger(s, t, account, issue, k, message, timestamp, prover, io);
    SignReleases(s, t, account, issue, k, message, timestamp, prover, io);
    SignPeople(s, t, account, issue, k, message, timestamp, prover, io);
    SignShape(s, t, account, issue, k, message, timestamp, prover, io);
    RingFrame(s, t, t');
    AcceptedFrame(t, t');
  }

  lemma VerifyLedger(s: Suite, t: State, issue: Digest, k: nat, digest: Digest, valid: bool, io: Io)
    requires s.Valid() && LedgersOk(t) && AcceptedOk(t)
    ensures var t' := VerifyStep(s, t, issue, k, digest, valid, io).0;
            LedgersOk(t') && AcceptedOk(t') && LedgerLe(t.ledger, t'.ledger)
  {
    hide ContextOk, IsPrime, PolicyOk, Blank;
    var t' := VerifyStep(s, t, issue, k, digest, valid, io).0;
    if digest !in t.ledger.seen {
      var l := t.ledger.(seen := t.ledger.seen + {digest});
      assert LedgerLe(t.ledger, l);
      PersistOk(t.(ledger := l), io, t.ledger);
      FreshDigest(t, digest);
    }
  }

  lemma VerifyKeeps(s: Suite, t: State, issue: Digest, k: nat, digest: Digest, valid: bool, io: Io)
    requires s.Valid() && Invariant(s, t)
    ensures Invariant(s, VerifyStep(s, t, issue, k, digest, valid, io).0)
  {
    hide ContextOk, IsPrime, RingValid, PeopleOk, ReleasesOk, LedgersOk, AcceptedOk, LedgerLe;
    var t' := VerifyStep(s, t, issue, k, digest, valid, io).0;
    VerifyLedger(s, t, issue, k, digest, valid, io);
    RingFrame(s, t, t');
    PeopleFrame(s, t, t');
    ReleasesFrame(t, t');
  }

  lemma FreshDigest(t: State, digest: Digest)
    requires LedgersOk(t) && AcceptedOk(t) && digest !in t.ledger.seen
    ensures digest !in t.acked.seen && digest !in t.accepted
  {
  }

  lemma RestartKeeps(s: Suite, t: State, crash: bool)
    requires s.Valid() && Invariant(s, t)
    ensures Invariant(s, RestartStep(t, crash).0)
    ensures t.persistent ==> RestartStep(t, crash).1
  {
    hide IsPrime, Blank, LedgerLe, LedgerOk, NewSnapshot, Ring, Suite.NewAccount, ReleaseOk;
    if t.persistent {
      LedgerLeTransitive(t.durable, t.visible, t.ledger);
      LedgerLeOk(t.durable, t.ledger);
      LedgerLeOk(t.visible, t.ledger);
      LedgerLeTransitive(t.acked, t.durable, t.visible);
      LedgerLeReflexive(t.durable);
      LedgerLeReflexive(t.visible);
    }
  }

  lemma FlushKeeps(s: Suite, t: State)
    requires s.Valid() && Invariant(s, t)
    ensures Invariant(s, t.(durable := t.visible))
  {
    hide IsPrime, Blank, LedgerLe, LedgerOk, NewSnapshot, Ring, AccountOk;
    if t.persistent {
      LedgerLeTransitive(t.acked, t.durable, t.visible);
      LedgerLeReflexive(t.visible);
    }
  }

  lemma StepKeeps(s: Suite, t: State, op: Op)
    requires s.Valid() && Invariant(s, t)
    ensures Invariant(s, Step(s, t, op).0)
  {
    hide Invariant, SetUpStep, KeygenStep, EnterStep, LeaveStep, RevokeStep, SignStep, VerifyStep, RestartStep, IsPrime;
    match op
    case SetUp(p, io) => SetUpKeeps(s, t, p, io);
    case Keygen(user, account, x, d, io) => KeygenKeeps(s, t, user, account, x, d, io);
    case Enter(account, io) => EnterKeeps(s, t, account, io);
    case Leave(account, io) => LeaveKeeps(s, t, account, io);
    case Revoke(user, io) => RevokeKeeps(s, t, user, io);
    case Sign(account, issue, k, message, ts, prover, io) => SignKeeps(s, t, account, issue, k, message, ts, prover, io);
    case Verify(issue, k, digest, message, st, proves, io) =>
      VerifyKeeps(s, t, issue, k, digest, Passes(s, t, issue, k, message, st, proves), io);
    case Flush => FlushKeeps(s, t);
    case Restart(crash) => RestartKeeps(s, t, crash);
  }

  lemma {:induction false} RunKeeps(s: Suite, t: State, ops: seq<Op>)
    requires s.Valid() && Invariant(s, t)
    ensures Invariant(s, Run(s, t, ops))
    decreases |ops|
  {
    hide Invariant, Step, IsPrime;
    if ops != [] {
      StepKeeps(s, t, ops[0]);
      RunKeeps(s, Step(s, t, ops[0]).0, ops[1..]);
    }
  }

  lemma InitialOk(s: Suite, t: State)
    requires s.Valid() && Initial(t)
    ensures Invariant(s, t)
  {
    hide IsPrime, Blank;
    LedgerLeReflexive(t.ledger);
  }

  // --- what every run guarantees ----------------------------------------------------------------------

  /** The counters of a user's signatures for an issue, in order. */
  function CountersOf(released: seq<Release>, user: string, issue: Digest): seq<nat> {
    if released == [] then []
    else
      var n := |released| - 1;
      CountersOf(released[..n], user, issue)
      + if released[n].user == user && released[n].issue == issue then [released[n].counter] else []
  }

  lemma {:induction false} CountersBounded(released: seq<Release>, user: string, issue: Digest, c: nat)
    requires ReleasesSafe(released)
    requires forall i | 0 <= i < |released| && released[i].user == user && released[i].issue == issue ::
               released[i].counter < c
    ensures |CountersOf(released, user, issue)| <= c
  {
    if released != [] {
      var n := |released| - 1;
      var init := released[..n];
      assert forall i | 0 <= i < n :: init[i] == released[i];
      assert ReleasesSafe(init);
      if released[n].user == user && released[n].issue == issue {
        CountersBounded(init, user, issue, released[n].counter);
      } else {
        CountersBounded(init, user, issue, c);
      }
    }
  }

  /** Quota. In every run, the signatures released in one lifetime use one quota per issue; per
      user and issue their counters are different, below that quota, and at most quota many. */
  lemma ServiceQuota(s: Suite, t: State, ops: seq<Op>, i: nat)
    requires s.Valid() && Initial(t) && i < |Run(s, t, ops).released|
    ensures ReleasesSafe(Run(s, t, ops).released)
    ensures var released := Run(s, t, ops).released;
            |CountersOf(released, released[i].user, released[i].issue)| <= released[i].k
  {
    hide Run, IsPrime, ReleaseOk;
    InitialOk(s, t);
    RunKeeps(s, t, ops);
    var released := Run(s, t, ops).released;
    assert ReleasesSafe(released);
    CountersBounded(released, released[i].user, released[i].issue, released[i].k);
  }

  /** Ring. In every reachable state the sorted ring is accepted, active ids are registered,
      nobody revoked is active, and every account opens under its user's secret. */
  lemma ServiceRing(s: Suite, t: State, ops: seq<Op>)
    requires s.Valid() && Initial(t)
    ensures var e := Run(s, t, ops);
            && (e.params.Some? ==> NewSnapshot(s, e.params.value, Ring(e.accounts, e.active)).Ok?)
            && e.active <= e.accounts.Keys
            && (forall id | id in e.active :: e.accounts[id].userId !in e.ledger.revoked)
            && (forall id | id in e.accounts :: AccountOk(s, e.users, e.accounts[id]))
  {
    hide Run, IsPrime, NewSnapshot, AccountOk, Ring;
    InitialOk(s, t);
    RunKeeps(s, t, ops);
  }

  lemma AckedStep(s: Suite, t: State, op: Op)
    requires s.Valid() && Invariant(s, t)
    ensures LedgerLe(t.acked, Step(s, t, op).0.acked)
    ensures Step(s, t, op).0.persistent == t.persistent
  {
    hide IsPrime, PeopleOk, RingValid, ReleasesOk, AcceptedOk, SignStep, RevokeStep, VerifyStep, SetUpStep, KeygenStep,
         EnterStep, LeaveStep, RestartStep, LedgerLe;
    LedgerLeReflexive(t.acked);
    match op
    case Sign(account, issue, k, message, ts, prover, io) => AckedSign(s, t, account, issue, k, message, ts, prover, io);
    case Revoke(user, io) => AckedRevoke(t, user, io);
    case Verify(issue, k, digest, message, st, proves, io) =>
      AckedVerify(s, t, issue, k, digest, Passes(s, t, issue, k, message, st, proves), io);
    case _ => AckedPlain(s, t, op);
  }

  lemma AckedPlain(s: Suite, t: State, op: Op)
    requires s.Valid() && !op.Sign? && !op.Revoke? && !op.Verify?
    ensures Step(s, t, op).0.acked == t.acked && Step(s, t, op).0.persistent == t.persistent
  {
    hide IsPrime, Ring, NewSnapshot, Suite.NewAccount, LedgerOk, Blank;
  }

  lemma AckedRevoke(t: State, user: string, io: Io)
    requires LedgersOk(t)
    ensures LedgerLe(t.acked, RevokeStep(t, user, io).0.acked)
    ensures RevokeStep(t, user, io).0.persistent == t.persistent
  {
    hide LedgerOk;
  }

  lemma AckedVerify(s: Suite, t: State, issue: Digest, k: nat, digest: Digest, valid: bool, io: Io)
    requires s.Valid() && LedgersOk(t)
    ensures LedgerLe(t.acked, VerifyStep(s, t, issue, k, digest, valid, io).0.acked)
    ensures VerifyStep(s, t, issue, k, digest, valid, io).0.persistent == t.persistent
  {
    hide IsPrime, ContextOk, Ring, LedgerOk;
  }

  lemma AckedSign(s: Suite, t: State, account: string, issue: Digest, k: nat, message: Digest, timestamp: nat,
                  prover: ProverOutcome, io: Io)
    requires s.Valid() && LedgersOk(t)
    ensures LedgerLe(t.acked, SignStep(s, t, account, issue, k, message, timestamp, prover, io).0.acked)
    ensures SignStep(s, t, account, issue, k, message, timestamp, prover, io).0.persistent == t.persistent
  {
    hide IsPrime, ContextOk, Signable, Ring, LedgerOk;
  }

  lemma {:induction false} AckedRun(s: Suite, t: State, ops: seq<Op>)
    requires s.Valid() && Invariant(s, t)
    ensures LedgerLe(t.acked, Run(s, t, ops).acked)
    ensures Run(s, t, ops).persistent == t.persistent
    decreases |ops|
  {
    hide Invariant, Step, IsPrime, LedgerLe;
    if ops == [] {
      LedgerLeReflexive(t.acked);
    } else {
      var u := Step(s, t, ops[0]).0;
      StepKeeps(s, t, ops[0]);
      AckedStep(s, t, ops[0]);
      AckedRun(s, u, ops[1..]);
      LedgerLeTransitive(t.acked, u.acked, Run(s, u, ops[1..]).acked);
    }
  }

  lemma {:induction false} RunConcat(s: Suite, t: State, a: seq<Op>, b: seq<Op>)
    requires s.Valid()
    ensures Run(s, t, a + b) == Run(s, Run(s, t, a), b)
    decreases |a|
  {
    hide Step, IsPrime;
    if a == [] {
      assert a + b == b;
    } else {
      assert (a + b)[1..] == a[1..] + b;
      RunConcat(s, Step(s, t, a[0]).0, a[1..], b);
    }
  }

  /** Crash consistency. What was acknowledged by some point of a run - revocations, pinned
      quotas, consumed envelopes - is in force at every later point, in memory and in both
      versions of the file, across any crashes and restarts; and both versions load. */
  lemma AcknowledgedSurvives(s: Suite, t: State, before: seq<Op>, after: seq<Op>)
    requires s.Valid() && Initial(t)
    ensures var acked := Run(s, t, before).acked;
            var e := Run(s, t, before + after);
            && LedgerLe(acked, e.ledger)
            && (e.persistent ==>
                  LedgerLe(acked, e.durable) && LedgerLe(acked, e.visible) && LedgerOk(e.durable) && LedgerOk(e.visible))
            && (forall id | id in e.active :: id in e.accounts && e.accounts[id].userId !in acked.revoked)
  {
    hide Run, IsPrime, LedgerLe, LedgerOk, AccountOk, NewSnapshot, Ring;
    InitialOk(s, t);
    RunKeeps(s, t, before);
    RunKeeps(s, t, before + after);
    RunConcat(s, t, before, after);
    var m, e := Run(s, t, before), Run(s, t, before + after);
    AckedRun(s, m, after);
    LedgerLeTransitive(m.acked, e.acked, e.ledger);
    if e.persistent {
      LedgerLeTransitive(m.acked, e.acked, e.durable);
      LedgerLeTransitive(m.acked, e.durable, e.visible);
      LedgerLeTransitive(e.durable, e.visible, e.ledger);
      LedgerLeOk(e.durable, e.ledger);
      LedgerLeOk(e.visible, e.ledger);
    }
    RevokedInactive(m.acked, e);
  }

  /** In every reachable state of a persistent service, what persistState writes for the memory or
      for either version of the file is read back exactly. */
  lemma ReachableLoads(s: Suite, t: State, ops: seq<Op>, l: Ledger, f: LedgerFile)
    requires s.Valid() && Initial(t) && Run(s, t, ops).persistent && Encodes(l, f)
    requires var e := Run(s, t, ops); l == e.ledger || l == e.durable || l == e.visible
    ensures FileOk(f) && Contents(f) == l
  {
    hide Run, IsPrime, LedgerLe, LedgerOk, AccountOk, NewSnapshot, Ring, Encodes, FileOk, Contents;
    assert ops + [] == ops;
    AcknowledgedSurvives(s, t, ops, []);
    InitialOk(s, t);
    RunKeeps(s, t, ops);
    LoadRestores(l, f);
  }

  lemma RevokedInactive(acked: Ledger, e: State)
    requires LedgerLe(acked, e.ledger)
    requires forall id | id in e.active :: id in e.accounts && e.accounts[id].userId !in e.ledger.revoked
    ensures forall id | id in e.active :: id in e.accounts && e.accounts[id].userId !in acked.revoked
  {
  }

  /** Replay. Over all lifetimes of a service, verify answers ok at most once per envelope. */
  lemma VerifyOnce(s: Suite, t: State, ops: seq<Op>)
    requires s.Valid() && Initial(t)
    ensures var q := Run(s, t, ops).accepted; forall i, j | 0 <= i < j < |q| :: q[i] != q[j]
  {
    hide Run, IsPrime;
    InitialOk(s, t);
    RunKeeps(s, t, ops);
  }

  /** A signature released after a restart still uses the quota under which any earlier one for
      its issue was released. */
  lemma QuotaAcrossRestarts(s: Suite, t: State, before: seq<Op>, after: seq<Op>, i: nat)
    requires s.Valid() && Initial(t) && i < |Run(s, t, before + after).released|
    ensures var acked := Run(s, t, before).acked;
            var e := Run(s, t, before + after).released[i];
            e.issue in acked.policies ==> acked.policies[e.issue] == e.k
  {
    hide Run, IsPrime, ReleasesSafe;
    AcknowledgedSurvives(s, t, before, after);
    InitialOk(s, t);
    RunKeeps(s, t, before + after);
    assert ReleaseOk(Run(s, t, before + after), Run(s, t, before + after).released[i]);
  }

  // --- the registry a trace request builds ---------------------------------------------------------------

  /** The registrations in some order of the account map. */
  function Registrations(accounts: map<string, Registration>, ids: seq<string>): seq<Registration>
    requires forall i | 0 <= i < |ids| :: ids[i] in accounts
  {
    seq(|ids|, i requires 0 <= i < |ids| => accounts[ids[i]])
  }

  /** In a reachable state a user never has two trace keys, so the trace request's registry is
      accepted exactly when there is an account, the handles exist and differ, and no two users
      drew the same secret. */
  lemma ServiceRegistry(s: Suite, t: State, ids: seq<string>)
    requires s.Valid() && PeopleOk(s, t)
    requires forall i | 0 <= i < |ids| :: ids[i] in t.accounts
    ensures var regs := Registrations(t.accounts, ids);
            RegistryOk(s, regs) <==>
            && ids != []
            && (forall i | 0 <= i < |regs| :: s.Member(regs[i].account).Ok?)
            && Distinct(EntryHandles(s, regs))
            && (forall i, j | 0 <= i < |regs| && 0 <= j < |regs| && regs[i].userId != regs[j].userId ::
                  t.users[regs[i].userId].x != t.users[regs[j].userId].x)
  {
    hide KeyOf, Suite.NewAccount, Suite.Member, Suite.Handle, IsPrime;
    var regs := Registrations(t.accounts, ids);
    forall i | 0 <= i < |regs|
      ensures regs[i].userId in t.users && regs[i].userId != "" && regs[i].account.d.Some?
              && KeyOf(s, regs[i].account) == t.users[regs[i].userId].x
    {
      assert AccountOk(s, t.users, t.accounts[ids[i]]);
      KeyOfAccount(s, t.users[regs[i].userId].x, regs[i].account.d.value);
    }
    var ids', keys := Ids(regs), Keys(s, regs);
    assert forall i | 0 <= i < |regs| :: ids'[i] == regs[i].userId && keys[i] == t.users[regs[i].userId].x;
    assert Bijective(ids', keys) <==>
           forall i, j | 0 <= i < |regs| && 0 <= j < |regs| && regs[i].userId != regs[j].userId ::
             t.users[regs[i].userId].x != t.users[regs[j].userId].x;
  }

  /** It does fail: after setup and two key generations that draw one secret for two users, whatever
      their names, the trace request's registry is rejected. */
  lemma SharedSecret(s: Suite, a: string, b: string, x: int, d1: int, d2: int) returns (t: State, ops: seq<Op>)
    requires s.Valid() && s.SecpScalar(x) && s.SecpScalar(d1) && s.SecpScalar(d2)
    requires a != b && !Blank(a) && !Blank(b)
    ensures Initial(t)
    ensures var e := Run(s, t, ops);
            && e.accounts.Keys == {a, b} && e.accounts[a].userId == a && e.accounts[b].userId == b
            && !RegistryOk(s, Registrations(e.accounts, [a, b]))
  {
    hide Step, Invariant, RegistryOk, IsPrime, Suite.NewAccount, Blank, Run, Registrations;
    t := State(None, map[], map[], {}, EMPTY, false, EMPTY, EMPTY, [], [], EMPTY);
    InitialOk(s, t);
    var one := SetUp(Params(1, 1, 1, [1, 1]), Synced);
    var two, three := Keygen(a, a, x, d1, Synced), Keygen(b, b, x, d2, Synced);
    ops := [one, two, three];
    var t1 := FirstSetUp(s, t);
    var t2 := FirstKeygen(s, t1, a, a, x, d1);
    var e := FirstKeygen(s, t2, b, b, x, d2);
    RunThree(s, t, one, two, three);
    RunKeeps(s, t, ops);
    SecretsClash(s, e, a, b);
  }

  lemma RunThree(s: Suite, t: State, one: Op, two: Op, three: Op)
    requires s.Valid()
    ensures Run(s, t, [one, two, three]) == Step(s, Step(s, Step(s, t, one).0, two).0, three).0
  {
    hide Step, IsPrime;
    var t1 := Step(s, t, one).0;
    var t2 := Step(s, t1, two).0;
    assert [one, two, three][1..] == [two, three] && [two, three][1..] == [three] && [three][1..] == [];
    assert Run(s, t2, [three]) == Step(s, t2, three).0;
    assert Run(s, t1, [two, three]) == Run(s, t2, [three]);
  }

  lemma FirstSetUp(s: Suite, t: State) returns (u: State)
    requires s.Valid() && t.params.None? && !t.persistent
    ensures u == Step(s, t, SetUp(Params(1, 1, 1, [1, 1]), Synced)).0
    ensures u == t.(params := Some(Params(1, 1, 1, [1, 1])))
  {
    hide ParamsOk, IsPrime;
    UnitParams(s);
    u := t.(params := Some(Params(1, 1, 1, [1, 1])));
  }

  lemma FirstKeygen(s: Suite, t: State, user: string, account: string, x: int, d: int) returns (u: State)
    requires s.Valid() && t.params.Some? && !t.persistent && !Blank(user) && !Blank(account)
    requires user !in t.users && account !in t.accounts && user !in t.ledger.revoked && s.SecpScalar(x) && s.SecpScalar(d)
    ensures u == Step(s, t, Keygen(user, account, x, d, Synced)).0 && s.NewAccount(x, d).Ok?
    ensures u == t.(users := t.users[user := Signer(x, map[])],
                    accounts := t.accounts[account := Registration(user, s.NewAccount(x, d).value)])
  {
    hide IsPrime, Suite.NewAccount, Blank;
    s.NewAccountSucceeds(x, d);
    u := Step(s, t, Keygen(user, account, x, d, Synced)).0;
  }

  lemma SecretsClash(s: Suite, e: State, a: string, b: string)
    requires s.Valid() && Invariant(s, e) && a in e.accounts && b in e.accounts
    requires e.accounts[a].userId == a && e.accounts[b].userId == b && a != b
    requires a in e.users && b in e.users && e.users[a].x == e.users[b].x
    ensures !RegistryOk(s, Registrations(e.accounts, [a, b]))
  {
    hide RegistryOk, IsPrime, RingValid, ReleasesOk, LedgersOk, AcceptedOk, PeopleOk;
    var regs := Registrations(e.accounts, [a, b]);
    assert regs[0].userId == a && regs[1].userId == b;
    ServiceRegistry(s, e, [a, b]);
  }

  lemma UnitParams(s: Suite)
    requires s.Valid()
    ensures ParamsOk(s.r, Params(1, 1, 1, [1, 1]))
  {
    SmallMod(s.r, 1);
    assert Pow(1, 0) == 1 && Pow(1, 1) == 1;
  }
}
