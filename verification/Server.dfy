/** The service object: its fields, the ring listing, and each request of Service.run written as
    it updates them, proved equal to the transitions of module Service. */
module Server {
  import opened Sequences
  import opened Common
  import opened Bytes
  import opened Field
  import opened Suites
  import opened Accumulator
  import opened Snapshots
  import opened Registries
  import opened Circuit
  import opened Tracing
  import opened Text
  import opened Ledgers
  import opened Service
  import opened Requests

  class ServiceObject {
    const s: Suite
    var params: Option<Params>
    var users: map<string, Signer>
    var accounts: map<string, Registration>
    var active: set<string>
    var policies: map<Digest, nat>
    var revoked: set<string>
    var seen: set<Digest>
    const persistent: bool
    var visible: Option<LedgerFile>      // the state file, if there is one
    var durable: Option<LedgerFile>      // what a machine crash would leave of it
    ghost var released: seq<Release>
    ghost var accepted: seq<Digest>
    ghost var acked: Ledger

    ghost function View(): State
      reads this
    {
      State(params, users, accounts, active, Ledger(policies, revoked, seen), persistent,
            OnDisk(visible), OnDisk(durable), released, accepted, acked)
    }

    ghost predicate Valid()
      reads this
    {
      s.Valid() && Invariant(s, View()) && FilesLoad()
    }

    ghost predicate FilesLoad()
      reads this
    {
      Loads(visible) && Loads(durable)
    }

    /** A process over a ledger in memory and the state file it came from. */
    constructor (s: Suite, persistent: bool, l: Ledger, visible: Option<LedgerFile>, durable: Option<LedgerFile>,
                 ghost accepted: seq<Digest>, ghost acked: Ledger)
      ensures this.s == s && this.visible == visible && this.durable == durable
      ensures View() == State(None, map[], map[], {}, l, persistent, OnDisk(visible), OnDisk(durable), [], accepted, acked)
    {
      this.s := s;
      this.persistent := persistent;
      params := None;
      users, accounts, active := map[], map[], {};
      policies, revoked, seen := l.policies, l.revoked, l.seen;
      this.visible, this.durable := visible, durable;
      released, this.accepted, this.acked := [], accepted, acked;
    }

    /** NewService: nothing is kept. */
    static method Volatile(s: Suite) returns (o: ServiceObject)
      requires s.Valid()
      ensures fresh(o) && o.Valid() && Initial(o.View()) && !o.persistent && o.s == s
    {
      o := new ServiceObject(s, false, EMPTY, None, None, [], EMPTY);
      InitialOk(s, o.View());
    }

    /** NewPersistentService: a missing file is an empty ledger, a bad file is an error. */
    static method Open(s: Suite, path: string, file: Option<LedgerFile>) returns (res: Result<ServiceObject>)
      requires s.Valid()
      ensures res.Ok? <==> !Blank(path) && (file.Some? ==> FileOk(file.value))
      ensures res.Ok? ==>
                && fresh(res.value) && res.value.Valid() && Initial(res.value.View())
                && res.value.s == s && res.value.persistent && res.value.View().ledger == OnDisk(file)
    {
      hide FileOk, Contents;
      if Blank(path) { return Err; }
      var l := EMPTY;
      if file.Some? {
        var loaded := LoadState(file.value);
        if loaded.Err? { return Err; }
        LoadedOk(file.value);
        l := loaded.value;
      }
      var o := new ServiceObject(s, true, l, file, file, [], EMPTY);
      InitialOk(s, o.View());
      res := Ok(o);
    }

    /** The next process over the file, after an orderly end or a machine crash: it always opens, with
        exactly the ledger of the restart transition. */
    static method Restart(before: ServiceObject, crash: bool) returns (o: ServiceObject)
      requires before.Valid() && before.persistent
      ensures fresh(o) && o.Valid() && o.s == before.s
      ensures RestartStep(before.View(), crash).1 && o.View() == RestartStep(before.View(), crash).0
    {
      hide FileOk, Contents, Invariant, LedgerOk;
      var file := if crash then before.durable else before.visible;
      RestartKeeps(before.s, before.View(), crash);
      DiskOk(before.s, before.View());
      var l := EMPTY;
      if file.Some? {
        var loaded := LoadState(file.value);
        l := loaded.value;
      }
      o := new ServiceObject(before.s, true, l, file, before.durable, before.accepted, before.acked);
    }

    /** persistState with the given outcome: the sorted hex document replaces the file. */
    method Write(io: Io) returns (ok: bool)
      modifies this`visible, this`durable
      ensures View() == Persist(old(View()), io)
      ensures ok == Acked(old(View()), io)
      ensures old(FilesLoad()) ==> FilesLoad()
    {
      hide FileOk, Contents, LedgerOk;
      ok := !persistent || io.Synced?;
      if persistent && !io.NotWritten? {
        var l := Ledger(policies, revoked, seen);
        var f := PersistState(l);
        LoadRestores(l, f);
        visible := Some(f);
        if io.Synced? { durable := Some(f); }
      }
    }

    /** The sorted ids of the active accounts and their public keys. */
    method RingNow() returns (ids: seq<string>, ring: seq<Account>)
      ensures ids == Listing(active) && ring == Ring(accounts, active)
    {
      ids := SortStrings(active);
      ListsUnique(ids, Listing(active), active);
      ring := [];
      for i := 0 to |ids|
        invariant ring == Map(AccountAt(accounts), ids[..i])
      {
        assert ids[..i + 1] == ids[..i] + [ids[i]];
        ring := ring + [AccountAt(accounts)(ids[i])];
      }
      assert ids[..|ids|] == ids;
    }

    method SnapshotNow() returns (snap: Result<Snapshot>)
      requires s.Valid() && params.Some?
      ensures snap == NewSnapshot(s, params.value, Ring(accounts, active))
    {
      hide IsPrime, Ring, AccumulatorOf;
      var ids, ring := RingNow();
      var v := Accumulate(s, params.value, ring);
      snap := match v case Ok(value) => Ok(Snapshot(params.value, ring, value)) case Err => Err;
    }

    method SetUpRequest(p: Params, io: Io) returns (ok: bool)
      requires Valid()
      modifies this
      ensures Valid() && View() == SetUpStep(s, old(View()), p, io).0 && ok == SetUpStep(s, old(View()), p, io).1
    {
      hide Invariant, IsPrime, ParamsOk, OnDisk, Loads;
      SetUpKeeps(s, View(), p, io);
      if params.Some? { return false; }
      var good := ValidateParams(s, p);
      if !good { return false; }
      params := Some(p);
      ok := Write(io);
    }

    method KeygenRequest(user: string, account: string, x: int, d: int, io: Io) returns (ok: bool)
      requires Valid()
      modifies this
      ensures Valid() && View() == KeygenStep(s, old(View()), user, account, x, d, io).0
      ensures ok == KeygenStep(s, old(View()), user, account, x, d, io).1
      ensures ok <==> MayRegister(s, old(View()), user, account, x, d) && Acked(old(View()), io)
    {
      hide Invariant, IsPrime, Blank, Suite.NewAccount, StoreStep, OnDisk, Loads, MayRegister;
      KeygenAnswer(s, View(), user, account, x, d, io);
      KeygenKeeps(s, View(), user, account, x, d, io);
      if params.None? { return false; }
      if Blank(user) || Blank(account) { return false; }
      if account in accounts { return false; }
      if user in revoked { return false; }
      var key := s.NewAccount(if user in users then users[user].x else x, d);
      if key.Err? { return false; }
      ok := Store(user, account, x, key.value, io);
    }

    method Store(user: string, account: string, x: int, key: Account, io: Io) returns (ok: bool)
      requires account !in accounts
      modifies this
      ensures View() == StoreStep(old(View()), user, account, x, key, io).0
      ensures ok == StoreStep(old(View()), user, account, x, key, io).1
      ensures old(FilesLoad()) ==> FilesLoad()
    {
      hide OnDisk, Loads;
      if user !in users { users := users[user := Signer(x, map[])]; }
      ghost var before := accounts;
      accounts := accounts[account := Registration(user, key)];
      ok := Write(io);
      if !ok {
        accounts := accounts - {account};
        assert accounts == before;
      }
    }

    method JoinRequest(account: string, io: Io) returns (ok: bool)
      requires Valid()
      modifies this
      ensures Valid() && View() == EnterStep(s, old(View()), account, io).0 && ok == EnterStep(s, old(View()), account, io).1
      ensures ok <==> MayJoin(s, old(View()), account) && Acked(old(View()), io)
    {
      hide Invariant, IsPrime, Ring, AccumulatorOf, OnDisk, Loads, MayJoin;
      EnterAnswer(s, View(), account, io);
      EnterKeeps(s, View(), account, io);
      if params.None? || account !in accounts { return false; }
      var reg := accounts[account];
      var snap := SnapshotNow();
      if snap.Err? { return false; }
      if reg.userId in revoked { return false; }
      var v := Accumulate(s, params.value, snap.value.accounts + [reg.account]);
      if v.Err? { return false; }
      active := active + {account};
      ok := Write(io);
    }

    method ExitRequest(account: string, io: Io) returns (ok: bool)
      requires Valid()
      modifies this
      ensures Valid() && View() == LeaveStep(s, old(View()), account, io).0 && ok == LeaveStep(s, old(View()), account, io).1
      ensures ok <==> account in old(active) && Acked(old(View()), io)
    {
      hide Invariant, IsPrime, Ring, AccumulatorOf, ExitOf, Suite.Member, OnDisk, Loads;
      LeaveAnswer(s, View(), account, io);
      LeaveKeeps(s, View(), account, io);
      if params.None? || account !in accounts { return false; }
      var reg := accounts[account];
      var snap := SnapshotNow();
      if snap.Err? { return false; }
      if account !in active { return false; }
      var member := s.Member(reg.account);
      if member.Err? { return false; }
      var next := Exit(s, snap.value, member.value);
      if next.Err? { return false; }
      active := active - {account};
      ok := Write(io);
    }

    /** Deactivates the user's accounts one by one; no Exit is computed. */
    method RevokeRequest(user: string, io: Io) returns (ok: bool)
      requires Valid()
      modifies this
      ensures Valid() && View() == RevokeStep(old(View()), user, io).0 && ok == RevokeStep(old(View()), user, io).1
      ensures ok <==> params.Some? && user in users && Acked(old(View()), io)
      ensures params.Some? && user in users ==>
                && revoked == old(revoked) + {user}
                && forall id :: id in active <==> id in old(active) && !(id in accounts && accounts[id].userId == user)
      ensures params.None? || user !in users ==> View() == old(View())
      ensures params == old(params) && users == old(users) && accounts == old(accounts)
      ensures policies == old(policies) && seen == old(seen)
    {
      hide Invariant, IsPrime, OnDisk, Loads;
      RevokeKeeps(s, View(), user, io);
      if params.None? || user !in users { return false; }
      var rest := accounts.Keys;
      ghost var before := active;
      while rest != {}
        invariant rest <= accounts.Keys
        invariant active == before - (Owned(accounts, user) - rest)
        invariant unchanged(this`params, this`users, this`accounts, this`policies, this`revoked, this`seen,
                            this`visible, this`durable, this`released, this`accepted, this`acked)
        decreases rest
      {
        var id :| id in rest;
        if accounts[id].userId == user { active := active - {id}; }
        rest := rest - {id};
      }
      assert active == before - Owned(accounts, user);
      revoked := revoked + {user};
      ok := Write(io);
      if ok { acked := acked.(revoked := acked.revoked + {user}); }
    }

    /** Everything the sign request checks before the prover runs. */
    method PrepareSign(account: string, issue: Digest, k: nat, message: Digest, timestamp: nat) returns (ready: bool)
      requires Valid() && k < TWO32 && timestamp < TWO64
      ensures ready <==> CanSign(s, View(), account, issue, k, message, timestamp)
    {
      hide Invariant, IsPrime, Ring, Signable, RingOk, AccumulatorOf, OnDisk, Loads, Define, Draft;
      if params.None? { return false; }
      if k == 0 || (issue in policies && policies[issue] != k) { return false; }
      var ids, ring := RingNow();
      var v := Accumulate(s, params.value, ring);
      if v.Err? { return false; }
      var members := MembersOf(s, ring);
      if members.Err? { return false; }
      var idx := FindId(ids, account);
      if idx < 0 { return false; }
      SignerKnown(s, View(), account);
      var signer := users[accounts[account].userId];
      var count := Count(signer.next, issue);
      if count >= k { return false; }
      var made := MakeStatement(s, params.value, ring, idx, signer.x, accounts[account].account.d.value, issue,
                                message, timestamp, k, count);
      ready := made.Ok?;
    }

    /** The sign request: the counter is spent when the prover succeeded, the quota is pinned
        before the signature leaves. */
    method SignRequest(account: string, issue: Digest, k: nat, message: Digest, timestamp: nat,
                       prover: ProverOutcome, io: Io) returns (ok: bool)
      requires Valid() && k < TWO32 && timestamp < TWO64
      modifies this
      ensures Valid()
      ensures View() == SignStep(s, old(View()), account, issue, k, message, timestamp, prover, io).0
      ensures ok == SignStep(s, old(View()), account, issue, k, message, timestamp, prover, io).1
      ensures ok <==> MaySign(s, old(View()), account, issue, k, message, timestamp) && prover.Proves? && Acked(old(View()), io)
    {
      hide Invariant, IsPrime, CanSign, MaySign, OnDisk, Loads;
      SignAnswers(s, View(), account, issue, k, message, timestamp, prover, io);
      SignKeeps(s, View(), account, issue, k, message, timestamp, prover, io);
      var ready := PrepareSign(account, issue, k, message, timestamp);
      if !ready || prover.ProofFails? { return false; }
      ReadySigner(s, View(), account, issue, k, message, timestamp);
      var user := accounts[account].userId;
      var signer := users[user];
      var count := Count(signer.next, issue);
      users := users[user := signer.(next := signer.next[issue := count + 1])];
      if prover.MarshalFails? { return false; }
      ok := PinAndRelease(Release(user, signer.x, issue, k, count), io);
    }

    /** Pins the quota, persists it, and only then lets the signature out. */
    method PinAndRelease(e: Release, io: Io) returns (ok: bool)
      modifies this`policies, this`visible, this`durable, this`released, this`acked
      ensures ok == Acked(old(View()), io) && (old(FilesLoad()) ==> FilesLoad())
      ensures var v := Persist(old(View()).(ledger := old(View()).ledger.(policies := old(policies)[e.issue := e.k])), io);
              View() == if ok then v.(released := v.released + [e], acked := v.acked.(policies := v.acked.policies[e.issue := e.k]))
                        else v
    {
      hide OnDisk, Loads;
      policies := policies[e.issue := e.k];
      ok := Write(io);
      if ok {
        released := released + [e];
        acked := acked.(policies := acked.policies[e.issue := e.k]);
      }
    }

    /** NewVerificationContext for the current ring. */
    method ContextNow(issue: Digest, k: nat) returns (ok: bool)
      requires Valid() && params.Some? && k > 0
      ensures ok <==> ContextOk(s, Context(params.value, Ring(accounts, active), issue, k))
    {
      hide Invariant, IsPrime, Ring, RingOk, AccumulatorOf, OnDisk, Loads;
      var ids, ring := RingNow();
      var v := Accumulate(s, params.value, ring);
      if v.Err? { return false; }
      var members := MembersOf(s, ring);
      ok := members.Ok?;
    }

    /** VerificationContext.check for the current ring. */
    method CheckNow(issue: Digest, k: nat, message: seq<byte>, st: Statement) returns (ok: bool)
      requires Valid() && params.Some?
      requires ContextOk(s, Context(params.value, Ring(accounts, active), issue, k))
      ensures ok <==> Check(s, Context(params.value, Ring(accounts, active), issue, k), message, st)
      ensures ok <==>
              && 0 < st.nym < s.r && 0 < st.s < s.ell && 0 < st.t < s.ell
              && Expected(s, Context(params.value, Ring(accounts, active), issue, k), message, st.nym, st.s, st.t, st.timestamp) == Ok(st)
    {
      hide Invariant, IsPrime, Ring, RingOk, AccumulatorOf, RingPreimage, Challenge, OnDisk, Loads, Expected;
      CheckMeans(s, Context(params.value, Ring(accounts, active), issue, k), message, st);
      var ids, ring := RingNow();
      var expectedRing := RingDigest(s, ring);
      if st.issue != issue || st.k != k { return false; }
      if st.messageDigest != s.sha(message) { return false; }
      if st.ringDigest != expectedRing.value { return false; }
      var expected := Accumulate(s, params.value, ring);
      if expected.Err? || st.v != expected.value { return false; }
      if !s.GoodBN(st.nym) || !s.GoodSecp(st.s) || !s.GoodSecp(st.t) { return false; }
      if !s.SecpScalar(st.r) { return false; }
      var r := Challenge(s, st);
      if r.Err? { return false; }
      ok := r.value == st.r;
    }

    /** The verify request; `proves` says whether Groth16 accepts the proof. */
    method VerifyRequest(issue: Digest, k: nat, digest: Digest, message: seq<byte>, st: Statement, proves: bool, io: Io)
      returns (ok: bool)
      requires Valid()
      modifies this
      ensures Valid()
      ensures View() == Step(s, old(View()), Verify(issue, k, digest, message, st, proves, io)).0
      ensures ok == Step(s, old(View()), Verify(issue, k, digest, message, st, proves, io)).1
      ensures ok <==> MayVerify(s, old(View()), issue, k, digest, message, st, proves) && Acked(old(View()), io)
    {
      hide Invariant, IsPrime, Ring, ContextOk, Check, OnDisk, Loads, MayVerify, Expected;
      VerifyExact(s, View(), issue, k, digest, message, st, proves, io);
      VerifyKeeps(s, View(), issue, k, digest, Passes(s, View(), issue, k, message, st, proves), io);
      if params.None? { return false; }
      if k == 0 || issue !in policies || policies[issue] != k { return false; }
      ok := ContextNow(issue, k);
      if !ok { return false; }
      if digest in seen { return false; }
      ok := CheckNow(issue, k, message, st);
      if !ok || !proves { return false; }
      ok := Consume(digest, io);
    }

    /** Records the envelope, and answers ok only when that is written. */
    method Consume(digest: Digest, io: Io) returns (ok: bool)
      modifies this`seen, this`visible, this`durable, this`accepted, this`acked
      ensures ok == Acked(old(View()), io) && (old(FilesLoad()) ==> FilesLoad())
      ensures var v := Persist(old(View()).(ledger := old(View()).ledger.(seen := old(seen) + {digest})), io);
              View() == if ok then v.(accepted := v.accepted + [digest], acked := v.acked.(seen := v.acked.seen + {digest}))
                        else v
    {
      hide OnDisk, Loads;
      seen := seen + {digest};
      ok := Write(io);
      if ok {
        accepted := accepted + [digest];
        acked := acked.(seen := acked.seen + {digest});
      }
    }
  }

  /** The ledger a state file holds; no file is an empty ledger. */
  function OnDisk(file: Option<LedgerFile>): Ledger {
    match file case Some(f) => Contents(f) case None => EMPTY
  }

  /** A file whose contents are a proper ledger is accepted by loadState. */
  predicate Loads(file: Option<LedgerFile>) {
    file.Some? ==> (LedgerOk(Contents(file.value)) ==> FileOk(file.value))
  }

  /** What loadState accepts is a proper ledger. */
  lemma LoadedOk(f: LedgerFile)
    requires FileOk(f)
    ensures LedgerOk(Contents(f))
  {
    hide DecodeIssue, DecodeSeen, HexEncode, Blank;
    var l := Contents(f);
    forall d | d in l.policies ensures l.policies[d] != 0 {
      assert HexEncode(d) in f.policies;
    }
    forall u | u in l.revoked ensures !Blank(u) {
      var i :| 0 <= i < |f.revoked| && f.revoked[i] == u;
    }
  }

  /** In a valid persistent state both versions of the file hold proper ledgers. */
  lemma DiskOk(s: Suite, t: State)
    requires s.Valid() && Invariant(s, t) && t.persistent
    ensures LedgerOk(t.visible) && LedgerOk(t.durable)
  {
    hide PeopleOk, RingValid, ReleasesOk, AcceptedOk, LedgerLe, LedgerOk, IsPrime;
    LedgerLeTransitive(t.durable, t.visible, t.ledger);
    LedgerLeOk(t.durable, t.ledger);
    LedgerLeOk(t.visible, t.ledger);
  }

  /** The loop over the sorted ids; with different ids the last match is the only one. */
  method FindId(ids: seq<string>, id: string) returns (idx: int)
    requires Sorted(ids)
    ensures idx < 0 <==> id !in ids
    ensures id in ids ==> idx == IndexOf(ids, id)
  {
    ListsDistinct(ids);
    idx := -1;
    for i := 0 to |ids|
      invariant -1 <= idx < i
      invariant idx < 0 <==> id !in ids[..i]
      invariant idx >= 0 ==> ids[idx] == id
    {
      assert ids[..i + 1] == ids[..i] + [ids[i]];
      if ids[i] == id { idx := i; }
    }
    assert ids[..|ids|] == ids;
  }

  lemma ReadySigner(s: Suite, t: State, account: string, issue: Digest, k: nat, message: Digest, timestamp: nat)
    requires s.Valid() && CanSign(s, t, account, issue, k, message, timestamp)
    ensures account in t.accounts && t.accounts[account].userId in t.users
  {
    hide IsPrime, Ring, Signable, ContextOk, PolicyOk;
  }

  lemma SignerKnown(s: Suite, t: State, account: string)
    requires s.Valid() && Invariant(s, t) && account in t.active
    ensures account in t.accounts && t.accounts[account].userId in t.users
    ensures t.accounts[account].account.d.Some?
  {
    hide IsPrime, RingValid, LedgersOk, ReleasesOk, AcceptedOk;
    assert AccountOk(s, t.users, t.accounts[account]);
  }
}
