/** The clear reference protocol of clear.cpp: users with several accounts, a stateful
    accumulator, signatures that carry their witness, and their verification. */
module Clear {
  import opened Common
  import opened Sequences
  import opened Bytes
  import opened Field
  import opened Circuit
  import opened Text
  import Tracing
  import opened ClearAccumulator

  /** An account's public key: U_i = [d]u, Y_i = [x]U_i in the standalone group. */
  datatype PublicKey = PublicKey(userId: string, accountId: string, u: int, y: int, member: int)

  datatype Label = Label(issue: string, accounts: seq<PublicKey>)

  /** Orders, hashes and bases of one protocol instance. */
  datatype Rules = Rules(
    p: Sdh,                                               // pairing group of order p.r
    ell: int,                                             // order of the standalone group
    issue: string, limit: nat,
    g0: int, g1: int, g2: int, ut: int,
    memberHash: (int, int) -> int,                        // member_handle
    challenge: (Label, seq<byte>, int, nat) -> int,       // hash of the challenge transcript
    gpChallenge: int -> int
  ) {
    ghost predicate Valid() {
      && SdhOk(p) && p.r > TWO64
      && IsPrime(ell) && ell > TWO64
      && 0 < limit < TWO64 && 0 < ut < ell
      && (forall u, y :: 0 < memberHash(u, y) < p.r)
      && (forall l, m, n, t :: 0 < challenge(l, m, n, t) < p.r)
      && (forall c :: 0 < gpChallenge(c) < ell)
    }

    function Nym(k: Secrets): int
      requires p.r > 0
    {
      (g0 * k.sPair + g1 * k.tPair + g2 * k.xPair) % p.r
    }
  }

  /** The values derived from a user's seed. */
  datatype Secrets = Secrets(xPair: int, sPair: int, tPair: int, xGp: int, sGp: int, tGp: int)

  datatype UserRecord = UserRecord(secrets: Secrets, nextCounter: nat)

  datatype AccountRecord = AccountRecord(key: PublicKey, d: int, active: bool)

  datatype ClearWitness = ClearWitness(secrets: Secrets, d: int, member: int, counter: int, membership: int)

  datatype Signature = Signature(nym: int, value: int, pass: int, tag: int, challenge: int, timestamp: nat, w: ClearWitness)

  const LONG_MAX: nat := 0x7fff_ffff_ffff_ffff

  // --- state ------------------------------------------------------------------------------------

  function ActiveIds(accounts: map<string, AccountRecord>): set<string> {
    set id | id in accounts && accounts[id].active
  }

  function KeyAt(accounts: map<string, AccountRecord>): string -> PublicKey {
    (id: string) => if id in accounts then accounts[id].key else PublicKey("", "", 0, 0, 0)
  }

  function HandleAt(accounts: map<string, AccountRecord>): string -> int {
    (id: string) => if id in accounts then accounts[id].key.member else 0
  }

  /** The active accounts' handles, sorted by account id. */
  ghost function ActiveHandles(accounts: map<string, AccountRecord>): seq<int> {
    Map(HandleAt(accounts), Listing(ActiveIds(accounts)))
  }

  ghost function CurrentLabel(rules: Rules, accounts: map<string, AccountRecord>): Label {
    Label(rules.issue, Map(KeyAt(accounts), Listing(ActiveIds(accounts))))
  }

  ghost predicate AccountFits(rules: Rules, users: map<string, UserRecord>, id: string, a: AccountRecord)
    requires rules.Valid()
  {
    && a.key.accountId == id && a.key.userId in users
    && 0 < a.d < rules.ell
    && a.key.u == a.d && a.key.y == (a.d * users[a.key.userId].secrets.xGp) % rules.ell
    && a.key.member == rules.memberHash(a.key.u, a.key.y)
  }

  /** The accumulator holds exactly the handles of the active accounts, and every account was
      derived from its user. */
  ghost predicate Consistent(rules: Rules, acc: Acc, users: map<string, UserRecord>, accounts: map<string, AccountRecord>)
    requires rules.Valid()
  {
    && AccOk(rules.p, acc)
    && (forall id | id in accounts :: AccountFits(rules, users, id, accounts[id]))
    && multiset(acc.members) == multiset(ActiveHandles(accounts))
  }

  /** The stored value is value_for of the id-sorted handles, which are distinct. */
  lemma StoredValue(rules: Rules, acc: Acc, users: map<string, UserRecord>, accounts: map<string, AccountRecord>)
    requires rules.Valid() && Consistent(rules, acc, users, accounts)
    ensures Distinct(ActiveHandles(accounts)) && Accumulable(rules.p, ActiveHandles(accounts))
    ensures acc.value == SetValue(rules.p, ActiveHandles(accounts))
  {
    hide SdhOk, IsPrime;
    ValueForAnyOrder(rules.p, acc, ActiveHandles(accounts));
  }

  /** An active account's handle is a member of the accumulator. */
  lemma ActiveIsMember(rules: Rules, acc: Acc, users: map<string, UserRecord>, accounts: map<string, AccountRecord>, id: string)
    requires rules.Valid() && Consistent(rules, acc, users, accounts)
    requires id in accounts && accounts[id].active
    ensures accounts[id].key.member in acc.members
  {
    hide SdhOk, IsPrime, AccOk, AccountFits;
    var q := Listing(ActiveIds(accounts));
    assert id in q;
    var i :| 0 <= i < |q| && q[i] == id;
    assert HandleAt(accounts)(q[i]) == accounts[id].key.member;
    assert ActiveHandles(accounts)[i] == HandleAt(accounts)(q[i]);
    assert accounts[id].key.member in multiset(ActiveHandles(accounts));
    assert accounts[id].key.member in multiset(acc.members);
  }

  lemma SameHandles(a: map<string, AccountRecord>, b: map<string, AccountRecord>, q: seq<string>)
    requires forall i | 0 <= i < |q| :: HandleAt(a)(q[i]) == HandleAt(b)(q[i])
    ensures Map(HandleAt(a), q) == Map(HandleAt(b), q)
  {
  }

  /** Activating an account adds its handle to the id-sorted list, somewhere. */
  lemma ActivateHandles(accounts: map<string, AccountRecord>, id: string)
    requires id in accounts && !accounts[id].active
    ensures var next := accounts[id := accounts[id].(active := true)];
            multiset(ActiveHandles(next)) == multiset(ActiveHandles(accounts)) + multiset{accounts[id].key.member}
  {
    var next := accounts[id := accounts[id].(active := true)];
    var a, b := ActiveIds(accounts), ActiveIds(next);
    assert b == a + {id};
    var p, q := Listing(a), Listing(b);
    ListedMultiset(p, a);
    ListedMultiset(q, b);
    assert multiset(b) == multiset(a) + multiset{id};
    MapMultiset(HandleAt(next), q, p + [id]);
    assert HandleAt(next)(id) == accounts[id].key.member;
    assert Map(HandleAt(next), p + [id]) == Map(HandleAt(next), p) + [accounts[id].key.member];
    SameHandles(accounts, next, p);
  }

  lemma DeactivateHandles(accounts: map<string, AccountRecord>, id: string)
    requires id in accounts && accounts[id].active
    ensures var next := accounts[id := accounts[id].(active := false)];
            multiset(ActiveHandles(next)) == multiset(ActiveHandles(accounts)) - multiset{accounts[id].key.member}
  {
    var next := accounts[id := accounts[id].(active := false)];
    ActivateHandles(next, id);
    assert next[id := next[id].(active := true)] == accounts;
  }

  /** Adding an inactive account changes no handle of the ring. */
  lemma AddAccountHandles(accounts: map<string, AccountRecord>, id: string, a: AccountRecord)
    requires id !in accounts && !a.active
    ensures ActiveHandles(accounts[id := a]) == ActiveHandles(accounts)
  {
    var next := accounts[id := a];
    assert ActiveIds(next) == ActiveIds(accounts);
    var q := Listing(ActiveIds(accounts));
    forall i | 0 <= i < |q| ensures HandleAt(next)(q[i]) == HandleAt(accounts)(q[i]) {
      assert q[i] in q;
    }
    SameHandles(next, accounts, q);
  }

  lemma JoinConsistent(rules: Rules, acc: Acc, next: Acc, users: map<string, UserRecord>, accounts: map<string, AccountRecord>, id: string)
    requires rules.Valid() && Consistent(rules, acc, users, accounts) && id in accounts && !accounts[id].active
    requires AccOk(rules.p, next) && Updated(rules.p, acc, acc.members + [accounts[id].key.member]) == Ok(next)
    ensures Consistent(rules, next, users, accounts[id := accounts[id].(active := true)])
  {
    hide IsPrime, SdhOk, AccOk, Accumulable, SetValue, ActiveHandles;
    ActivateHandles(accounts, id);
  }

  lemma ExitConsistent(rules: Rules, acc: Acc, next: Acc, users: map<string, UserRecord>, accounts: map<string, AccountRecord>, id: string)
    requires rules.Valid() && Consistent(rules, acc, users, accounts) && id in accounts && accounts[id].active
    requires AccOk(rules.p, next) && Updated(rules.p, acc, Dropped(acc.members, accounts[id].key.member)) == Ok(next)
    ensures Consistent(rules, next, users, accounts[id := accounts[id].(active := false)])
  {
    hide IsPrime, SdhOk, SetValue, ActiveHandles;
    ActiveIsMember(rules, acc, users, accounts, id);
    DropAccumulable(rules.p, acc.members, accounts[id].key.member);
    DeactivateHandles(accounts, id);
  }

  // --- the protocol object --------------------------------------------------------------------------

  class ClearProtocol {
    const rules: Rules
    const accumulator: AccumulatorObject
    var users: map<string, UserRecord>
    var accounts: map<string, AccountRecord>
    var revoked: set<string>

    /** Accounts, users and accumulator agree. */
    ghost predicate Sound()
      reads this, accumulator
    {
      && rules.Valid() && accumulator.p == rules.p && accumulator.Valid()
      && Consistent(rules, accumulator.View(), users, accounts)
      && (forall u | u in users :: SecretsOk(rules, users[u].secrets) && users[u].nextCounter <= rules.limit)
    }

    /** Also, nobody revoked is in the ring, unless the version counter ran out. */
    ghost predicate Valid()
      reads this, accumulator
    {
      Sound() && (accumulator.version < MAX_VERSION ==> NoneRevoked(accounts, revoked))
    }

    constructor (rules: Rules)
      requires rules.Valid()
      ensures Valid() && fresh(accumulator) && this.rules == rules
      ensures users == map[] && accounts == map[] && revoked == {}
    {
      this.rules := rules;
      accumulator := new AccumulatorObject(rules.p);
      users, accounts, revoked := map[], map[], {};
      new;
      NoneListed();
    }

    method CreateUser(userId: string, secrets: Secrets) returns (ok: bool)
      requires Valid() && SecretsOk(rules, secrets)
      modifies this`users
      ensures Valid()
      ensures ok <==> userId != "" && userId !in old(users) && userId !in revoked
      ensures users == if ok then old(users)[userId := UserRecord(secrets, 0)] else old(users)
    {
      hide Rules.Valid, AccOk, IsPrime;
      if userId == "" || userId in users || userId in revoked { return false; }
      users := users[userId := UserRecord(secrets, 0)];
      ok := true;
    }

    /** d is the nonzero hash of the user's seed, the issue and the account id. */
    method CreateAccount(userId: string, accountId: string, d: int) returns (ok: bool)
      requires Valid() && 0 < d < rules.ell
      modifies this`accounts
      ensures Valid()
      ensures ok <==> accountId != "" && accountId !in old(accounts) && userId in users
      ensures !ok ==> accounts == old(accounts)
      ensures ok ==> accountId in accounts && !accounts[accountId].active && accounts[accountId].d == d
                     && accounts[accountId].key.userId == userId
                     && accounts == old(accounts)[accountId := accounts[accountId]]
    {
      hide Rules.Valid, AccOk, IsPrime, ActiveHandles;
      if accountId == "" || accountId in accounts || userId !in users { return false; }
      var u := d;
      var y := (u * users[userId].secrets.xGp) % rules.ell;
      var record := AccountRecord(PublicKey(userId, accountId, u, y, rules.memberHash(u, y)), d, false);
      AddAccountHandles(accounts, accountId, record);
      accounts := accounts[accountId := record];
      ok := true;
    }

    /** Joins when the account is known, inactive and not of a revoked user, the accumulator takes
        its handle, and the version counter is not exhausted. */
    method Join(accountId: string) returns (ok: bool)
      requires Valid()
      modifies this`accounts, accumulator
      ensures Valid()
      ensures ok <==>
              && accountId in old(accounts) && !old(accounts)[accountId].active
              && old(accounts)[accountId].key.userId !in revoked
              && old(accounts)[accountId].key.member !in old(accumulator.members)
              && Accumulable(rules.p, old(accumulator.members) + [old(accounts)[accountId].key.member])
              && old(accumulator.version) < MAX_VERSION
      ensures ok ==> accounts == old(accounts)[accountId := old(accounts)[accountId].(active := true)]
      ensures ok ==> accumulator.version == old(accumulator.version) + 1
      ensures !ok ==> accounts == old(accounts) && accumulator.View() == old(accumulator.View())
    {
      hide IsPrime, SdhOk, Consistent, Accumulable, SetValue, AccOk, SecretsOk;
      if accountId !in accounts { return false; }
      var record := accounts[accountId];
      if record.key.userId in revoked || record.active { return false; }
      ghost var acc := accumulator.View();
      ok := accumulator.Join(record.key.member);
      if ok {
        JoinConsistent(rules, acc, accumulator.View(), users, accounts, accountId);
        accounts := accounts[accountId := record.(active := true)];
      }
    }

    /** An active account can always exit, unless the version counter is exhausted. */
    method Exit(accountId: string) returns (ok: bool)
      requires Sound()
      modifies this`accounts, accumulator
      ensures Sound() && (old(Valid()) ==> Valid())
      ensures ok <==> accountId in old(accounts) && old(accounts)[accountId].active && old(accumulator.version) < MAX_VERSION
      ensures ok ==> accounts == old(accounts)[accountId := old(accounts)[accountId].(active := false)]
      ensures ok ==> accumulator.version == old(accumulator.version) + 1
      ensures !ok ==> accounts == old(accounts) && accumulator.View() == old(accumulator.View())
    {
      hide IsPrime, SdhOk, Consistent, Accumulable, SetValue, AccOk, SecretsOk;
      if accountId !in accounts { return false; }
      var record := accounts[accountId];
      if !record.active { return false; }
      ghost var acc := accumulator.View();
      ActiveIsMember(rules, acc, users, accounts, accountId);
      ok := accumulator.Exit(record.key.member);
      if ok {
        ExitConsistent(rules, acc, accumulator.View(), users, accounts, accountId);
        accounts := accounts[accountId := record.(active := false)];
      }
    }

    /** Marks the user revoked, then exits the active accounts in id order. The revocation is
        complete exactly when the version counter has room for all those exits; otherwise the
        call stops with some accounts still active although the user is marked revoked. */
    method RevokeUser(userId: string) returns (ok: bool)
      requires Valid()
      modifies this`accounts, this`revoked, accumulator
      ensures Valid()
      ensures userId !in users ==>
                !ok && accounts == old(accounts) && revoked == old(revoked) && accumulator.View() == old(accumulator.View())
      ensures userId in users ==> revoked == old(revoked) + {userId}
      ensures userId in users ==>
                (ok <==> old(accumulator.version) + |ActiveOf(old(accounts), userId)| <= MAX_VERSION)
      ensures ok <==> userId in users && ActiveOf(accounts, userId) == {}
      ensures accounts.Keys == old(accounts).Keys
      ensures forall id | id in accounts && accounts[id].key.userId != userId :: accounts[id] == old(accounts)[id]
    {
      hide IsPrime, Rules.Valid, ActiveHandles, Consistent, Listing;
      if userId !in users { return false; }
      revoked := revoked + {userId};
      ghost var start := accounts;
      var owned := SortStrings(ActiveOf(accounts, userId));
      CountListed(owned, ActiveOf(accounts, userId));
      var i := 0;
      while i < |owned|
        invariant 0 <= i <= |owned| && Sound()
        invariant accounts.Keys == start.Keys && revoked == old(revoked) + {userId}
        invariant forall id | id in accounts && accounts[id].key.userId != userId :: accounts[id] == start[id]
        invariant ActiveOf(accounts, userId) == Elements(owned[i..])
        invariant accumulator.version == old(accumulator.version) + i <= MAX_VERSION
      {
        ghost var before := accounts;
        assert owned[i] in owned[i..];
        assert owned[i] in ActiveOf(accounts, userId);
        var done := Exit(owned[i]);
        if !done { return false; }
        ShrinkOwned(before, userId, owned, i);
        i := i + 1;
      }
      assert owned[i..] == [];
      NoneLeft(start, accounts, old(revoked), userId);
      ok := true;
    }

    /** Signs with the user's next counter; a member's witness is always found. */
    method SignClear(userId: string, accountId: string, message: seq<byte>, timestamp: nat) returns (res: Result<Signature>)
      requires Valid()
      modifies this`users
      ensures Valid()
      ensures res.Ok? <==> MaySign(rules, old(users), accounts, userId, accountId)
      ensures res.Err? ==> users == old(users)
      ensures res.Ok? ==>
                && users == old(users)[userId := old(users)[userId].(nextCounter := old(users)[userId].nextCounter + 1)]
                && res.value == SignatureOf(rules, accumulator.View(), old(users), accounts, userId, accountId, message, timestamp)
    {
      hide IsPrime, SdhOk, ActiveHandles, Accumulable, SetValue;
      if userId !in users || accountId !in accounts { return Err; }
      var owner := users[userId];
      var record := accounts[accountId];
      if record.key.userId != userId || !record.active { return Err; }
      if owner.nextCounter >= rules.limit || owner.nextCounter > LONG_MAX { return Err; }
      var member := record.key.member;
      ActiveIsMember(rules, accumulator.View(), users, accounts, accountId);
      var membership := accumulator.WitnessFor(member);
      if membership.Err? { return Err; }
      var c := owner.nextCounter;
      if Denominator(rules.ell, owner.secrets.sGp, c) == 0 || Denominator(rules.ell, owner.secrets.tGp, c) == 0 { return Err; }
      var nym := rules.Nym(owner.secrets);
      var ring := LabelNow();
      var challenge := rules.challenge(ring, message, nym, timestamp);
      var pass := Serial(rules.ell, rules.ut, owner.secrets.sGp, c);
      var tag := TraceTag(rules.ell, owner.secrets.xGp, rules.ut, rules.gpChallenge(challenge), owner.secrets.tGp, c);
      var w := ClearWitness(owner.secrets, record.d, member, c % rules.p.r, membership.value.value);
      res := Ok(Signature(nym, accumulator.value, pass, tag, challenge, timestamp, w));
      users := users[userId := owner.(nextCounter := c + 1)];
    }

    /** verify_clear. */
    method Verify(ring: Label, message: seq<byte>, sig: Signature) returns (ok: bool)
      requires Valid() && 0 <= sig.w.membership < rules.p.r
      ensures ok <==> VerifyClear(rules, accumulator.View(), users, accounts, ring, message, sig)
      ensures ok <==> ring == CurrentLabel(rules, accounts)
                      && exists id :: SignedBy(rules, accumulator.View(), users, accounts, id, message, sig)
    {
      VerifyClearExact(rules, accumulator.View(), users, accounts, ring, message, sig);
      ok := VerifyChecks(ring, message, sig);
    }

    /** The checks one after the other. */
    method VerifyChecks(ring: Label, message: seq<byte>, sig: Signature) returns (ok: bool)
      requires Valid() && 0 <= sig.w.membership < rules.p.r
      ensures ok <==> VerifyClear(rules, accumulator.View(), users, accounts, ring, message, sig)
    {
      hide IsPrime, SdhOk, Rules.Nym, Denominator, Serial, TraceTag, FindMember;
      if ring.issue != rules.issue || |ring.accounts| == 0 { return false; }
      if sig.challenge != rules.challenge(ring, message, sig.nym, sig.timestamp) { return false; }
      // value_for the id-sorted handles never fails and gives the stored value.
      StoredValue(rules, accumulator.View(), users, accounts);
      var handles := HandlesNow();
      var value := AccumulateSet(rules.p, handles);
      if value.Err? || sig.value != value.value { return false; }
      var expected := LabelNow();
      if ring.accounts != expected.accounts { return false; }
      if sig.w.counter < 0 || sig.w.counter >= TWO64 || sig.w.counter >= rules.limit { return false; }
      var found := Find(ring.accounts, sig.w.member);
      if found.None? || found.value.accountId !in accounts { return false; }
      var record := accounts[found.value.accountId];
      if !record.active || record.key != found.value || found.value.userId !in users { return false; }
      var k := users[found.value.userId].secrets;
      if sig.w.secrets != k || sig.w.member != rules.memberHash(found.value.u, found.value.y) { return false; }
      if sig.w.d % rules.ell != found.value.u { return false; }
      if (found.value.u * sig.w.secrets.xGp) % rules.ell != found.value.y { return false; }
      var opens := accumulator.VerifyRaw(sig.w.member, sig.w.membership);
      if !opens || sig.nym != rules.Nym(sig.w.secrets) { return false; }
      var c := AsLong(sig.w.counter);
      if Denominator(rules.ell, k.sGp, c) == 0 || Denominator(rules.ell, k.tGp, c) == 0 { return false; }
      if sig.pass != Serial(rules.ell, rules.ut, k.sGp, c) { return false; }
      ok := sig.tag == TraceTag(rules.ell, k.xGp, rules.ut, rules.gpChallenge(sig.challenge), k.tGp, c);
    }

    /** trace_clear. The accounts are scanned in an arbitrary order. */
    method Trace(ring: Label, m1: seq<byte>, a: Signature, m2: seq<byte>, b: Signature) returns (res: Verdict)
      requires Valid() && 0 <= a.w.membership < rules.p.r && 0 <= b.w.membership < rules.p.r
      ensures var acc := accumulator.View();
              if !VerifyClear(rules, acc, users, accounts, ring, m1, a)
                 || !VerifyClear(rules, acc, users, accounts, ring, m2, b) || a.nym != b.nym
              then res == Invalid
              else MayConclude(rules, accounts, a, b, res)
    {
      hide IsPrime, SdhOk, VerifyClear, Consistent;
      var first := Verify(ring, m1, a);
      var second := Verify(ring, m2, b);
      if !first || !second || a.nym != b.nym { return Invalid; }
      if a.pass != b.pass { return Legal; }
      if a.challenge == b.challenge && a.tag == b.tag && a.timestamp == b.timestamp { return Replay; }
      var r1, r2 := rules.gpChallenge(a.challenge), rules.gpChallenge(b.challenge);
      if (r2 - r1) % rules.ell == 0 { return Invalid; }
      var recovered := Recovered(rules, a, b);
      var left := accounts.Keys;
      while left != {}
        invariant left <= accounts.Keys
        invariant forall id | id in accounts && id !in left :: !Matches(rules, accounts[id], recovered)
        decreases |left|
      {
        var id :| id in left;
        if Matches(rules, accounts[id], recovered) { return TracedTo(accounts[id].key.userId); }
        left := left - {id};
      }
      res := Invalid;
    }

    /** The id-sorted handles. */
    method HandlesNow() returns (handles: seq<int>)
      ensures handles == ActiveHandles(accounts)
    {
      var ids := SortStrings(ActiveIds(accounts));
      ListsUnique(ids, Listing(ActiveIds(accounts)), ActiveIds(accounts));
      handles := [];
      for i := 0 to |ids|
        invariant handles == Map(HandleAt(accounts), ids[..i])
      {
        assert ids[..i + 1] == ids[..i] + [ids[i]];
        handles := handles + [HandleAt(accounts)(ids[i])];
      }
      assert ids[..|ids|] == ids;
    }

    method LabelNow() returns (ring: Label)
      ensures ring == CurrentLabel(rules, accounts)
    {
      var ids := SortStrings(ActiveIds(accounts));
      ListsUnique(ids, Listing(ActiveIds(accounts)), ActiveIds(accounts));
      var keys: seq<PublicKey> := [];
      for i := 0 to |ids|
        invariant keys == Map(KeyAt(accounts), ids[..i])
      {
        assert ids[..i + 1] == ids[..i] + [ids[i]];
        keys := keys + [KeyAt(accounts)(ids[i])];
      }
      assert ids[..|ids|] == ids;
      ring := Label(rules.issue, keys);
    }
  }

  ghost predicate SecretsOk(rules: Rules, k: Secrets) {
    && 0 < k.xPair < rules.p.r && 0 < k.sPair < rules.p.r && 0 < k.tPair < rules.p.r
    && 0 < k.xGp < rules.ell && 0 < k.sGp < rules.ell && 0 < k.tGp < rules.ell
  }

  /** No active account belongs to a revoked user. */
  ghost predicate NoneRevoked(accounts: map<string, AccountRecord>, revoked: set<string>) {
    forall id | id in accounts && accounts[id].active :: accounts[id].key.userId !in revoked
  }

  function ActiveOf(accounts: map<string, AccountRecord>, userId: string): set<string> {
    set id | id in accounts && accounts[id].active && accounts[id].key.userId == userId
  }

  lemma NoneLeft(before: map<string, AccountRecord>, accounts: map<string, AccountRecord>, revoked: set<string>, userId: string)
    requires ActiveOf(accounts, userId) == {} && accounts.Keys == before.Keys
    requires forall id | id in accounts && accounts[id].key.userId != userId :: accounts[id] == before[id]
    ensures NoneRevoked(before, revoked) ==> NoneRevoked(accounts, revoked + {userId})
  {
    forall id | id in accounts && accounts[id].active ensures accounts[id].key.userId != userId {
      assert id !in ActiveOf(accounts, userId);
    }
  }

  lemma NoneListed()
    ensures ActiveHandles(map[]) == []
  {
    HasFirst(Listing({}));
    assert ActiveIds(map[]) == {};
  }

  lemma CountListed(q: seq<string>, s: set<string>)
    requires Lists(q, s)
    ensures |q| == |s| && Distinct(q)
    ensures Elements(q) == s
  {
    ListsDistinct(q);
    ListedMultiset(q, s);
    assert |multiset(q)| == |q| && |multiset(s)| == |s|;
  }

  lemma ShrinkOwned(accounts: map<string, AccountRecord>, userId: string, owned: seq<string>, i: nat)
    requires i < |owned| && Distinct(owned) && ActiveOf(accounts, userId) == Elements(owned[i..])
    requires owned[i] in accounts
    ensures ActiveOf(accounts[owned[i] := accounts[owned[i]].(active := false)], userId) == Elements(owned[i + 1..])
  {
    var next := accounts[owned[i] := accounts[owned[i]].(active := false)];
    assert owned[i..] == [owned[i]] + owned[i + 1..];
    assert owned[i] !in owned[i + 1..];
    forall id ensures id in ActiveOf(next, userId) <==> id in owned[i + 1..] {
      assert id in ActiveOf(accounts, userId) <==> id in owned[i..];
    }
  }

  /** Revocation can stop half-way: over all rules, for every account that can join at all, joining and
      leaving leads to a valid state in which its user's revocation cannot remove it. */
  lemma RevocationCanStop(rules: Rules, users: map<string, UserRecord>, id: string, a: AccountRecord) returns (states: seq<Acc>)
    requires rules.Valid() && AccountFits(rules, users, id, a) && a.active && Accumulable(rules.p, [a.key.member])
    ensures |states| == MAX_VERSION + 1 && states[0] == Start(rules.p)
    ensures forall i | 0 <= i < MAX_VERSION :: JoinOrExit(rules.p, states[i], states[i + 1], a.key.member)
    ensures var last, accounts := states[MAX_VERSION], map[id := a];
            && Consistent(rules, last, users, accounts)
            && ActiveOf(accounts, a.key.userId) == {id}
            && last.version + |ActiveOf(accounts, a.key.userId)| > MAX_VERSION
  {
    states := ExitCanFail(rules.p, a.key.member);
    hide SdhOk, IsPrime, AccOk, Rules.Valid, JoinOrExit, Evolves;
    var accounts := map[id := a];
    assert ActiveIds(accounts) == {id} && ActiveOf(accounts, a.key.userId) == {id};
    var q := Listing({id});
    ListedMultiset(q, {id});
    MapMultiset(HandleAt(accounts), q, [id]);
    assert multiset(q) == multiset([id]);
    assert Map(HandleAt(accounts), [id]) == [a.key.member];
  }

  // --- signing and verifying ----------------------------------------------------------------------------

  ghost predicate MaySign(rules: Rules, users: map<string, UserRecord>, accounts: map<string, AccountRecord>,
                          userId: string, accountId: string)
    requires rules.Valid()
  {
    && userId in users && accountId in accounts
    && accounts[accountId].key.userId == userId && accounts[accountId].active
    && var c := users[userId].nextCounter;
    && c < rules.limit && c <= LONG_MAX
    && Denominator(rules.ell, users[userId].secrets.sGp, c) != 0
    && Denominator(rules.ell, users[userId].secrets.tGp, c) != 0
  }

  ghost function SignatureOf(rules: Rules, acc: Acc, users: map<string, UserRecord>, accounts: map<string, AccountRecord>,
                             userId: string, accountId: string, message: seq<byte>, timestamp: nat): Signature
    requires rules.Valid() && MaySign(rules, users, accounts, userId, accountId)
  {
    var k, c, a := users[userId].secrets, users[userId].nextCounter, accounts[accountId];
    var nym := rules.Nym(k);
    var challenge := rules.challenge(CurrentLabel(rules, accounts), message, nym, timestamp);
    Signature(nym, acc.value,
              Serial(rules.ell, rules.ut, k.sGp, c),
              TraceTag(rules.ell, k.xGp, rules.ut, rules.gpChallenge(challenge), k.tGp, c),
              challenge, timestamp,
              ClearWitness(k, a.d, a.key.member, c % rules.p.r, SetValue(rules.p, Dropped(acc.members, a.key.member))))
  }

  /** The first account of the ring with the witness's member handle. */
  function FindMember(keys: seq<PublicKey>, member: int): Option<PublicKey> {
    if keys == [] then None
    else if keys[0].member == member then Some(keys[0])
    else FindMember(keys[1..], member)
  }

  /** verify_clear: every check of the verifier against the current state. */
  ghost predicate VerifyClear(rules: Rules, acc: Acc, users: map<string, UserRecord>, accounts: map<string, AccountRecord>,
                              ring: Label, message: seq<byte>, sig: Signature)
    requires rules.Valid()
  {
    && ring.issue == rules.issue && ring.accounts != []
    && sig.challenge == rules.challenge(ring, message, sig.nym, sig.timestamp)
    && Distinct(ActiveHandles(accounts)) && Accumulable(rules.p, ActiveHandles(accounts))
    && sig.value == SetValue(rules.p, ActiveHandles(accounts))
    && ring.accounts == CurrentLabel(rules, accounts).accounts
    && 0 <= sig.w.counter < TWO64 && sig.w.counter < rules.limit
    && var found := FindMember(ring.accounts, sig.w.member);
    && found.Some?
    && found.value.accountId in accounts && accounts[found.value.accountId].active
    && accounts[found.value.accountId].key == found.value
    && found.value.userId in users
    && var k := users[found.value.userId].secrets;
    && sig.w.secrets == k
    && sig.w.member == rules.memberHash(found.value.u, found.value.y)
    && sig.w.d % rules.ell == found.value.u
    && (found.value.u * sig.w.secrets.xGp) % rules.ell == found.value.y
    && Opens(rules.p, acc.value, sig.w.member, sig.w.membership)
    && sig.nym == rules.Nym(sig.w.secrets)
    && TagsHold(rules, k, sig)
  }

  /** The tags are those of the secrets for the witness counter, cast to a signed long. */
  ghost predicate TagsHold(rules: Rules, k: Secrets, sig: Signature)
    requires rules.Valid()
  {
    var c := AsLong(sig.w.counter);
    && Denominator(rules.ell, k.sGp, c) != 0
    && Denominator(rules.ell, k.tGp, c) != 0
    && sig.pass == Serial(rules.ell, rules.ut, k.sGp, c)
    && sig.tag == TraceTag(rules.ell, k.xGp, rules.ut, rules.gpChallenge(sig.challenge), k.tGp, c)
  }

  /** The conversion of an unsigned 64-bit counter to a signed long. */
  function AsLong(counter: int): int {
    if counter <= LONG_MAX then counter else counter - TWO64
  }

  method Find(keys: seq<PublicKey>, member: int) returns (res: Option<PublicKey>)
    ensures res == FindMember(keys, member)
  {
    var i := 0;
    while i < |keys|
      invariant 0 <= i <= |keys| && FindMember(keys, member) == FindMember(keys[i..], member)
    {
      if keys[i].member == member { return Some(keys[i]); }
      assert keys[i..][1..] == keys[i + 1..];
      i := i + 1;
    }
    res := None;
  }

  // --- tracing -----------------------------------------------------------------------------------------

  datatype Verdict = Legal | TracedTo(userId: string) | Replay | Invalid

  /** [1/(r2 - r1)]([r2]T1 - [r1]T2). */
  function Recovered(rules: Rules, a: Signature, b: Signature): int
    requires IsPrime(rules.ell)
    requires (rules.gpChallenge(b.challenge) - rules.gpChallenge(a.challenge)) % rules.ell != 0
  {
    var r1, r2 := rules.gpChallenge(a.challenge), rules.gpChallenge(b.challenge);
    (((a.tag * r2) % rules.ell - (b.tag * r1) % rules.ell) * Inv(rules.ell, (r2 - r1) % rules.ell)) % rules.ell
  }

  predicate Matches(rules: Rules, a: AccountRecord, recovered: int)
    requires rules.ell > 0
  {
    a.active && (recovered * a.d) % rules.ell == a.key.y
  }

  /** What the comparison of two verified signatures of one pseudonym may return. */
  ghost predicate MayConclude(rules: Rules, accounts: map<string, AccountRecord>, a: Signature, b: Signature, res: Verdict)
    requires rules.Valid()
  {
    if a.pass != b.pass then res == Legal
    else if a.challenge == b.challenge && a.tag == b.tag && a.timestamp == b.timestamp then res == Replay
    else if (rules.gpChallenge(b.challenge) - rules.gpChallenge(a.challenge)) % rules.ell == 0 then res == Invalid
    else
      var x := Recovered(rules, a, b);
      || (res.TracedTo? && exists id :: id in accounts && Matches(rules, accounts[id], x) && accounts[id].key.userId == res.userId)
      || (res == Invalid && forall id | id in accounts :: !Matches(rules, accounts[id], x))
  }

  /** The scan always comes to a verdict, and to a user exactly if an account matches. */
  lemma VerdictExists(rules: Rules, accounts: map<string, AccountRecord>, a: Signature, b: Signature) returns (res: Verdict)
    requires rules.Valid()
    ensures MayConclude(rules, accounts, a, b, res)
  {
    hide Recovered, IsPrime, Matches;
    if a.pass != b.pass {
      res := Legal;
    } else if a.challenge == b.challenge && a.tag == b.tag && a.timestamp == b.timestamp {
      res := Replay;
    } else if (rules.gpChallenge(b.challenge) - rules.gpChallenge(a.challenge)) % rules.ell == 0 {
      res := Invalid;
    } else {
      var x := Recovered(rules, a, b);
      if id :| id in accounts && Matches(rules, accounts[id], x) {
        res := TracedTo(accounts[id].key.userId);
      } else {
        res := Invalid;
      }
    }
  }

  /** The user whose account the verifier found for the signature. */
  function SignerOf(ring: Label, sig: Signature): string {
    match FindMember(ring.accounts, sig.w.member)
    case Some(key) => key.userId
    case None => ""
  }

  lemma {:induction false} FindByIndex(keys: seq<PublicKey>, i: nat)
    requires i < |keys| && forall a, b | 0 <= a < b < |keys| :: keys[a].member != keys[b].member
    ensures FindMember(keys, keys[i].member) == Some(keys[i])
  {
    if i > 0 {
      var t := keys[1..];
      assert forall a, b | 0 <= a < b < |t| :: t[a] == keys[a + 1] && t[b] == keys[b + 1];
      FindByIndex(t, i - 1);
      assert keys[0].member != keys[i].member;
    }
  }

  lemma {:induction false} FindMeans(keys: seq<PublicKey>, member: int)
    ensures FindMember(keys, member).Some? ==> FindMember(keys, member).value.member == member
  {
    if keys != [] { FindMeans(keys[1..], member); }
  }

  /** An account that can carry a signature with the counter: active, in the quota, no zero denominator. */
  ghost predicate Usable(rules: Rules, users: map<string, UserRecord>, accounts: map<string, AccountRecord>, id: string, counter: int)
    requires rules.Valid()
  {
    && id in accounts && accounts[id].active && accounts[id].key.userId in users
    && 0 <= counter < rules.limit
    && Denominator(rules.ell, users[accounts[id].key.userId].secrets.sGp, AsLong(counter)) != 0
    && Denominator(rules.ell, users[accounts[id].key.userId].secrets.tGp, AsLong(counter)) != 0
  }

  /** The one signature of an account for a counter, message and timestamp in the current state. */
  ghost function SignatureFor(rules: Rules, acc: Acc, users: map<string, UserRecord>, accounts: map<string, AccountRecord>,
                              id: string, counter: int, message: seq<byte>, timestamp: nat): Signature
    requires rules.Valid() && Usable(rules, users, accounts, id, counter)
  {
    var a, c := accounts[id], AsLong(counter);
    var k := users[a.key.userId].secrets;
    var challenge := rules.challenge(CurrentLabel(rules, accounts), message, rules.Nym(k), timestamp);
    Signature(rules.Nym(k), acc.value,
              Serial(rules.ell, rules.ut, k.sGp, c),
              TraceTag(rules.ell, k.xGp, rules.ut, rules.gpChallenge(challenge), k.tGp, c),
              challenge, timestamp,
              ClearWitness(k, a.d, a.key.member, counter, SetValue(rules.p, Dropped(acc.members, a.key.member))))
  }

  /** The signature is that of the account for its counter, message and timestamp. The verifier reads
      the exponent d only modulo the group order. */
  ghost predicate SignedBy(rules: Rules, acc: Acc, users: map<string, UserRecord>, accounts: map<string, AccountRecord>,
                           id: string, message: seq<byte>, sig: Signature)
    requires rules.Valid()
  {
    && Usable(rules, users, accounts, id, sig.w.counter)
    && sig.w.d % rules.ell == accounts[id].d
    && sig.(w := sig.w.(d := accounts[id].d))
       == SignatureFor(rules, acc, users, accounts, id, sig.w.counter, message, sig.timestamp)
  }

  /** verify_clear accepts exactly the current ring with a signature of one of its accounts for exactly
      this message: every field is that of the account's own signature for the counter. */
  lemma VerifyClearExact(rules: Rules, acc: Acc, users: map<string, UserRecord>, accounts: map<string, AccountRecord>,
                         ring: Label, message: seq<byte>, sig: Signature)
    requires rules.Valid() && Consistent(rules, acc, users, accounts) && 0 <= sig.w.membership < rules.p.r
    ensures VerifyClear(rules, acc, users, accounts, ring, message, sig) <==>
            ring == CurrentLabel(rules, accounts) && exists id :: SignedBy(rules, acc, users, accounts, id, message, sig)
  {
    hide VerifyClear, SignedBy, CurrentLabel, IsPrime, SdhOk, Consistent;
    if VerifyClear(rules, acc, users, accounts, ring, message, sig) {
      AcceptedSigned(rules, acc, users, accounts, ring, message, sig);
    }
    if ring == CurrentLabel(rules, accounts) {
      if id :| SignedBy(rules, acc, users, accounts, id, message, sig) {
        SignedAccepted(rules, acc, users, accounts, id, message, sig);
      }
    }
  }

  lemma AcceptedSigned(rules: Rules, acc: Acc, users: map<string, UserRecord>, accounts: map<string, AccountRecord>,
                       ring: Label, message: seq<byte>, sig: Signature)
    requires rules.Valid() && Consistent(rules, acc, users, accounts) && 0 <= sig.w.membership < rules.p.r
    requires VerifyClear(rules, acc, users, accounts, ring, message, sig)
    ensures ring == CurrentLabel(rules, accounts)
    ensures exists id :: SignedBy(rules, acc, users, accounts, id, message, sig)
  {
    hide IsPrime, SdhOk, SetValue, Accumulable, Serial, TraceTag, Denominator, Rules.Nym, ActiveHandles, Opens, Dropped, AsLong;
    StoredValue(rules, acc, users, accounts);
    FindMeans(ring.accounts, sig.w.member);
    var id := FindMember(ring.accounts, sig.w.member).value.accountId;
    assert AccountFits(rules, users, id, accounts[id]);
    ActiveIsMember(rules, acc, users, accounts, id);
    OpensOnce(rules.p, acc, accounts[id].key.member, sig.w.membership);
    assert SignedBy(rules, acc, users, accounts, id, message, sig);
  }

  lemma SignedAccepted(rules: Rules, acc: Acc, users: map<string, UserRecord>, accounts: map<string, AccountRecord>,
                       id: string, message: seq<byte>, sig: Signature)
    requires rules.Valid() && Consistent(rules, acc, users, accounts) && 0 <= sig.w.membership < rules.p.r
    requires SignedBy(rules, acc, users, accounts, id, message, sig)
    ensures VerifyClear(rules, acc, users, accounts, CurrentLabel(rules, accounts), message, sig)
  {
    hide IsPrime, SdhOk, SetValue, Accumulable, Serial, TraceTag, Denominator, Rules.Nym, ActiveHandles, Opens, Dropped, AsLong;
    StoredValue(rules, acc, users, accounts);
    var a := accounts[id];
    ActiveIsMember(rules, acc, users, accounts, id);
    OpensOnce(rules.p, acc, a.key.member, sig.w.membership);
    LabelFinds(accounts, id);
    assert AccountFits(rules, users, id, a);
  }

  /** A signature verifies for another message exactly if the challenge hashes of the two agree. */
  lemma ClearBindsMessage(rules: Rules, acc: Acc, users: map<string, UserRecord>, accounts: map<string, AccountRecord>,
                          ring: Label, message: seq<byte>, sig: Signature, ring': Label, message': seq<byte>)
    requires rules.Valid() && VerifyClear(rules, acc, users, accounts, ring, message, sig)
    ensures VerifyClear(rules, acc, users, accounts, ring', message', sig) <==>
            && ring' == ring
            && rules.challenge(ring, message', sig.nym, sig.timestamp) == rules.challenge(ring, message, sig.nym, sig.timestamp)
  {
    hide IsPrime, SdhOk, ActiveHandles, Accumulable, SetValue, FindMember, Opens, TagsHold, Rules.Nym, Denominator;
  }

  /** Signing is allowed exactly if the counter fits a long and the signature it makes will verify. */
  lemma MaySignExact(rules: Rules, users: map<string, UserRecord>, accounts: map<string, AccountRecord>, userId: string, accountId: string)
    requires rules.Valid()
    ensures MaySign(rules, users, accounts, userId, accountId) <==>
            && accountId in accounts && accounts[accountId].key.userId == userId && userId in users
            && users[userId].nextCounter <= LONG_MAX
            && Usable(rules, users, accounts, accountId, users[userId].nextCounter)
  {
    hide IsPrime, SdhOk, Denominator;
  }

  /** What sign_clear returns is the account's signature for its user's next counter. It passes
      verify_clear for a ring and a message, while neither ring nor accounts changed, exactly if the ring
      is the current one and the challenge hash of the message is that of the signed one. The signer's
      own counter may have moved on. */
  lemma SignedClearVerifies(rules: Rules, acc: Acc, users: map<string, UserRecord>, later: map<string, UserRecord>,
                            accounts: map<string, AccountRecord>, userId: string, accountId: string,
                            message: seq<byte>, timestamp: nat, ring: Label, message': seq<byte>)
    requires rules.Valid() && Consistent(rules, acc, users, accounts)
    requires MaySign(rules, users, accounts, userId, accountId)
    requires forall u | u in users :: u in later && later[u].secrets == users[u].secrets
    ensures var sig := SignatureOf(rules, acc, users, accounts, userId, accountId, message, timestamp);
            && SignedBy(rules, acc, users, accounts, accountId, message, sig)
            && (VerifyClear(rules, acc, later, accounts, ring, message', sig) <==>
                  && ring == CurrentLabel(rules, accounts)
                  && rules.challenge(ring, message', sig.nym, timestamp) == rules.challenge(ring, message, sig.nym, timestamp))
  {
    var sig := SignatureOf(rules, acc, users, accounts, userId, accountId, message, timestamp);
    SignatureIsFor(rules, acc, users, accounts, userId, accountId, message, timestamp);
    LaterSecrets(rules, acc, users, later, accounts, accountId, message, sig);
    assert 0 <= sig.w.membership < rules.p.r;
    hide IsPrime, SdhOk, SignatureOf, SignedBy, VerifyClear, MaySign, Consistent, CurrentLabel;
    SignedAccepted(rules, acc, later, accounts, accountId, message, sig);
    ClearBindsMessage(rules, acc, later, accounts, CurrentLabel(rules, accounts), message, sig, ring, message');
  }

  lemma SignatureIsFor(rules: Rules, acc: Acc, users: map<string, UserRecord>, accounts: map<string, AccountRecord>,
                       userId: string, accountId: string, message: seq<byte>, timestamp: nat)
    requires rules.Valid() && Consistent(rules, acc, users, accounts)
    requires MaySign(rules, users, accounts, userId, accountId)
    ensures SignedBy(rules, acc, users, accounts, accountId, message,
                     SignatureOf(rules, acc, users, accounts, userId, accountId, message, timestamp))
    ensures SignatureOf(rules, acc, users, accounts, userId, accountId, message, timestamp).timestamp == timestamp
  {
    hide IsPrime, SdhOk, SetValue, Serial, TraceTag, Denominator, Rules.Nym, Dropped;
    MaySignExact(rules, users, accounts, userId, accountId);
    SmallMod(rules.p.r, users[userId].nextCounter);
    assert AccountFits(rules, users, accountId, accounts[accountId]);
    SmallMod(rules.ell, accounts[accountId].d);
  }

  lemma LaterSecrets(rules: Rules, acc: Acc, users: map<string, UserRecord>, later: map<string, UserRecord>,
                     accounts: map<string, AccountRecord>, id: string, message: seq<byte>, sig: Signature)
    requires rules.Valid() && Consistent(rules, acc, users, accounts)
    requires SignedBy(rules, acc, users, accounts, id, message, sig)
    requires forall u | u in users :: u in later && later[u].secrets == users[u].secrets
    ensures Consistent(rules, acc, later, accounts) && SignedBy(rules, acc, later, accounts, id, message, sig)
  {
    hide IsPrime, SdhOk, SetValue, Serial, TraceTag, Denominator, Rules.Nym, Dropped, AccOk, ActiveHandles, CurrentLabel;
  }

  lemma LabelFinds(accounts: map<string, AccountRecord>, id: string)
    requires Distinct(ActiveHandles(accounts)) && id in accounts && accounts[id].active
    ensures var keys := Map(KeyAt(accounts), Listing(ActiveIds(accounts)));
            keys != [] && FindMember(keys, accounts[id].key.member) == Some(accounts[id].key)
  {
    var q := Listing(ActiveIds(accounts));
    var keys, h := Map(KeyAt(accounts), q), ActiveHandles(accounts);
    assert forall i | 0 <= i < |q| :: h[i] == keys[i].member;
    assert id in q;
    var i :| 0 <= i < |q| && q[i] == id;
    assert keys[i] == accounts[id].key;
    assert forall a, b | 0 <= a < b < |keys| :: keys[a].member != keys[b].member by {
      assert forall a, b | 0 <= a < b < |keys| :: h[a] != h[b];
    }
    FindByIndex(keys, i);
  }

  /** Two signatures of one user with equal counters, and what their tags reveal. */
  lemma ClearTags(rules: Rules, k: Secrets, a: Signature, b: Signature)
    requires rules.Valid() && SecretsOk(rules, k) && TagsHold(rules, k, a) && TagsHold(rules, k, b)
    requires 0 <= a.w.counter < TWO64 && 0 <= b.w.counter < TWO64
    ensures a.pass == b.pass <==> a.w.counter == b.w.counter
    ensures a.w.counter == b.w.counter && a.challenge == b.challenge ==> a.tag == b.tag
    ensures var d := (rules.gpChallenge(b.challenge) - rules.gpChallenge(a.challenge)) % rules.ell;
            a.w.counter == b.w.counter && d != 0 ==> Recovered(rules, a, b) == k.xGp
  {
    hide IsPrime, Serial, TraceTag;
    var c1, c2 := AsLong(a.w.counter), AsLong(b.w.counter);
    var r1, r2 := rules.gpChallenge(a.challenge), rules.gpChallenge(b.challenge);
    Tracing.SerialInjective(rules.ell, rules.ut, k.sGp, c1, c2);
    if c1 == c2 && (r2 - r1) % rules.ell != 0 {
      Tracing.TagForm(rules.ell, k.xGp, rules.ut, r1, k.tGp, c1);
      Tracing.TagForm(rules.ell, k.xGp, rules.ut, r2, k.tGp, c1);
      Tracing.Elimination(rules.ell, k.xGp, rules.ut * Inv(rules.ell, k.tGp + c1 + 1), r1, r2, a.tag, b.tag);
    }
  }

  /** An account opens under a recovered key exactly when its user has that secret. */
  lemma MatchMeansSecret(rules: Rules, users: map<string, UserRecord>, id: string, a: AccountRecord, x: int)
    requires rules.Valid() && AccountFits(rules, users, id, a) && 0 <= x < rules.ell
    requires 0 <= users[a.key.userId].secrets.xGp < rules.ell
    ensures Matches(rules, a, x) <==> a.active && users[a.key.userId].secrets.xGp == x
  {
    hide IsPrime;
    var y := users[a.key.userId].secrets.xGp;
    SmallMod(rules.ell, a.d);
    SmallMod(rules.ell, x);
    SmallMod(rules.ell, y);
    Commute(x, a.d);
    if Cong(rules.ell, a.d * x, a.d * y) { Cancel(rules.ell, a.d, x, y); }
  }

  /** The classification of two verified signatures of one user: legal exactly when the counters
      differ; with one counter a replay exactly when challenge and timestamp agree, otherwise traced
      exactly when the group challenges differ, to a user who holds the signer's secret and to nobody
      else, and invalid on a collision of the challenges. */
  lemma ClearClassification(rules: Rules, acc: Acc, users: map<string, UserRecord>, accounts: map<string, AccountRecord>,
                            ring: Label, m1: seq<byte>, a: Signature, m2: seq<byte>, b: Signature, res: Verdict)
    requires rules.Valid() && Consistent(rules, acc, users, accounts)
    requires forall u | u in users :: SecretsOk(rules, users[u].secrets)
    requires VerifyClear(rules, acc, users, accounts, ring, m1, a) && VerifyClear(rules, acc, users, accounts, ring, m2, b)
    requires SignerOf(ring, a) == SignerOf(ring, b) && MayConclude(rules, accounts, a, b, res)
    ensures a.nym == b.nym && SignerOf(ring, a) in users
    ensures res == Legal <==> a.w.counter != b.w.counter
    ensures res == Replay <==> a.w.counter == b.w.counter && a.challenge == b.challenge && a.timestamp == b.timestamp
    ensures res.TracedTo? <==> a.w.counter == b.w.counter && rules.gpChallenge(a.challenge) != rules.gpChallenge(b.challenge)
    ensures res.TracedTo? ==>
              res.userId in users && users[res.userId].secrets.xGp == users[SignerOf(ring, a)].secrets.xGp
  {
    hide IsPrime, SdhOk, Rules.Nym, Recovered, Serial, TraceTag, Denominator, ActiveHandles, AccOk;
    var signer := SignerOf(ring, a);
    var k := users[signer].secrets;
    ClearTags(rules, k, a, b);
    var r1, r2 := rules.gpChallenge(a.challenge), rules.gpChallenge(b.challenge);
    DifferenceZero(rules.ell, r2, r1);
    SmallMod(rules.ell, r1);
    SmallMod(rules.ell, r2);
    if a.w.counter == b.w.counter && r1 != r2 {
      var own := FindMember(ring.accounts, a.w.member).value.accountId;
      MatchMeansSecret(rules, users, own, accounts[own], k.xGp);
      forall id | id in accounts
        ensures Matches(rules, accounts[id], k.xGp) ==> users[accounts[id].key.userId].secrets.xGp == k.xGp
      {
        MatchMeansSecret(rules, users, id, accounts[id], k.xGp);
      }
    }
  }
}
