/** The public registry of protocol.go: which user owns a trace key, and user revocation. */
module Registries {
  import opened Sequences
  import opened Common
  import opened Field
  import opened Suites
  import opened Accumulator
  import opened Snapshots

  datatype Registration = Registration(userId: string, account: Account)

  predicate EntryOk(s: Suite, e: Registration) {
    e.userId != "" && e.account.d.Some? && s.Member(e.account).Ok?
  }

  /** [1/d]Y, the key that tracing recovers for the owner of an account. */
  function KeyOf(s: Suite, a: Account): (key: int)
    requires IsPrime(s.ell)
  {
    if a.d.Some? && a.d.value % s.ell != 0 then (a.y * Inv(s.ell, a.d.value)) % s.ell else 0
  }

  function Ids(entries: seq<Registration>): seq<string> {
    Map((e: Registration) => e.userId, entries)
  }

  function Keys(s: Suite, entries: seq<Registration>): seq<int>
    requires IsPrime(s.ell)
  {
    Map((e: Registration) => KeyOf(s, e.account), entries)
  }

  function EntryHandles(s: Suite, entries: seq<Registration>): seq<int> {
    Map((e: Registration) => s.Handle(e.account), entries)
  }

  /** Equal ids have equal keys, and equal keys have equal ids. */
  predicate Bijective(ids: seq<string>, keys: seq<int>)
    requires |ids| == |keys|
  {
    forall i, j | 0 <= i < |ids| && 0 <= j < |ids| :: ids[i] == ids[j] <==> keys[i] == keys[j]
  }

  /** Complete, valid entries; no account twice; ids and trace keys in bijection. */
  ghost predicate RegistryOk(s: Suite, entries: seq<Registration>)
    requires IsPrime(s.ell)
  {
    && entries != []
    && (forall i | 0 <= i < |entries| :: EntryOk(s, entries[i]))
    && Distinct(EntryHandles(s, entries))
    && Bijective(Ids(entries), Keys(s, entries))
  }

  /** Accepts exactly the lists in which ids and trace keys are in bijection and no
      account occurs twice; the accepted entries are kept as given. */
  method NewRegistry(s: Suite, entries: seq<Registration>) returns (res: Result<seq<Registration>>)
    requires s.Valid()
    ensures res.Ok? <==> RegistryOk(s, entries)
    ensures res.Ok? ==> res.value == entries
  {
    hide KeyOf, Suite.Member, Suite.Handle, Suite.ValidAccount, Indexed, Distinct, Bijective, IsPrime,
         EntryOk, EntryHandles, Ids, Keys;
    if |entries| == 0 { return Err; }
    ghost var handles, ids, keys := EntryHandles(s, entries), Ids(entries), Keys(s, entries);
    var out: seq<Registration> := [];
    var seen: set<int> := {};
    var traceOwners: map<int, string> := map[];
    var userKeys: map<string, int> := map[];
    IndexEmpty();
    ValidEntry(s, entries, 0);
    assert handles[..0] == [] && ids[..0] == [] && keys[..0] == [];
    while |out| < |entries|
      invariant |out| <= |entries| && out == entries[..|out|]
      invariant forall i | 0 <= i < |out| :: EntryOk(s, entries[i])
      invariant seen == Elements(handles[..|out|])
      invariant Distinct(handles[..|out|])
      invariant Bijective(ids[..|out|], keys[..|out|])
      invariant Indexed(ids[..|out|], keys[..|out|], traceOwners, userKeys)
    {
      var n := |out|;
      var e := entries[n];
      ValidEntry(s, entries, n);
      if e.userId == "" || e.account.d.None? { return Err; }
      if !s.ValidAccount(e.account) { return Err; }
      var member := s.Member(e.account);
      if member.Err? { return Err; }
      if member.value in seen {
        Repeated(handles, n);
        return Err;
      }
      Fresh(handles, n);
      seen := seen + {member.value};
      var trace := KeyOf(s, e.account);
      IndexClash(ids, keys, n, traceOwners, userKeys);
      if trace in traceOwners && traceOwners[trace] != e.userId { return Err; }
      if e.userId in userKeys && userKeys[e.userId] != trace { return Err; }
      IndexExtend(ids, keys, n, traceOwners, userKeys);
      traceOwners := traceOwners[trace := e.userId];
      userKeys := userKeys[e.userId := trace];
      out := out + [e];
    }
    assert handles[..|out|] == handles && ids[..|out|] == ids && keys[..|out|] == keys;
    res := Ok(out);
  }

  lemma ValidEntry(s: Suite, entries: seq<Registration>, n: nat)
    requires IsPrime(s.ell) && n < |entries|
    ensures var e := entries[n];
            && (EntryOk(s, e) <==> e.userId != "" && e.account.d.Some? && s.ValidAccount(e.account) && s.Member(e.account).Ok?)
            && (s.Member(e.account).Ok? ==> s.Member(e.account).value == s.Handle(e.account))
            && |EntryHandles(s, entries)| == |Ids(entries)| == |Keys(s, entries)| == |entries|
            && EntryHandles(s, entries)[n] == s.Handle(e.account)
            && Ids(entries)[n] == e.userId && Keys(s, entries)[n] == KeyOf(s, e.account)
  {
  }

  // The two maps of NewRegistry hold exactly the (key, id) pairs of the entries read so far.

  predicate Indexed(ids: seq<string>, keys: seq<int>, owners: map<int, string>, users: map<string, int>)
    requires |ids| == |keys|
  {
    && (forall i | 0 <= i < |ids| :: keys[i] in owners && owners[keys[i]] == ids[i])
    && (forall i | 0 <= i < |ids| :: ids[i] in users && users[ids[i]] == keys[i])
    && (forall t | t in owners :: t in keys)
    && (forall u | u in users :: u in ids)
  }

  lemma IndexEmpty()
    ensures Indexed([], [], map[], map[]) && Bijective([], []) && Distinct<int>([])
  {
  }

  lemma IndexClash(ids: seq<string>, keys: seq<int>, n: nat, owners: map<int, string>, users: map<string, int>)
    requires |ids| == |keys| && n < |ids| && Indexed(ids[..n], keys[..n], owners, users)
    ensures keys[n] in owners && owners[keys[n]] != ids[n] ==> !Bijective(ids, keys)
    ensures ids[n] in users && users[ids[n]] != keys[n] ==> !Bijective(ids, keys)
  {
    if keys[n] in owners {
      var i :| 0 <= i < n && keys[..n][i] == keys[n];
      assert owners[keys[..n][i]] == ids[..n][i];
    }
    if ids[n] in users {
      var i :| 0 <= i < n && ids[..n][i] == ids[n];
      assert users[ids[..n][i]] == keys[..n][i];
    }
  }

  lemma IndexExtend(ids: seq<string>, keys: seq<int>, n: nat, owners: map<int, string>, users: map<string, int>)
    requires |ids| == |keys| && n < |ids| && Indexed(ids[..n], keys[..n], owners, users)
    requires Bijective(ids[..n], keys[..n])
    requires keys[n] in owners ==> owners[keys[n]] == ids[n]
    requires ids[n] in users ==> users[ids[n]] == keys[n]
    ensures Indexed(ids[..n + 1], keys[..n + 1], owners[keys[n] := ids[n]], users[ids[n] := keys[n]])
    ensures Bijective(ids[..n + 1], keys[..n + 1])
  {
    var i', k' := ids[..n], keys[..n];
    assert ids[..n + 1] == i' + [ids[n]];
    assert keys[..n + 1] == k' + [keys[n]];
    assert forall i | 0 <= i < n :: i'[i] == ids[n] ==> k'[i] == keys[n];
    assert forall i | 0 <= i < n :: k'[i] == keys[n] ==> i'[i] == ids[n];
  }

  // --- resolving a trace key ------------------------------------------------------------

  /** [d]ux == Y. A registry only holds entries with a public d. */
  predicate Opens(s: Suite, a: Account, ux: int)
    requires s.ell > 0
  {
    a.d.Some? && (ux * a.d.value) % s.ell == a.y
  }

  /** The first entry whose account opens under the key, as Resolve scans for it. */
  function FirstMatch(s: Suite, entries: seq<Registration>, ux: int): Result<string>
    requires s.ell > 0
  {
    if entries == [] then Err
    else if Opens(s, entries[0].account, ux) then Ok(entries[0].userId)
    else FirstMatch(s, entries[1..], ux)
  }

  function ResolveOf(s: Suite, entries: seq<Registration>, ux: int): Result<string>
    requires s.ell > 0
  {
    if !s.GoodSecp(ux) then Err else FirstMatch(s, entries, ux)
  }

  method Resolve(s: Suite, entries: seq<Registration>, ux: int) returns (res: Result<string>)
    requires s.Valid()
    ensures res == ResolveOf(s, entries, ux)
  {
    if !s.GoodSecp(ux) { return Err; }
    var i := 0;
    while i < |entries|
      invariant 0 <= i <= |entries|
      invariant FirstMatch(s, entries, ux) == FirstMatch(s, entries[i..], ux)
    {
      if Opens(s, entries[i].account, ux) { return Ok(entries[i].userId); }
      assert entries[i..][1..] == entries[i + 1..];
      i := i + 1;
    }
    res := Err;
  }

  /** An account opens under exactly one key, its trace key. */
  lemma OpensUnderKey(s: Suite, a: Account, ux: int)
    requires s.Valid() && a.d.Some? && s.ValidAccount(a) && s.GoodSecp(ux)
    ensures Opens(s, a, ux) <==> ux == KeyOf(s, a)
  {
    SmallMod(s.ell, a.d.value);
    SolveWitness(s.ell, a.d.value, a.y, ux);
  }

  /** The key of an account created for secret x is [x]u. */
  lemma KeyOfAccount(s: Suite, x: int, d: int)
    requires s.Valid() && s.NewAccount(x, d).Ok?
    ensures KeyOf(s, s.NewAccount(x, d).value) == x
  {
    var a := s.NewAccount(x, d).value;
    Commute(x, d);
    OpensUnderKey(s, a, x);
  }

  lemma {:induction false} FirstMatchMeaning(s: Suite, entries: seq<Registration>, ux: int)
    requires s.Valid() && s.GoodSecp(ux) && forall i | 0 <= i < |entries| :: EntryOk(s, entries[i])
    ensures var r := FirstMatch(s, entries, ux);
            if r.Ok? then exists i :: 0 <= i < |entries| && KeyOf(s, entries[i].account) == ux && entries[i].userId == r.value
            else forall i | 0 <= i < |entries| :: KeyOf(s, entries[i].account) != ux
  {
    if entries != [] {
      var rest := entries[1..];
      assert forall i | 0 < i < |entries| :: entries[i] == rest[i - 1];
      assert EntryOk(s, entries[0]);
      OpensUnderKey(s, entries[0].account, ux);
      hide KeyOf, EntryOk;
      FirstMatchMeaning(s, rest, ux);
      var r := FirstMatch(s, rest, ux);
      if KeyOf(s, entries[0].account) != ux && r.Ok? {
        var i :| 0 <= i < |rest| && KeyOf(s, rest[i].account) == ux && rest[i].userId == r.value;
        assert entries[i + 1] == rest[i];
      }
    }
  }

  /** In an accepted registry, Resolve names the one user registered for the key. */
  lemma ResolveMeaning(s: Suite, entries: seq<Registration>, ux: int, user: string)
    requires s.Valid() && RegistryOk(s, entries) && s.GoodSecp(ux)
    ensures ResolveOf(s, entries, ux) == Ok(user) <==>
            exists i :: 0 <= i < |entries| && entries[i].userId == user && KeyOf(s, entries[i].account) == ux
  {
    hide KeyOf;
    FirstMatchMeaning(s, entries, ux);
    var r := FirstMatch(s, entries, ux);
    if r.Ok? {
      var i :| 0 <= i < |entries| && KeyOf(s, entries[i].account) == ux && entries[i].userId == r.value;
      forall j | 0 <= j < |entries| && KeyOf(s, entries[j].account) == ux ensures entries[j].userId == r.value {
        assert Ids(entries)[i] == Ids(entries)[j] <==> Keys(s, entries)[i] == Keys(s, entries)[j];
      }
    }
  }

  /** Acceptance does not depend on the order of the entries, and neither does Resolve. */
  lemma RegistryOrder(s: Suite, a: seq<Registration>, b: seq<Registration>, ux: int)
    requires s.Valid() && multiset(a) == multiset(b) && RegistryOk(s, a)
    ensures RegistryOk(s, b)
    ensures ResolveOf(s, a, ux) == ResolveOf(s, b, ux)
  {
    RegistryPermuted(s, a, b);
    if s.GoodSecp(ux) {
      ResolveAgrees(s, a, b, ux);
      ResolveAgrees(s, b, a, ux);
    }
  }

  lemma ResolveAgrees(s: Suite, a: seq<Registration>, b: seq<Registration>, ux: int)
    requires s.Valid() && multiset(a) == multiset(b) && RegistryOk(s, a) && RegistryOk(s, b) && s.GoodSecp(ux)
    ensures ResolveOf(s, a, ux).Ok? ==> ResolveOf(s, b, ux) == ResolveOf(s, a, ux)
  {
    hide KeyOf, RegistryOk, EntryOk, FirstMatch;
    var r := ResolveOf(s, a, ux);
    if r.Ok? {
      ResolveMeaning(s, a, ux, r.value);
      ResolveMeaning(s, b, ux, r.value);
      var i :| 0 <= i < |a| && a[i].userId == r.value && KeyOf(s, a[i].account) == ux;
      SameEntries(a, b);
      var j :| 0 <= j < |b| && b[j] == a[i];
    }
  }

  lemma RegistryPermuted(s: Suite, a: seq<Registration>, b: seq<Registration>)
    requires s.Valid() && multiset(a) == multiset(b) && RegistryOk(s, a)
    ensures RegistryOk(s, b)
  {
    hide KeyOf, EntryOk;
    assert |a| == |multiset(a)| && |b| == |multiset(b)|;
    SameEntries(b, a);
    MapMultiset((e: Registration) => s.Handle(e.account), a, b);
    DistinctMultiset(EntryHandles(s, a), EntryHandles(s, b));
    forall i, j | 0 <= i < |b| && 0 <= j < |b|
      ensures Ids(b)[i] == Ids(b)[j] <==> Keys(s, b)[i] == Keys(s, b)[j]
    {
      var i' :| 0 <= i' < |a| && a[i'] == b[i];
      var j' :| 0 <= j' < |a| && a[j'] == b[j];
      assert Ids(a)[i'] == Ids(a)[j'] <==> Keys(s, a)[i'] == Keys(s, a)[j'];
    }
  }

  // --- revocation ---------------------------------------------------------------------------

  ghost function UserHandles(s: Suite, entries: seq<Registration>, user: string): set<int> {
    set i | 0 <= i < |entries| && entries[i].userId == user :: s.Handle(entries[i].account)
  }

  predicate Registered(entries: seq<Registration>, user: string) {
    exists i :: 0 <= i < |entries| && entries[i].userId == user
  }

  method CollectUser(s: Suite, entries: seq<Registration>, user: string) returns (found: bool, members: set<int>)
    requires forall i | 0 <= i < |entries| :: EntryOk(s, entries[i])
    ensures found <==> Registered(entries, user)
    ensures members == UserHandles(s, entries, user)
  {
    hide Suite.Member, Suite.Handle;
    found := false;
    members := {};
    var i := 0;
    while i < |entries|
      invariant 0 <= i <= |entries|
      invariant found <==> Registered(entries[..i], user)
      invariant members == UserHandles(s, entries[..i], user)
    {
      ExtendUser(s, entries, user, i);
      if entries[i].userId == user {
        found := true;
        members := members + {s.Handle(entries[i].account)};
      }
      i := i + 1;
    }
    assert entries[..i] == entries;
  }

  lemma ExtendUser(s: Suite, entries: seq<Registration>, user: string, i: nat)
    requires i < |entries|
    ensures Registered(entries[..i + 1], user) <==> Registered(entries[..i], user) || entries[i].userId == user
    ensures UserHandles(s, entries[..i + 1], user)
            == UserHandles(s, entries[..i], user)
               + if entries[i].userId == user then {s.Handle(entries[i].account)} else {}
  {
    hide Suite.Handle;
    var a, b := entries[..i], entries[..i + 1];
    assert b == a + [entries[i]];
    assert forall j | 0 <= j < i :: a[j] == b[j];
    assert b[i] == entries[i];
    if Registered(a, user) {
      var j :| 0 <= j < |a| && a[j].userId == user;
      assert b[j].userId == user;
    }
  }

  method KeepExcept(s: Suite, accounts: seq<Account>, drop: set<int>) returns (kept: seq<Account>)
    requires MembersExist(s, accounts)
    ensures kept == Keep(s, accounts, drop)
  {
    hide Suite.Handle;
    kept := [];
    var i := 0;
    while i < |accounts|
      invariant 0 <= i <= |accounts|
      invariant kept == Keep(s, accounts[..i], drop)
    {
      assert accounts[..i + 1][..i] == accounts[..i];
      if s.Handle(accounts[i]) !in drop { kept := kept + [accounts[i]]; }
      i := i + 1;
    }
    assert accounts[..i] == accounts;
  }

  /** Drops every account of the user from the ring and accumulates the rest. It always
      succeeds for a registered user, and keeps exactly the other accounts in order. */
  method RevokeUser(s: Suite, entries: seq<Registration>, ring: Snapshot, user: string)
    returns (res: Result<Snapshot>)
    requires s.Valid() && RegistryOk(s, entries) && ValidSnapshot(s, ring)
    ensures res.Ok? <==> Registered(entries, user)
    ensures res.Ok? ==>
              res == NewSnapshot(s, ring.params, Keep(s, ring.accounts, UserHandles(s, entries, user)))
  {
    hide Suite.Handle, EntryOk, KeyOf, Registered, UserHandles;
    var found, members := CollectUser(s, entries, user);
    if !found { return Err; }
    ValueOfRing(s, ring.params, ring.accounts);
    var remaining := KeepExcept(s, ring.accounts, members);
    KeepElements(s, ring.accounts, members);
    RemovalClosed(s, ring.params, ring.accounts, remaining);
    var v := Accumulate(s, ring.params, remaining);
    res := match v case Ok(value) => Ok(Snapshot(ring.params, remaining, value)) case Err => Err;
  }

  /** Exits, one after the other. */
  function ExitAll(s: Suite, snap: Snapshot, members: seq<int>): Result<Snapshot>
    requires s.r > 1
    decreases |members|
  {
    if members == [] then Ok(snap)
    else match ExitOf(s, snap, members[0])
      case Ok(next) => ExitAll(s, next, members[1..])
      case Err => Err
  }

  lemma {:induction false} KeepTwice(s: Suite, accounts: seq<Account>, a: set<int>, b: set<int>)
    ensures Keep(s, Keep(s, accounts, a), b) == Keep(s, accounts, a + b)
  {
    if accounts != [] {
      hide Suite.Handle;
      var n := |accounts| - 1;
      KeepTwice(s, accounts[..n], a, b);
      var kept := Keep(s, accounts[..n], a);
      assert (kept + [accounts[n]])[..|kept|] == kept;
    }
  }

  lemma {:induction false} KeepSame(s: Suite, accounts: seq<Account>, a: set<int>, b: set<int>)
    requires forall x | x in accounts :: s.Handle(x) in a <==> s.Handle(x) in b
    ensures Keep(s, accounts, a) == Keep(s, accounts, b)
  {
    if accounts != [] {
      hide Suite.Handle;
      var n := |accounts| - 1;
      KeepSame(s, accounts[..n], a, b);
      assert accounts[n] in accounts;
    }
  }

  /** A handle other than the one that leaves stays in the ring. */
  lemma StaysAfterExit(s: Suite, accounts: seq<Account>, m: int, k: int)
    requires k != m && k in Handles(s, accounts)
    ensures k in Handles(s, Keep(s, accounts, {m}))
  {
    hide Suite.Handle;
    var kept := Keep(s, accounts, {m});
    KeepElements(s, accounts, {m});
    var j :| 0 <= j < |accounts| && Handles(s, accounts)[j] == k;
    assert accounts[j] in kept;
    var l :| 0 <= l < |kept| && kept[l] == accounts[j];
    assert Handles(s, kept)[l] == k;
  }

  /** The first exit succeeds and leaves the other members in the ring. */
  lemma ExitFirst(s: Suite, snap: Snapshot, members: seq<int>)
    requires s.Valid() && ValidSnapshot(s, snap) && Distinct(members) && members != []
    requires forall m | m in members :: m in Handles(s, snap.accounts)
    ensures ExitOf(s, snap, members[0]).Ok?
    ensures var next := ExitOf(s, snap, members[0]).value;
            && ValidSnapshot(s, next) && next.params == snap.params
            && next.accounts == Keep(s, snap.accounts, {members[0]})
            && forall k | k in members[1..] :: k in Handles(s, next.accounts)
  {
    hide Suite.Handle, AccumulatorOf, ExitOf, IsPrime;
    var m := members[0];
    assert m in members;
    var i :| 0 <= i < |snap.accounts| && Handles(s, snap.accounts)[i] == m;
    ValueOfRing(s, snap.params, snap.accounts);
    KeepOne(s, snap.accounts, i);
    ExitSucceeds(s, snap, i);
    forall k | k in members[1..] ensures k in Handles(s, Keep(s, snap.accounts, {m})) {
      assert k in members;
      StaysAfterExit(s, snap.accounts, m, k);
    }
  }

  lemma {:induction false} ExitAllKeeps(s: Suite, snap: Snapshot, members: seq<int>)
    requires s.Valid() && ValidSnapshot(s, snap) && Distinct(members)
    requires forall m | m in members :: m in Handles(s, snap.accounts)
    ensures ExitAll(s, snap, members)
            == NewSnapshot(s, snap.params, Keep(s, snap.accounts, Elements(members)))
    ensures ExitAll(s, snap, members).Ok?
    decreases |members|
  {
    hide Suite.Handle, AccumulatorOf, ExitOf, IsPrime;
    if members == [] {
      KeepNone(s, snap.accounts, Elements(members));
    } else {
      var m, rest := members[0], members[1..];
      ExitFirst(s, snap, members);
      ExitAllKeeps(s, ExitOf(s, snap, m).value, rest);
      KeepTwice(s, snap.accounts, {m}, Elements(rest));
      assert {m} + Elements(rest) == Elements(members);
    }
  }

  /** Revocation gives the snapshot that exiting the user's members one by one gives,
      in whichever order they exit. */
  lemma RevocationIsRepeatedExit(s: Suite, entries: seq<Registration>, ring: Snapshot, user: string, order: seq<int>)
    requires s.Valid() && RegistryOk(s, entries) && ValidSnapshot(s, ring)
    requires Distinct(order)
    requires forall m :: m in order <==> m in Handles(s, ring.accounts) && m in UserHandles(s, entries, user)
    ensures ExitAll(s, ring, order)
            == NewSnapshot(s, ring.params, Keep(s, ring.accounts, UserHandles(s, entries, user)))
    ensures ExitAll(s, ring, order).Ok?
  {
    ExitAllKeeps(s, ring, order);
    hide Suite.Handle;
    var all, active := UserHandles(s, entries, user), Elements(order);
    forall x | x in ring.accounts ensures s.Handle(x) in active <==> s.Handle(x) in all {
      var i :| 0 <= i < |ring.accounts| && ring.accounts[i] == x;
      assert Handles(s, ring.accounts)[i] == s.Handle(x);
    }
    KeepSame(s, ring.accounts, active, all);
  }

  /** When every account of the ring belongs to the user, the ring empties to V = G. */
  lemma RevokingEveryone(s: Suite, entries: seq<Registration>, ring: Snapshot, user: string)
    requires s.Valid() && RegistryOk(s, entries) && ValidSnapshot(s, ring)
    requires forall x | x in ring.accounts :: s.Handle(x) in UserHandles(s, entries, user)
    ensures NewSnapshot(s, ring.params, Keep(s, ring.accounts, UserHandles(s, entries, user)))
            == Ok(Snapshot(ring.params, [], 1))
  {
    hide Suite.Handle, UserHandles, RegistryOk;
    var kept := Keep(s, ring.accounts, UserHandles(s, entries, user));
    KeepElements(s, ring.accounts, UserHandles(s, entries, user));
    NonemptyHasElement(kept);
  }
}
