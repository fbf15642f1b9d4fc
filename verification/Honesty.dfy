/** Tracing against the stateful signers: whoever signs through a wallet vault or through the service
    is never traced, whatever crashes and failures happen in between, and whoever reuses a counter is
    traced by the service to the right user. */
module Honesty {
  import opened Field
  import opened Suites
  import opened Circuit
  import opened Registries
  import opened Tracing
  import Vault
  import Service

  /** A verified signature made with a secret, an issue, a quota and a counter. */
  ghost predicate MadeWith(s: Suite, g: Signed, x: int, issue: Digest, k: nat, counter: nat)
    requires s.Valid()
  {
    MadeBy(s, g, x, issue, k) && g.wit.counter == counter
  }

  /** Different counters of one secret are never traced: legal for one issue and quota, and refused
      across issues or quotas. */
  lemma DifferentCounters(s: Suite, a: Signed, b: Signed, x: int, i1: Digest, k1: nat, c1: nat,
                          i2: Digest, k2: nat, c2: nat, entries: seq<Registration>)
    requires s.Valid() && MadeWith(s, a, x, i1, k1, c1) && MadeWith(s, b, x, i2, k2, c2)
    requires i1 == i2 && k1 == k2 ==> c1 != c2
    ensures TraceOf(s, a, b, entries) == if i1 == i2 && k1 == k2 then Legal else Invalid
  {
    hide Define, Check, Extract, ResolveOf, IsPrime;
    if i1 == i2 && k1 == k2 {
      CheckedFields(s, a.ctx, a.message, a.st);
      CheckedFields(s, b.ctx, b.message, b.st);
      SamePseudonym(s, a.ctx.params, a.st, a.wit, b.ctx.params, b.st, b.wit);
      PairAlgebra(s, a.ctx.params, a.st, a.wit, b.ctx.params, b.st, b.wit);
    }
  }

  /** The signature was made for a prover call of the vault. */
  ghost predicate MadeFor(s: Suite, g: Signed, c: Vault.Call)
    requires s.Valid()
  {
    MadeWith(s, g, c.x, c.issue, c.k, c.counter)
  }

  /** An honest wallet is never traced: signatures for two different prover calls of one vault run
      compare as legal when they are for one issue, and cannot be compared otherwise. */
  lemma HonestWallet(s: Suite, start: Vault.State, events: seq<Vault.Event>, i: nat, j: nat,
                     a: Signed, b: Signed, entries: seq<Registration>)
    requires s.Valid() && Vault.Initial(s.ell, start) && Vault.Run(s.ell, start, events).Some?
    requires var log := Vault.Run(s.ell, start, events).value.log;
             i < |log| && j < |log| && i != j && MadeFor(s, a, log[i]) && MadeFor(s, b, log[j])
    ensures var log := Vault.Run(s.ell, start, events).value.log;
            TraceOf(s, a, b, entries) == if log[i].issue == log[j].issue then Legal else Invalid
  {
    hide MadeWith, TraceOf, Vault.Run;
    Vault.ExtendsReflexive(start.visible);
    Vault.RunKeeps(s.ell, start, events);
    var log := Vault.Run(s.ell, start, events).value.log;
    LogPair(log, i, j);
    DifferentCounters(s, a, b, log[i].x, log[i].issue, log[i].k, log[i].counter,
                      log[j].issue, log[j].k, log[j].counter, entries);
  }

  lemma LogPair(log: seq<Vault.Call>, i: nat, j: nat)
    requires Vault.LogSafe(log) && i < |log| && j < |log| && i != j
    ensures log[i].x == log[j].x
    ensures log[i].issue == log[j].issue ==> log[i].k == log[j].k && log[i].counter != log[j].counter
  {
    if i < j { assert log[i].x == log[j].x; } else { assert log[j].x == log[i].x; }
  }

  ghost predicate MadeOf(s: Suite, g: Signed, e: Service.Release)
    requires s.Valid()
  {
    MadeWith(s, g, e.x, e.issue, e.k, e.counter)
  }

  /** Nor is a user of the service: two signatures that one lifetime of it released for them compare as
      legal when they are for one issue, and cannot be compared otherwise. */
  lemma HonestService(s: Suite, start: Service.State, ops: seq<Service.Op>, i: nat, j: nat,
                      a: Signed, b: Signed, entries: seq<Registration>)
    requires s.Valid() && Service.Initial(start)
    requires var q := Service.Run(s, start, ops).released;
             && i < |q| && j < |q| && i != j && q[i].user == q[j].user
             && MadeOf(s, a, q[i]) && MadeOf(s, b, q[j])
    ensures var q := Service.Run(s, start, ops).released;
            TraceOf(s, a, b, entries) == if q[i].issue == q[j].issue then Legal else Invalid
  {
    hide MadeWith, TraceOf, Service.Run;
    Service.InitialOk(s, start);
    Service.RunKeeps(s, start, ops);
    var q := Service.Run(s, start, ops).released;
    ReleasePair(Service.Run(s, start, ops), i, j);
    DifferentCounters(s, a, b, q[i].x, q[i].issue, q[i].k, q[i].counter, q[j].issue, q[j].k, q[j].counter, entries);
  }

  lemma ReleasePair(t: Service.State, i: nat, j: nat)
    requires Service.ReleasesOk(t) && i < |t.released| && j < |t.released| && i != j
    requires t.released[i].user == t.released[j].user
    ensures var a, b := t.released[i], t.released[j];
            a.x == b.x && (a.issue == b.issue ==> a.k == b.k && a.counter != b.counter)
  {
    assert Service.ReleaseOk(t, t.released[i]) && Service.ReleaseOk(t, t.released[j]);
    if i < j {
      assert t.released[i].user == t.released[j].user;
    } else {
      assert t.released[j].user == t.released[i].user;
    }
  }

  /** The trace request names the right user. In every reachable state of the service whose registry is
      accepted, for two verified signatures made with the secret behind a registered account, under one
      issue and quota: legal for different counters, a replay for equal challenges, and otherwise
      traced to the user of that account. */
  lemma ServiceTraces(s: Suite, start: Service.State, ops: seq<Service.Op>, ids: seq<string>, i: nat,
                      a: Signed, b: Signed, issue: Digest, k: nat)
    requires s.Valid() && Service.Initial(start)
    requires var t := Service.Run(s, start, ops);
             && i < |ids| && (forall j | 0 <= j < |ids| :: ids[j] in t.accounts)
             && RegistryOk(s, Service.Registrations(t.accounts, ids))
             && t.accounts[ids[i]].userId in t.users
             && var x := t.users[t.accounts[ids[i]].userId].x;
             MadeBy(s, a, x, issue, k) && MadeBy(s, b, x, issue, k)
    ensures var t := Service.Run(s, start, ops);
            var user := t.accounts[ids[i]].userId;
            TraceOf(s, a, b, Service.Registrations(t.accounts, ids)) ==
            if a.wit.counter != b.wit.counter then Legal
            else if a.st.r == b.st.r then Replay
            else Traced(user, t.users[user].x)
  {
    hide Service.Run, RegistryOk, IsPrime, Define, Check, KeyOf, Suite.NewAccount;
    Service.InitialOk(s, start);
    Service.RunKeeps(s, start, ops);
    var t := Service.Run(s, start, ops);
    var regs, user := Service.Registrations(t.accounts, ids), t.accounts[ids[i]].userId;
    KnownKey(s, t, ids[i]);
    assert regs[i].userId == user && KeyOf(s, regs[i].account) == t.users[user].x;
    assert RegisteredFor(s, regs, user, t.users[user].x);
    CheckedFields(s, a.ctx, a.message, a.st);
    CheckedFields(s, b.ctx, b.message, b.st);
    TraceClassifies(s, a.ctx, a.message, a.st, a.wit, b.ctx, b.message, b.st, b.wit, regs, user);
  }

  /** In a reachable state an account's trace key is its user's secret. */
  lemma KnownKey(s: Suite, t: Service.State, id: string)
    requires s.Valid() && Service.Invariant(s, t) && id in t.accounts
    ensures t.accounts[id].userId in t.users && KeyOf(s, t.accounts[id].account) == t.users[t.accounts[id].userId].x
  {
    hide IsPrime, Service.RingValid, Service.LedgersOk, Service.ReleasesOk, Service.AcceptedOk, KeyOf, Suite.NewAccount;
    assert Service.AccountOk(s, t.users, t.accounts[id]);
    KeyOfAccount(s, t.users[t.accounts[id].userId].x, t.accounts[id].account.d.value);
  }
}
