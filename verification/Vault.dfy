/** The encrypted signer wallet of vault.go as a protocol between any number of callers, a
    file that is replaced atomically, and crashes.

    A caller takes the file lock, reads the wallet, stages a successor, renames it over the
    wallet, syncs the directory, and only then calls the prover. Every call may stop after any
    of these steps: an error return, a killed process and a finished call all release the lock.
    A machine crash also loses a rename that no directory sync made durable. */
module Vault {
  import opened Sequences
  import opened Common
  import opened Bytes
  import opened Suites

  datatype Counter = Counter(next: nat, k: nat)

  datatype Wallet = Wallet(x: int, counters: map<Digest, Counter>)

  const MAX_ISSUES := 10000

  /** What read() demands of a decrypted wallet. */
  predicate WalletOk(ell: int, w: Wallet) {
    && 0 < w.x < ell
    && |w.counters| <= MAX_ISSUES
    && forall i | i in w.counters :: 0 < w.counters[i].k < TWO32 && w.counters[i].next <= w.counters[i].k
  }

  /** The reservation check of reserveAndProve: the successor wallet and the reserved slot. */
  function Reserve(w: Wallet, issue: Digest, k: nat): (r: Result<(Wallet, nat)>)
    requires k < TWO32
  {
    var c := if issue in w.counters then w.counters[issue] else Counter(0, 0);
    if k == 0 || (issue in w.counters && c.k != k) || c.next >= k then Err
    else if issue !in w.counters && |w.counters| >= MAX_ISSUES then Err
    else Ok((w.(counters := w.counters[issue := Counter(c.next + 1, k)]), c.next))
  }

  /** A prover call: the secret, the issue, the quota and the counter it was given. */
  datatype Call = Call(x: int, issue: Digest, k: nat, counter: nat)

  datatype Phase =
    | Idle
    | Locked
    | Loaded(w: Wallet)
    | Staged(base: Wallet, w: Wallet, call: Call)      // temporary file written and synced
    | Renamed(w: Wallet, call: Call)
    | Reserved(call: Call)                            // directory synced
    | Proved
    | Linked                                          // a new wallet was linked into place

  datatype State = State(
    visible: Option<Wallet>,     // what the next read returns
    durable: Option<Wallet>,     // what survives a machine crash
    holder: Option<nat>,         // the caller that holds the file lock
    phases: map<nat, Phase>,     // callers that are not idle
    log: seq<Call>               // all prover calls, in order
  )

  datatype Event =
    | Acquire(caller: nat)
    | Read(caller: nat)
    | Stage(caller: nat, issue: Digest, k: nat)
    | Rename(caller: nat)
    | LinkNew(caller: nat, x: int)                    // CreateSignerVault, link step
    | SyncDir(caller: nat)
    | Prove(caller: nat)
    | Release(caller: nat)                            // return, error or killed process
    | Flush                                           // the system writes the directory back
    | Crash

  function PhaseOf(s: State, caller: nat): Phase {
    if caller in s.phases then s.phases[caller] else Idle
  }

  function Move(s: State, caller: nat, p: Phase): State {
    s.(phases := s.phases[caller := p])
  }

  /** One step, or None when the step is not enabled. */
  function Apply(ell: int, s: State, e: Event): Option<State> {
    match e
    case Acquire(c) =>
      if s.holder.None? && PhaseOf(s, c).Idle? then Some(Move(s, c, Locked).(holder := Some(c))) else None
    case Read(c) =>
      if PhaseOf(s, c).Locked? && s.visible.Some? && WalletOk(ell, s.visible.value)
      then Some(Move(s, c, Loaded(s.visible.value))) else None
    case Stage(c, issue, k) =>
      var p := PhaseOf(s, c);
      if p.Loaded? && k < TWO32 && Reserve(p.w, issue, k).Ok? then
        var (w', counter) := Reserve(p.w, issue, k).value;
        Some(Move(s, c, Staged(p.w, w', Call(p.w.x, issue, k, counter))))
      else None
    case Rename(c) =>
      var p := PhaseOf(s, c);
      if p.Staged? then Some(Move(s, c, Renamed(p.w, p.call)).(visible := Some(p.w))) else None
    case LinkNew(c, x) =>
      if PhaseOf(s, c).Locked? && s.visible.None? && 0 < x < ell
      then Some(Move(s, c, Linked).(visible := Some(Wallet(x, map[])))) else None
    case SyncDir(c) =>
      var p := PhaseOf(s, c);
      if p.Renamed? then Some(Move(s, c, Reserved(p.call)).(durable := s.visible))
      else if p.Linked? then Some(s.(durable := s.visible))
      else None
    case Prove(c) =>
      var p := PhaseOf(s, c);
      if p.Reserved? then Some(Move(s, c, Proved).(log := s.log + [p.call])) else None
    case Release(c) =>
      if s.holder == Some(c) then Some(s.(phases := s.phases - {c}, holder := None)) else None
    case Flush => Some(s.(durable := s.visible))
    case Crash => Some(s.(visible := s.durable, holder := None, phases := map[]))
  }

  /** The state after a sequence of steps, if all of them were enabled. */
  function Run(ell: int, s: State, events: seq<Event>): Option<State>
    decreases |events|
  {
    if events == [] then Some(s)
    else match Apply(ell, s, events[0])
      case Some(t) => Run(ell, t, events[1..])
      case None => None
  }

  /** A file system with no wallet, or with a well-formed one that survived earlier runs. */
  predicate Initial(ell: int, s: State) {
    && s.visible == s.durable && s.holder.None? && s.phases == map[] && s.log == []
    && (s.visible.Some? ==> WalletOk(ell, s.visible.value))
  }

  // --- what every step keeps -------------------------------------------------------------------

  /** w' is the same wallet as w with no counter lowered and no quota changed. */
  predicate Extends(w: Wallet, w': Wallet) {
    && w.x == w'.x
    && forall i | i in w.counters ::
         i in w'.counters && w.counters[i].k == w'.counters[i].k && w.counters[i].next <= w'.counters[i].next
  }

  /** The wallet accounts for a prover call. */
  predicate Covers(w: Wallet, c: Call) {
    && w.x == c.x && c.issue in w.counters && w.counters[c.issue].k == c.k
    && c.counter < w.counters[c.issue].next
  }

  /** The call reserves a slot above all earlier prover calls of its issue. */
  predicate AboveLog(log: seq<Call>, c: Call) {
    forall i | 0 <= i < |log| ::
      log[i].x == c.x && (log[i].issue == c.issue ==> log[i].k == c.k && log[i].counter < c.counter)
  }

  /** In order of the calls: one secret, and per issue one quota and increasing counters below it. */
  predicate LogSafe(log: seq<Call>) {
    && (forall i | 0 <= i < |log| :: log[i].counter < log[i].k)
    && forall i, j | 0 <= i < j < |log| ::
         && log[i].x == log[j].x
         && (log[i].issue == log[j].issue ==> log[i].k == log[j].k && log[i].counter < log[j].counter)
  }

  predicate PhaseSafe(ell: int, s: State, p: Phase) {
    match p
    case Idle => true
    case Locked => true
    case Loaded(w) => s.visible == Some(w)
    case Staged(base, w, call) =>
      && s.visible == Some(base) && WalletOk(ell, w) && Extends(base, w) && Covers(w, call)
      && call.counter < call.k && AboveLog(s.log, call)
    case Renamed(w, call) =>
      s.visible == Some(w) && Covers(w, call) && call.counter < call.k && AboveLog(s.log, call)
    case Reserved(call) =>
      && s.durable.Some? && Covers(s.durable.value, call)
      && call.counter < call.k && AboveLog(s.log, call)
    case Proved => true
    case Linked => true
  }

  /** The wallet accounts for every prover call so far. */
  predicate CoversLog(d: Option<Wallet>, log: seq<Call>) {
    (log != [] ==> d.Some?) && forall i | 0 <= i < |log| :: d.Some? && Covers(d.value, log[i])
  }

  predicate ExtendsDurable(d: Option<Wallet>, v: Option<Wallet>) {
    d.Some? ==> v.Some? && Extends(d.value, v.value)
  }

  predicate Invariant(ell: int, s: State) {
    && (s.visible.Some? ==> WalletOk(ell, s.visible.value))
    && (s.durable.Some? ==> WalletOk(ell, s.durable.value))
    && ExtendsDurable(s.durable, s.visible)
    && (forall c | c in s.phases :: s.holder == Some(c))
    && (s.holder.Some? ==> PhaseSafe(ell, s, PhaseOf(s, s.holder.value)))
    && CoversLog(s.durable, s.log)
    && LogSafe(s.log)
  }

  lemma CoversLogExtends(d: Option<Wallet>, v: Option<Wallet>, log: seq<Call>)
    requires CoversLog(d, log) && ExtendsDurable(d, v)
    ensures CoversLog(v, log)
  {
  }

  lemma CoversExtends(w: Wallet, w': Wallet, c: Call)
    requires Covers(w, c) && Extends(w, w')
    ensures Covers(w', c)
  {
  }

  /** A reservation keeps the wallet well-formed, only raises its own counter, and lies above
      every call the wallet accounts for. The 32-bit counter cannot overflow. */
  lemma ReserveSafe(ell: int, w: Wallet, issue: Digest, k: nat, log: seq<Call>)
    requires WalletOk(ell, w) && k < TWO32 && Reserve(w, issue, k).Ok?
    requires CoversLog(Some(w), log)
    ensures var (w', counter) := Reserve(w, issue, k).value;
            && WalletOk(ell, w') && Extends(w, w') && counter < k
            && Covers(w', Call(w.x, issue, k, counter))
            && AboveLog(log, Call(w.x, issue, k, counter))
  {
    var (w', counter) := Reserve(w, issue, k).value;
    assert w'.counters.Keys == w.counters.Keys + {issue};
    assert |w'.counters| == |w'.counters.Keys| && |w.counters| == |w.counters.Keys|;
    forall i | 0 <= i < |log|
      ensures log[i].x == w.x && (log[i].issue == issue ==> log[i].k == k && log[i].counter < counter)
    {
      assert Covers(w, log[i]);
    }
  }

  lemma AppendSafe(log: seq<Call>, c: Call)
    requires LogSafe(log) && AboveLog(log, c) && c.counter < c.k
    ensures LogSafe(log + [c])
  {
  }

  lemma StageKeeps(ell: int, s: State, c: nat, issue: Digest, k: nat)
    requires Invariant(ell, s) && Apply(ell, s, Stage(c, issue, k)).Some?
    ensures Invariant(ell, Apply(ell, s, Stage(c, issue, k)).value)
  {
    hide WalletOk, Extends, Covers, AboveLog, LogSafe, Reserve, CoversLog, ExtendsDurable;
    var w := s.phases[c].w;
    assert s.visible == Some(w);
    CoversLogExtends(s.durable, s.visible, s.log);
    ReserveSafe(ell, w, issue, k, s.log);
  }

  lemma ExtendsTransitive(d: Option<Wallet>, b: Wallet, c: Wallet)
    requires ExtendsDurable(d, Some(b)) && Extends(b, c)
    ensures ExtendsDurable(d, Some(c))
  {
  }

  lemma ExtendsReflexive(a: Option<Wallet>)
    ensures ExtendsDurable(a, a)
  {
  }

  lemma RenameKeeps(ell: int, s: State, c: nat)
    requires Invariant(ell, s) && Apply(ell, s, Rename(c)).Some?
    ensures Invariant(ell, Apply(ell, s, Rename(c)).value)
  {
    hide WalletOk, Extends, Covers, AboveLog, LogSafe, CoversLog, ExtendsDurable;
    var p := s.phases[c];
    ExtendsTransitive(s.durable, p.base, p.w);
  }

  lemma DurableKeeps(ell: int, s: State, e: Event)
    requires Invariant(ell, s) && Apply(ell, s, e).Some? && (e.SyncDir? || e.Flush? || e.Crash?)
    ensures Invariant(ell, Apply(ell, s, e).value)
  {
    hide WalletOk, Extends, Covers, AboveLog, LogSafe, CoversLog;
    ExtendsReflexive(s.visible);
    ExtendsReflexive(s.durable);
    CoversLogExtends(s.durable, s.visible, s.log);
    if s.holder.Some? && PhaseOf(s, s.holder.value).Reserved? {
      CoversExtends(s.durable.value, s.visible.value, PhaseOf(s, s.holder.value).call);
    }
  }

  lemma ProveKeeps(ell: int, s: State, c: nat)
    requires Invariant(ell, s) && Apply(ell, s, Prove(c)).Some?
    ensures Invariant(ell, Apply(ell, s, Prove(c)).value)
  {
    hide WalletOk, Extends, Covers, AboveLog, LogSafe;
    AppendSafe(s.log, s.phases[c].call);
  }

  lemma LinkKeeps(ell: int, s: State, c: nat, x: int)
    requires Invariant(ell, s) && Apply(ell, s, LinkNew(c, x)).Some?
    ensures Invariant(ell, Apply(ell, s, LinkNew(c, x)).value)
  {
    hide Covers, AboveLog, LogSafe;
  }

  lemma StepKeeps(ell: int, s: State, e: Event)
    requires Invariant(ell, s) && Apply(ell, s, e).Some?
    ensures Invariant(ell, Apply(ell, s, e).value)
  {
    hide WalletOk, Extends, Covers, AboveLog, LogSafe, Reserve, CoversLog, ExtendsDurable;
    match e
    case Stage(c, issue, k) => StageKeeps(ell, s, c, issue, k);
    case Rename(c) => RenameKeeps(ell, s, c);
    case SyncDir(c) => DurableKeeps(ell, s, e);
    case Flush => DurableKeeps(ell, s, e);
    case Crash => DurableKeeps(ell, s, e);
    case Prove(c) => ProveKeeps(ell, s, c);
    case LinkNew(c, x) => LinkKeeps(ell, s, c, x);
    case Acquire(c) =>
    case Read(c) =>
    case Release(c) =>
  }

  lemma {:induction false} RunKeeps(ell: int, s: State, events: seq<Event>)
    requires Invariant(ell, s) && Run(ell, s, events).Some?
    ensures Invariant(ell, Run(ell, s, events).value)
    decreases |events|
  {
    if events != [] {
      StepKeeps(ell, s, events[0]);
      RunKeeps(ell, Apply(ell, s, events[0]).value, events[1..]);
    }
  }

  /** The counters of an issue's prover calls, in order. */
  function CallsFor(log: seq<Call>, issue: Digest): seq<nat> {
    if log == [] then []
    else
      var n := |log| - 1;
      CallsFor(log[..n], issue) + if log[n].issue == issue then [log[n].counter] else []
  }

  lemma {:induction false} CallsForMember(log: seq<Call>, issue: Digest, c: nat)
    ensures c in CallsFor(log, issue) <==> exists i :: 0 <= i < |log| && log[i].issue == issue && log[i].counter == c
  {
    if log != [] {
      var n := |log| - 1;
      CallsForMember(log[..n], issue, c);
      if i :| 0 <= i < |log[..n]| && log[..n][i].issue == issue && log[..n][i].counter == c {
        assert log[i].issue == issue;
      }
      if i :| 0 <= i < |log| && log[i].issue == issue && log[i].counter == c {
        assert i < n ==> log[..n][i] == log[i];
      }
    }
  }

  lemma {:induction false} CallsIncrease(log: seq<Call>, issue: Digest)
    requires LogSafe(log)
    ensures Increasing(CallsFor(log, issue))
  {
    if log != [] {
      var n := |log| - 1;
      assert LogSafe(log[..n]) by { assert forall i | 0 <= i < n :: log[..n][i] == log[i]; }
      CallsIncrease(log[..n], issue);
      var cs := CallsFor(log[..n], issue);
      forall i | 0 <= i < |cs| && log[n].issue == issue ensures cs[i] < log[n].counter {
        assert cs[i] in cs;
        CallsForMember(log[..n], issue, cs[i]);
        var j :| 0 <= j < n && log[..n][j].issue == issue && log[..n][j].counter == cs[i];
        assert log[j].issue == issue;
      }
    }
  }

  /** No run hands the prover more than k slots of an issue whose quota is k. */
  lemma QuotaBound(ell: int, s: State, events: seq<Event>, issue: Digest, k: nat)
    requires Initial(ell, s) && Run(ell, s, events).Some?
    requires exists i :: 0 <= i < |Run(ell, s, events).value.log|
               && Run(ell, s, events).value.log[i].issue == issue && Run(ell, s, events).value.log[i].k == k
    ensures |CallsFor(Run(ell, s, events).value.log, issue)| <= k
  {
    ExtendsReflexive(s.visible);
    RunKeeps(ell, s, events);
    var log := Run(ell, s, events).value.log;
    var m :| 0 <= m < |log| && log[m].issue == issue && log[m].k == k;
    var cs := CallsFor(log, issue);
    CallsIncrease(log, issue);
    forall i | 0 <= i < |cs| ensures cs[i] < k {
      assert cs[i] in cs;
      CallsForMember(log, issue, cs[i]);
      var j :| 0 <= j < |log| && log[j].issue == issue && log[j].counter == cs[i];
      assert log[j].k == k;
    }
    IncreasingBounded(cs, k);
  }

  // --- what later runs cannot undo ---------------------------------------------------------------

  /** The call uses the wallet's secret, and for an issue of the wallet its quota and a slot that the
      wallet has not handed out. */
  predicate Beyond(d: Wallet, c: Call) {
    && c.x == d.x
    && (c.issue in d.counters ==> c.k == d.counters[c.issue].k && c.counter >= d.counters[c.issue].next)
  }

  /** The prover call that a phase leads to, if any. */
  function Pending(p: Phase): Option<Call> {
    match p
    case Staged(_, _, call) => Some(call)
    case Renamed(_, call) => Some(call)
    case Reserved(call) => Some(call)
    case _ => None
  }

  /** Seen from a durable wallet d and the log at that time: the durable wallet has only grown, and
      everything logged since, or about to be logged, lies beyond d. */
  predicate Since(d: Wallet, log: seq<Call>, s: State) {
    && s.durable.Some? && Extends(d, s.durable.value)
    && log <= s.log && (forall i | |log| <= i < |s.log| :: Beyond(d, s.log[i]))
    && (s.holder.Some? && Pending(PhaseOf(s, s.holder.value)).Some? ==>
          Beyond(d, Pending(PhaseOf(s, s.holder.value)).value))
  }

  lemma ExtendsTwice(a: Wallet, b: Wallet, c: Wallet)
    requires Extends(a, b) && Extends(b, c)
    ensures Extends(a, c)
  {
  }

  /** A reservation from a wallet that extends d lies beyond d. */
  lemma ReserveBeyond(d: Wallet, w: Wallet, issue: Digest, k: nat)
    requires Extends(d, w) && k < TWO32 && Reserve(w, issue, k).Ok?
    ensures Beyond(d, Call(w.x, issue, k, Reserve(w, issue, k).value.1))
  {
  }

  lemma StepSince(ell: int, d: Wallet, log: seq<Call>, s: State, e: Event)
    requires Invariant(ell, s) && Since(d, log, s) && Apply(ell, s, e).Some?
    ensures Since(d, log, Apply(ell, s, e).value)
  {
    hide WalletOk, Extends, Covers, AboveLog, LogSafe, CoversLog, Reserve, Beyond;
    if s.visible.Some? { ExtendsTwice(d, s.durable.value, s.visible.value); }
    if e.Stage? {
      ReserveBeyond(d, PhaseOf(s, e.caller).w, e.issue, e.k);
    }
  }

  lemma {:induction false} RunSince(ell: int, d: Wallet, log: seq<Call>, s: State, events: seq<Event>)
    requires Invariant(ell, s) && Since(d, log, s) && Run(ell, s, events).Some?
    ensures Since(d, log, Run(ell, s, events).value)
    decreases |events|
  {
    hide Invariant, Since;
    if events != [] {
      StepKeeps(ell, s, events[0]);
      StepSince(ell, d, log, s, events[0]);
      RunSince(ell, d, log, Apply(ell, s, events[0]).value, events[1..]);
    }
  }

  /** Nothing is undone. From any reachable state in which nobody holds the lock, whatever callers,
      failures and crashes follow: the durable wallet only grows, and every later prover call uses its
      secret and, for an issue it knows, the quota pinned there and a slot not yet reserved there -
      whether or not the reservations that raised it ever led to a proof. */
  lemma DurableSurvives(ell: int, s: State, events: seq<Event>)
    requires Invariant(ell, s) && s.holder.None? && s.durable.Some? && Run(ell, s, events).Some?
    ensures var t := Run(ell, s, events).value;
            && t.durable.Some? && Extends(s.durable.value, t.durable.value)
            && s.log <= t.log
            && forall i | |s.log| <= i < |t.log| :: Beyond(s.durable.value, t.log[i])
  {
    hide Invariant, Run;
    ExtendsReflexive(s.durable);
    RunSince(ell, s.durable.value, s.log, s, events);
  }

  /** Safety over whole runs: whatever the interleaving, failures and crashes, all prover calls
      use one secret; per issue one quota, strictly increasing counters, all below the quota. At
      most one caller is past the lock, and the wallet on disk always passes read's validation. And
      between any two points of the run, what the first one's wallet has made durable binds every
      call after it, proofs or no proofs. */
  lemma VaultSafety(ell: int, s: State, before: seq<Event>, after: seq<Event>)
    requires Initial(ell, s) && Run(ell, s, before).Some? && Run(ell, Run(ell, s, before).value, after).Some?
    ensures var m := Run(ell, s, before).value;
            var t := Run(ell, m, after).value;
            && LogSafe(t.log)
            && (t.visible.Some? ==>
                  && 0 < t.visible.value.x < ell && |t.visible.value.counters| <= 10000
                  && forall i | i in t.visible.value.counters ::
                       0 < t.visible.value.counters[i].k < TWO32 && t.visible.value.counters[i].next <= t.visible.value.counters[i].k)
            && (forall a, b | a in t.phases && b in t.phases :: a == b)
            && (m.holder.None? && m.durable.Some? ==>
                  && t.durable.Some? && Extends(m.durable.value, t.durable.value)
                  && m.log <= t.log && forall i | |m.log| <= i < |t.log| :: Beyond(m.durable.value, t.log[i]))
  {
    hide Run, WalletOk, Extends, LogSafe, Beyond, CoversLog;
    ExtendsReflexive(s.visible);
    RunKeeps(ell, s, before);
    var m := Run(ell, s, before).value;
    RunKeeps(ell, m, after);
    if m.holder.None? && m.durable.Some? { DurableSurvives(ell, m, after); }
    if Run(ell, m, after).value.visible.Some? { Plausible(ell, Run(ell, m, after).value.visible.value); }
  }

  lemma Plausible(ell: int, w: Wallet)
    requires WalletOk(ell, w)
    ensures 0 < w.x < ell && |w.counters| <= 10000
    ensures forall i | i in w.counters :: 0 < w.counters[i].k < TWO32 && w.counters[i].next <= w.counters[i].k
  {
  }

  /** A burnt slot stays burnt: when a call that reserved and synced a slot ends without a proof, by an
      error, a killed process or a crash, no later call of any run gets that slot, and the issue keeps
      the quota that the reservation pinned. */
  lemma BurntSlot(ell: int, s: State, caller: nat, end: Event, events: seq<Event>)
    requires Invariant(ell, s) && PhaseOf(s, caller).Reserved? && (end == Crash || end == Release(caller))
    requires Run(ell, s, [end] + events).Some?
    ensures var t, burnt := Run(ell, s, [end] + events).value, PhaseOf(s, caller).call;
            && s.log <= t.log
            && forall i | |s.log| <= i < |t.log| && t.log[i].issue == burnt.issue ::
                 t.log[i].k == burnt.k && t.log[i].counter > burnt.counter
  {
    hide WalletOk, Extends, AboveLog, LogSafe, CoversLog;
    assert ([end] + events)[0] == end && ([end] + events)[1..] == events;
    StepKeeps(ell, s, end);
    var u := Apply(ell, s, end).value;
    DurableSurvives(ell, u, events);
  }

  /** Create never resets a wallet. Over every run from a state with a wallet: as long as the machine
      does not crash, the wallet in place only grows; and over crashes it still extends whatever
      was durable, so it keeps its secret, quotas and counters. */
  lemma NeverReset(ell: int, s: State, events: seq<Event>)
    requires Invariant(ell, s) && s.visible.Some? && Run(ell, s, events).Some?
    ensures var t := Run(ell, s, events).value;
            && (Crash !in events ==> t.visible.Some? && Extends(s.visible.value, t.visible.value))
            && (s.durable.Some? ==> t.visible.Some? && Extends(s.durable.value, t.visible.value))
  {
    hide Invariant, Extends, Run;
    if Crash !in events { VisibleGrows(ell, s, events); }
    if s.durable.Some? {
      DurableGrows(ell, s, events);
      RunKeeps(ell, s, events);
      DurableBelowVisible(ell, Run(ell, s, events).value);
      ExtendsTwice(s.durable.value, Run(ell, s, events).value.durable.value, Run(ell, s, events).value.visible.value);
    }
  }

  lemma DurableBelowVisible(ell: int, s: State)
    requires Invariant(ell, s) && s.durable.Some?
    ensures s.visible.Some? && Extends(s.durable.value, s.visible.value)
  {
  }

  lemma StepGrows(ell: int, s: State, e: Event)
    requires Invariant(ell, s) && Apply(ell, s, e).Some?
    ensures s.visible.Some? && e != Crash ==>
              Apply(ell, s, e).value.visible.Some? && Extends(s.visible.value, Apply(ell, s, e).value.visible.value)
    ensures s.durable.Some? ==>
              Apply(ell, s, e).value.durable.Some? && Extends(s.durable.value, Apply(ell, s, e).value.durable.value)
  {
    hide WalletOk, Extends, Covers, AboveLog, LogSafe, CoversLog, Reserve;
    ExtendsReflexive(s.visible);
    ExtendsReflexive(s.durable);
  }

  lemma {:induction false} VisibleGrows(ell: int, s: State, events: seq<Event>)
    requires Invariant(ell, s) && s.visible.Some? && Run(ell, s, events).Some? && Crash !in events
    ensures Run(ell, s, events).value.visible.Some?
            && Extends(s.visible.value, Run(ell, s, events).value.visible.value)
    decreases |events|
  {
    hide Invariant, Extends, Apply;
    ExtendsReflexive(s.visible);
    if events != [] {
      var u := Apply(ell, s, events[0]).value;
      assert events[0] in events;
      StepKeeps(ell, s, events[0]);
      StepGrows(ell, s, events[0]);
      VisibleGrows(ell, u, events[1..]);
      ExtendsTwice(s.visible.value, u.visible.value, Run(ell, u, events[1..]).value.visible.value);
    }
  }

  lemma {:induction false} DurableGrows(ell: int, s: State, events: seq<Event>)
    requires Invariant(ell, s) && s.durable.Some? && Run(ell, s, events).Some?
    ensures Run(ell, s, events).value.durable.Some?
            && Extends(s.durable.value, Run(ell, s, events).value.durable.value)
    decreases |events|
  {
    hide Invariant, Extends, Apply;
    ExtendsReflexive(s.durable);
    if events != [] {
      var u := Apply(ell, s, events[0]).value;
      StepKeeps(ell, s, events[0]);
      StepGrows(ell, s, events[0]);
      DurableGrows(ell, u, events[1..]);
      ExtendsTwice(s.durable.value, u.durable.value, Run(ell, u, events[1..]).value.durable.value);
    }
  }

  // --- a quota can be used up ------------------------------------------------------------------

  /** The next slot of an issue; a new issue starts at zero. */
  function NextSlot(w: Wallet, issue: Digest): nat {
    if issue in w.counters then w.counters[issue].next else 0
  }

  /** The issue has this quota, or is new and there is room for it. */
  predicate QuotaFits(w: Wallet, issue: Digest, k: nat) {
    0 < k < TWO32 && if issue in w.counters then w.counters[issue].k == k else |w.counters| < MAX_ISSUES
  }

  /** The wallet after n more slots of the issue were handed out. */
  function Spent(w: Wallet, issue: Digest, k: nat, n: nat): Wallet {
    if n == 0 then w else w.(counters := w.counters[issue := Counter(NextSlot(w, issue) + n, k)])
  }

  /** A reservation succeeds exactly below the issue's quota and hands out the next slot; everything
      else in the wallet stays. */
  lemma ReserveExact(w: Wallet, issue: Digest, k: nat)
    requires k < TWO32
    ensures Reserve(w, issue, k).Ok? <==> QuotaFits(w, issue, k) && NextSlot(w, issue) < k
    ensures Reserve(w, issue, k).Ok? ==>
              var (w', slot) := Reserve(w, issue, k).value;
              && slot == NextSlot(w, issue) && NextSlot(w', issue) == slot + 1 && QuotaFits(w', issue, k) && w'.x == w.x
              && (forall other | other != issue :: other in w'.counters <==> other in w.counters)
              && (forall other | other != issue && other in w.counters :: w'.counters[other] == w.counters[other])
              && w' == Spent(w, issue, k, 1)
  {
  }

  lemma SpentTwice(w: Wallet, issue: Digest, k: nat, n: nat)
    ensures Spent(Spent(w, issue, k, 1), issue, k, n) == Spent(w, issue, k, n + 1)
  {
  }

  /** One undisturbed call of the library. */
  function OneCall(c: nat, issue: Digest, k: nat): seq<Event> {
    [Acquire(c)] + ([Read(c)] + ([Stage(c, issue, k)] + ([Rename(c)] + ([SyncDir(c)] + ([Prove(c)] + [Release(c)])))))
  }

  /** n of them, one after the other. */
  function Calls(c: nat, issue: Digest, k: nat, n: nat): seq<Event> {
    if n == 0 then [] else OneCall(c, issue, k) + Calls(c, issue, k, n - 1)
  }

  lemma RunFirst(ell: int, s: State, e: Event, rest: seq<Event>)
    ensures Run(ell, s, [e] + rest) == match Apply(ell, s, e) case Some(t) => Run(ell, t, rest) case None => None
  {
    hide Apply;
    assert ([e] + rest)[0] == e && ([e] + rest)[1..] == rest;
  }

  lemma {:induction false} RunConcat(ell: int, s: State, a: seq<Event>, b: seq<Event>)
    ensures Run(ell, s, a + b) == match Run(ell, s, a) case Some(t) => Run(ell, t, b) case None => None
    decreases |a|
  {
    hide Apply;
    if a == [] {
      assert a + b == b;
    } else {
      assert (a + b)[0] == a[0] && (a + b)[1..] == a[1..] + b;
      if Apply(ell, s, a[0]).Some? { RunConcat(ell, Apply(ell, s, a[0]).value, a[1..], b); }
    }
  }

  /** What one undisturbed call leaves behind. */
  function AfterCalls(s: State, w: Wallet, issue: Digest, k: nat, n: nat): State {
    if n == 0 then s
    else s.(visible := Some(Spent(w, issue, k, n)), durable := Some(Spent(w, issue, k, n)),
            log := s.log + seq(n, i requires 0 <= i < n => Call(w.x, issue, k, NextSlot(w, issue) + i)))
  }

  lemma CallRuns(ell: int, s: State, w: Wallet, c: nat, issue: Digest, k: nat)
    requires Invariant(ell, s) && s.holder.None? && s.visible == Some(w)
    ensures Run(ell, s, OneCall(c, issue, k)) ==
            if k < TWO32 && Reserve(w, issue, k).Ok? then Some(AfterCalls(s, w, issue, k, 1)) else None
  {
    Unlocked(ell, s);
    Readable(ell, s);
    hide Invariant, WalletOk, Run, Reserve, Spent, NextSlot;
    var tail := [Stage(c, issue, k)] + ([Rename(c)] + ([SyncDir(c)] + ([Prove(c)] + [Release(c)])));
    var s1 := Move(s, c, Locked).(holder := Some(c));
    var s2 := Move(s1, c, Loaded(w));
    RunFirst(ell, s, Acquire(c), [Read(c)] + tail);
    RunFirst(ell, s1, Read(c), tail);
    StagedRuns(ell, s, s2, w, c, issue, k);
  }

  lemma StagedRuns(ell: int, s: State, s2: State, w: Wallet, c: nat, issue: Digest, k: nat)
    requires s.phases == map[] && s.holder.None?
    requires s2 == s.(phases := map[c := Loaded(w)], holder := Some(c))
    ensures Run(ell, s2, [Stage(c, issue, k)] + ([Rename(c)] + ([SyncDir(c)] + ([Prove(c)] + [Release(c)])))) ==
            if k < TWO32 && Reserve(w, issue, k).Ok? then Some(AfterCalls(s, w, issue, k, 1)) else None
  {
    hide WalletOk, Run;
    RunFirst(ell, s2, Stage(c, issue, k), [Rename(c)] + ([SyncDir(c)] + ([Prove(c)] + [Release(c)])));
    if k < TWO32 && Reserve(w, issue, k).Ok? {
      ReserveExact(w, issue, k);
      hide Reserve, Spent, NextSlot;
      var (w', slot) := Reserve(w, issue, k).value;
      var call := Call(w.x, issue, k, slot);
      var s3 := Move(s2, c, Staged(w, w', call));
      var s4 := Move(s3, c, Renamed(w', call)).(visible := Some(w'));
      var s5 := Move(s4, c, Reserved(call)).(durable := Some(w'));
      var s6 := Move(s5, c, Proved).(log := s.log + [call]);
      RunFirst(ell, s3, Rename(c), [SyncDir(c)] + ([Prove(c)] + [Release(c)]));
      RunFirst(ell, s4, SyncDir(c), [Prove(c)] + [Release(c)]);
      RunFirst(ell, s5, Prove(c), [Release(c)]);
      assert [Release(c)] == [Release(c)] + [];
      RunFirst(ell, s6, Release(c), []);
      assert s6.phases - {c} == map[];
      var end := s6.(phases := map[], holder := None);
      RunNothing(ell, end);
      OneMore(w, issue, k);
      assert end == AfterCalls(s, w, issue, k, 1);
    }
  }

  lemma OneMore(w: Wallet, issue: Digest, k: nat)
    ensures seq(1, i requires 0 <= i < 1 => Call(w.x, issue, k, NextSlot(w, issue) + i)) == [Call(w.x, issue, k, NextSlot(w, issue))]
  {
  }

  lemma RunNothing(ell: int, s: State)
    ensures Run(ell, s, []) == Some(s)
  {
  }

  /** Exactly the quota can be used. From any reachable state without a lock holder, n undisturbed calls
      in a row go through exactly if the issue's quota has n slots left. The prover then gets exactly
      the next n slots in order, the wallet on disk records them durably, and nothing else changed. */
  lemma {:induction false} QuotaUsable(ell: int, s: State, w: Wallet, c: nat, issue: Digest, k: nat, n: nat)
    requires Invariant(ell, s) && s.holder.None? && s.visible == Some(w) && QuotaFits(w, issue, k)
    ensures Run(ell, s, Calls(c, issue, k, n)) ==
            if NextSlot(w, issue) + n <= k then Some(AfterCalls(s, w, issue, k, n)) else None
    decreases n
  {
    hide *;
    SlotBound(ell, s, w, issue, k);
    CallsFirst(c, issue, k, n);
    if n == 0 {
      NoCalls(s, w, issue, k);
      RunNothing(ell, s);
    } else {
      RunConcat(ell, s, OneCall(c, issue, k), Calls(c, issue, k, n - 1));
      CallRuns(ell, s, w, c, issue, k);
      SlotLeft(w, issue, k);
      if Reserve(w, issue, k).Ok? {
        var u, w' := AfterCalls(s, w, issue, k, 1), Spent(w, issue, k, 1);
        AfterOne(s, w, issue, k);
        RunKeeps(ell, s, OneCall(c, issue, k));
        QuotaUsable(ell, u, w', c, issue, k, n - 1);
        AfterTwice(s, w, issue, k, n - 1);
      }
    }
  }

  lemma CallsFirst(c: nat, issue: Digest, k: nat, n: nat)
    ensures Calls(c, issue, k, n) == if n == 0 then [] else OneCall(c, issue, k) + Calls(c, issue, k, n - 1)
  {
  }

  lemma SlotLeft(w: Wallet, issue: Digest, k: nat)
    requires QuotaFits(w, issue, k)
    ensures k < TWO32 && (Reserve(w, issue, k).Ok? <==> NextSlot(w, issue) < k)
    ensures NextSlot(w, issue) < k ==>
              QuotaFits(Spent(w, issue, k, 1), issue, k) && NextSlot(Spent(w, issue, k, 1), issue) == NextSlot(w, issue) + 1
  {
    ReserveExact(w, issue, k);
  }

  lemma SlotBound(ell: int, s: State, w: Wallet, issue: Digest, k: nat)
    requires Invariant(ell, s) && s.visible == Some(w) && QuotaFits(w, issue, k)
    ensures NextSlot(w, issue) <= k
  {
    Readable(ell, s);
    hide Invariant;
  }

  lemma NoCalls(s: State, w: Wallet, issue: Digest, k: nat)
    ensures AfterCalls(s, w, issue, k, 0) == s
  {
  }

  lemma AfterOne(s: State, w: Wallet, issue: Digest, k: nat)
    ensures AfterCalls(s, w, issue, k, 1).visible == Some(Spent(w, issue, k, 1))
    ensures AfterCalls(s, w, issue, k, 1).holder == s.holder
  {
  }

  lemma AfterTwice(s: State, w: Wallet, issue: Digest, k: nat, n: nat)
    ensures AfterCalls(AfterCalls(s, w, issue, k, 1), Spent(w, issue, k, 1), issue, k, n) == AfterCalls(s, w, issue, k, n + 1)
  {
    SpentTwice(w, issue, k, n);
    var first := NextSlot(w, issue);
    var one := seq(1, i requires 0 <= i < 1 => Call(w.x, issue, k, first + i));
    var rest := seq(n, i requires 0 <= i < n => Call(w.x, issue, k, first + 1 + i));
    var all := seq(n + 1, i requires 0 <= i < n + 1 => Call(w.x, issue, k, first + i));
    assert s.log + one + rest == s.log + all;
  }

  // --- the code of one call ------------------------------------------------------------------

  /** Where write() fails, if it does. */
  datatype Fault = NoFault | BeforeRename | AfterRename

  /** One wallet file shared by its callers. */
  class WalletFile {
    const ell: int
    ghost var state: State
    var visible: Option<Wallet>

    ghost predicate Valid()
      reads this
    {
      Invariant(ell, state) && visible == state.visible
    }

    constructor (ell: int)
      ensures Valid() && this.ell == ell && Initial(ell, state) && state.visible.None?
    {
      this.ell := ell;
      visible := None;
      state := State(None, None, None, map[], []);
    }

    ghost method Do(e: Event)
      requires Invariant(ell, state) && Apply(ell, state, e).Some?
      modifies this`state
      ensures state == Apply(ell, old(state), e).value && Invariant(ell, state)
    {
      StepKeeps(ell, state, e);
      state := Apply(ell, state, e).value;
    }

    /** CreateSignerVault: links a fresh wallet into place, and fails without touching a wallet that is
        already there. */
    method Create(caller: nat, x: int, fault: Fault) returns (ok: bool)
      requires Valid() && state.holder.None?
      modifies this
      ensures Valid() && state.holder.None? && state.log == old(state.log)
      ensures ok <==> 0 < x < ell && old(visible).None? && fault == NoFault
      ensures visible == if 0 < x < ell && old(visible).None? && fault != BeforeRename then Some(Wallet(x, map[])) else old(visible)
      ensures ok ==> state.durable == visible
      ensures old(visible).Some? ==> state.durable == old(state.durable)
    {
      hide Invariant, WalletOk;
      if x <= 0 || x >= ell { return false; }
      Unlocked(ell, state);
      Do(Acquire(caller));
      if visible.Some? || fault == BeforeRename {
        Do(Release(caller));
        return false;
      }
      visible := Some(Wallet(x, map[]));
      Do(LinkNew(caller, x));
      if fault == AfterRename {
        Do(Release(caller));
        return false;
      }
      Do(SyncDir(caller));
      Do(Release(caller));
      ok := true;
    }

    /** reserveAndProve under the lock: the counter passed to the prover, or an error before
        it. A slot is burnt as soon as the rename happened, and the prover is called only for a
        slot that is durable. */
    method ReserveAndProve(caller: nat, issue: Digest, k: nat, fault: Fault) returns (counter: Result<nat>)
      requires Valid() && state.holder.None? && k < TWO32
      modifies this
      ensures Valid() && state.holder.None?
      ensures counter.Ok? <==>
              fault == NoFault && old(visible).Some? && QuotaFits(old(visible).value, issue, k) && NextSlot(old(visible).value, issue) < k
      ensures counter.Ok? ==>
                && counter.value == NextSlot(old(visible).value, issue)
                && state.log == old(state.log) + [Call(old(visible).value.x, issue, k, counter.value)]
                && state.durable == Some(Spent(old(visible).value, issue, k, 1))
      ensures counter.Err? ==> state.log == old(state.log)
      ensures visible == if old(visible).Some? && QuotaFits(old(visible).value, issue, k) && NextSlot(old(visible).value, issue) < k
                            && fault != BeforeRename
                         then Some(Spent(old(visible).value, issue, k, 1))
                         else old(visible)
    {
      hide Invariant, WalletOk, Reserve, QuotaFits, NextSlot, Spent;
      Unlocked(ell, state);
      Do(Acquire(caller));
      if visible.None? {
        Do(Release(caller));
        return Err;
      }
      Readable(ell, state);
      Do(Read(caller));
      ReserveExact(visible.value, issue, k);
      var r := Reserve(visible.value, issue, k);
      if r.Err? {
        Do(Release(caller));
        return Err;
      }
      var (next, slot) := r.value;
      Do(Stage(caller, issue, k));
      var ok := CommitAndProve(caller, next, fault);
      counter := if ok then Ok(slot) else Err;
    }

    /** Replaces the file, syncs the directory, calls the prover and unlocks. */
    method CommitAndProve(caller: nat, next: Wallet, fault: Fault) returns (ok: bool)
      requires Valid() && state.holder == Some(caller)
      requires PhaseOf(state, caller).Staged? && PhaseOf(state, caller).w == next
      modifies this
      ensures Valid() && state.holder.None?
      ensures ok <==> fault == NoFault
      ensures state.log == if ok then old(state.log) + [old(PhaseOf(state, caller).call)] else old(state.log)
      ensures ok ==> state.durable == Some(next)
      ensures visible == if fault == BeforeRename then old(visible) else Some(next)
    {
      hide Invariant, WalletOk, Reserve;
      if fault == BeforeRename {
        Do(Release(caller));
        return false;
      }
      visible := Some(next);
      Do(Rename(caller));
      if fault == AfterRename {
        Do(Release(caller));
        return false;
      }
      Do(SyncDir(caller));
      Do(Prove(caller));
      Do(Release(caller));
      ok := true;
    }
  }

  lemma Unlocked(ell: int, s: State)
    requires Invariant(ell, s) && s.holder.None?
    ensures s.phases == map[]
  {
    assert s.phases.Keys == {};
  }

  lemma Readable(ell: int, s: State)
    requires Invariant(ell, s) && s.visible.Some?
    ensures WalletOk(ell, s.visible.value)
  {
  }
}
