/** Concurrent callers of one child process: NativeProcess::request takes a mutex, so callers arrive
    and wait in any order, and only the holder touches the streams. */
module Callers {
  import opened Common
  import opened Bytes
  import opened Transport

  datatype Ask = Ask(payload: seq<byte>, timeoutOk: bool)

  /** A finished request of a caller. */
  datatype Answer = Answer(caller: nat, call: Call)

  datatype Pool = Pool(
    link: Link,
    waiting: map<nat, Ask>,      // requests that have not returned, the holder's included
    holder: Option<nat>,         // who holds the mutex
    links: seq<Link>,            // history: the connection whenever the mutex was free
    asked: seq<(nat, Ask)>,      // history: all requests, in order of arrival
    done: seq<Answer>            // history: all returns, in order
  )

  datatype Event =
    | Arrive(caller: nat, ask: Ask)
    | Enter(caller: nat)                                   // the mutex is acquired
    | Work(caller: nat, link: Link)                        // some writes and reads of the holder
    | Return(caller: nat, result: Result<seq<byte>>)       // the request ends and the mutex is released

  ghost function Apply(child: seq<byte> -> seq<byte>, p: Pool, e: Event): Option<Pool>
    requires p.links != []
  {
    match e
    case Arrive(c, ask) =>
      if c in p.waiting then None
      else Some(p.(waiting := p.waiting[c := ask], asked := p.asked + [(c, ask)]))
    case Enter(c) =>
      if p.holder.None? && c in p.waiting then Some(p.(holder := Some(c))) else None
    case Work(c, link) =>
      if p.holder == Some(c) then Some(p.(link := link)) else None
    case Return(c, result) =>
      if p.holder == Some(c) && c in p.waiting
         && Requested(child, p.links[|p.links| - 1], p.waiting[c].payload, p.waiting[c].timeoutOk, result, p.link)
      then Some(p.(waiting := p.waiting - {c}, holder := None, links := p.links + [p.link],
                   done := p.done + [Answer(c, Call(p.waiting[c].payload, p.waiting[c].timeoutOk, result))]))
      else None
  }

  ghost function Run(child: seq<byte> -> seq<byte>, p: Pool, events: seq<Event>): Option<Pool>
    requires p.links != []
    decreases |events|
  {
    if events == [] then Some(p)
    else match Apply(child, p, events[0])
      case Some(q) => Run(child, q, events[1..])
      case None => None
  }

  /** A new connection with no callers. */
  function Fresh(): Pool {
    Pool(Link(true, [], []), map[], None, [Link(true, [], [])], [], [])
  }

  function Calls(done: seq<Answer>): seq<Call> {
    seq(|done|, i requires 0 <= i < |done| => done[i].call)
  }

  /** What a caller has asked, in order. */
  function AskedBy(asked: seq<(nat, Ask)>, c: nat): seq<Ask> {
    if asked == [] then []
    else
      var n := |asked| - 1;
      AskedBy(asked[..n], c) + if asked[n].0 == c then [asked[n].1] else []
  }

  /** The requests of a caller that returned, in order. */
  function AnsweredTo(done: seq<Answer>, c: nat): seq<Ask> {
    if done == [] then []
    else
      var n := |done| - 1;
      AnsweredTo(done[..n], c) + if done[n].caller == c then [Ask(done[n].call.payload, done[n].call.timeoutOk)] else []
  }

  function Open(waiting: map<nat, Ask>, c: nat): seq<Ask> {
    if c in waiting then [waiting[c]] else []
  }

  /** The returns form a session on one connection, which is at rest while nobody holds the mutex; and
      every caller has been answered exactly its own requests, in order, but for one it waits for. */
  ghost predicate Invariant(child: seq<byte> -> seq<byte>, p: Pool) {
    && Session(child, p.links, Calls(p.done))
    && (p.holder.None? ==> p.link == p.links[|p.links| - 1])
    && forall c: nat :: AskedBy(p.asked, c) == AnsweredTo(p.done, c) + Open(p.waiting, c)
  }

  lemma StepKeeps(child: seq<byte> -> seq<byte>, p: Pool, e: Event)
    requires p.links != [] && Invariant(child, p) && Apply(child, p, e).Some?
    ensures Apply(child, p, e).value.links != [] && Invariant(child, Apply(child, p, e).value)
  {
    if e.Return? { ReturnSession(child, p, e.caller, e.result); }
    hide Requested, Session, AskedBy, AnsweredTo, Open;
    var q := Apply(child, p, e).value;
    forall c: nat ensures AskedBy(q.asked, c) == AnsweredTo(q.done, c) + Open(q.waiting, c) {
      assert AskedBy(p.asked, c) == AnsweredTo(p.done, c) + Open(p.waiting, c);
      OwnKeeps(child, p, e, c);
    }
  }

  lemma OwnKeeps(child: seq<byte> -> seq<byte>, p: Pool, e: Event, c: nat)
    requires p.links != [] && Apply(child, p, e).Some?
    requires AskedBy(p.asked, c) == AnsweredTo(p.done, c) + Open(p.waiting, c)
    ensures var q := Apply(child, p, e).value; AskedBy(q.asked, c) == AnsweredTo(q.done, c) + Open(q.waiting, c)
  {
    hide Requested;
    var q := Apply(child, p, e).value;
    if e.Arrive? { assert q.asked[..|p.asked|] == p.asked; }
    if e.Return? { assert q.done[..|p.done|] == p.done; }
  }

  lemma ReturnSession(child: seq<byte> -> seq<byte>, p: Pool, c: nat, result: Result<seq<byte>>)
    requires p.links != [] && Invariant(child, p) && Apply(child, p, Return(c, result)).Some?
    ensures var q := Apply(child, p, Return(c, result)).value; Session(child, q.links, Calls(q.done))
  {
    hide Requested;
    var q := Apply(child, p, Return(c, result)).value;
    var links, calls, n := q.links, Calls(q.done), |p.done|;
    forall i | 0 <= i < |calls|
      ensures Requested(child, links[i], calls[i].payload, calls[i].timeoutOk, calls[i].result, links[i + 1])
    {
      if i < n {
        assert calls[i] == Calls(p.done)[i];
        assert links[i] == p.links[i] && links[i + 1] == p.links[i + 1];
      }
    }
  }

  lemma {:induction false} RunKeeps(child: seq<byte> -> seq<byte>, p: Pool, events: seq<Event>)
    requires p.links != [] && Invariant(child, p) && Run(child, p, events).Some?
    ensures Run(child, p, events).value.links != [] && Invariant(child, Run(child, p, events).value)
    decreases |events|
  {
    hide Invariant, Apply;
    if events != [] {
      StepKeeps(child, p, events[0]);
      RunKeeps(child, Apply(child, p, events[0]).value, events[1..]);
    }
  }

  lemma FreshOk(child: seq<byte> -> seq<byte>)
    ensures Invariant(child, Fresh())
  {
  }

  /** Whatever the interleaving of the callers: every normal return is the child's response to the very
      payload its caller asked, the child having handled exactly the requests answered before. */
  lemma ConcurrentResponses(handle: Handler, events: seq<Event>, i: nat)
    requires Run(Child(handle), Fresh(), events).Some?
    requires i < |Run(Child(handle), Fresh(), events).value.done|
    ensures var done := Run(Child(handle), Fresh(), events).value.done;
            done[i].call.result.Ok? ==>
              done[i].call.result.value == handle(Answered(Calls(done)[..i]) + [done[i].call.payload])
  {
    hide Session, Run;
    FreshOk(Child(handle));
    RunKeeps(Child(handle), Fresh(), events);
    var p := Run(Child(handle), Fresh(), events).value;
    if p.done[i].call.result.Ok? {
      assert Calls(p.done)[i] == p.done[i].call;
      ResponsesMatch(handle, p.links, Calls(p.done), i);
    }
  }

  /** Every caller gets back its own requests, each once and in order, and waits for at most one. */
  lemma OwnRequests(child: seq<byte> -> seq<byte>, events: seq<Event>, c: nat)
    requires Run(child, Fresh(), events).Some?
    ensures var p := Run(child, Fresh(), events).value;
            AskedBy(p.asked, c) == AnsweredTo(p.done, c) + Open(p.waiting, c)
  {
    hide Session, Run;
    FreshOk(child);
    RunKeeps(child, Fresh(), events);
  }

  /** After a transport failure of any caller, no caller succeeds. */
  lemma FailureReachesAll(child: seq<byte> -> seq<byte>, events: seq<Event>, i: nat, j: nat)
    requires Run(child, Fresh(), events).Some?
    requires i < j < |Run(child, Fresh(), events).value.done|
    ensures var p := Run(child, Fresh(), events).value;
            && |p.links| == |p.done| + 1
            && (p.done[i].call.result.Err? && !Refused(p.links[i], p.done[i].call.payload, p.done[i].call.timeoutOk) ==>
                  p.done[j].call.result.Err?)
  {
    hide Run, Requested;
    FreshOk(child);
    RunKeeps(child, Fresh(), events);
    var p := Run(child, Fresh(), events).value;
    var calls := Calls(p.done);
    if calls[i].result.Err? && !Refused(p.links[i], calls[i].payload, calls[i].timeoutOk) {
      FailureIsFinal(child, p.links, calls, i, j);
    }
  }

  // --- the mutex ------------------------------------------------------------------------------------

  lemma LinksStay(child: seq<byte> -> seq<byte>, p: Pool, e: Event)
    requires p.links != [] && Apply(child, p, e).Some?
    ensures Apply(child, p, e).value.links != []
  {
    hide Requested;
  }

  /** A run goes through all its points. */
  lemma {:induction false} RunPrefix(child: seq<byte> -> seq<byte>, p: Pool, events: seq<Event>, k: nat)
    requires p.links != [] && Run(child, p, events).Some? && k <= |events|
    ensures Run(child, p, events[..k]).Some? && Run(child, p, events[..k]).value.links != []
    ensures k < |events| ==>
              && Apply(child, Run(child, p, events[..k]).value, events[k]).Some?
              && Run(child, p, events[..k + 1]) == Apply(child, Run(child, p, events[..k]).value, events[k])
    decreases k
  {
    hide Apply;
    if events != [] {
      var q := Apply(child, p, events[0]).value;
      LinksStay(child, p, events[0]);
      if k == 0 {
        assert events[..1][1..] == [];
      } else {
        RunPrefix(child, q, events[1..], k - 1);
        assert events[..k][1..] == events[1..][..k - 1];
        if k < |events| { assert events[..k + 1][1..] == events[1..][..k]; }
      }
    }
  }

  /** Waiting is all it takes to get a free mutex, and a held one is nobody else's. */
  lemma MutexStep(child: seq<byte> -> seq<byte>, p: Pool, e: Event)
    requires p.links != []
    ensures e.Enter? ==> (Apply(child, p, e).Some? <==> p.holder.None? && e.caller in p.waiting)
    ensures e.Enter? && Apply(child, p, e).Some? ==> Apply(child, p, e).value.holder == Some(e.caller)
    ensures e.Work? || e.Return? ==> (Apply(child, p, e).Some? ==> p.holder == Some(e.caller))
    ensures Apply(child, p, e).Some? && !e.Enter? && !e.Return? ==> Apply(child, p, e).value.holder == p.holder
    ensures Apply(child, p, e).Some? && !e.Work? ==> Apply(child, p, e).value.link == p.link
  {
    hide Requested;
  }

  lemma {:induction false} HolderStays(child: seq<byte> -> seq<byte>, p: Pool, events: seq<Event>, i: nat, j: nat, c: nat)
    requires p.links != [] && Run(child, p, events).Some? && i < j <= |events| && events[i] == Enter(c)
    requires forall m | i < m < j :: !(events[m].Return? && events[m].caller == c)
    ensures Run(child, p, events[..j]).Some? && Run(child, p, events[..j]).value.holder == Some(c)
    decreases j
  {
    hide Apply, Run;
    RunPrefix(child, p, events, j - 1);
    RunPrefix(child, p, events, j);
    var q := Run(child, p, events[..j - 1]).value;
    MutexStep(child, q, events[j - 1]);
    if i < j - 1 { HolderStays(child, p, events, i, j - 1, c); }
  }

  /** Mutual exclusion over every run: from the moment a caller has the mutex until its request returns,
      nobody else enters, touches the streams or returns. */
  lemma OneAtATime(child: seq<byte> -> seq<byte>, events: seq<Event>, i: nat, j: nat, c: nat)
    requires Run(child, Fresh(), events).Some? && i < j < |events| && events[i] == Enter(c)
    requires forall m | i < m < j :: !(events[m].Return? && events[m].caller == c)
    ensures !events[j].Enter?
    ensures events[j].Work? || events[j].Return? ==> events[j].caller == c
  {
    hide Apply, Run;
    HolderStays(child, Fresh(), events, i, j, c);
    RunPrefix(child, Fresh(), events, j);
    MutexStep(child, Run(child, Fresh(), events[..j]).value, events[j]);
  }
}
