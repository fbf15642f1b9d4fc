/** The framed pipe between the C++ host (native_process.cpp) and the Go child (main.go):
    a frame is a four-byte big-endian length and that many bytes. */
module Transport {
  import opened Common
  import opened Bytes

  const MAX_FRAME: nat := 16 * 1024 * 1024

  function Frame(payload: seq<byte>): seq<byte> {
    Encode(|payload|, 4) + payload
  }

  function Frames(payloads: seq<seq<byte>>): seq<byte> {
    if payloads == [] then [] else Frames(payloads[..|payloads| - 1]) + Frame(payloads[|payloads| - 1])
  }

  lemma HeaderValue(size: nat)
    requires size <= MAX_FRAME
    ensures Value(Encode(size, 4)) == size
  {
    Widths();
  }

  // --- the child -----------------------------------------------------------------------------

  /** The service's response to the last of the payloads it has handled, the earlier ones
      having shaped its state. */
  type Handler = seq<seq<byte>> -> seq<byte>

  /** What the child writes to stdout, in total, once `input` has arrived on its stdin after the
      payloads of `history`: it stops at the end of input, at a frame or response that is too
      large, and at an incomplete frame. */
  function Served(handle: Handler, input: seq<byte>, history: seq<seq<byte>>): seq<byte>
    decreases |input|
  {
    if |input| < 4 then []
    else
      var size := Value(input[..4]);
      if size > MAX_FRAME || |input| < 4 + size then []
      else
        var h := history + [input[4..4 + size]];
        if |handle(h)| > MAX_FRAME then []
        else Frame(handle(h)) + Served(handle, input[4 + size..], h)
  }

  lemma ServedAt(handle: Handler, input: seq<byte>, pos: nat, history: seq<seq<byte>>)
    requires pos <= |input|
    ensures Served(handle, input[pos..], history) ==
            if |input| - pos < 4 then []
            else
              var size := Value(input[pos..pos + 4]);
              if size > MAX_FRAME || |input| - pos - 4 < size then []
              else
                var h := history + [input[pos + 4..pos + 4 + size]];
                if |handle(h)| > MAX_FRAME then []
                else Frame(handle(h)) + Served(handle, input[pos + 4 + size..], h)
  {
    hide Value, Frame;
    if |input| - pos >= 4 {
      assert input[pos..][..4] == input[pos..pos + 4];
      var size := Value(input[pos..pos + 4]);
      if |input| - pos - 4 >= size {
        assert input[pos..][4..4 + size] == input[pos + 4..pos + 4 + size];
        assert input[pos..][4 + size..] == input[pos + 4 + size..];
      }
    }
  }

  /** The serve loop. */
  method Serve(handle: Handler, input: seq<byte>) returns (output: seq<byte>)
    ensures output == Served(handle, input, [])
  {
    hide Served, Value, Encode;
    output := [];
    var pos := 0;
    var history: seq<seq<byte>> := [];
    assert input[0..] == input;
    while true
      invariant 0 <= pos <= |input|
      invariant Served(handle, input, []) == output + Served(handle, input[pos..], history)
      decreases |input| - pos
    {
      ServedAt(handle, input, pos, history);
      if |input| - pos < 4 { return; }
      var size := Value(input[pos..pos + 4]);
      if size > MAX_FRAME { return; }
      if |input| - pos - 4 < size { return; }
      history := history + [input[pos + 4..pos + 4 + size]];
      var response := handle(history);
      if |response| > MAX_FRAME { return; }
      Regroup(output, Frame(response), Served(handle, input[pos + 4 + size..], history));
      output := output + Frame(response);
      pos := pos + 4 + size;
    }
  }

  /** More input never takes back output. */
  ghost predicate Monotone(child: seq<byte> -> seq<byte>) {
    forall a, b :: child(a) <= child(a + b)
  }

  lemma {:induction false} ServedMonotone(handle: Handler, a: seq<byte>, b: seq<byte>, history: seq<seq<byte>>)
    ensures Served(handle, a, history) <= Served(handle, a + b, history)
    decreases |a|
  {
    hide Value, Frame;
    if |a| >= 4 {
      var size := Value(a[..4]);
      assert (a + b)[..4] == a[..4];
      if |a| >= 4 + size {
        assert (a + b)[4..4 + size] == a[4..4 + size];
        assert (a + b)[4 + size..] == a[4 + size..] + b;
        ServedMonotone(handle, a[4 + size..], b, history + [a[4..4 + size]]);
      }
    }
  }

  function Child(handle: Handler): seq<byte> -> seq<byte> {
    (input: seq<byte>) => Served(handle, input, [])
  }

  lemma ChildMonotone(handle: Handler)
    ensures Monotone(Child(handle))
  {
    forall a, b ensures Child(handle)(a) <= Child(handle)(a + b) {
      ServedMonotone(handle, a, b, []);
    }
  }

  /** One complete frame yields one frame and leaves the rest. */
  lemma ServedFrame(handle: Handler, payload: seq<byte>, rest: seq<byte>, history: seq<seq<byte>>)
    requires |payload| <= MAX_FRAME
    ensures var h := history + [payload];
            Served(handle, Frame(payload) + rest, history)
            == if |handle(h)| > MAX_FRAME then [] else Frame(handle(h)) + Served(handle, rest, h)
  {
    HeaderValue(|payload|);
    var input := Frame(payload) + rest;
    assert input[..4] == Encode(|payload|, 4);
    assert input[4..4 + |payload|] == payload;
    assert input[4 + |payload|..] == rest;
  }

  /** The responses to all prefixes of the history. */
  function Responses(handle: Handler, history: seq<seq<byte>>): seq<seq<byte>> {
    if history == [] then [] else Responses(handle, history[..|history| - 1]) + [handle(history)]
  }

  /** No payload and no response exceeds the frame limit. */
  ghost predicate Fitting(handle: Handler, history: seq<seq<byte>>) {
    history == [] ||
    var n := |history| - 1;
    Fitting(handle, history[..n]) && |history[n]| <= MAX_FRAME && |handle(history)| <= MAX_FRAME
  }

  /** After complete frames the child is in step with its input. */
  lemma {:induction false} ServedFrames(handle: Handler, history: seq<seq<byte>>, rest: seq<byte>)
    requires Fitting(handle, history)
    ensures Served(handle, Frames(history) + rest, []) == Frames(Responses(handle, history)) + Served(handle, rest, history)
    decreases |history|
  {
    hide Served, Frame;
    if history == [] {
      assert Frames(history) + rest == rest;
    } else {
      var n := |history| - 1;
      var h, last := history[..n], history[n];
      ServedFrames(handle, h, Frame(last) + rest);
      Regroup(Frames(h), Frame(last), rest);
      ServedFrame(handle, last, rest, h);
      assert h + [last] == history;
      var r := Responses(handle, h);
      assert (r + [handle(history)])[..|r|] == r;
      Regroup(Frames(r), Frame(handle(history)), Served(handle, rest, history));
    }
  }

  /** Nothing more can be served: the input ends inside a frame, announces more than 16 MiB, or its next
      payload has a response of more than that. */
  ghost predicate Stuck(handle: Handler, rest: seq<byte>, history: seq<seq<byte>>) {
    |rest| >= 4 ==>
      var size := Value(rest[..4]);
      size <= 16777216 && |rest| >= 4 + size ==> |handle(history + [rest[4..4 + size]])| > 16777216
  }

  /** The child answers exactly the frames at the start of its input, each after the ones before it, as
      far as it can go: for any input there is such a list of payloads, with nothing to serve after it. */
  lemma {:induction false} ServedExact(handle: Handler, input: seq<byte>, before: seq<seq<byte>>)
    returns (history: seq<seq<byte>>, rest: seq<byte>)
    requires Fitting(handle, before)
    ensures before <= history && Fitting(handle, history) && Stuck(handle, rest, history)
    ensures Frames(before) + input == Frames(history) + rest
    ensures Frames(Responses(handle, before)) + Served(handle, input, before) == Frames(Responses(handle, history))
    decreases |input|
  {
    hide Served, Value, Frames, Frame, Responses;
    if Stuck(handle, input, before) {
      NothingServed(handle, input, before);
      history, rest := before, input;
    } else {
      var size := Value(input[..4]);
      var h := before + [input[4..4 + size]];
      assert h[..|before|] == before;
      TakeFrame(handle, input, before);
      history, rest := ServedExact(handle, input[4 + size..], h);
    }
  }

  lemma NothingServed(handle: Handler, rest: seq<byte>, history: seq<seq<byte>>)
    requires Stuck(handle, rest, history)
    ensures Served(handle, rest, history) == []
  {
    hide Value, Frame;
  }

  /** One served frame moved from the input to the history. */
  lemma TakeFrame(handle: Handler, input: seq<byte>, before: seq<seq<byte>>)
    requires |input| >= 4 && Value(input[..4]) <= MAX_FRAME && |input| >= 4 + Value(input[..4])
    requires |handle(before + [input[4..4 + Value(input[..4])]])| <= MAX_FRAME
    ensures var size := Value(input[..4]);
            var h := before + [input[4..4 + size]];
            && Frames(before) + input == Frames(h) + input[4 + size..]
            && Frames(Responses(handle, before)) + Served(handle, input, before)
               == Frames(Responses(handle, h)) + Served(handle, input[4 + size..], h)
  {
    var size := Value(input[..4]);
    var payload, after := input[4..4 + size], input[4 + size..];
    var h, r := before + [payload], Responses(handle, before);
    EncodeValue(input[..4]);
    hide Value, Encode;
    assert input == Frame(payload) + after;
    assert h[..|before|] == before && (r + [handle(h)])[..|r|] == r;
    Regroup(Frames(before), Frame(payload), after);
    Regroup(Frames(r), Frame(handle(h)), Served(handle, after, h));
  }

  // --- the host --------------------------------------------------------------------------------

  /** What a poll and the read or write after it come to. Running out of events, like Broken,
      stands for an expired deadline or a failing call. */
  datatype Event = Transfer(count: nat) | Interrupted | Broken

  /** A schedule in which every call moves something. */
  predicate Progressing(events: seq<Event>) {
    forall i | 0 <= i < |events| :: events[i].Transfer? && events[i].count > 0
  }

  /** The connection: whether the child still runs, all bytes written, all bytes read. */
  datatype Link = Link(alive: bool, sent: seq<byte>, received: seq<byte>)

  ghost predicate LinkOk(child: seq<byte> -> seq<byte>, l: Link) {
    Monotone(child) && (l.alive ==> l.received <= child(l.sent))
  }

  /** Rejected before anything is written; the child is left alone. */
  predicate Refused(l: Link, payload: seq<byte>, timeoutOk: bool) {
    |payload| > MAX_FRAME || !timeoutOk || !l.alive
  }

  /** One request: an answer consumes exactly one frame each way, a refusal changes nothing, and
      any other failure stops the child. */
  ghost predicate Requested(child: seq<byte> -> seq<byte>, a: Link, payload: seq<byte>, timeoutOk: bool,
                            res: Result<seq<byte>>, b: Link)
  {
    if Refused(a, payload, timeoutOk) then res.Err? && b == a
    else if res.Err? then !b.alive
    else
      && |res.value| <= MAX_FRAME
      && b == Link(true, a.sent + Frame(payload), a.received + Frame(res.value))
      && b.received <= child(b.sent)
  }

  function Min(a: int, b: int): int { if a <= b then a else b }

  class NativeProcess {
    ghost const child: seq<byte> -> seq<byte>
    var alive: bool
    var sent: seq<byte>
    var received: seq<byte>

    ghost function View(): Link
      reads this
    {
      Link(alive, sent, received)
    }

    ghost predicate Valid()
      reads this
    {
      LinkOk(child, View())
    }

    constructor (ghost child: seq<byte> -> seq<byte>)
      requires Monotone(child)
      ensures Valid() && this.child == child && View() == Link(true, [], [])
    {
      this.child := child;
      alive, sent, received := true, [], [];
    }

    method WriteAll(bytes: seq<byte>, events: seq<Event>) returns (ok: bool, rest: seq<Event>)
      modifies this`sent
      ensures old(sent) <= sent <= old(sent) + bytes
      ensures ok <==> sent == old(sent) + bytes
      ensures Progressing(events) && |events| >= |bytes| ==>
                ok && Progressing(rest) && |rest| >= |events| - |bytes|
    {
      var offset := 0;
      rest := events;
      while offset < |bytes|
        invariant 0 <= offset <= |bytes| && sent == old(sent) + bytes[..offset]
        invariant Progressing(events) ==> Progressing(rest) && |rest| >= |events| - offset
        decreases |rest|
      {
        if rest == [] { return false, rest; }
        var e := rest[0];
        rest := rest[1..];
        if e.Broken? { return false, rest; }
        if e.Transfer? {
          var written := Min(e.count, |bytes| - offset);
          if written == 0 { return false, rest; }
          assert bytes[..offset + written] == bytes[..offset] + bytes[offset..offset + written];
          sent := sent + bytes[offset..offset + written];
          offset := offset + written;
        }
      }
      assert bytes[..offset] == bytes;
      ok := true;
    }

    /** `stream` is what the child has written for this input so far and will still write. */
    method ReadAll(buffer: array<byte>, events: seq<Event>, stream: seq<byte>) returns (ok: bool, rest: seq<Event>)
      requires stream == child(sent) && received <= stream
      modifies this`received, buffer
      ensures received <= stream
      ensures ok ==> received == old(received) + buffer[..]
      ensures Progressing(events) && |events| >= buffer.Length && |stream| - |old(received)| >= buffer.Length ==>
                ok && Progressing(rest) && |rest| >= |events| - buffer.Length
    {
      var offset := 0;
      rest := events;
      while offset < buffer.Length
        invariant 0 <= offset <= buffer.Length
        invariant received == old(received) + buffer[..offset] && received <= stream
        invariant Progressing(events) ==> Progressing(rest) && |rest| >= |events| - offset
        decreases |rest|
      {
        if rest == [] { return false, rest; }
        var e := rest[0];
        rest := rest[1..];
        if e.Broken? { return false, rest; }
        if e.Transfer? {
          var count := Min(Min(e.count, buffer.Length - offset), |stream| - |received|);
          if count == 0 { return false, rest; }
          var start := |received|;
          ghost var before := buffer[..offset];
          forall k | 0 <= k < count { buffer[offset + k] := stream[start + k]; }
          received := stream[..start + count];
          assert buffer[..offset] == before;
          assert buffer[..offset + count] == before + stream[start..start + count];
          offset := offset + count;
        }
      }
      assert buffer[..offset] == buffer[..];
      ok := true;
    }

    method WriteFrame(payload: seq<byte>, events: seq<Event>) returns (ok: bool, rest: seq<Event>)
      modifies this`sent
      ensures ok ==> sent == old(sent) + Frame(payload)
      ensures Progressing(events) && |events| >= 4 + |payload| ==>
                ok && Progressing(rest) && |rest| >= |events| - 4 - |payload|
    {
      hide Encode, Progressing;
      ok, rest := WriteAll(Encode(|payload|, 4), events);
      if ok {
        Regroup(old(sent), Encode(|payload|, 4), payload);
        ok, rest := WriteAll(payload, rest);
      }
    }

    /** A response frame, unless its header announces more than the limit. */
    method ReadFrame(events: seq<Event>, stream: seq<byte>) returns (res: Result<seq<byte>>)
      requires stream == child(sent) && received <= stream
      modifies this`received
      ensures received <= stream
      ensures res.Ok? ==> |res.value| <= MAX_FRAME && received == old(received) + Frame(res.value)
      ensures Progressing(events) && Answers(stream, |old(received)|, |events|) ==> res.Ok?
    {
      hide Value, Encode, Progressing;
      var header := new byte[4];
      var ok, rest := ReadAll(header, events, stream);
      if !ok { return Err; }
      var bytes := header[..];
      assert bytes == stream[|old(received)|..|old(received)| + 4];
      var size := Value(bytes);
      if size > MAX_FRAME { return Err; }
      var response := new byte[size];
      ok, rest := ReadAll(response, rest, stream);
      if !ok { return Err; }
      EncodeValue(bytes);
      Regroup(old(received), bytes, response[..]);
      res := Ok(response[..]);
    }

    /** `stream` as for ReadAll, once the whole request has been written. */
    method Request(payload: seq<byte>, timeoutOk: bool, events: seq<Event>, stream: seq<byte>)
      returns (res: Result<seq<byte>>)
      requires Valid() && stream == child(sent + Frame(payload))
      modifies this
      ensures Valid() && Requested(child, old(View()), payload, timeoutOk, res, View())
      ensures res.Ok? ==> |payload| <= 16777216 && |res.value| <= 16777216
      ensures Progressing(events) && Answers(stream, |old(received)|, |events| - 4 - |payload|) ==>
                (res.Ok? <==> !Refused(old(View()), payload, timeoutOk))
    {
      hide Frame, Value, Progressing;
      if |payload| > MAX_FRAME { return Err; }
      if !timeoutOk { return Err; }
      if !alive { return Err; }
      assert child(sent) <= stream;
      var ok, rest := WriteFrame(payload, events);
      if !ok {
        Stop();
        return Err;
      }
      res := ReadFrame(rest, stream);
      if res.Err? { Stop(); }
    }

    method Stop()
      modifies this`alive
      ensures !alive
    {
      alive := false;
    }
  }

  /** The stream holds a complete frame at the position, and the schedule has room for it. */
  ghost predicate Answers(stream: seq<byte>, position: nat, room: int) {
    && position + 4 <= |stream|
    && var size := Value(stream[position..position + 4]);
    && size <= MAX_FRAME && position + 4 + size <= |stream| && room >= 4 + size
  }

  // --- whole sessions ------------------------------------------------------------------------------

  datatype Call = Call(payload: seq<byte>, timeoutOk: bool, result: Result<seq<byte>>)

  /** A session: calls one after the other on one connection, with the state between them. */
  ghost predicate Session(child: seq<byte> -> seq<byte>, links: seq<Link>, calls: seq<Call>) {
    && |links| == |calls| + 1 && links[0] == Link(true, [], [])
    && forall i | 0 <= i < |calls| ::
         Requested(child, links[i], calls[i].payload, calls[i].timeoutOk, calls[i].result, links[i + 1])
  }

  /** The payloads that were answered, in order. */
  function Answered(calls: seq<Call>): seq<seq<byte>> {
    if calls == [] then []
    else
      var n := |calls| - 1;
      Answered(calls[..n]) + (if calls[n].result.Ok? then [calls[n].payload] else [])
  }

  /** Both streams stand at the frame boundary after the answered requests. */
  ghost predicate InStep(handle: Handler, l: Link, history: seq<seq<byte>>) {
    l.alive ==>
      && Fitting(handle, history)
      && l.sent == Frames(history) && l.received == Frames(Responses(handle, history))
  }

  /** A frame that another frame starts with is that frame. */
  lemma FramePrefix(a: seq<byte>, b: seq<byte>)
    requires |a| <= MAX_FRAME && |b| <= MAX_FRAME && Frame(a) <= Frame(b)
    ensures a == b
  {
    HeaderValue(|a|);
    HeaderValue(|b|);
    hide Encode, Value;
    var f := Frame(b);
    assert Frame(a) == f[..4 + |a|];
    assert Encode(|a|, 4) == Frame(a)[..4] == f[..4] == Encode(|b|, 4);
    assert a == Frame(a)[4..] && b == f[4..];
  }

  lemma PrefixAfter(a: seq<byte>, b: seq<byte>, c: seq<byte>)
    requires a + b <= a + c
    ensures b <= c
  {
    assert (a + b)[|a|..] == b && (a + c)[|a|..] == c;
  }

  /** In step, a normal return is exactly the child's response to its own payload, and the streams
      are in step again. */
  lemma RequestInStep(handle: Handler, a: Link, history: seq<seq<byte>>, call: Call, b: Link)
    requires InStep(handle, a, history)
    requires Requested(Child(handle), a, call.payload, call.timeoutOk, call.result, b)
    ensures call.result.Ok? ==> call.result.value == handle(history + [call.payload])
    ensures InStep(handle, b, if call.result.Ok? then history + [call.payload] else history)
  {
    if call.result.Ok? {
      hide Served, Frame;
      var payload, v, h := call.payload, call.result.value, history + [call.payload];
      assert h[..|history|] == history;
      ServedFrames(handle, history, Frame(payload));
      ServedFrame(handle, payload, [], history);
      assert Frame(payload) + [] == Frame(payload);
      PrefixAfter(Frames(Responses(handle, history)), Frame(v), Served(handle, Frame(payload), history));
      EmptyInput(handle, h);
      NonemptyFrame(v);
      FramePrefix(v, handle(h));
      var r := Responses(handle, history);
      assert (r + [handle(h)])[..|r|] == r;
    }
  }

  lemma EmptyInput(handle: Handler, history: seq<seq<byte>>)
    ensures Served(handle, [], history) == []
  {
  }

  lemma NonemptyFrame(v: seq<byte>)
    ensures |Frame(v)| >= 4
  {
  }

  /** The connection is in step before every call of every session. */
  lemma {:induction false} SessionInStep(handle: Handler, links: seq<Link>, calls: seq<Call>, i: nat)
    requires Session(Child(handle), links, calls) && i <= |calls|
    ensures InStep(handle, links[i], Answered(calls[..i]))
    decreases i
  {
    hide Requested, InStep;
    if i == 0 {
      StartInStep(handle);
    } else {
      SessionInStep(handle, links, calls, i - 1);
      assert calls[..i][..i - 1] == calls[..i - 1];
      var c := calls[i - 1];
      assert Requested(Child(handle), links[i - 1], c.payload, c.timeoutOk, c.result, links[i - 1 + 1]);
      RequestInStep(handle, links[i - 1], Answered(calls[..i - 1]), c, links[i]);
      assert Answered(calls[..i - 1]) + [] == Answered(calls[..i - 1]);
    }
  }

  lemma StartInStep(handle: Handler)
    ensures InStep(handle, Link(true, [], []), [])
  {
  }

  /** Every normal return is the child's response to that call's own payload, the child having
      handled exactly the earlier answered payloads before. */
  lemma ResponsesMatch(handle: Handler, links: seq<Link>, calls: seq<Call>, i: nat)
    requires Session(Child(handle), links, calls) && i < |calls| && calls[i].result.Ok?
    ensures calls[i].result.value == handle(Answered(calls[..i]) + [calls[i].payload])
  {
    hide Requested;
    SessionInStep(handle, links, calls, i);
    assert Requested(Child(handle), links[i], calls[i].payload, calls[i].timeoutOk, calls[i].result, links[i + 1]);
    RequestInStep(handle, links[i], Answered(calls[..i]), calls[i], links[i + 1]);
  }

  /** After a transport failure no later call of the session succeeds. */
  lemma {:induction false} FailureIsFinal(child: seq<byte> -> seq<byte>, links: seq<Link>, calls: seq<Call>, i: nat, j: nat)
    requires Session(child, links, calls) && i < j <= |calls|
    requires calls[i].result.Err? && !Refused(links[i], calls[i].payload, calls[i].timeoutOk)
    ensures !links[j].alive && (j < |calls| ==> calls[j].result.Err?)
    decreases j
  {
    assert Requested(child, links[j - 1], calls[j - 1].payload, calls[j - 1].timeoutOk, calls[j - 1].result, links[j - 1 + 1]);
    if i < j - 1 { FailureIsFinal(child, links, calls, i, j - 1); }
    if j < |calls| {
      assert Requested(child, links[j], calls[j].payload, calls[j].timeoutOk, calls[j].result, links[j + 1]);
    }
  }

  /** A live connection survives a call without an answer exactly if the payload exceeds 16 MiB or the
      timeout was bad, and then nothing changed; a dead one never answers or changes. */
  lemma RefusalHarmless(child: seq<byte> -> seq<byte>, links: seq<Link>, calls: seq<Call>, i: nat)
    requires Session(child, links, calls) && i < |calls|
    ensures var a, b, c := links[i], links[i + 1], calls[i];
            && (a.alive ==> (b.alive && c.result.Err? <==> |c.payload| > 16777216 || !c.timeoutOk))
            && (!a.alive || |c.payload| > 16777216 || !c.timeoutOk ==>
                  c.result.Err? && b == a && Answered(calls[..i + 1]) == Answered(calls[..i]))
  {
    assert Requested(child, links[i], calls[i].payload, calls[i].timeoutOk, calls[i].result, links[i + 1]);
    assert calls[..i + 1][..i] == calls[..i];
  }

  /** In step, the child's answer to a payload within the limits is waiting in the stream: a call whose
      polls all make progress returns it. */
  lemma AnswerWaits(handle: Handler, l: Link, history: seq<seq<byte>>, payload: seq<byte>, room: int)
    requires l.alive && InStep(handle, l, history)
    requires |payload| <= MAX_FRAME && |handle(history + [payload])| <= MAX_FRAME && room >= 4 + |handle(history + [payload])|
    ensures Answers(Child(handle)(l.sent + Frame(payload)), |l.received|, room)
  {
    var answer := handle(history + [payload]);
    HeaderValue(|answer|);
    hide Served, Value, Encode, Frames, Responses, Fitting;
    ServedFrames(handle, history, Frame(payload));
    ServedFrame(handle, payload, [], history);
    assert Frame(payload) + [] == Frame(payload);
    EmptyInput(handle, history + [payload]);
    var stream := Child(handle)(l.sent + Frame(payload));
    assert stream == l.received + Frame(answer);
    assert stream[|l.received|..|l.received| + 4] == Encode(|answer|, 4);
  }
}
