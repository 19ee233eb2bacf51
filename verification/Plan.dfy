/** The turns of the server's loop as a plan that the objects of the server can follow: for every state and input
    the next state and the bytes to be sent. */
module Plan {
  import opened Bytes
  import opened Framing
  import opened Connection
  import opened Interpreter
  import opened EventLoop
  import Conversation
  import opened Requests
  import opened Serial
  import Sweeps

  /** What serving a connection and interpreting a request body mean. The methods of the server pass this on
      without looking into it. */
  datatype Meanings = Meanings(service: (uint16, ConnState, seq<byte>, seq<byte>) -> Framing.Outcome,
                               interpret: (Store, seq<byte>) -> Interpreter.Result)

  ghost predicate Right(sem: Meanings) {
    && (forall version: uint16, st: ConnState, avail: seq<byte>, more: seq<byte> {:trigger Service(version, st, avail, more)} ::
          ValidState(version, st) ==> sem.service(version, st, avail, more) == Service(version, st, avail, more))
    && (forall st: Store, body: seq<byte> {:trigger Interpret(st, body)} ::
          |st.employees| < 0x1_0000_0000 ==> sem.interpret(st, body) == Interpret(st, body))
  }

  /** The meanings that the server has. */
  ghost function ServerMeanings(): (sem: Meanings)
    ensures Right(sem)
  {
    Meanings((version: uint16, st: ConnState, avail: seq<byte>, more: seq<byte>) =>
               if ValidState(version, st) then Service(version, st, avail, more) else Framing.Outcome(st, []),
             (st: Store, body: seq<byte>) => if |st.employees| < 0x1_0000_0000 then Interpret(st, body) else Crashed)
  }

  /** What the interpreter makes of a request completed by the service. */
  ghost function ResultOf(sem: Meanings, st: Store, o: Framing.Outcome): Option<Interpreter.Result> {
    var body := Completed(o.frames);
    if body.None? then None else Some(sem.interpret(st, body.value))
  }

  function Last(entries: seq<int32>): int32
    requires entries != []
  {
    entries[|entries| - 1]
  }

  /** What a visit needs to know of the poll set and the map. */
  ghost predicate CanVisit(c: EventLoop.Server, fd: int32) {
    && fd in c.clients && 0 < c.clients[fd].idx < |c.pfds| && c.pfds[c.clients[fd].idx] == fd
    && Last(c.pfds) in c.clients && ValidState(c.version, c.clients[fd].st)
  }

  /** The turn is one for a client that is ready. */
  ghost predicate IsVisit(c: EventLoop.Server, input: Input) {
    0 < c.slot < |c.pfds| && c.pfds[c.slot] in c.clients && input.Incoming?
  }

  ghost function VisitOutcome(sem: Meanings, c: EventLoop.Server, input: Input): Framing.Outcome
    requires IsVisit(c, input)
  {
    sem.service(c.version, c.clients[c.pfds[c.slot]].st, input.avail, input.more)
  }

  /** One turn, with the meanings passed in. */
  ghost predicate Planned(sem: Meanings, c: EventLoop.Server, input: Input, c': EventLoop.Server) {
    && c.status == Running
    && var next := c.(slot := c.slot + 1);
       if c.slot >= |c.pfds| then c' == c.(slot := 0)
       else if c.slot == 0 then
         if input.Accept? then input.fd !in c.clients && c' == AddClient(next, input.fd) else c' == next
       else if input.Incoming? then
         && IsVisit(c, input) && CanVisit(c, c.pfds[c.slot])
         && var o := VisitOutcome(sem, c, input);
            && ResultOf(sem, c.store, o) != Some(Crashed)
            && c' == SettleTo(next, c.pfds[c.slot], o, ResultOf(sem, c.store, o))
       else c' == next
  }

  /** The replies to the frames of a service, and behind them the response to a request that was carried out. */
  ghost predicate SendsFor(version: uint16, frames: seq<Frame>, r: Option<Interpreter.Result>, bytes: seq<byte>) {
    var reply := Replies(version, frames);
    if r.Some? && r.value.Done?
    then |reply| <= |bytes| && bytes[..|reply|] == reply && IsResponse(bytes[|reply|..], r.value.response)
    else bytes == reply
  }

  /** The bytes behind the replies of a turn: the response, if a request was carried out. */
  ghost predicate Answered(r: Option<Interpreter.Result>, answer: seq<byte>) {
    if r.Some? && r.value.Done? then IsResponse(answer, r.value.response) else answer == []
  }

  lemma SentInVisit(version: uint16, o: Framing.Outcome, r: Option<Interpreter.Result>, reply: seq<byte>, answer: seq<byte>)
    requires reply == Replies(version, o.frames) && Answered(r, answer)
    ensures SendsFor(version, o.frames, r, reply + answer)
  {
    assert (reply + answer)[..|reply|] == reply && (reply + answer)[|reply|..] == answer;
  }

  /** What a turn sends. */
  ghost predicate PlannedSends(sem: Meanings, c: EventLoop.Server, input: Input, bytes: seq<byte>) {
    if IsVisit(c, input)
    then var o := VisitOutcome(sem, c, input); SendsFor(c.version, o.frames, ResultOf(sem, c.store, o), bytes)
    else bytes == []
  }

  /** An accepted descriptor is fresh, and no body is read past its end. */
  ghost predicate Defined(c: EventLoop.Server, input: Input)
    requires Inv(c)
  {
    (input.Accept? ==> Fresh(c, input.fd)) && Turn(c, input).0.status != Broken
  }

  /** A turn of the event loop goes by that plan, unless it runs into undefined behaviour. */
  lemma TurnIsPlanned(sem: Meanings, c: EventLoop.Server, input: Input)
    requires Inv(c) && Right(sem) && c.status == Running && Defined(c, input)
    ensures Planned(sem, c, input, Turn(c, input).0)
  {
    if 0 < c.slot < |c.pfds| && input.Incoming? {
      StepServes(c, input, c.pfds[c.slot]);
    }
  }

  lemma RepliesToBody(version: uint16, frames: seq<Frame>)
    requires Conversation.Forms(frames) && frames != [] && frames[|frames| - 1].Body?
    ensures Replies(version, frames) == []
  {
    if |frames| == 2 {
      assert frames == [frames[0], frames[1]];
      TwoReplies(version, frames[0], frames[1]);
    } else {
      assert frames == [frames[0]];
      OneReply(version, frames[0]);
    }
  }

  lemma FormsSend(version: uint16, frames: seq<Frame>, st: Store, bytes: seq<byte>)
    requires Conversation.Forms(frames) && |st.employees| < 0x1_0000_0000
    requires var r := if Completed(frames).None? then None else Some(Interpret(st, Completed(frames).value));
             SendsFor(version, frames, r, bytes)
    ensures var answer := EventLoop.AnswerTo(st, RequestIn(frames));
            if answer.Some? then IsResponse(bytes, answer.value) else bytes == Replies(version, frames)
  {
    if Completed(frames).Some? {
      RepliesToBody(version, frames);
      assert bytes[0..] == bytes;
    } else if RequestIn(frames).Some? {
      assert frames == [EmptyRequest];
      OneReply(version, EmptyRequest);
    }
  }

  /** A turn sends what the history of the run says it does. */
  lemma PlannedIsSent(sem: Meanings, c: EventLoop.Server, input: Input, bytes: seq<byte>)
    requires Inv(c) && Right(sem) && c.status == Running && PlannedSends(sem, c, input, bytes)
    ensures Conversation.Sends(c.version, Turn(c, input).1, bytes)
  {
    if IsVisit(c, input) {
      var fd := c.pfds[c.slot];
      var o := Service(c.version, c.clients[fd].st, input.avail, input.more);
      StepServes(c, input, fd);
      Conversation.ServiceForms(c.version, c.clients[fd].st, input.avail, input.more);
      FormsSend(c.version, o.frames, c.store, bytes);
    }
  }

  lemma PlannedAdvances(sem: Meanings, c: EventLoop.Server, input: Input, c': EventLoop.Server)
    requires Planned(sem, c, input, c') && c.slot < |c.pfds|
    ensures c'.slot == c.slot + 1 && Sweeps.Remaining(c') < Sweeps.Remaining(c)
  {
    Sweeps.Nearer(c, c');
  }

  // ---------- whole runs ----------

  /** A sequence of states in which every turn goes by the plan. */
  ghost predicate IsPlan(sem: Meanings, states: seq<EventLoop.Server>, inputs: seq<Input>) {
    && |states| == |inputs| + 1
    && forall k :: 0 <= k < |inputs| && states[k].status == Running ==> Planned(sem, states[k], inputs[k], states[k + 1])
  }

  /** What has been sent in the turns so far. */
  ghost predicate SentAlong(sem: Meanings, states: seq<EventLoop.Server>, inputs: seq<Input>, log: seq<seq<byte>>) {
    && |log| <= |inputs| < |states|
    && forall k :: 0 <= k < |log| ==> states[k].status == Running && PlannedSends(sem, states[k], inputs[k], log[k])
  }

  lemma SentAlongOneMore(sem: Meanings, states: seq<EventLoop.Server>, inputs: seq<Input>, log: seq<seq<byte>>, bytes: seq<byte>)
    requires SentAlong(sem, states, inputs, log) && |log| < |inputs| && states[|log|].status == Running
    requires PlannedSends(sem, states[|log|], inputs[|log|], bytes)
    ensures SentAlong(sem, states, inputs, log + [bytes])
  {
  }

  /** A poll sends nothing and starts the next sweep. */
  lemma PolledNext(sem: Meanings, states: seq<EventLoop.Server>, inputs: seq<Input>, log: seq<seq<byte>>)
    requires SentAlong(sem, states, inputs, log) && IsPlan(sem, states, inputs) && |log| < |inputs|
    requires states[|log|].status == Running && states[|log|].slot >= |states[|log|].pfds|
    ensures SentAlong(sem, states, inputs, log + [[]]) && states[|log| + 1] == states[|log|].(slot := 0)
  {
    SentAlongOneMore(sem, states, inputs, log, []);
  }

  /** The server right after it has been started on a store. */
  ghost function Started(listener: int32, version: uint16, st: Store): (c: EventLoop.Server)
    requires |st.employees| < 0x1_0000_0000
    ensures Init(c)
  {
    EventLoop.Server(Running, listener, version, [listener], map[], st, {listener}, 1)
  }

  /** All states of a run, from the first to the last. */
  ghost function States(c0: EventLoop.Server, inputs: seq<Input>): (cs: seq<EventLoop.Server>)
    requires Inv(c0)
    ensures |cs| == |inputs| + 1
  {
    if inputs == [] then [c0] else States(c0, inputs[..|inputs| - 1]) + [After(c0, inputs)]
  }

  lemma {:induction false} StateAt(c0: EventLoop.Server, inputs: seq<Input>, k: nat)
    requires Inv(c0) && k <= |inputs|
    ensures States(c0, inputs)[k] == After(c0, inputs[..k])
    decreases |inputs|
  {
    if k < |inputs| {
      StateAt(c0, inputs[..|inputs| - 1], k);
      assert inputs[..|inputs| - 1][..k] == inputs[..k];
    } else {
      assert inputs[..k] == inputs;
    }
  }

  ghost predicate AllDefined(c0: EventLoop.Server, inputs: seq<Input>)
    requires Inv(c0)
  {
    forall k :: 0 <= k < |inputs| ==> Defined(After(c0, inputs[..k]), inputs[k])
  }

  lemma OneMoreTurn(c0: EventLoop.Server, inputs: seq<Input>, k: nat)
    requires Inv(c0) && k < |inputs|
    ensures After(c0, inputs[..k + 1]) == Turn(After(c0, inputs[..k]), inputs[k]).0
    ensures History(c0, inputs[..k + 1]) == History(c0, inputs[..k]) + [Turn(After(c0, inputs[..k]), inputs[k]).1]
  {
    assert inputs[..k + 1][..k] == inputs[..k];
  }

  /** Clients that follow the protocol bring no undefined behaviour about. */
  lemma ProtocolDefined(c0: EventLoop.Server, inputs: seq<Input>, sent: int32 -> seq<Options>)
    requires Init(c0) && Conversation.RoomKept(c0, inputs) && FollowProtocol(c0.version, History(c0, inputs), sent)
    requires forall k :: 0 <= k < |inputs| && inputs[k].Accept? ==> Fresh(After(c0, inputs[..k]), inputs[k].fd)
    ensures AllDefined(c0, inputs)
  {
    forall k | 0 <= k < |inputs| ensures Defined(After(c0, inputs[..k]), inputs[k]) {
      Conversation.EarlierRun(c0, inputs, k + 1, sent);
      Conversation.KeepsRunning(c0, inputs[..k + 1], sent);
      OneMoreTurn(c0, inputs, k);
    }
  }

  /** The states of a run go by the plan. */
  lemma RunIsPlan(sem: Meanings, c0: EventLoop.Server, inputs: seq<Input>)
    requires Inv(c0) && Right(sem) && AllDefined(c0, inputs)
    ensures IsPlan(sem, States(c0, inputs), inputs)
  {
    var states := States(c0, inputs);
    forall k | 0 <= k < |inputs| && states[k].status == Running
      ensures Planned(sem, states[k], inputs[k], states[k + 1])
    {
      StateAt(c0, inputs, k);
      StateAt(c0, inputs, k + 1);
      OneMoreTurn(c0, inputs, k);
      TurnIsPlanned(sem, states[k], inputs[k]);
    }
  }

  lemma SentInTurn(sem: Meanings, c0: EventLoop.Server, inputs: seq<Input>, k: nat, bytes: seq<byte>)
    requires Inv(c0) && Right(sem) && k < |inputs|
    requires States(c0, inputs)[k].status == Running && PlannedSends(sem, States(c0, inputs)[k], inputs[k], bytes)
    ensures Conversation.Sends(c0.version, Turn(After(c0, inputs[..k]), inputs[k]).1, bytes)
  {
    StateAt(c0, inputs, k);
    PlannedIsSent(sem, After(c0, inputs[..k]), inputs[k], bytes);
  }

  /** What is sent along the states of a run is what its history says. */
  lemma {:induction false} SentIsLogged(sem: Meanings, c0: EventLoop.Server, inputs: seq<Input>, log: seq<seq<byte>>)
    requires Inv(c0) && Right(sem) && SentAlong(sem, States(c0, inputs), inputs, log)
    ensures Conversation.Logged(c0.version, History(c0, inputs[..|log|]), log)
    decreases |log|
  {
    if log != [] {
      var n := |log| - 1;
      SentIsLogged(sem, c0, inputs, log[..n]);
      SentInTurn(sem, c0, inputs, n, log[n]);
      OneMoreTurn(c0, inputs, n);
      var es, e := History(c0, inputs[..n]), Turn(After(c0, inputs[..n]), inputs[n]).1;
      Conversation.OneMoreLogged(c0.version, es, e, log[..n], log[n]);
      LastApart(log);
    }
  }
}
