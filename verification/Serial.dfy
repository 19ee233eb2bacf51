/** The database over a run: requests of all clients take effect one at a time, in the order of completion. */
module Serial {
  import opened Bytes
  import opened Employees
  import opened FileImage
  import opened Framing
  import opened Interpreter
  import opened EventLoop
  import opened Runs
  import Requests

  type Options = Requests.Options

  // ---------- one request after another ----------

  /** Interpreting request bodies one after another; None if one of them does not come to an end. */
  ghost function ApplyAll(st: Store, bodies: seq<seq<byte>>): (r: Option<Store>)
    requires |st.employees| < 0x1_0000_0000
    ensures r.Some? ==> |r.value.employees| < 0x1_0000_0000
  {
    if bodies == [] then Some(st)
    else
      var before := ApplyAll(st, bodies[..|bodies| - 1]);
      if before.None? then None
      else
        InterpretSmall(before.value, bodies[|bodies| - 1]);
        var o := Interpret(before.value, bodies[|bodies| - 1]);
        if o.Done? then Some(o.store) else None
  }

  lemma ApplyOneMore(st: Store, bodies: seq<seq<byte>>, body: seq<byte>, now: Store)
    requires |st.employees| < 0x1_0000_0000 && ApplyAll(st, bodies) == Some(now)
    ensures ApplyAll(st, bodies + [body])
         == if Interpret(now, body).Done? then Some(Interpret(now, body).store) else None
  {
    assert (bodies + [body])[..|bodies|] == bodies;
  }

  /** What a running server's store becomes in one step. */
  lemma StoreAfterSettling(c: Server, fd: int32, o: Framing.Outcome)
    requires Inv(c) && fd in c.clients && Settle(c, fd, o).status == Running
    ensures match Completed(o.frames)
            case None => Settle(c, fd, o).store == c.store
            case Some(b) => Interpret(c.store, b).Done? && Settle(c, fd, o).store == Interpret(c.store, b).store
  {
  }

  lemma InterpretNothing(st: Store)
    requires |st.employees| < 0x1_0000_0000
    ensures Interpret(st, []) == Done(st, Success([]), [])
  {
  }

  /** Only a completed body has reached the interpreter; an empty request need not. */
  lemma RequestOrBody(frames: seq<Frame>)
    ensures Completed(frames).Some? ==> RequestIn(frames) == Completed(frames)
    ensures Completed(frames).None? && RequestIn(frames).Some? ==> RequestIn(frames) == Some([])
  {
  }

  lemma StoreAfterTurn(c: Server, input: Input)
    requires Inv(c) && Turn(c, input).0.status == Running
    ensures match BodyOf(Turn(c, input).1)
            case None => Turn(c, input).0.store == c.store
            case Some(b) => Interpret(c.store, b).Done? && Turn(c, input).0.store == Interpret(c.store, b).store
  {
    if c.slot < |c.pfds| && Serves(c, input, c.pfds[c.slot]) {
      var fd := c.pfds[c.slot];
      StepServes(c, input, fd);
      var o := Service(c.version, c.clients[fd].st, input.avail, input.more);
      StoreAfterSettling(c.(slot := c.slot + 1), fd, o);
      RequestOrBody(o.frames);
      InterpretNothing(c.store);
    }
  }

  lemma OneMoreBody(es: seq<Event>, e: Event)
    ensures Bodies(es + [e]) == if BodyOf(e).Some? then Bodies(es) + [BodyOf(e).value] else Bodies(es)
  {
    assert (es + [e])[..|es|] == es;
  }

  /** Serialisability: the store is always what the completed bodies make of it one after another, in the order
      of their completion. An unfinished request, of any client, has no effect. */
  lemma {:induction false} Serialisable(c0: Server, inputs: seq<Input>)
    requires Init(c0) && After(c0, inputs).status == Running
    ensures ApplyAll(c0.store, Bodies(History(c0, inputs))) == Some(After(c0, inputs).store)
    decreases |inputs|
  {
    if inputs != [] {
      var before, input := inputs[..|inputs| - 1], inputs[|inputs| - 1];
      var c, es := After(c0, before), History(c0, before);
      var e := Turn(c, input).1;
      Serialisable(c0, before);
      StoreAfterTurn(c, input);
      OneMoreBody(es, e);
      if BodyOf(e).Some? {
        ApplyOneMore(c0.store, Bodies(es), BodyOf(e).value, c.store);
      }
    }
  }

  // ---------- requests and their meaning ----------

  ghost predicate AllValidOptions(os: seq<Options>) {
    forall i :: 0 <= i < |os| ==> Requests.ValidOptions(os[i])
  }

  /** The bodies are encodings of these requests. */
  ghost predicate Encodes(os: seq<Options>, bodies: seq<seq<byte>>) {
    && |os| == |bodies| && AllValidOptions(os)
    && (forall i :: 0 <= i < |os| ==> bodies[i] == Requests.Encode(os[i]))
  }

  /** The requests carried out directly on the list of employees, one after another. */
  ghost function MeaningAll(es: seq<Employee>, os: seq<Options>): (r: seq<Employee>) {
    if os == [] then es
    else Meaning(MeaningAll(es, os[..|os| - 1]), os[|os| - 1]).employees
  }

  lemma {:induction false} ApplyEncoded(st: Store, os: seq<Options>, bodies: seq<seq<byte>>)
    requires |st.employees| < 0x1_0000_0000 && Encodes(os, bodies)
    ensures var r := ApplyAll(st, bodies); r.Some? ==> r.value.employees == MeaningAll(st.employees, os)
    decreases |os|
  {
    if os != [] {
      var n := |os| - 1;
      var before := ApplyAll(st, bodies[..n]);
      assert Encodes(os[..n], bodies[..n]);
      ApplyEncoded(st, os[..n], bodies[..n]);
      if before.Some? {
        RequestMeaning(before.value, os[n]);
      }
    }
  }

  /** The employees are always what the completed requests mean, taken one after another. */
  lemma MeaningOfRun(c0: Server, inputs: seq<Input>, os: seq<Options>)
    requires Init(c0) && After(c0, inputs).status == Running
    ensures Encodes(os, Bodies(History(c0, inputs))) ==>
            After(c0, inputs).store.employees == MeaningAll(c0.store.employees, os)
  {
    if Encodes(os, Bodies(History(c0, inputs))) {
      Serialisable(c0, inputs);
      ApplyEncoded(c0.store, os, Bodies(History(c0, inputs)));
    }
  }

  /** The answers given to the completed requests, in the order of completion. */
  ghost function Answers(es: seq<Event>): (rs: seq<Response>) {
    if es == [] then []
    else
      var e := es[|es| - 1];
      Answers(es[..|es| - 1]) + (if e.Served? && e.answer.Some? then [e.answer.value] else [])
  }

  lemma OneMoreAnswer(es: seq<Event>, e: Event)
    ensures Answers(es + [e]) == Answers(es) + (if e.Served? && e.answer.Some? then [e.answer.value] else [])
  {
    assert (es + [e])[..|es|] == es;
  }

  lemma AnswerOfTurn(c: Server, input: Input)
    requires Inv(c) && Turn(c, input).0.status == Running
    ensures var e := Turn(c, input).1;
            && (e.Served? ==> (e.answer.Some? <==> BodyOf(e).Some?))
            && (e.Served? && e.answer.Some? ==> e.answer.value == Interpret(c.store, BodyOf(e).value).response)
  {
    StoreAfterTurn(c, input);
  }

  /** The answers that the requests mean, each on the employees that the ones before it leave. */
  ghost function MeantResponses(es: seq<Employee>, os: seq<Options>): (rs: seq<Response>) {
    if os == [] then []
    else
      var before := os[..|os| - 1];
      MeantResponses(es, before) + [Meaning(MeaningAll(es, before), os[|os| - 1]).response]
  }

  lemma OneMoreMeant(es: seq<Employee>, os: seq<Options>)
    requires os != []
    ensures var n := |os| - 1;
            MeantResponses(es, os) == MeantResponses(es, os[..n]) + [Meaning(MeaningAll(es, os[..n]), os[n]).response]
  {
  }

  lemma EncodesBefore(os: seq<Options>, bodies: seq<seq<byte>>, body: seq<byte>)
    requires Encodes(os, bodies + [body])
    ensures os != [] && Encodes(os[..|os| - 1], bodies)
    ensures Requests.ValidOptions(os[|os| - 1]) && body == Requests.Encode(os[|os| - 1])
  {
    var n := |os| - 1;
    assert (bodies + [body])[n] == body;
    forall i | 0 <= i < n ensures bodies[i] == Requests.Encode(os[i]) {
      assert (bodies + [body])[i] == bodies[i];
    }
  }

  /** Every completed request is answered as if the completed requests of all clients were carried out one after
      another. */
  lemma {:induction false} AnswersOfRun(c0: Server, inputs: seq<Input>, os: seq<Options>)
    requires Init(c0) && After(c0, inputs).status == Running
    ensures Encodes(os, Bodies(History(c0, inputs))) ==> Answers(History(c0, inputs)) == MeantResponses(c0.store.employees, os)
    decreases |inputs|
  {
    if inputs != [] && Encodes(os, Bodies(History(c0, inputs))) {
      var before, input := inputs[..|inputs| - 1], inputs[|inputs| - 1];
      var c, es := After(c0, before), History(c0, before);
      var body := BodyOf(Turn(c, input).1);
      OneMoreBody(es, Turn(c, input).1);
      OneMoreAnswer(es, Turn(c, input).1);
      AnswerOfTurn(c, input);
      StoreAfterTurn(c, input);
      if body.None? {
        AnswersOfRun(c0, before, os);
      } else {
        EncodesBefore(os, Bodies(es), body.value);
        var n := |os| - 1;
        AnswersOfRun(c0, before, os[..n]);
        MeaningOfRun(c0, before, os[..n]);
        RequestMeaning(c.store, os[n]);
        OneMoreMeant(c0.store.employees, os);
      }
    }
  }

  // ---------- memory and disk ----------

  lemma {:induction false} ApplyKeepsDisk(st: Store, bodies: seq<seq<byte>>)
    requires OnDisk(st)
    ensures var r := ApplyAll(st, bodies); r.Some? ==> OnDisk(r.value)
    decreases |bodies|
  {
    if bodies != [] {
      var before := ApplyAll(st, bodies[..|bodies| - 1]);
      ApplyKeepsDisk(st, bodies[..|bodies| - 1]);
      if before.Some? {
        InterpretKeepsDisk(before.value, bodies[|bodies| - 1]);
      }
    }
  }

  lemma {:induction false} MeaningAllKeepsValid(es: seq<Employee>, os: seq<Options>)
    requires AllValid(es) && AllValidOptions(os)
    ensures AllValid(MeaningAll(es, os))
    decreases |os|
  {
    if os != [] {
      MeaningAllKeepsValid(es, os[..|os| - 1]);
      MeaningKeepsValid(MeaningAll(es, os[..|os| - 1]), os[|os| - 1]);
    }
  }

  /** Whenever the server is running, a restart would find its database on disk: the header counts its
      employees, the records read back as they are in memory exactly when every string fits its length field,
      and the header check passes exactly when no longer image was written before. */
  lemma DiskOfRun(c0: Server, inputs: seq<Input>, os: seq<Options>)
    requires Init(c0) && OnDisk(c0.store) && AllValid(c0.store.employees) && After(c0, inputs).status == Running
    ensures var st := After(c0, inputs).store;
            Encodes(os, Bodies(History(c0, inputs))) ==>
            && st.employees == MeaningAll(c0.store.employees, os)
            && |st.disk| >= HEADER && StoredCount(st.disk) == |st.employees|
            && (Stored(st.disk) == Some(st.employees) <==> AllFit(st.employees))
            && (Accepts(st.disk) <==> |st.disk| == |Image(st.employees)| && |st.disk| < 0x1_0000_0000)
            && (Reopened(st.disk) == Some(st) <==> Accepts(st.disk) && AllFit(st.employees))
  {
    if Encodes(os, Bodies(History(c0, inputs))) {
      var st := After(c0, inputs).store;
      MeaningOfRun(c0, inputs, os);
      MeaningAllKeepsValid(c0.store.employees, os);
      Serialisable(c0, inputs);
      ApplyKeepsDisk(c0.store, Bodies(History(c0, inputs)));
      DiskReadsBack(st);
      ReopenFinds(st);
      FitsWhenExact(|Image(st.employees)|, |st.disk|);
    }
  }

  // ---------- every client's requests, in its own order ----------

  ghost function RequestOf(f: Frame): (r: seq<seq<byte>>) {
    match f
    case Body(bytes) => [bytes]
    case EmptyRequest => [[]]
    case _ => []
  }

  /** The requests among the frames. */
  ghost function BodiesIn(fs: seq<Frame>): (bs: seq<seq<byte>>) {
    if fs == [] then [] else RequestOf(fs[0]) + BodiesIn(fs[1..])
  }

  lemma {:induction false} BodiesInBoth(a: seq<Frame>, b: seq<Frame>)
    ensures BodiesIn(a + b) == BodiesIn(a) + BodiesIn(b)
  {
    if a == [] {
      assert a + b == b;
    } else {
      assert (a + b)[1..] == a[1..] + b;
      BodiesInBoth(a[1..], b);
    }
  }

  lemma BodiesInCons(f: Frame, fs: seq<Frame>)
    ensures BodiesIn([f] + fs) == RequestOf(f) + BodiesIn(fs)
  {
    assert ([f] + fs)[1..] == fs;
  }

  lemma BodiesInTwo(f: Frame, g: Frame)
    requires RequestOf(f) == []
    ensures BodiesIn([f, g]) == RequestOf(g)
  {
    BodiesInCons(f, [g]);
    BodiesInCons(g, []);
    assert [f] + [g] == [f, g] && [g] + [] == [g];
  }

  lemma BodiesInPrefix(a: seq<Frame>, b: seq<Frame>)
    requires a <= b
    ensures BodiesIn(a) <= BodiesIn(b)
  {
    assert b == a + b[|a|..];
    BodiesInBoth(a, b[|a|..]);
  }

  /** The completed bodies of one client. */
  ghost function BodiesFrom(es: seq<Event>, fd: int32): (bs: seq<seq<byte>>) {
    if es == [] then []
    else
      var e := es[|es| - 1];
      BodiesFrom(es[..|es| - 1], fd) + (if e.Served? && e.fd == fd && BodyOf(e).Some? then [BodyOf(e).value] else [])
  }

  /** A service says at most two things, and only the last can be a request. */
  ghost predicate Short(fs: seq<Frame>) {
    |fs| <= 2 && (|fs| == 2 ==> RequestOf(fs[0]) == [])
  }

  lemma ServiceShort(version: uint16, st: ConnState, avail: seq<byte>, more: seq<byte>)
    requires ValidState(version, st)
    ensures Short(Service(version, st, avail, more).frames)
  {
  }

  lemma OneBody(fs: seq<Frame>)
    requires Short(fs)
    ensures BodiesIn(fs) == if RequestIn(fs).Some? then [RequestIn(fs).value] else []
  {
    if |fs| == 2 {
      assert fs == [fs[0], fs[1]];
      BodiesInTwo(fs[0], fs[1]);
    } else if |fs| == 1 {
      assert fs == [fs[0]] + [];
      BodiesInCons(fs[0], []);
    }
  }

  lemma OneMoreFrom(es: seq<Event>, e: Event, fd: int32)
    ensures BodiesFrom(es + [e], fd)
         == BodiesFrom(es, fd) + (if e.Served? && e.fd == fd && BodyOf(e).Some? then [BodyOf(e).value] else [])
  {
    assert (es + [e])[..|es|] == es;
  }

  lemma OneMoreBodyFrom(es: seq<Event>, e: Event, fd: int32)
    requires BodiesFrom(es, fd) == BodiesIn(FramesOf(es, fd)) && (e.Served? ==> Short(e.frames))
    ensures BodiesFrom(es + [e], fd) == BodiesIn(FramesOf(es + [e], fd))
  {
    OneMore(es, e, fd);
    OneMoreFrom(es, e, fd);
    var now := if e.Served? && e.fd == fd then e.frames else [];
    OneBody(now);
    BodiesInBoth(FramesOf(es, fd), now);
  }

  lemma TurnShort(c: Server, input: Input)
    requires Inv(c)
    ensures var e := Turn(c, input).1; e.Served? ==> Short(e.frames)
  {
    if c.slot < |c.pfds| && Serves(c, input, c.pfds[c.slot]) {
      StepServes(c, input, c.pfds[c.slot]);
      ServiceShort(c.version, c.clients[c.pfds[c.slot]].st, input.avail, input.more);
    }
  }

  lemma {:induction false} BodiesOfFrames(c0: Server, inputs: seq<Input>, fd: int32)
    requires Inv(c0)
    ensures BodiesFrom(History(c0, inputs), fd) == BodiesIn(FramesOf(History(c0, inputs), fd))
    decreases |inputs|
  {
    if inputs != [] {
      var before, input := inputs[..|inputs| - 1], inputs[|inputs| - 1];
      var c, es := After(c0, before), History(c0, before);
      BodiesOfFrames(c0, before, fd);
      TurnShort(c, input);
      OneMoreBodyFrom(es, Turn(c, input).1, fd);
      assert History(c0, inputs) == es + [Turn(c, input).1];
    }
  }

  lemma BodiesInBehind(f: Frame, a: seq<Frame>, b: seq<Frame>)
    requires BodiesIn(a) <= BodiesIn(b)
    ensures BodiesIn([f] + a) <= BodiesIn([f] + b)
  {
    BodiesInCons(f, a);
    BodiesInCons(f, b);
  }

  lemma EndSaysNothing(version: uint16, mode: Mode, s: seq<byte>)
    requires (mode.Reading? ==> mode.size > 0) && HeadOfStream(version, mode, s).End?
    ensures BodiesIn(HeadOfStream(version, mode, s).frames) == []
  {
    if |HeadOfStream(version, mode, s).frames| == 2 {
      BodiesInTwo(Handshake(Version(s)), Closed);
    } else {
      BodiesInCons(HeadOfStream(version, mode, s).frames[0], []);
    }
  }

  /** More bytes only add to the requests that have been understood. */
  lemma {:induction false} NothingTakenBack(version: uint16, mode: Mode, s: seq<byte>, rest: seq<byte>)
    requires mode.Reading? ==> mode.size > 0
    ensures BodiesIn(Frames(version, mode, s)) <= BodiesIn(Frames(version, mode, s + rest))
    decreases |s|
  {
    var h := HeadOfStream(version, mode, s);
    if h.End? {
      assert BodiesIn(h.frames) == [] by {
        EndSaysNothing(version, mode, s);
      }
    } else {
      HeadStays(version, mode, s, rest);
      assert (s + rest)[h.n..] == s[h.n..] + rest;
      NothingTakenBack(version, h.mode, s[h.n..], rest);
      BodiesInBehind(h.frame, Frames(version, h.mode, s[h.n..]), Frames(version, h.mode, s[h.n..] + rest));
    }
  }

  function EncodeAll(os: seq<Options>): (bodies: seq<seq<byte>>)
    requires forall i :: 0 <= i < |os| ==> Requests.ValidOptions(os[i])
    ensures |bodies| == |os|
    ensures forall i :: 0 <= i < |bodies| ==> |bodies[i]| <= INT_MAX
  {
    if os == [] then []
    else
      var first: seq<byte> := Requests.Encode(os[0]);
      [first] + EncodeAll(os[1..])
  }

  /** All that a client with the server's version sends for these requests. */
  ghost function ClientStream(version: uint16, os: seq<Options>): seq<byte>
    requires AllValidOptions(os)
  {
    HandshakeBytes(version) + RequestStream(EncodeAll(os))
  }

  function Framed(body: seq<byte>): (fs: seq<Frame>)
    requires |body| <= INT_MAX
    ensures BodiesIn(fs) == [body]
  {
    BodiesInTwo(Header(|body|), Body(body));
    BodiesInCons(EmptyRequest, []);
    if body == [] then [EmptyRequest] else [Header(|body|), Body(body)]
  }

  lemma BodiesOfOneMore(body: seq<byte>, others: seq<seq<byte>>)
    requires |body| <= INT_MAX && ShortBodies(others)
    ensures BodiesIn(RequestFrames([body] + others))
         == [body] + BodiesIn(RequestFrames(others))
  {
    BodiesInBoth(Framed(body), RequestFrames(others));
    assert ([body] + others)[1..] == others;
  }

  lemma {:induction false} BodiesOfRequests(bodies: seq<seq<byte>>)
    requires ShortBodies(bodies)
    ensures BodiesIn(RequestFrames(bodies)) == bodies
  {
    if bodies != [] {
      BodiesOfRequests(bodies[1..]);
      BodiesOfOneMore(bodies[0], bodies[1..]);
      assert [bodies[0]] + bodies[1..] == bodies;
    }
  }

  lemma BodiesUnderstood(version: uint16, fs: seq<Frame>, s: seq<byte>, all: seq<byte>)
    requires fs <= Frames(version, Greeting, s) && s <= all
    ensures BodiesIn(fs) <= BodiesIn(Frames(version, Greeting, all))
  {
    assert all == s + all[|s|..];
    BodiesInPrefix(fs, Frames(version, Greeting, s));
    NothingTakenBack(version, Greeting, s, all[|s|..]);
  }

  lemma BodiesOfClient(version: uint16, os: seq<Options>)
    requires AllValidOptions(os)
    ensures BodiesIn(Frames(version, Greeting, ClientStream(version, os))) == EncodeAll(os)
  {
    var bodies := EncodeAll(os);
    ConversationUnderstood(version, bodies);
    BodiesInCons(Handshake(version), RequestFrames(bodies));
    BodiesOfRequests(bodies);
  }

  /** The requests that the server has completed for a client are the first ones that the client sent, in the
      order in which it sent them. */
  lemma ClientOrder(c0: Server, inputs: seq<Input>, fd: int32, os: seq<Options>)
    requires Init(c0) && AllValidOptions(os)
    ensures Received(History(c0, inputs), fd) <= ClientStream(c0.version, os) ==>
            BodiesFrom(History(c0, inputs), fd) <= EncodeAll(os)
  {
    var es := History(c0, inputs);
    if Received(es, fd) <= ClientStream(c0.version, os) {
      NothingInvented(c0, inputs, fd);
      BodiesOfFrames(c0, inputs, fd);
      BodiesUnderstood(c0.version, FramesOf(es, fd), Received(es, fd), ClientStream(c0.version, os));
      BodiesOfClient(c0.version, os);
    }
  }

  // ---------- no request is forgotten ----------

  /** A connection that waits has nothing left to be understood. */
  lemma NothingPending(version: uint16, st: ConnState)
    requires ValidState(version, st)
    ensures Future(version, st, []) == [Closed]
  {
    assert Prefix(st) + [] == Prefix(st);
  }

  /** While the server is running, what it has understood of a client is all that the client's bytes say, but for the
      end of a connection that has not ended. */
  lemma AllUnderstood(c0: Server, inputs: seq<Input>, fd: int32)
    requires Init(c0) && After(c0, inputs).status == Running
    ensures var es := History(c0, inputs);
            var all := Frames(c0.version, Greeting, Received(es, fd));
            all == FramesOf(es, fd) || all == FramesOf(es, fd) + [Closed]
  {
    var c, es := After(c0, inputs), History(c0, inputs);
    ClientHistory(c0, inputs, fd, []);
    assert Received(es, fd) + [] == Received(es, fd);
    if fd in c.clients {
      NothingPending(c.version, c.clients[fd].st);
    }
  }

  /** The completed requests of a client are all those that its bytes say. */
  lemma AllCompleted(c0: Server, inputs: seq<Input>, fd: int32)
    requires Init(c0) && After(c0, inputs).status == Running
    ensures var es := History(c0, inputs);
            BodiesFrom(es, fd) == BodiesIn(Frames(c0.version, Greeting, Received(es, fd)))
  {
    BodiesOfFrames(c0, inputs, fd);
    AllUnderstood(c0, inputs, fd);
    BodiesInCons(Closed, []);
    BodiesInBoth(FramesOf(History(c0, inputs), fd), [Closed]);
  }

  /** A beginning, but not all of it. */
  ghost predicate Part(s: seq<byte>, all: seq<byte>) {
    s <= all && s != all
  }

  lemma HeaderOfPart(body: seq<byte>, s: seq<byte>)
    requires |body| <= INT_MAX && Part(s, RequestBytes(body)) && |s| >= HEADER_SIZE
    ensures Tag(s) == DB_ACCESS_REQUEST && BodySize(s) == |body| && |s| < HEADER_SIZE + |body|
  {
    HostWordRoundTrip(DB_ACCESS_REQUEST);
    Be32RoundTrip(|body|);
    assert s[..4] == HostWord(DB_ACCESS_REQUEST) && s[4..8] == Be32(|body|);
  }

  lemma Incomplete(version: uint16, body: seq<byte>, s: seq<byte>)
    requires |body| <= INT_MAX && Part(s, RequestBytes(body))
    ensures BodiesIn(Frames(version, Ready, s)) == []
  {
    BodiesInCons(Closed, []);
    if |s| >= HEADER_SIZE {
      HeaderOfPart(body, s);
      assert Frames(version, Ready, s) == [Header(|body|)] + [Closed];
      BodiesInCons(Header(|body|), [Closed]);
    }
  }

  /** A request is not understood before its last byte is there. */
  lemma {:induction false} PartOfStream(version: uint16, bodies: seq<seq<byte>>, s: seq<byte>)
    requires ShortBodies(bodies) && Part(s, RequestStream(bodies))
    ensures |BodiesIn(Frames(version, Ready, s))| < |bodies|
    decreases |bodies|
  {
    var first, others := RequestBytes(bodies[0]), RequestStream(bodies[1..]);
    if |s| < |first| {
      assert s <= first;
      Incomplete(version, bodies[0], s);
    } else {
      var tail := s[|first|..];
      assert s == first + tail && tail <= others && tail != others;
      OneRequest(version, bodies[0], tail);
      BodiesInBoth(Framed(bodies[0]), Frames(version, Ready, tail));
      PartOfStream(version, bodies[1..], tail);
    }
  }

  lemma PartOfConversation(version: uint16, os: seq<Options>, s: seq<byte>)
    requires AllValidOptions(os) && os != [] && Part(s, ClientStream(version, os))
    ensures |BodiesIn(Frames(version, Greeting, s))| < |os|
  {
    var bodies, all := EncodeAll(os), ClientStream(version, os);
    if |s| < HANDSHAKE_SIZE {
      BodiesInCons(Closed, []);
    } else {
      HandshakeFirst(version, bodies);
      HeadOf(s, all[|s|..]);
      assert all == s + all[|s|..];
      BodiesInCons(Handshake(version), Frames(version, Ready, s[6..]));
      PartOfStream(version, bodies, s[6..]);
    }
  }

  /** The first n of the requests are there. */
  ghost predicate Here(version: uint16, os: seq<Options>, n: nat, s: seq<byte>)
    requires AllValidOptions(os) && n <= |os|
  {
    ClientStream(version, os[..n]) <= s
  }

  /** How many of the first n requests of a client have arrived to their last byte. */
  ghost function ArrivedOf(version: uint16, os: seq<Options>, n: nat, s: seq<byte>): (k: nat)
    requires AllValidOptions(os) && n <= |os|
    ensures k <= n && (k > 0 ==> Here(version, os, k, s)) && (k < n ==> !Here(version, os, k + 1, s))
  {
    if n == 0 || Here(version, os, n, s) then n else ArrivedOf(version, os, n - 1, s)
  }

  ghost function Arrived(version: uint16, os: seq<Options>, s: seq<byte>): (k: nat)
    requires AllValidOptions(os)
    ensures k <= |os|
    ensures ClientStream(version, os) <= s ==> k == |os|
  {
    assert os[..|os|] == os;
    ArrivedOf(version, os, |os|, s)
  }

  lemma {:induction false} EncodedBefore(os: seq<Options>, n: nat)
    requires AllValidOptions(os) && n <= |os|
    ensures EncodeAll(os[..n]) == EncodeAll(os)[..n]
  {
    if n > 0 {
      EncodedBefore(os[1..], n - 1);
      FirstApart(os, n);
      FirstApart(EncodeAll(os), n);
    }
  }

  lemma {:induction false} StreamBefore(bodies: seq<seq<byte>>, n: nat)
    requires ShortBodies(bodies) && n <= |bodies|
    ensures RequestStream(bodies[..n]) <= RequestStream(bodies)
  {
    if n > 0 {
      StreamBefore(bodies[1..], n - 1);
      FirstApart(bodies, n);
    }
  }

  lemma StreamPrefix(version: uint16, os: seq<Options>, s: seq<byte>, n: nat)
    requires AllValidOptions(os) && n <= |os| && s <= ClientStream(version, os)
    ensures Here(version, os, n, s) || Part(s, ClientStream(version, os[..n]))
  {
    EncodedBefore(os, n);
    StreamBefore(EncodeAll(os), n);
    var part, all := ClientStream(version, os[..n]), ClientStream(version, os);
    assert part <= all;
  }

  lemma AtLeastArrived(version: uint16, os: seq<Options>, s: seq<byte>, n: nat)
    requires AllValidOptions(os) && n <= |os| && Here(version, os, n, s)
    ensures |BodiesIn(Frames(version, Greeting, s))| >= n
  {
    var part := ClientStream(version, os[..n]);
    BodiesOfClient(version, os[..n]);
    BodiesUnderstood(version, Frames(version, Greeting, part), part, s);
  }

  lemma AtMostArrived(version: uint16, os: seq<Options>, s: seq<byte>, n: nat)
    requires AllValidOptions(os) && n < |os| && s <= ClientStream(version, os) && !Here(version, os, n + 1, s)
    ensures |BodiesIn(Frames(version, Greeting, s))| <= n
  {
    var part := os[..n + 1];
    StreamPrefix(version, os, s, n + 1);
    PartOfConversation(version, part, s);
  }

  lemma AtMostAll(version: uint16, os: seq<Options>, s: seq<byte>)
    requires AllValidOptions(os) && s <= ClientStream(version, os)
    ensures |BodiesIn(Frames(version, Greeting, s))| <= |os|
  {
    BodiesUnderstood(version, Frames(version, Greeting, s), s, ClientStream(version, os));
    BodiesOfClient(version, os);
  }

  /** What the beginning of a conversation says is the requests that are there to their last byte. */
  lemma ArrivedUnderstood(version: uint16, os: seq<Options>, s: seq<byte>)
    requires AllValidOptions(os) && s <= ClientStream(version, os)
    ensures |BodiesIn(Frames(version, Greeting, s))| == Arrived(version, os, s)
  {
    var n := Arrived(version, os, s);
    AtMostAll(version, os, s);
    if n > 0 {
      AtLeastArrived(version, os, s, n);
    }
    if n < |os| {
      AtMostArrived(version, os, s, n);
    }
  }

  /** While the server is running, the completed requests of a client are exactly those that have arrived. */
  lemma CompletedExactly(c0: Server, inputs: seq<Input>, fd: int32, os: seq<Options>)
    requires Init(c0) && After(c0, inputs).status == Running && AllValidOptions(os)
    ensures var es := History(c0, inputs);
            Received(es, fd) <= ClientStream(c0.version, os) ==>
            BodiesFrom(es, fd) == EncodeAll(os[..Arrived(c0.version, os, Received(es, fd))])
  {
    var s := Received(History(c0, inputs), fd);
    if s <= ClientStream(c0.version, os) {
      AllCompleted(c0, inputs, fd);
      ClientOrder(c0, inputs, fd, os);
      ArrivedUnderstood(c0.version, os, s);
      EncodedBefore(os, Arrived(c0.version, os, s));
    }
  }

  // ---------- clients that follow the protocol ----------

  /** The request asked for by one of the clients. */
  ghost predicate Asked(sent: int32 -> seq<Options>, o: Options) {
    exists fd :: o in sent(fd)
  }

  ghost predicate Requested(sent: int32 -> seq<Options>, body: seq<byte>) {
    exists o :: Asked(sent, o) && Requests.ValidOptions(o) && body == Requests.Encode(o)
  }

  lemma {:induction false} SomeRequest(os: seq<Options>, body: seq<byte>) returns (o: Options)
    requires AllValidOptions(os) && body in EncodeAll(os)
    ensures o in os && body == Requests.Encode(o)
  {
    var bodies := EncodeAll(os);
    if body == bodies[0] {
      o := os[0];
    } else {
      o := SomeRequest(os[1..], body);
    }
  }

  /** Every completed body comes from one of the clients. */
  lemma {:induction false} SomeClient(es: seq<Event>, body: seq<byte>) returns (fd: int32)
    requires body in Bodies(es)
    ensures body in BodiesFrom(es, fd)
  {
    var e := es[|es| - 1];
    if BodyOf(e) == Some(body) {
      fd := e.fd;
    } else {
      fd := SomeClient(es[..|es| - 1], body);
    }
  }

  ghost predicate RequestsFor(sent: int32 -> seq<Options>, os: seq<Options>, bodies: seq<seq<byte>>) {
    Encodes(os, bodies) && forall o :: o in os ==> Asked(sent, o)
  }

  lemma OneMoreRequest(sent: int32 -> seq<Options>, os: seq<Options>, bodies: seq<seq<byte>>, o: Options, body: seq<byte>)
    requires RequestsFor(sent, os, bodies)
    requires Asked(sent, o) && Requests.ValidOptions(o) && body == Requests.Encode(o)
    ensures RequestsFor(sent, os + [o], bodies + [body])
  {
  }

  lemma TheRequest(sent: int32 -> seq<Options>, body: seq<byte>) returns (o: Options)
    requires Requested(sent, body)
    ensures Asked(sent, o) && Requests.ValidOptions(o) && body == Requests.Encode(o)
  {
    o :| Asked(sent, o) && Requests.ValidOptions(o) && body == Requests.Encode(o);
  }

  lemma {:induction false} AllRequests(sent: int32 -> seq<Options>, bodies: seq<seq<byte>>) returns (os: seq<Options>)
    requires forall b :: b in bodies ==> Requested(sent, b)
    ensures RequestsFor(sent, os, bodies)
  {
    os := [];
    if bodies != [] {
      var n := |bodies| - 1;
      var before := AllRequests(sent, bodies[..n]);
      var o := TheRequest(sent, bodies[n]);
      OneMoreRequest(sent, before, bodies[..n], o, bodies[n]);
      LastApart(bodies);
      os := before + [o];
    }
  }

  /** Every client, wherever its bytes have got to, sends what a client of the server's version sends. */
  ghost predicate FollowProtocol(version: uint16, es: seq<Event>, sent: int32 -> seq<Options>) {
    forall fd :: AllValidOptions(sent(fd)) && Received(es, fd) <= ClientStream(version, sent(fd))
  }

  /** When all clients follow the protocol, the employees are the result of carrying out requests of theirs
      directly and one after another: those whose bodies are complete, in the order of completion. The answers
      are the ones that belong to that. */
  lemma ProtocolRun(c0: Server, inputs: seq<Input>, sent: int32 -> seq<Options>) returns (os: seq<Options>)
    requires Init(c0) && After(c0, inputs).status == Running
    requires FollowProtocol(c0.version, History(c0, inputs), sent)
    ensures RequestsFor(sent, os, Bodies(History(c0, inputs)))
    ensures After(c0, inputs).store.employees == MeaningAll(c0.store.employees, os)
    ensures Answers(History(c0, inputs)) == MeantResponses(c0.store.employees, os)
  {
    var es := History(c0, inputs);
    forall b | b in Bodies(es) ensures Requested(sent, b) {
      var fd := SomeClient(es, b);
      ClientOrder(c0, inputs, fd, sent(fd));
      var o := SomeRequest(sent(fd), b);
      assert Asked(sent, o);
    }
    os := AllRequests(sent, Bodies(es));
    MeaningOfRun(c0, inputs, os);
    AnswersOfRun(c0, inputs, os);
  }
}
