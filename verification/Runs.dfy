/** What holds of every run of the server: any number of clients, any interleaving of accepts, partial reads
    and disconnects. */
module Runs {
  import opened Bytes
  import opened Framing
  import opened EventLoop

  // ---------- what the server has understood of each client ----------

  /** The bytes received from a descriptor so far and the frames understood. */
  datatype Log = Log(received: seq<byte>, frames: seq<Frame>)

  ghost function LogOf(es: seq<Event>, fd: int32): Log {
    Log(Received(es, fd), FramesOf(es, fd))
  }

  function Add(log: Log, e: Event): Log {
    if e.Served? then Log(log.received + e.consumed, log.frames + e.frames) else log
  }

  /** A stream that has come to its end. */
  ghost predicate Over(version: uint16, log: Log) {
    log.frames == Frames(version, Greeting, log.received)
  }

  /** A client in state st: whatever follows is understood on top of what was. */
  ghost predicate UnderWay(version: uint16, log: Log, st: ConnState, rest: seq<byte>)
    requires ValidState(version, st)
  {
    Frames(version, Greeting, log.received + rest) == log.frames + Future(version, st, rest)
  }

  /** A connected client, a disconnected one, or a descriptor that never was a client. */
  ghost predicate Tracked(c: Server, log: Log, fd: int32, rest: seq<byte>)
    requires Inv(c)
  {
    if fd in c.clients then UnderWay(c.version, log, c.clients[fd].st, rest)
    else if fd in c.used && fd != c.listener then Over(c.version, log)
    else log == Log([], [])
  }

  lemma NewClient(version: uint16, rest: seq<byte>)
    ensures UnderWay(version, Log([], []), Uninitialized([]), rest)
  {
    assert [] + rest == rest;
  }

  /** What a service that takes `consumed` adds to a log. */
  lemma OnTop(version: uint16, log: Log, consumed: seq<byte>, rest: seq<byte>, now: seq<Frame>, later: seq<Frame>)
    requires Frames(version, Greeting, log.received + (consumed + rest)) == log.frames + (now + later)
    ensures Frames(version, Greeting, log.received + consumed + rest) == log.frames + now + later
  {
    Regrouped(log.received, consumed, rest);
    Regrouped(log.frames, now, later);
  }

  /** What a service that ends the connection adds to it. */
  lemma AtEnd(version: uint16, log: Log, consumed: seq<byte>, now: seq<Frame>)
    requires Frames(version, Greeting, log.received + (consumed + [])) == log.frames + now
    ensures Frames(version, Greeting, log.received + consumed) == log.frames + now
  {
    Regrouped(log.received, consumed, []);
  }

  /** A service that goes on did not meet the end of the stream. */
  lemma GoesOn(version: uint16, st: ConnState, avail: seq<byte>, more: seq<byte>, rest: seq<byte>)
    requires ValidState(version, st) && !Ended(Service(version, st, avail, more).frames)
    ensures EndsHere(st, avail, rest)
  {
  }

  /** A service ends the connection or leaves it under way. */
  lemma OnService(version: uint16, log: Log, st: ConnState, avail: seq<byte>, more: seq<byte>, rest: seq<byte>)
    requires ValidState(version, st)
    requires UnderWay(version, log, st, Consumed(version, st, avail, more) + rest)
    requires UnderWay(version, log, st, Consumed(version, st, avail, more) + [])
    ensures var o := Service(version, st, avail, more);
            var log' := Log(log.received + Consumed(version, st, avail, more), log.frames + o.frames);
            if Ended(o.frames) then Over(version, log')
            else ValidState(version, o.st) && UnderWay(version, log', o.st, rest)
  {
    var consumed, o := Consumed(version, st, avail, more), Service(version, st, avail, more);
    if Ended(o.frames) {
      ServiceAgrees(version, st, avail, more, []);
      AtEnd(version, log, consumed, o.frames);
    } else {
      GoesOn(version, st, avail, more, rest);
      ServiceAgrees(version, st, avail, more, rest);
      OnTop(version, log, consumed, rest, o.frames, Future(version, o.st, rest));
    }
  }

  /** A step that serves fd. */
  lemma TrackServed(c: Server, log: Log, input: Input, fd: int32, rest: seq<byte>)
    requires Inv(c) && Serves(c, input, fd) && Turn(c, input).0.status == Running
    requires var st := c.clients[fd].st;
             var consumed := Consumed(c.version, st, input.avail, input.more);
             UnderWay(c.version, log, st, consumed + rest) && UnderWay(c.version, log, st, consumed + [])
    ensures Inv(Turn(c, input).0) && Tracked(Turn(c, input).0, Add(log, Turn(c, input).1), fd, rest)
  {
    var st := c.clients[fd].st;
    StepInv(c, input);
    StepServes(c, input, fd);
    ServedClient(c, input, fd, Service(c.version, st, input.avail, input.more));
    OnService(c.version, log, st, input.avail, input.more, rest);
  }

  /** A step that does not. */
  lemma TrackUnserved(c: Server, log: Log, input: Input, fd: int32, rest: seq<byte>)
    requires Inv(c) && !Serves(c, input, fd) && Turn(c, input).0.status == Running
    requires Tracked(c, log, fd, rest)
    ensures Inv(Turn(c, input).0) && Tracked(Turn(c, input).0, log, fd, rest)
  {
    StepInv(c, input);
    UnservedClient(c, input, fd);
    NewClient(c.version, rest);
  }

  lemma OneMoreLog(es: seq<Event>, e: Event, fd: int32)
    ensures LogOf(es + [e], fd) == if e.Served? && e.fd == fd then Add(LogOf(es, fd), e) else LogOf(es, fd)
  {
    OneMore(es, e, fd);
  }

  /** The server has understood of each client exactly what the one-pass description of the bytes received
      from it says, no matter how they came in pieces or what other clients did in between: for a connected
      client, continued by any rest; for a disconnected one, up to the end. */
  lemma {:induction false} ClientHistory(c0: Server, inputs: seq<Input>, fd: int32, rest: seq<byte>)
    requires Init(c0) && After(c0, inputs).status == Running
    ensures Tracked(After(c0, inputs), LogOf(History(c0, inputs), fd), fd, rest)
    decreases |inputs|
  {
    if inputs != [] {
      var before, input := inputs[..|inputs| - 1], inputs[|inputs| - 1];
      var c, es := After(c0, before), History(c0, before);
      OneMoreLog(es, Turn(c, input).1, fd);
      if Serves(c, input, fd) {
        var consumed := Consumed(c.version, c.clients[fd].st, input.avail, input.more);
        ClientHistory(c0, before, fd, consumed + rest);
        ClientHistory(c0, before, fd, consumed + []);
        TrackServed(c, LogOf(es, fd), input, fd, rest);
        StepServes(c, input, fd);
      } else {
        ClientHistory(c0, before, fd, rest);
        NotServed(c, input, fd);
        TrackUnserved(c, LogOf(es, fd), input, fd, rest);
      }
    }
  }

  lemma NotServed(c: Server, input: Input, fd: int32)
    requires Inv(c) && !Serves(c, input, fd)
    ensures var e := Turn(c, input).1; !(e.Served? && e.fd == fd)
  {
  }

  /** Whatever a service has understood follows from the bytes. */
  ghost predicate Justified(version: uint16, log: Log) {
    log.frames <= Frames(version, Greeting, log.received)
  }

  lemma ServedPrefix(c: Server, log: Log, input: Input, fd: int32)
    requires Inv(c) && Serves(c, input, fd)
    requires var st := c.clients[fd].st;
             UnderWay(c.version, log, st, Consumed(c.version, st, input.avail, input.more) + [])
    ensures Justified(c.version, Add(log, ServedEvent(c, fd, input.avail, input.more)))
  {
    var st := c.clients[fd].st;
    OnService(c.version, log, st, input.avail, input.more, []);
    var received := log.received + Consumed(c.version, st, input.avail, input.more);
    assert received + [] == received;
  }

  /** In every run, even one that has ended the server, nothing is understood that the bytes do not say. */
  lemma {:induction false} NothingInvented(c0: Server, inputs: seq<Input>, fd: int32)
    requires Init(c0)
    ensures Justified(c0.version, LogOf(History(c0, inputs), fd))
    decreases |inputs|
  {
    if inputs != [] {
      var before, input := inputs[..|inputs| - 1], inputs[|inputs| - 1];
      var c, es := After(c0, before), History(c0, before);
      OneMoreLog(es, Turn(c, input).1, fd);
      if Serves(c, input, fd) {
        var st := c.clients[fd].st;
        ClientHistory(c0, before, fd, Consumed(c.version, st, input.avail, input.more) + []);
        StepServes(c, input, fd);
        ServedPrefix(c, LogOf(es, fd), input, fd);
      } else {
        NothingInvented(c0, before, fd);
        NotServed(c, input, fd);
      }
    }
  }

  // ---------- no request without a handshake ----------

  /** A service and the greeting: a client is past it exactly when it has announced the server's version. */
  lemma GreetingOfService(version: uint16, st: ConnState, avail: seq<byte>, more: seq<byte>)
    requires ValidState(version, st) && !Ended(Service(version, st, avail, more).frames)
    ensures var o := Service(version, st, avail, more);
            o.st.Uninitialized? <==> st.Uninitialized? && Handshake(version) !in o.frames
  {
  }

  /** A connected client is past the greeting exactly when it has announced the server's own version. */
  ghost predicate Greeted(c: Server, fs: seq<Frame>, fd: int32) {
    fd in c.clients ==> (c.clients[fd].st.Uninitialized? <==> Handshake(c.version) !in fs)
  }

  lemma GreetedServed(c: Server, fs: seq<Frame>, input: Input, fd: int32)
    requires Inv(c) && Serves(c, input, fd) && Turn(c, input).0.status == Running && Greeted(c, fs, fd)
    ensures Turn(c, input).1.Served? && Greeted(Turn(c, input).0, fs + Turn(c, input).1.frames, fd)
  {
    var st := c.clients[fd].st;
    StepInv(c, input);
    StepServes(c, input, fd);
    ServedClient(c, input, fd, Service(c.version, st, input.avail, input.more));
    if fd in Turn(c, input).0.clients {
      GreetingOfService(c.version, st, input.avail, input.more);
    }
  }

  lemma GreetedUnserved(c: Server, fs: seq<Frame>, input: Input, fd: int32)
    requires Inv(c) && !Serves(c, input, fd) && Turn(c, input).0.status == Running && Greeted(c, fs, fd)
    requires fd !in c.used ==> fs == []
    ensures Greeted(Turn(c, input).0, fs, fd)
  {
    StepInv(c, input);
    UnservedClient(c, input, fd);
  }

  lemma {:induction false} PastGreeting(c0: Server, inputs: seq<Input>, fd: int32)
    requires Init(c0) && After(c0, inputs).status == Running
    ensures Greeted(After(c0, inputs), FramesOf(History(c0, inputs), fd), fd)
    decreases |inputs|
  {
    if inputs != [] {
      var before, input := inputs[..|inputs| - 1], inputs[|inputs| - 1];
      var c, es := After(c0, before), History(c0, before);
      OneMoreLog(es, Turn(c, input).1, fd);
      PastGreeting(c0, before, fd);
      if Serves(c, input, fd) {
        GreetedServed(c, FramesOf(es, fd), input, fd);
        StepServes(c, input, fd);
      } else {
        NotServed(c, input, fd);
        if fd !in c.used {
          Unused(c0, before, fd);
        }
        GreetedUnserved(c, FramesOf(es, fd), input, fd);
      }
    }
  }

  lemma CompletesPastGreeting(version: uint16, st: ConnState, avail: seq<byte>, more: seq<byte>)
    requires ValidState(version, st) && Completed(Service(version, st, avail, more).frames).Some?
    ensures !st.Uninitialized?
  {
  }

  /** Handshake safety: when a request body of a client is complete and goes to the interpreter, the history
      of the client already has a handshake with exactly the server's version. */
  lemma HandshakeBeforeRequest(c0: Server, inputs: seq<Input>, input: Input, fd: int32)
    requires Init(c0)
    ensures var e := Turn(After(c0, inputs), input).1;
            e.Served? && e.fd == fd && Completed(e.frames).Some? ==> Handshake(c0.version) in FramesOf(History(c0, inputs), fd)
  {
    var c := After(c0, inputs);
    if Serves(c, input, fd) {
      StepServes(c, input, fd);
      PastGreeting(c0, inputs, fd);
      if Completed(Turn(c, input).1.frames).Some? {
        CompletesPastGreeting(c.version, c.clients[fd].st, input.avail, input.more);
      }
    } else {
      NotServed(c, input, fd);
    }
  }

  lemma StuckAfter(version: uint16, s: seq<byte>, fs: seq<Frame>, future: seq<Frame>, w: uint16)
    requires Frames(version, Greeting, s) == fs + future && future != []
    requires w != version && Handshake(w) in fs
    ensures future == [Closed] && Handshake(version) !in fs
  {
    var k :| 0 <= k < |fs| && fs[k] == Handshake(w);
    var all := fs + future;
    assert all[k] == Handshake(w);
    WrongVersionIsLast(version, s, k);
    assert |all| == k + 2 && future == all[k + 1..];
    forall i | 0 <= i < |fs| ensures fs[i] != Handshake(version) {
      assert all[i] == fs[i];
    }
  }

  lemma SomeFuture(version: uint16, st: ConnState, rest: seq<byte>)
    requires ValidState(version, st)
    ensures Future(version, st, rest) != []
  {
  }

  /** A connected client that has announced another version is stuck: nothing more is understood of it, it is
      not initialized, and whatever it sends from now on only ends its connection. */
  lemma WrongVersionIsStuck(c0: Server, inputs: seq<Input>, fd: int32, w: uint16, rest: seq<byte>)
    requires Init(c0) && After(c0, inputs).status == Running && w != c0.version
    ensures var clients := After(c0, inputs).clients;
            fd in clients && Handshake(w) in FramesOf(History(c0, inputs), fd) ==>
            clients[fd].st.Uninitialized? && Future(c0.version, clients[fd].st, rest) == [Closed]
  {
    var clients, es := After(c0, inputs).clients, History(c0, inputs);
    if fd in clients && Handshake(w) in FramesOf(es, fd) {
      var st := clients[fd].st;
      ClientHistory(c0, inputs, fd, rest);
      SomeFuture(c0.version, st, rest);
      StuckAfter(c0.version, Received(es, fd) + rest, FramesOf(es, fd), Future(c0.version, st, rest), w);
      PastGreeting(c0, inputs, fd);
    }
  }
}
