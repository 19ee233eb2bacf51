/** The server as a state machine over its readiness events, and what holds of every run of it. */
module EventLoop {
  import opened Bytes
  import opened Framing
  import opened Interpreter

  datatype Client = Client(st: ConnState, idx: nat)

  /** The server goes on, has ended itself, or has run into undefined behaviour. */
  datatype Status = Running | Exited | Broken

  /** slot is the position of the sweep; used are all descriptors the kernel has handed out so far. */
  datatype Server = Server(status: Status, listener: int32, version: uint16, pfds: seq<int32>,
                           clients: map<int32, Client>, store: Store, used: set<int32>, slot: nat)

  /** What the kernel and the network have for the slot the sweep is at. `avail` and `more` are what there is
      to read at the first and second `recv`; a failed `accept` covers a failed name lookup too. */
  datatype Input = NotReady | Accept(fd: int32) | AcceptFails | Incoming(avail: seq<byte>, more: seq<byte>)

  /** What a step did: a new poll, nothing, a new client, or a served client and what its request was answered. */
  datatype Event =
    | Polled
    | Idle
    | Accepted(fd: int32)
    | Served(fd: int32, consumed: seq<byte>, frames: seq<Frame>, answer: Option<Response>)

  // ---------- invariant ----------

  /** Index 0 is the listener; the map and the other indices name the same clients, each with its own index. */
  ghost predicate PollSet(c: Server) {
    && |c.pfds| > 0 && c.pfds[0] == c.listener && c.listener !in c.clients
    && (forall i :: 1 <= i < |c.pfds| ==> c.pfds[i] in c.clients && c.clients[c.pfds[i]].idx == i)
    && (forall fd :: fd in c.clients ==> 1 <= c.clients[fd].idx < |c.pfds| && c.pfds[c.clients[fd].idx] == fd)
  }

  /** Every connection is in a state that the handlers can leave it in. */
  ghost predicate ValidStates(c: Server) {
    forall fd :: fd in c.clients ==> ValidState(c.version, c.clients[fd].st)
  }

  ghost predicate Inv(c: Server) {
    && PollSet(c) && ValidStates(c)
    && c.listener in c.used && c.clients.Keys <= c.used
    && |c.store.employees| < 0x1_0000_0000
  }

  // ---------- steps ----------

  /** `add_fd`, `client_connection_init` and `connection_map_insert`. */
  function AddClient(c: Server, fd: int32): Server {
    c.(pfds := c.pfds + [fd], clients := c.clients[fd := Client(Uninitialized([]), |c.pfds|)], used := c.used + {fd})
  }

  /** `handle_client_disconnect`: the last entry moves to the freed index, its connection learns the index,
      and the key goes from the map. */
  function DropClient(c: Server, fd: int32): Server
    requires fd in c.clients && c.clients[fd].idx < |c.pfds|
  {
    var idx, last := c.clients[fd].idx, |c.pfds| - 1;
    var moved := c.pfds[last];
    var clients := if idx == last || moved !in c.clients then c.clients else c.clients[moved := c.clients[moved].(idx := idx)];
    c.(pfds := c.pfds[idx := moved][..last], clients := clients - {fd})
  }

  /** Accepted descriptors are new: the server never closes one. */
  predicate Fresh(c: Server, fd: int32) {
    fd >= 0 && fd !in c.used
  }

  /** The last frame, if the service completed a request body. */
  function Completed(frames: seq<Frame>): Option<seq<byte>> {
    if frames != [] && frames[|frames| - 1].Body? then Some(frames[|frames| - 1].bytes) else None
  }

  /** What follows from a service; r is what `deserialize_request_options` did, if a request was complete. */
  function SettleTo(c: Server, fd: int32, o: Framing.Outcome, r: Option<Interpreter.Result>): Server
    requires fd in c.clients && c.clients[fd].idx < |c.pfds|
  {
    if Ended(o.frames) then
      if o.frames[|o.frames| - 1] == Exits then c.(status := Exited) else DropClient(c, fd)
    else
      var c' := c.(clients := c.clients[fd := c.clients[fd].(st := o.st)]);
      if r.None? then c' else Carry(c', r.value)
  }

  function Settle(c: Server, fd: int32, o: Framing.Outcome): Server
    requires Inv(c) && fd in c.clients
  {
    SettleTo(c, fd, o, if Completed(o.frames).None? then None else Some(Interpret(c.store, Completed(o.frames).value)))
  }

  /** A response of 2^32 - 1 bytes ends the server after it has been sent. */
  function Carry(c: Server, r: Interpreter.Result): Server {
    match r
    case Done(store, _, _) => c.(store := store, status := if Survived(r) then c.status else Exited)
    case Failed => c.(status := Exited)
    case Crashed => c.(status := Broken)
  }

  /** One ready client. */
  function ServeClient(c: Server, fd: int32, avail: seq<byte>, more: seq<byte>): Server
    requires Inv(c) && fd in c.clients
  {
    Settle(c, fd, Service(c.version, c.clients[fd].st, avail, more))
  }

  /** The request that a service has completed. One that asks for nothing is answered at once and counts as an
      empty body: interpreting that gives the same answer. */
  function RequestIn(frames: seq<Frame>): Option<seq<byte>> {
    if frames == [] then None
    else
      match frames[|frames| - 1]
      case Body(bytes) => Some(bytes)
      case EmptyRequest => Some([])
      case _ => None
  }

  function AnswerTo(st: Store, request: Option<seq<byte>>): Option<Response>
    requires |st.employees| < 0x1_0000_0000
  {
    if request.Some? && Interpret(st, request.value).Done? then Some(Interpret(st, request.value).response) else None
  }

  function ServedEvent(c: Server, fd: int32, avail: seq<byte>, more: seq<byte>): Event
    requires Inv(c) && fd in c.clients
  {
    var st := c.clients[fd].st;
    var frames := Service(c.version, st, avail, more).frames;
    Served(fd, Consumed(c.version, st, avail, more), frames, AnswerTo(c.store, RequestIn(frames)))
  }

  /** One turn of the sweep loop, or a new poll when the sweep is over. An input that does not fit the slot
      counts as not ready, and a descriptor that is not fresh as a failed accept. */
  function Turn(c: Server, input: Input): (Server, Event)
    requires Inv(c)
  {
    if c.status != Running then (c, Idle)
    else if c.slot >= |c.pfds| then (c.(slot := 0), Polled)
    else
      var next := c.(slot := c.slot + 1);
      if c.slot == 0 then
        if input.Accept? && Fresh(c, input.fd) then (AddClient(next, input.fd), Accepted(input.fd)) else (next, Idle)
      else if input.Incoming? then
        var fd := c.pfds[c.slot];
        (ServeClient(next, fd, input.avail, input.more), ServedEvent(c, fd, input.avail, input.more))
      else (next, Idle)
  }

  // ---------- every step keeps the invariant ----------

  /** What no step changes, and what only grows. */
  ghost predicate SameServer(c: Server, c': Server) {
    c'.version == c.version && c'.listener == c.listener && c.used <= c'.used
  }

  lemma AddClientInv(c: Server, fd: int32)
    requires Inv(c) && Fresh(c, fd)
    ensures Inv(AddClient(c, fd)) && SameServer(c, AddClient(c, fd))
  {
  }

  lemma DropClientInv(c: Server, fd: int32)
    requires Inv(c) && fd in c.clients
    ensures Inv(DropClient(c, fd))
    ensures DropClient(c, fd).clients.Keys == c.clients.Keys - {fd}
  {
  }

  lemma SetStateInv(c: Server, fd: int32, st: ConnState)
    requires Inv(c) && fd in c.clients && ValidState(c.version, st)
    ensures Inv(c.(clients := c.clients[fd := c.clients[fd].(st := st)]))
  {
  }

  lemma CarryInv(c: Server, r: Interpreter.Result)
    requires Inv(c) && (r.Done? ==> |r.store.employees| < 0x1_0000_0000)
    ensures var c' := Carry(c, r); Inv(c') && SameServer(c, c') && c'.used == c.used
  {
  }

  lemma SettleInv(c: Server, fd: int32, o: Framing.Outcome)
    requires Inv(c) && fd in c.clients && (!Ended(o.frames) ==> ValidState(c.version, o.st))
    ensures var c' := Settle(c, fd, o); Inv(c') && SameServer(c, c') && c'.used == c.used
  {
    if Ended(o.frames) {
      DropClientInv(c, fd);
    } else {
      SetStateInv(c, fd, o.st);
      if Completed(o.frames).Some? {
        InterpretSmall(c.store, Completed(o.frames).value);
        CarryInv(c.(clients := c.clients[fd := c.clients[fd].(st := o.st)]), Interpret(c.store, Completed(o.frames).value));
      }
    }
  }

  lemma ServeClientInv(c: Server, fd: int32, avail: seq<byte>, more: seq<byte>)
    requires Inv(c) && fd in c.clients
    ensures var c' := ServeClient(c, fd, avail, more); Inv(c') && SameServer(c, c') && c'.used == c.used
  {
    ServiceKeepsValid(c.version, c.clients[fd].st, avail, more);
    SettleInv(c, fd, Service(c.version, c.clients[fd].st, avail, more));
  }

  lemma ServiceKeepsValid(version: uint16, st: ConnState, avail: seq<byte>, more: seq<byte>)
    requires ValidState(version, st)
    ensures var o := Service(version, st, avail, more); !Ended(o.frames) ==> ValidState(version, o.st)
  {
    ServiceAgrees(version, st, avail, more, []);
  }

  /** The sweep position is not part of the invariant. */
  lemma SlotInv(c: Server, slot: nat)
    requires Inv(c)
    ensures Inv(c.(slot := slot))
  {
  }

  lemma ListenerInv(c: Server, input: Input)
    requires Inv(c) && c.status == Running && c.slot == 0
    ensures Inv(Turn(c, input).0) && SameServer(c, Turn(c, input).0)
  {
    SlotInv(c, 1);
    if input.Accept? && Fresh(c, input.fd) {
      AddClientInv(c.(slot := 1), input.fd);
    }
  }

  lemma ClientInv(c: Server, input: Input)
    requires Inv(c) && c.status == Running && 0 < c.slot < |c.pfds|
    ensures Inv(Turn(c, input).0) && SameServer(c, Turn(c, input).0)
  {
    SlotInv(c, c.slot + 1);
    if input.Incoming? {
      ServeClientInv(c.(slot := c.slot + 1), c.pfds[c.slot], input.avail, input.more);
    }
  }

  lemma StepInv(c: Server, input: Input)
    requires Inv(c)
    ensures Inv(Turn(c, input).0) && SameServer(c, Turn(c, input).0)
  {
    if c.status == Running {
      if c.slot >= |c.pfds| {
        SlotInv(c, 0);
      } else if c.slot == 0 {
        ListenerInv(c, input);
      } else {
        ClientInv(c, input);
      }
    }
  }

  // ---------- runs ----------

  /** Right after `main` has set up the listener: no clients, and a sweep that is over. */
  ghost predicate Init(c: Server): (b: bool)
    ensures b ==> Inv(c)
  {
    && c.status == Running && c.pfds == [c.listener] && c.clients == map[] && c.used == {c.listener}
    && c.slot == 1 && |c.store.employees| < 0x1_0000_0000
  }

  /** The server after a sequence of inputs. */
  ghost function After(c0: Server, inputs: seq<Input>): (c: Server)
    requires Inv(c0)
    ensures Inv(c) && SameServer(c0, c)
  {
    if inputs == [] then c0
    else
      var c, input := After(c0, inputs[..|inputs| - 1]), inputs[|inputs| - 1];
      StepInv(c, input);
      Turn(c, input).0
  }

  /** What happened on the way. */
  ghost function History(c0: Server, inputs: seq<Input>): (es: seq<Event>)
    requires Inv(c0)
    ensures |es| == |inputs|
  {
    if inputs == [] then []
    else
      var before := inputs[..|inputs| - 1];
      History(c0, before) + [Turn(After(c0, before), inputs[|inputs| - 1]).1]
  }

  /** The bytes read from a descriptor. */
  ghost function Received(es: seq<Event>, fd: int32): (s: seq<byte>) {
    if es == [] then []
    else
      var e := es[|es| - 1];
      Received(es[..|es| - 1], fd) + (if e.Served? && e.fd == fd then e.consumed else [])
  }

  /** The frames understood from a descriptor. */
  ghost function FramesOf(es: seq<Event>, fd: int32): (fs: seq<Frame>) {
    if es == [] then []
    else
      var e := es[|es| - 1];
      FramesOf(es[..|es| - 1], fd) + (if e.Served? && e.fd == fd then e.frames else [])
  }

  ghost function BodyOf(e: Event): Option<seq<byte>> {
    if e.Served? then RequestIn(e.frames) else None
  }

  /** All completed request bodies, of all clients, in the order of completion. */
  ghost function Bodies(es: seq<Event>): (bs: seq<seq<byte>>) {
    if es == [] then []
    else
      var body := BodyOf(es[|es| - 1]);
      Bodies(es[..|es| - 1]) + (if body.Some? then [body.value] else [])
  }

  /** What one more event adds to the history of a descriptor. */
  lemma OneMore(es: seq<Event>, e: Event, fd: int32)
    ensures Received(es + [e], fd) == Received(es, fd) + (if e.Served? && e.fd == fd then e.consumed else [])
    ensures FramesOf(es + [e], fd) == FramesOf(es, fd) + (if e.Served? && e.fd == fd then e.frames else [])
  {
    assert (es + [e])[..|es|] == es;
  }

  /** Only a client is served, by a server that is running. */
  lemma EventOfClient(c: Server, input: Input)
    requires Inv(c)
    ensures var e := Turn(c, input).1; e.Served? ==> e.fd in c.clients && c.status == Running
  {
  }

  /** A descriptor that has not been handed out has no history. */
  lemma {:induction false} Unused(c0: Server, inputs: seq<Input>, fd: int32)
    requires Inv(c0) && fd !in After(c0, inputs).used
    ensures Received(History(c0, inputs), fd) == [] && FramesOf(History(c0, inputs), fd) == []
  {
    if inputs != [] {
      var before, input := inputs[..|inputs| - 1], inputs[|inputs| - 1];
      var c := After(c0, before);
      StepInv(c, input);
      EventOfClient(c, input);
      Unused(c0, before, fd);
      OneMore(History(c0, before), Turn(c, input).1, fd);
    }
  }

  // ---------- one client through a run ----------

  /** The step serves this client. */
  ghost predicate Serves(c: Server, input: Input, fd: int32) {
    c.status == Running && 0 < c.slot < |c.pfds| && input.Incoming? && c.pfds[c.slot] == fd
  }

  lemma DropClientOthers(c: Server, fd: int32, other: int32)
    requires Inv(c) && fd in c.clients && other in c.clients && other != fd
    ensures other in DropClient(c, fd).clients && DropClient(c, fd).clients[other].st == c.clients[other].st
  {
  }

  /** A served client goes on in the state the service leaves, unless the service ended the connection. */
  lemma SettledClient(c: Server, fd: int32, o: Framing.Outcome)
    requires Inv(c) && fd in c.clients && Settle(c, fd, o).status == Running
    ensures var c' := Settle(c, fd, o);
            && (fd in c'.clients <==> !Ended(o.frames))
            && (fd in c'.clients ==> c'.clients[fd].st == o.st)
  {
    if Ended(o.frames) {
      DropClientInv(c, fd);
    }
  }

  /** A service does not touch another client. */
  lemma SettledOther(c: Server, fd: int32, o: Framing.Outcome, other: int32)
    requires Inv(c) && fd in c.clients && Settle(c, fd, o).status == Running && other != fd
    ensures var c' := Settle(c, fd, o);
            && (other in c.clients <==> other in c'.clients)
            && (other in c.clients ==> c'.clients[other].st == c.clients[other].st)
  {
    if Ended(o.frames) {
      DropClientInv(c, fd);
      if other in c.clients {
        DropClientOthers(c, fd, other);
      }
    }
  }

  /** What becomes of the server when it has served a client: it ends itself after a body of 2^32 - 1 bytes, after a
      request that cannot be carried out, and after one whose response is 2^32 - 1 bytes long. */
  lemma SettledStatus(c: Server, fd: int32, o: Framing.Outcome)
    requires Inv(c) && fd in c.clients && c.status == Running
    ensures var request := Completed(o.frames);
            var exits := o.frames != [] && o.frames[|o.frames| - 1] == Exits;
            Settle(c, fd, o).status
            == if exits then Exited
               else if request.None? then Running
               else
                 match Interpret(c.store, request.value)
                 case Done(_, r, _) => if ResponseLength(r) == 0xffff_ffff then Exited else Running
                 case Failed => Exited
                 case Crashed => Broken
  {
    if Completed(o.frames).Some? {
      FatalLength(c.store, Completed(o.frames).value);
    }
  }

  lemma StepServes(c: Server, input: Input, fd: int32)
    requires Inv(c) && Serves(c, input, fd)
    ensures var (c', e) := Turn(c, input);
            && c' == Settle(c.(slot := c.slot + 1), fd, Service(c.version, c.clients[fd].st, input.avail, input.more))
            && e == ServedEvent(c, fd, input.avail, input.more)
  {
    var next := c.(slot := c.slot + 1);
    assert Turn(c, input) == (ServeClient(next, fd, input.avail, input.more), ServedEvent(c, fd, input.avail, input.more));
    assert next.version == c.version && next.clients == c.clients;
  }

  lemma ServedClient(c: Server, input: Input, fd: int32, o: Framing.Outcome)
    requires Inv(c) && Serves(c, input, fd) && Turn(c, input).0.status == Running
    requires o == Service(c.version, c.clients[fd].st, input.avail, input.more)
    ensures var c' := Turn(c, input).0;
            && (fd in c'.clients <==> !Ended(o.frames))
            && (fd in c'.clients ==> c'.clients[fd].st == o.st)
            && c'.used == c.used
  {
    StepServes(c, input, fd);
    SlotInv(c, c.slot + 1);
    ServiceKeepsValid(c.version, c.clients[fd].st, input.avail, input.more);
    SettleInv(c.(slot := c.slot + 1), fd, o);
    SettledClient(c.(slot := c.slot + 1), fd, o);
  }

  /** Any other client is left alone; a client that is new was never handed out before. */
  lemma UnservedClient(c: Server, input: Input, fd: int32)
    requires Inv(c) && !Serves(c, input, fd) && Turn(c, input).0.status == Running
    ensures var (c', e) := Turn(c, input);
            && !(e.Served? && e.fd == fd)
            && (fd in c.clients ==> fd in c'.clients && c'.clients[fd].st == c.clients[fd].st)
            && (fd in c'.clients && fd !in c.clients ==> fd !in c.used && c'.clients[fd].st == Uninitialized([]))
            && (fd in c'.used && fd !in c'.clients ==> fd in c.used)
  {
    if 0 < c.slot < |c.pfds| && input.Incoming? {
      var next, served := c.(slot := c.slot + 1), c.pfds[c.slot];
      ServeClientInv(next, served, input.avail, input.more);
      SettledOther(next, served, Service(c.version, c.clients[served].st, input.avail, input.more), fd);
    }
  }
}
