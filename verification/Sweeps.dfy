/** One sweep over the poll set: nobody is served twice, and the sweep comes to its end, although entries move
    and the set grows and shrinks on the way. */
module Sweeps {
  import opened Bytes
  import opened Framing
  import opened EventLoop

  /** The clients served since the last poll. */
  ghost function ServedInSweep(es: seq<Event>): (fds: seq<int32>) {
    if es == [] then []
    else
      var e := es[|es| - 1];
      if e.Polled? then [] else ServedInSweep(es[..|es| - 1]) + (if e.Served? then [e.fd] else [])
  }

  ghost predicate NoRepeats(fds: seq<int32>) {
    forall i, j :: 0 <= i < j < |fds| ==> fds[i] != fds[j]
  }

  /** Whoever was served is behind the sweep, or disconnected. */
  ghost predicate Behind(c: Server, fd: int32) {
    fd in c.used && (fd in c.clients ==> c.clients[fd].idx < c.slot)
  }

  ghost predicate AllBehind(c: Server, fds: seq<int32>) {
    NoRepeats(fds) && forall fd :: fd in fds ==> Behind(c, fd)
  }

  /** Where a service leaves the clients: at their indices, but for the last one if the served one is dropped. */
  lemma IndexAfterSettling(c: Server, fd: int32, o: Framing.Outcome, other: int32)
    requires Inv(c) && fd in c.clients && Settle(c, fd, o).status == Running
    requires other in Settle(c, fd, o).clients
    ensures other in c.clients
    ensures var idx := Settle(c, fd, o).clients[other].idx;
            idx == c.clients[other].idx || (c.clients[other].idx == |c.pfds| - 1 && idx == c.clients[fd].idx < |c.pfds| - 1)
  {
    if Ended(o.frames) {
      DropClientInv(c, fd);
    }
  }

  /** A service keeps those behind who are, and puts the served client behind. */
  lemma BehindAfterSettling(c: Server, fd: int32, o: Framing.Outcome, other: int32)
    requires Inv(c) && fd in c.clients && Settle(c, fd, o).status == Running && c.clients[fd].idx < c.slot
    requires Behind(c, other) && Settle(c, fd, o).used == c.used && Settle(c, fd, o).slot == c.slot
    ensures Behind(Settle(c, fd, o), other)
  {
    if other in Settle(c, fd, o).clients {
      IndexAfterSettling(c, fd, o, other);
    }
  }

  lemma SettleSlot(c: Server, fd: int32, o: Framing.Outcome)
    requires Inv(c) && fd in c.clients
    ensures Settle(c, fd, o).slot == c.slot
  {
  }

  lemma BehindAfterService(c: Server, input: Input, fd: int32, other: int32)
    requires Inv(c) && Serves(c, input, fd) && Turn(c, input).0.status == Running
    requires Behind(c, other) || other == fd
    ensures Behind(Turn(c, input).0, other)
  {
    var next, o := c.(slot := c.slot + 1), Service(c.version, c.clients[fd].st, input.avail, input.more);
    StepServes(c, input, fd);
    SlotInv(c, c.slot + 1);
    ServiceKeepsValid(c.version, c.clients[fd].st, input.avail, input.more);
    SettleInv(next, fd, o);
    SettleSlot(next, fd, o);
    BehindAfterSettling(next, fd, o, other);
  }

  /** The other steps within a sweep. */
  lemma BehindAfterVisit(c: Server, input: Input, other: int32)
    requires Inv(c) && c.status == Running && c.slot < |c.pfds| && !Serves(c, input, c.pfds[c.slot])
    requires Behind(c, other)
    ensures Behind(Turn(c, input).0, other) && !Turn(c, input).1.Served?
  {
  }

  /** Who is next has not been served in this sweep. */
  lemma NextIsNew(c: Server, fds: seq<int32>)
    requires Inv(c) && AllBehind(c, fds) && 0 < c.slot < |c.pfds|
    ensures c.pfds[c.slot] !in fds
  {
    assert c.clients[c.pfds[c.slot]].idx == c.slot;
  }

  lemma SweepTurn(c: Server, input: Input, fds: seq<int32>)
    requires Inv(c) && AllBehind(c, fds) && Turn(c, input).0.status == Running
    ensures var (c', e) := Turn(c, input);
            AllBehind(c', if e.Polled? then [] else fds + (if e.Served? then [e.fd] else []))
  {
    if c.slot < |c.pfds| {
      var fd := c.pfds[c.slot];
      if Serves(c, input, fd) {
        NextIsNew(c, fds);
        StepServes(c, input, fd);
        forall other | other in fds + [fd] ensures Behind(Turn(c, input).0, other) {
          BehindAfterService(c, input, fd, other);
        }
      } else {
        forall other | other in fds ensures Behind(Turn(c, input).0, other) {
          BehindAfterVisit(c, input, other);
        }
        NothingServed(c, input);
      }
    }
  }

  lemma NothingServed(c: Server, input: Input)
    requires Inv(c) && c.status == Running && c.slot < |c.pfds| && !Serves(c, input, c.pfds[c.slot])
    ensures !Turn(c, input).1.Served? && !Turn(c, input).1.Polled?
  {
  }

  lemma {:induction false} SweepInv(c0: Server, inputs: seq<Input>)
    requires Init(c0) && After(c0, inputs).status == Running
    ensures AllBehind(After(c0, inputs), ServedInSweep(History(c0, inputs)))
    decreases |inputs|
  {
    if inputs != [] {
      var before, input := inputs[..|inputs| - 1], inputs[|inputs| - 1];
      var c, es := After(c0, before), History(c0, before);
      SweepInv(c0, before);
      SweepTurn(c, input, ServedInSweep(es));
      assert (es + [Turn(c, input).1])[..|es|] == es;
    }
  }

  /** In one sweep no client is served twice, even in the step that ends the server. */
  lemma {:induction false} ServedOnce(c0: Server, inputs: seq<Input>)
    requires Init(c0)
    ensures NoRepeats(ServedInSweep(History(c0, inputs)))
    decreases |inputs|
  {
    if inputs != [] {
      var before, input := inputs[..|inputs| - 1], inputs[|inputs| - 1];
      var c, es := After(c0, before), History(c0, before);
      assert (es + [Turn(c, input).1])[..|es|] == es;
      ServedOnce(c0, before);
      if c.status == Running && c.slot < |c.pfds| && Serves(c, input, c.pfds[c.slot]) {
        SweepInv(c0, before);
        NextIsNew(c, ServedInSweep(es));
        StepServes(c, input, c.pfds[c.slot]);
      } else if c.status == Running && c.slot < |c.pfds| {
        NothingServed(c, input);
      }
    }
  }

  // ---------- the end of a sweep ----------

  /** How many slots a sweep may still have to visit; a client may yet be accepted at slot 0. */
  function Remaining(c: Server): nat {
    if c.slot == 0 then |c.pfds| + 1 else if c.slot < |c.pfds| then |c.pfds| - c.slot else 0
  }

  lemma Nearer(c: Server, c': Server)
    requires c.slot < |c.pfds| && c'.slot == c.slot + 1 && |c'.pfds| <= |c.pfds| + if c.slot == 0 then 1 else 0
    ensures Remaining(c') < Remaining(c)
  {
  }

  /** Every visit brings the end of the sweep nearer, so a sweep over n entries visits at most n + 1 slots. */
  lemma SweepAdvances(c: Server, input: Input)
    requires Inv(c) && c.status == Running && c.slot < |c.pfds|
    ensures Remaining(Turn(c, input).0) < Remaining(c) && !Turn(c, input).1.Polled?
  {
    var fd := c.pfds[c.slot];
    if Serves(c, input, fd) {
      StepServes(c, input, fd);
      SettleSize(c.(slot := c.slot + 1), fd, Service(c.version, c.clients[fd].st, input.avail, input.more));
    }
    Nearer(c, Turn(c, input).0);
  }

  lemma SettleSize(c: Server, fd: int32, o: Framing.Outcome)
    requires Inv(c) && fd in c.clients
    ensures var c' := Settle(c, fd, o); c'.slot == c.slot && |c'.pfds| <= |c.pfds|
  {
  }
}
