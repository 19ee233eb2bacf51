/** Both ends of the conversations in a run: what every client hears, and that the server stays up. */
module Conversation {
  import opened Bytes
  import opened Employees
  import opened Framing
  import opened Interpreter
  import opened EventLoop
  import opened Runs
  import opened Serial
  import Client
  import Connection
  import Requests

  // ---------- what is sent ----------

  /** The bytes sent in a turn. A response with error flag 1 has four bytes that nothing determines. */
  ghost predicate Sends(version: uint16, e: Event, bytes: seq<byte>) {
    if !e.Served? then bytes == []
    else if e.answer.Some? then IsResponse(bytes, e.answer.value)
    else bytes == Connection.Replies(version, e.frames)
  }

  /** A record of what every turn of a run has sent. */
  ghost predicate Logged(version: uint16, es: seq<Event>, log: seq<seq<byte>>) {
    |log| == |es| && forall k :: 0 <= k < |es| ==> Sends(version, es[k], log[k])
  }

  /** The bytes sent to one descriptor. */
  ghost function SentTo(es: seq<Event>, log: seq<seq<byte>>, fd: int32): (s: seq<byte>)
    requires |log| == |es|
  {
    if es == [] then []
    else
      var n := |es| - 1;
      SentTo(es[..n], log[..n], fd) + (if es[n].Served? && es[n].fd == fd then log[n] else [])
  }

  /** The answers given to one descriptor. */
  ghost function AnswersTo(es: seq<Event>, fd: int32): (rs: seq<Response>) {
    if es == [] then []
    else
      var e := es[|es| - 1];
      AnswersTo(es[..|es| - 1], fd) + (if e.Served? && e.fd == fd && e.answer.Some? then [e.answer.value] else [])
  }

  lemma OneMoreSent(es: seq<Event>, e: Event, log: seq<seq<byte>>, bytes: seq<byte>, fd: int32)
    requires |log| == |es|
    ensures SentTo(es + [e], log + [bytes], fd) == SentTo(es, log, fd) + (if e.Served? && e.fd == fd then bytes else [])
  {
    assert (es + [e])[..|es|] == es && (log + [bytes])[..|log|] == log;
  }

  lemma OneMoreAnswerTo(es: seq<Event>, e: Event, fd: int32)
    ensures AnswersTo(es + [e], fd)
         == AnswersTo(es, fd) + (if e.Served? && e.fd == fd && e.answer.Some? then [e.answer.value] else [])
  {
    assert (es + [e])[..|es|] == es;
  }

  // ---------- what a client hears ----------

  /** A client that takes one response after another until there is nothing left. */
  function HearAll(s: seq<byte>): (r: Option<seq<Client.Raw>>)
    decreases |s|
  {
    if s == [] then Some([])
    else
      var first := Client.Take(s);
      if first.None? then None
      else
        var others := HearAll(first.value.1);
        if others.None? then None else Some([first.value.0] + others.value)
  }

  function RawAll(rs: seq<Response>): (raws: seq<Client.Raw>) {
    if rs == [] then [] else RawAll(rs[..|rs| - 1]) + [Client.RawOf(rs[|rs| - 1])]
  }

  /** All that a client has heard is the welcome and then these responses; before the welcome there is nothing. */
  ghost predicate Hears(s: seq<byte>, raws: seq<Client.Raw>) {
    if s == [] then raws == []
    else |s| >= 5 && s[..5] == Connection.HandshakeReply(0) && HearAll(s[5..]) == Some(raws)
  }

  lemma TakeBefore(s: seq<byte>, more: seq<byte>)
    requires Client.Take(s).Some?
    ensures Client.Take(s + more) == Some((Client.Take(s).value.0, Client.Take(s).value.1 + more))
  {
    var t := s + more;
    assert t[..4] == s[..4] && t[4] == s[4] && t[5..9] == s[5..9] && t[9..] == s[9..] + more;
    if FromHostWord(s[..4]) != Framing.INVALID_REQUEST && s[4] == 0 {
      var n := FromBe32(s[5..9]);
      assert t[9..9 + n] == s[9..9 + n] && t[9 + n..] == s[9 + n..] + more;
    }
  }

  /** One more response at the end. */
  lemma {:induction false} HearOneMore(s: seq<byte>, bytes: seq<byte>, r: Response)
    requires HearAll(s).Some? && IsResponse(bytes, r) && |bytes| < 0x1_0000_0000
    ensures HearAll(s + bytes) == Some(HearAll(s).value + [Client.RawOf(r)])
    decreases |s|
  {
    if s == [] {
      Client.ResponseTaken(bytes, r, []);
      assert s + bytes == bytes && bytes + [] == bytes;
      assert HearAll([]) == Some([]) && Client.Take(bytes) == Some((Client.RawOf(r), []));
      assert [Client.RawOf(r)] + [] == [] + [Client.RawOf(r)];
    } else {
      TakeBefore(s, bytes);
      var (raw, rest) := Client.Take(s).value;
      HearOneMore(rest, bytes, r);
      assert [raw] + (HearAll(rest).value + [Client.RawOf(r)]) == [raw] + HearAll(rest).value + [Client.RawOf(r)];
    }
  }

  lemma RawOneMore(rs: seq<Response>, r: Response)
    ensures RawAll(rs + [r]) == RawAll(rs) + [Client.RawOf(r)]
  {
    assert (rs + [r])[..|rs|] == rs;
  }

  /** Bytes that follow do not change what was heard at the front. */
  lemma SplitAfter(s: seq<byte>, more: seq<byte>, n: nat)
    requires n <= |s|
    ensures (s + more)[..n] == s[..n] && (s + more)[n..] == s[n..] + more
  {
  }

  lemma HearsOneMore(s: seq<byte>, rs: seq<Response>, bytes: seq<byte>, r: Response)
    requires s != [] && Hears(s, RawAll(rs)) && IsResponse(bytes, r) && |bytes| < 0x1_0000_0000
    ensures Hears(s + bytes, RawAll(rs + [r]))
  {
    HearOneMore(s[5..], bytes, r);
    SplitAfter(s, bytes, 5);
    RawOneMore(rs, r);
  }

  // ---------- what the server understands of a client that follows the protocol ----------

  predicate Polite(f: Frame) {
    f.EmptyRequest? || f.Header? || f.Body? || f.Closed?
  }

  /** The beginning of a stream says nothing but what the whole says, and that the connection ends. */
  lemma {:induction false} FromWhole(version: uint16, mode: Mode, s: seq<byte>, rest: seq<byte>, k: nat)
    requires (mode.Reading? ==> mode.size > 0) && k < |Frames(version, mode, s)|
    ensures Frames(version, mode, s)[k] == Closed || Frames(version, mode, s)[k] in Frames(version, mode, s + rest)
    decreases |s|
  {
    var h := HeadOfStream(version, mode, s);
    HeadStays(version, mode, s, rest);
    if h.Goes? {
      assert (s + rest)[h.n..] == s[h.n..] + rest;
      var tail := Frames(version, h.mode, s[h.n..]);
      var whole := Frames(version, h.mode, s[h.n..] + rest);
      assert Frames(version, mode, s) == [h.frame] + tail && Frames(version, mode, s + rest) == [h.frame] + whole;
      if k > 0 {
        FromWhole(version, h.mode, s[h.n..], rest, k - 1);
        assert ([h.frame] + tail)[k] == tail[k - 1];
      }
    }
  }

  lemma {:induction false} RequestsArePolite(bodies: seq<seq<byte>>, f: Frame)
    requires ShortBodies(bodies) && f in RequestFrames(bodies)
    ensures Polite(f)
  {
    if bodies != [] && f in RequestFrames(bodies[1..]) {
      RequestsArePolite(bodies[1..], f);
    }
  }

  /** First the handshake, if it is there already, and then nothing but requests. */
  lemma PoliteFrames(version: uint16, os: seq<Options>, s: seq<byte>)
    requires AllValidOptions(os) && s <= ClientStream(version, os)
    ensures var fs := Frames(version, Greeting, s);
            fs == [Closed] || (fs[0] == Handshake(version) && forall k :: 1 <= k < |fs| ==> Polite(fs[k]))
  {
    var bodies := EncodeAll(os);
    var all := ClientStream(version, os);
    if |s| >= HANDSHAKE_SIZE {
      HandshakeFirst(version, bodies);
      var rest := all[|s|..];
      assert all == s + rest;
      HeadOf(s, rest);
      var tail := Frames(version, Ready, s[6..]);
      assert s[6..] + rest == all[6..];
      forall k | 0 <= k < |tail| ensures Polite(tail[k]) {
        FromWhole(version, Ready, s[6..], rest, k);
        ManyRequests(version, bodies);
        if tail[k] != Closed {
          RequestsArePolite(bodies, tail[k]);
        }
      }
    }
  }

  // ---------- every client hears the answers to its requests ----------

  /** What a service can say: one thing, or a header and the body behind it or the end of the server. */
  ghost predicate Forms(fs: seq<Frame>) {
    |fs| <= 2 && (|fs| == 2 ==> fs[0].Header? && (fs[1].Body? || fs[1].Exits?))
  }

  lemma ServiceForms(version: uint16, st: ConnState, avail: seq<byte>, more: seq<byte>)
    requires ValidState(version, st)
    ensures Forms(Service(version, st, avail, more).frames)
  {
  }

  /** What one more event for a client says, when the whole is polite. */
  ghost predicate NextPolite(version: uint16, before: seq<Frame>, now: seq<Frame>) {
    && Forms(now)
    && (before == [] && now != [] ==> now == [Handshake(version)] || now == [Closed])
    && (before != [] && now != [] ==> before[0] == Handshake(version) && forall k :: 0 <= k < |now| ==> Polite(now[k]))
  }

  lemma NextIsPolite(version: uint16, os: seq<Options>, s: seq<byte>, before: seq<Frame>, now: seq<Frame>)
    requires AllValidOptions(os) && s <= ClientStream(version, os) && before + now <= Frames(version, Greeting, s)
    requires Forms(now)
    ensures NextPolite(version, before, now)
  {
    PoliteFrames(version, os, s);
    var all := Frames(version, Greeting, s);
    if now != [] {
      assert (before + now)[0] == all[0] && (before + now)[|before|] == now[0];
      forall k | 0 <= k < |now| ensures now[k] == all[|before| + k] {
        assert (before + now)[|before| + k] == now[k];
      }
    }
  }

  /** A header comes alone or with a body, and a body is a request. */
  lemma BodyIsRequest(now: seq<Frame>)
    ensures Forms(now) && |now| == 2 && Polite(now[1]) ==> RequestIn(now).Some?
  {
  }

  lemma RepliesToPolite(version: uint16, now: seq<Frame>)
    requires Forms(now) && RequestIn(now).None?
    requires forall k :: 0 <= k < |now| ==> Polite(now[k])
    ensures Connection.Replies(version, now) == []
  {
    BodyIsRequest(now);
    if |now| == 1 {
      assert now == [now[0]];
      Connection.OneReply(version, now[0]);
    }
  }

  /** A client has heard the welcome exactly if the server has understood its handshake. */
  ghost predicate Hearing(version: uint16, fs: seq<Frame>, s: seq<byte>, rs: seq<Response>) {
    Hears(s, RawAll(rs)) && (s != [] <==> fs != [] && fs[0] == Handshake(version))
  }

  /** An event that is answered. */
  lemma HearingAnswer(version: uint16, fs: seq<Frame>, now: seq<Frame>, s: seq<byte>, rs: seq<Response>, bytes: seq<byte>, r: Response)
    requires Hearing(version, fs, s, rs) && NextPolite(version, fs, now) && RequestIn(now).Some?
    requires IsResponse(bytes, r) && |bytes| < 0x1_0000_0000
    ensures Hearing(version, fs + now, s + bytes, rs + [r])
  {
    HearsOneMore(s, rs, bytes, r);
  }

  /** An event that is not. */
  lemma HearingReply(version: uint16, fs: seq<Frame>, now: seq<Frame>, s: seq<byte>, rs: seq<Response>, bytes: seq<byte>)
    requires Hearing(version, fs, s, rs) && NextPolite(version, fs, now)
    requires RequestIn(now).None? && bytes == Connection.Replies(version, now)
    ensures Hearing(version, fs + now, s + bytes, rs)
  {
    if now == [Handshake(version)] {
      Connection.OneReply(version, now[0]);
      assert s + bytes == bytes && bytes[5..] == [];
    } else {
      RepliesToPolite(version, now);
      assert s + bytes == s;
    }
  }

  lemma LoggedBefore(version: uint16, es: seq<Event>, e: Event, log: seq<seq<byte>>)
    requires Logged(version, es + [e], log)
    ensures |log| == |es| + 1 && log == log[..|es|] + [log[|es|]]
    ensures Logged(version, es, log[..|es|]) && Sends(version, e, log[|es|])
  {
    assert (es + [e])[|es|] == e;
    forall k | 0 <= k < |es| ensures Sends(version, es[k], log[k]) {
      assert (es + [e])[k] == es[k];
    }
  }

  lemma OneMoreLogged(version: uint16, es: seq<Event>, e: Event, log: seq<seq<byte>>, bytes: seq<byte>)
    requires Logged(version, es, log) && Sends(version, e, bytes)
    ensures Logged(version, es + [e], log + [bytes])
  {
  }

  /** One turn, for the client that is served in it. */
  lemma HearingTurn(c: Server, input: Input, fd: int32, fs: seq<Frame>, s: seq<byte>, rs: seq<Response>, bytes: seq<byte>)
    requires Inv(c) && Turn(c, input).0.status == Running && Hearing(c.version, fs, s, rs)
    requires var e := Turn(c, input).1;
             e.Served? && NextPolite(c.version, fs, e.frames) && Sends(c.version, e, bytes)
    ensures var e := Turn(c, input).1;
            Hearing(c.version, fs + e.frames, s + bytes, rs + if e.answer.Some? then [e.answer.value] else [])
  {
    var e := Turn(c, input).1;
    AnswerOfTurn(c, input);
    if e.answer.Some? {
      ResponseFits(c.store, BodyOf(e).value);
      HearingAnswer(c.version, fs, e.frames, s, rs, bytes, e.answer.value);
    } else {
      HearingReply(c.version, fs, e.frames, s, rs, bytes);
      assert rs + [] == rs;
    }
  }

  lemma TurnForms(c: Server, input: Input)
    requires Inv(c)
    ensures var e := Turn(c, input).1; e.Served? ==> Forms(e.frames)
  {
    if c.slot < |c.pfds| && Serves(c, input, c.pfds[c.slot]) {
      StepServes(c, input, c.pfds[c.slot]);
      ServiceForms(c.version, c.clients[c.pfds[c.slot]].st, input.avail, input.more);
    }
  }

  lemma HearingStep(c: Server, input: Input, es: seq<Event>, log: seq<seq<byte>>, bytes: seq<byte>, fd: int32)
    requires Inv(c) && Turn(c, input).0.status == Running && |log| == |es|
    requires Hearing(c.version, FramesOf(es, fd), SentTo(es, log, fd), AnswersTo(es, fd))
    requires var e := Turn(c, input).1;
             Sends(c.version, e, bytes) && (e.Served? && e.fd == fd ==> NextPolite(c.version, FramesOf(es, fd), e.frames))
    ensures var es' := es + [Turn(c, input).1];
            Hearing(c.version, FramesOf(es', fd), SentTo(es', log + [bytes], fd), AnswersTo(es', fd))
  {
    var e := Turn(c, input).1;
    OneMore(es, e, fd);
    OneMoreSent(es, e, log, bytes, fd);
    OneMoreAnswerTo(es, e, fd);
    if e.Served? && e.fd == fd {
      HearingTurn(c, input, fd, FramesOf(es, fd), SentTo(es, log, fd), AnswersTo(es, fd), bytes);
    } else {
      assert FramesOf(es + [e], fd) == FramesOf(es, fd);
      assert SentTo(es + [e], log + [bytes], fd) == SentTo(es, log, fd) && AnswersTo(es + [e], fd) == AnswersTo(es, fd);
    }
  }

  lemma TurnPolite(c0: Server, inputs: seq<Input>, input: Input, fd: int32, os: seq<Options>)
    requires Init(c0) && AllValidOptions(os)
    requires Received(History(c0, inputs) + [Turn(After(c0, inputs), input).1], fd) <= ClientStream(c0.version, os)
    ensures var e := Turn(After(c0, inputs), input).1;
            e.Served? && e.fd == fd ==> NextPolite(c0.version, FramesOf(History(c0, inputs), fd), e.frames)
  {
    var c, es := After(c0, inputs), History(c0, inputs);
    var e := Turn(c, input).1;
    OneMore(es, e, fd);
    assert (inputs + [input])[..|inputs|] == inputs;
    NothingInvented(c0, inputs + [input], fd);
    TurnForms(c, input);
    if e.Served? && e.fd == fd {
      NextIsPolite(c0.version, os, Received(es + [e], fd), FramesOf(es, fd), e.frames);
    }
  }

  lemma HearingNext(c0: Server, inputs: seq<Input>, input: Input, log: seq<seq<byte>>, bytes: seq<byte>, fd: int32, os: seq<Options>)
    requires Init(c0) && AllValidOptions(os) && |log| == |inputs|
    requires Turn(After(c0, inputs), input).0.status == Running
    requires var es, e := History(c0, inputs), Turn(After(c0, inputs), input).1;
             && Sends(c0.version, e, bytes) && Received(es + [e], fd) <= ClientStream(c0.version, os)
             && Hearing(c0.version, FramesOf(es, fd), SentTo(es, log, fd), AnswersTo(es, fd))
    ensures var es := History(c0, inputs) + [Turn(After(c0, inputs), input).1];
            Hearing(c0.version, FramesOf(es, fd), SentTo(es, log + [bytes], fd), AnswersTo(es, fd))
  {
    TurnPolite(c0, inputs, input, fd, os);
    HearingStep(After(c0, inputs), input, History(c0, inputs), log, bytes, fd);
  }

  /** A client that follows the protocol hears the welcome and then the answers to its requests, and nothing else,
      whatever the other clients do. */
  lemma {:induction false} ClientHears(c0: Server, inputs: seq<Input>, log: seq<seq<byte>>, fd: int32, os: seq<Options>)
    requires Init(c0) && After(c0, inputs).status == Running && AllValidOptions(os)
    ensures var es := History(c0, inputs);
            Logged(c0.version, es, log) && Received(es, fd) <= ClientStream(c0.version, os) ==>
            Hearing(c0.version, FramesOf(es, fd), SentTo(es, log, fd), AnswersTo(es, fd))
    decreases |inputs|
  {
    var all := History(c0, inputs);
    if inputs != [] && Logged(c0.version, all, log) && Received(all, fd) <= ClientStream(c0.version, os) {
      var before, input := inputs[..|inputs| - 1], inputs[|inputs| - 1];
      var c, es := After(c0, before), History(c0, before);
      var e, n := Turn(c, input).1, |inputs| - 1;
      LoggedBefore(c0.version, es, e, log);
      OneMore(es, e, fd);
      ClientHears(c0, before, log[..n], fd, os);
      HearingNext(c0, before, input, log[..n], log[n], fd, os);
    }
  }

  // ---------- what a client hears that does not get as far as a request ----------

  lemma OneMoreReply(version: uint16, es: seq<Event>, e: Event, log: seq<seq<byte>>, bytes: seq<byte>, fd: int32)
    requires |log| == |es| && Sends(version, e, bytes) && AnswersTo(es + [e], fd) == []
    requires AnswersTo(es, fd) == [] ==> SentTo(es, log, fd) == Connection.Replies(version, FramesOf(es, fd))
    ensures SentTo(es + [e], log + [bytes], fd) == Connection.Replies(version, FramesOf(es + [e], fd))
  {
    OneMore(es, e, fd);
    OneMoreSent(es, e, log, bytes, fd);
    OneMoreAnswerTo(es, e, fd);
    Connection.RepliesBoth(version, FramesOf(es, fd), if e.Served? && e.fd == fd then e.frames else []);
  }

  /** Without an answer of the database there are only replies. */
  lemma {:induction false} OnlyReplies(version: uint16, es: seq<Event>, log: seq<seq<byte>>, fd: int32)
    requires Logged(version, es, log)
    ensures AnswersTo(es, fd) == [] ==> SentTo(es, log, fd) == Connection.Replies(version, FramesOf(es, fd))
  {
    if es != [] && AnswersTo(es, fd) == [] {
      var n := |es| - 1;
      OnlyReplies(version, es[..n], log[..n], fd);
      LastApart(es);
      LastApart(log);
      OneMoreReply(version, es[..n], es[n], log[..n], log[n], fd);
    }
  }

  lemma {:induction false} NoRequestNoAnswer(c0: Server, inputs: seq<Input>, fd: int32)
    requires Inv(c0)
    ensures var es := History(c0, inputs); BodiesFrom(es, fd) == [] ==> AnswersTo(es, fd) == []
    decreases |inputs|
  {
    if inputs != [] {
      var before, input := inputs[..|inputs| - 1], inputs[|inputs| - 1];
      var es, e := History(c0, before), Turn(After(c0, before), input).1;
      NoRequestNoAnswer(c0, before, fd);
      OneMoreFrom(es, e, fd);
      OneMoreAnswerTo(es, e, fd);
      AnsweredRequest(After(c0, before), input);
    }
  }

  lemma AnsweredRequest(c: Server, input: Input)
    requires Inv(c)
    ensures var e := Turn(c, input).1; e.Served? && e.answer.Some? ==> BodyOf(e).Some?
  {
    if c.slot < |c.pfds| && Serves(c, input, c.pfds[c.slot]) {
      StepServes(c, input, c.pfds[c.slot]);
    }
  }

  /** Whatever a client sends, as long as no request is in it: it hears the replies to what its bytes say. */
  lemma RepliesHeard(c0: Server, inputs: seq<Input>, log: seq<seq<byte>>, fd: int32)
    requires Init(c0) && After(c0, inputs).status == Running && Logged(c0.version, History(c0, inputs), log)
    ensures var es := History(c0, inputs);
            var all := Frames(c0.version, Greeting, Received(es, fd));
            BodiesIn(all) == [] ==> SentTo(es, log, fd) == Connection.Replies(c0.version, all)
  {
    var es := History(c0, inputs);
    AllCompleted(c0, inputs, fd);
    AllUnderstood(c0, inputs, fd);
    NoRequestNoAnswer(c0, inputs, fd);
    OnlyReplies(c0.version, es, log, fd);
    Connection.RepliesBoth(c0.version, FramesOf(es, fd), [Closed]);
    Connection.OneReply(c0.version, Closed);
  }

  lemma OtherVersionIsTold(version: uint16, v: uint16, s: seq<byte>)
    requires v != version && HandshakeBytes(v) <= s
    ensures var all := Frames(version, Greeting, s);
            BodiesIn(all) == [] && Connection.Replies(version, all) == Connection.HandshakeReply(1)
  {
    HandshakeFirst(v, []);
    HeadOf(HandshakeBytes(v), s[HANDSHAKE_SIZE..]);
    assert s == HandshakeBytes(v) + s[HANDSHAKE_SIZE..] && HandshakeBytes(v) + [] == HandshakeBytes(v);
    assert Frames(version, Greeting, s) == [Handshake(v), Closed];
    BodiesInTwo(Handshake(v), Closed);
    Connection.TwoReplies(version, Handshake(v), Closed);
  }

  lemma TooShortIsSilent(version: uint16, s: seq<byte>)
    requires |s| < HANDSHAKE_SIZE
    ensures var all := Frames(version, Greeting, s); BodiesIn(all) == [] && Connection.Replies(version, all) == []
  {
    BodiesInCons(Closed, []);
    Connection.OneReply(version, Closed);
  }

  lemma OtherTypeIsTold(version: uint16, s: seq<byte>)
    requires |s| == HANDSHAKE_SIZE && s[..4] != [0, 0, 0, 0]
    ensures var all := Frames(version, Greeting, s);
            BodiesIn(all) == [] && Connection.Replies(version, all) == HostWord(INVALID_REQUEST)
  {
    FromHostWordPlaces(s[..4]);
    var f := NotHandshake(Tag(s));
    assert s[6..] == [] && Frames(version, Greeting, s) == [f, Closed];
    BodiesInTwo(f, Closed);
    Connection.TwoReplies(version, f, Closed);
  }

  /** A client that announces another version is told so by flag 1, once its handshake is complete, and hears nothing
      else whatever it sends. */
  lemma OtherVersionHears(c0: Server, inputs: seq<Input>, log: seq<seq<byte>>, fd: int32, v: uint16)
    requires Init(c0) && After(c0, inputs).status == Running && Logged(c0.version, History(c0, inputs), log)
    requires v != c0.version
    ensures HandshakeBytes(v) <= Received(History(c0, inputs), fd) ==> SentTo(History(c0, inputs), log, fd) == [1, 0, 0, 0, 1]
    ensures |Received(History(c0, inputs), fd)| < HANDSHAKE_SIZE ==> SentTo(History(c0, inputs), log, fd) == []
  {
    var s := Received(History(c0, inputs), fd);
    RepliesHeard(c0, inputs, log, fd);
    if HandshakeBytes(v) <= s {
      OtherVersionIsTold(c0.version, v, s);
      Connection.ReplyBytes(1);
    } else if |s| < HANDSHAKE_SIZE {
      TooShortIsSilent(c0.version, s);
    }
  }

  /** A client that begins with six bytes of another type is told that its request is invalid. */
  lemma OtherTypeHears(c0: Server, inputs: seq<Input>, log: seq<seq<byte>>, fd: int32)
    requires Init(c0) && After(c0, inputs).status == Running && Logged(c0.version, History(c0, inputs), log)
    ensures var s := Received(History(c0, inputs), fd);
            |s| == HANDSHAKE_SIZE && s[..4] != [0, 0, 0, 0] ==> SentTo(History(c0, inputs), log, fd) == [4, 0, 0, 0]
  {
    var s := Received(History(c0, inputs), fd);
    RepliesHeard(c0, inputs, log, fd);
    if |s| == HANDSHAKE_SIZE && s[..4] != [0, 0, 0, 0] {
      OtherTypeIsTold(c0.version, s);
      Connection.ReplyBytes(0);
    }
  }

  // ---------- what it makes of them ----------

  function DecodeAll(raws: seq<Client.Raw>): (r: seq<Option<Client.Answer>>) {
    if raws == [] then [] else DecodeAll(raws[..|raws| - 1]) + [Client.Decode(raws[|raws| - 1])]
  }

  /** What should be understood of the answers to these requests, each on the employees that the ones before it leave. */
  ghost function MeantAnswers(es: seq<Employee>, os: seq<Options>): (r: seq<Option<Client.Answer>>)
    ensures |r| == |os|
  {
    if os == [] then []
    else
      var n := |os| - 1;
      MeantAnswers(es, os[..n]) + [Client.Understood(MeaningAll(es, os[..n]), os[n])]
  }

  /** What a client makes of one more response. */
  lemma DecodeOneMore(rs: seq<Response>, r: Response)
    ensures DecodeAll(RawAll(rs + [r])) == DecodeAll(RawAll(rs)) + [Client.Decode(Client.RawOf(r))]
  {
    RawOneMore(rs, r);
    assert (RawAll(rs) + [Client.RawOf(r)])[..|RawAll(rs)|] == RawAll(rs);
  }

  ghost predicate Decodes(rs: seq<Response>, answers: seq<Option<Client.Answer>>) {
    |rs| == |answers| && forall i :: 0 <= i < |rs| ==> Client.Decode(Client.RawOf(rs[i])) == answers[i]
  }

  lemma DecodesOneMore(rs: seq<Response>, answers: seq<Option<Client.Answer>>, r: Response)
    requires Decodes(rs, answers)
    ensures Decodes(rs + [r], answers + [Client.Decode(Client.RawOf(r))])
  {
  }

  lemma {:induction false} MeantDecodes(es: seq<Employee>, os: seq<Options>)
    requires AllValid(es) && AllValidOptions(os)
    ensures Decodes(MeantResponses(es, os), MeantAnswers(es, os))
    decreases |os|
  {
    if os != [] {
      var n := |os| - 1;
      var before := MeaningAll(es, os[..n]);
      MeantDecodes(es, os[..n]);
      MeaningAllKeepsValid(es, os[..n]);
      Client.MeaningDecoded(before, os[n]);
      DecodesOneMore(MeantResponses(es, os[..n]), MeantAnswers(es, os[..n]), Meaning(before, os[n]).response);
    }
  }

  /** A client that decodes its share of the responses understands its share of the answers. */
  lemma {:induction false} DecodedShare(rs: seq<Response>, answers: seq<Option<Client.Answer>>, owners: seq<int32>, fd: int32)
    requires Decodes(rs, answers) && |owners| == |rs|
    ensures DecodeAll(RawAll(Select(rs, owners, fd))) == Select(answers, owners, fd)
    decreases |rs|
  {
    if rs != [] {
      var n := |rs| - 1;
      DecodedShare(rs[..n], answers[..n], owners[..n], fd);
      if owners[n] == fd {
        DecodeOneMore(Select(rs[..n], owners[..n], fd), rs[n]);
      } else {
        assert Select(rs, owners, fd) == Select(rs[..n], owners[..n], fd);
        assert Select(answers, owners, fd) == Select(answers[..n], owners[..n], fd);
      }
    }
  }

  // ---------- whose answers they are ----------

  /** The clients whose requests have been completed, in the order of completion. */
  ghost function Owners(es: seq<Event>): (fds: seq<int32>) {
    if es == [] then []
    else
      var e := es[|es| - 1];
      Owners(es[..|es| - 1]) + (if BodyOf(e).Some? then [e.fd] else [])
  }

  /** Of a list that goes along with a list of owners, what belongs to fd. */
  ghost function Select<T>(xs: seq<T>, owners: seq<int32>, fd: int32): (r: seq<T>)
    requires |xs| == |owners|
  {
    if xs == [] then []
    else
      var n := |xs| - 1;
      Select(xs[..n], owners[..n], fd) + (if owners[n] == fd then [xs[n]] else [])
  }

  lemma SelectOneMore<T>(xs: seq<T>, owners: seq<int32>, x: T, owner: int32, fd: int32)
    requires |xs| == |owners|
    ensures Select(xs + [x], owners + [owner], fd) == Select(xs, owners, fd) + if owner == fd then [x] else []
  {
    assert (xs + [x])[..|xs|] == xs && (owners + [owner])[..|xs|] == owners;
  }

  lemma OneMoreOwner(es: seq<Event>, e: Event)
    ensures Owners(es + [e]) == if BodyOf(e).Some? then Owners(es) + [e.fd] else Owners(es)
  {
    assert (es + [e])[..|es|] == es;
  }

  lemma {:induction false} OwnBodies(es: seq<Event>, fd: int32)
    ensures |Owners(es)| == |Bodies(es)| && BodiesFrom(es, fd) == Select(Bodies(es), Owners(es), fd)
  {
    if es != [] {
      var e, before := es[|es| - 1], es[..|es| - 1];
      assert es == before + [e];
      OwnBodies(before, fd);
      OneMoreOwner(before, e);
      OneMoreBody(before, e);
      OneMoreFrom(before, e, fd);
      if BodyOf(e).Some? {
        SelectOneMore(Bodies(before), Owners(before), BodyOf(e).value, e.fd, fd);
      }
    }
  }

  /** Every completed request, and nothing else, has been answered. */
  ghost predicate AllAnswered(es: seq<Event>) {
    forall e :: e in es && e.Served? ==> (e.answer.Some? <==> BodyOf(e).Some?)
  }

  lemma {:induction false} RunAnswersAll(c0: Server, inputs: seq<Input>)
    requires Init(c0) && After(c0, inputs).status == Running
    ensures AllAnswered(History(c0, inputs))
    decreases |inputs|
  {
    if inputs != [] {
      var before, input := inputs[..|inputs| - 1], inputs[|inputs| - 1];
      RunAnswersAll(c0, before);
      AnswerOfTurn(After(c0, before), input);
    }
  }

  lemma {:induction false} OwnAnswers(es: seq<Event>, fd: int32)
    requires AllAnswered(es)
    ensures |Answers(es)| == |Owners(es)| && AnswersTo(es, fd) == Select(Answers(es), Owners(es), fd)
  {
    if es != [] {
      var e, before := es[|es| - 1], es[..|es| - 1];
      assert es == before + [e] && e in es;
      OwnAnswers(before, fd);
      OneMoreOwner(before, e);
      OneMoreAnswer(before, e);
      OneMoreAnswerTo(before, e, fd);
      if BodyOf(e).Some? {
        assert Answers(es) == Answers(before) + [e.answer.value] && Owners(es) == Owners(before) + [e.fd];
        SelectOneMore(Answers(before), Owners(before), e.answer.value, e.fd, fd);
      } else {
        assert Answers(es) == Answers(before) && AnswersTo(es, fd) == AnswersTo(before, fd);
      }
    }
  }

  /** What one client can tell of a run in which the requests os were carried out one after another: the ones that
      are its own are exactly those of its requests that have arrived, in its order; it has heard exactly what they
      mean where they stand, and understands of that what should be shown. */
  ghost predicate Satisfied(c0: Server, es: seq<Event>, log: seq<seq<byte>>, os: seq<Options>, fd: int32, own: seq<Options>)
    requires |log| == |es| && AllValidOptions(own)
  {
    var es0 := c0.store.employees;
    && |Owners(es)| == |Bodies(es)| == |MeantResponses(es0, os)| == |os|
    && Select(Bodies(es), Owners(es), fd) == EncodeAll(own[..Arrived(c0.version, own, Received(es, fd))])
    && var raws := RawAll(Select(MeantResponses(es0, os), Owners(es), fd));
       && Hears(SentTo(es, log, fd), raws)
       && (AllValid(es0) ==> DecodeAll(raws) == Select(MeantAnswers(es0, os), Owners(es), fd))
  }

  lemma {:induction false} MeantCount(es: seq<Employee>, os: seq<Options>)
    ensures |MeantResponses(es, os)| == |os|
    decreases |os|
  {
    if os != [] {
      MeantCount(es, os[..|os| - 1]);
    }
  }

  lemma ClientSatisfied(c0: Server, inputs: seq<Input>, log: seq<seq<byte>>, os: seq<Options>, fd: int32, own: seq<Options>)
    requires Init(c0) && After(c0, inputs).status == Running && AllValidOptions(own)
    requires Encodes(os, Bodies(History(c0, inputs))) && Logged(c0.version, History(c0, inputs), log)
    ensures Received(History(c0, inputs), fd) <= ClientStream(c0.version, own) ==>
            Satisfied(c0, History(c0, inputs), log, os, fd, own)
  {
    var es := History(c0, inputs);
    if Received(es, fd) <= ClientStream(c0.version, own) {
      OwnBodies(es, fd);
      RunAnswersAll(c0, inputs);
      OwnAnswers(es, fd);
      MeantCount(c0.store.employees, os);
      AnswersOfRun(c0, inputs, os);
      CompletedExactly(c0, inputs, fd, own);
      ClientHears(c0, inputs, log, fd, own);
      if AllValid(c0.store.employees) {
        MeantDecodes(c0.store.employees, os);
        DecodedShare(Answers(es), MeantAnswers(c0.store.employees, os), Owners(es), fd);
      }
    }
  }

  // ---------- the server stays up ----------

  /** The employees once the add option of a body, if it starts with one, has been carried out. */
  ghost function AddedBy(es: seq<Employee>, body: seq<byte>): seq<Employee> {
    if body != [] && body[0] == Requests.ADD && Requests.TakeAdd(body[1..]).Some?
    then es + [Requests.TakeAdd(body[1..]).value.0] else es
  }

  /** Whenever a request completes, a response that lists all employees would be shorter than 2^32 - 1 bytes, before and
      after its add option. */
  ghost predicate RoomKept(c0: Server, inputs: seq<Input>)
    requires Inv(c0)
  {
    inputs == [] ||
    var before := inputs[..|inputs| - 1];
    var es, body := After(c0, before).store.employees, BodyOf(Turn(After(c0, before), inputs[|inputs| - 1]).1);
    RoomKept(c0, before) && (body.Some? ==> RoomToAnswer(es) && RoomToAnswer(AddedBy(es, body.value)))
  }

  lemma AddedByEncoding(es: seq<Employee>, o: Options)
    requires Requests.ValidOptions(o)
    ensures AddedBy(es, Requests.Encode(o)) == Added(es, o)
  {
    PartsStart(o);
    var rest := Requests.UpdatePart(o.update) + (Requests.DeletePart(o.delete) + Requests.ListPart(o.list));
    if o.add.Some? {
      Requests.AddRoundTrip(o.add.value, rest);
    } else {
      assert [] + rest == rest;
    }
  }

  /** A client that follows the protocol never makes the server end itself. */
  lemma NoExit(version: uint16, os: seq<Options>, s: seq<byte>, before: seq<Frame>, now: seq<Frame>)
    requires AllValidOptions(os) && s <= ClientStream(version, os) && before + now <= Frames(version, Greeting, s)
    ensures Exits !in now
  {
    PoliteFrames(version, os, s);
    var all := Frames(version, Greeting, s);
    forall k | 0 <= k < |now| ensures now[k] != Exits {
      assert (before + now)[|before| + k] == now[k] == all[|before| + k];
    }
  }

  lemma SettledRunning(c: Server, fd: int32, o: Framing.Outcome)
    requires Inv(c) && fd in c.clients && c.status == Running && Exits !in o.frames
    requires Completed(o.frames).Some? ==> Survived(Interpret(c.store, Completed(o.frames).value))
    ensures Settle(c, fd, o).status == Running
  {
  }

  lemma TurnRunning(c: Server, input: Input)
    requires Inv(c) && c.status == Running
    requires var e := Turn(c, input).1;
             e.Served? ==> Exits !in e.frames && (BodyOf(e).Some? ==> Survived(Interpret(c.store, BodyOf(e).value)))
    ensures Turn(c, input).0.status == Running
  {
    if c.slot < |c.pfds| && Serves(c, input, c.pfds[c.slot]) {
      var fd := c.pfds[c.slot];
      var o := Service(c.version, c.clients[fd].st, input.avail, input.more);
      StepServes(c, input, fd);
      SlotInv(c, c.slot + 1);
      RequestOrBody(o.frames);
      SettledRunning(c.(slot := c.slot + 1), fd, o);
    }
  }

  lemma ProtocolBefore(version: uint16, es: seq<Event>, e: Event, sent: int32 -> seq<Options>)
    requires FollowProtocol(version, es + [e], sent)
    ensures FollowProtocol(version, es, sent)
  {
    forall fd ensures Received(es, fd) <= ClientStream(version, sent(fd)) {
      OneMore(es, e, fd);
    }
  }

  /** The body that completes in a turn is a request of its client. */
  lemma RequestDecoded(c0: Server, inputs: seq<Input>, input: Input, os: seq<Options>) returns (o: Options)
    requires Init(c0) && AllValidOptions(os)
    requires var e := Turn(After(c0, inputs), input).1;
             e.Served? && BodyOf(e).Some? && Received(History(c0, inputs) + [e], e.fd) <= ClientStream(c0.version, os)
    ensures Requests.ValidOptions(o) && BodyOf(Turn(After(c0, inputs), input).1) == Some(Requests.Encode(o))
  {
    var es, e := History(c0, inputs), Turn(After(c0, inputs), input).1;
    assert (inputs + [input])[..|inputs|] == inputs;
    ClientOrder(c0, inputs + [input], e.fd, os);
    OneMoreFrom(es, e, e.fd);
    assert BodyOf(e).value in BodiesFrom(es + [e], e.fd);
    o := SomeRequest(os, BodyOf(e).value);
  }

  lemma CarriedOut(st: Store, o: Options)
    requires Requests.ValidOptions(o)
    requires RoomToAnswer(st.employees) && RoomToAnswer(AddedBy(st.employees, Requests.Encode(o)))
    ensures Survived(Interpret(st, Requests.Encode(o)))
  {
    AddedByEncoding(st.employees, o);
    RequestSurvived(st, o);
  }

  /** After a request that it has carried out the server ends itself exactly if the response was 2^32 - 1 bytes long;
      that response has been sent, and the employees are what the request made of them. */
  lemma CarriedOutEnds(c: Server, input: Input, o: Framing.Outcome)
    requires Inv(c) && c.slot < |c.pfds| && Serves(c, input, c.pfds[c.slot])
    requires o == Service(c.version, c.clients[c.pfds[c.slot]].st, input.avail, input.more)
    requires RequestIn(o.frames).Some? && Interpret(c.store, RequestIn(o.frames).value).Done?
    ensures var (c', e) := Turn(c, input);
            var r := Interpret(c.store, RequestIn(o.frames).value);
            && (c'.status == Exited <==> ResponseLength(r.response) == 0xffff_ffff)
            && (c'.status == Running <==> ResponseLength(r.response) != 0xffff_ffff)
            && c'.store == r.store && e == Served(c.pfds[c.slot], e.consumed, o.frames, Some(r.response))
  {
    StepServes(c, input, c.pfds[c.slot]);
    FatalLength(c.store, RequestIn(o.frames).value);
    RequestOrBody(o.frames);
    InterpretNothing(c.store);
  }

  /** As long as the clients follow the protocol and there is room in 32 bits, the server keeps running. */
  lemma {:induction false} KeepsRunning(c0: Server, inputs: seq<Input>, sent: int32 -> seq<Options>)
    requires Init(c0) && RoomKept(c0, inputs)
    ensures FollowProtocol(c0.version, History(c0, inputs), sent) ==> After(c0, inputs).status == Running
    decreases |inputs|
  {
    if inputs != [] && FollowProtocol(c0.version, History(c0, inputs), sent) {
      var before, input := inputs[..|inputs| - 1], inputs[|inputs| - 1];
      var c, es := After(c0, before), History(c0, before);
      var e := Turn(c, input).1;
      assert before + [input] == inputs && History(c0, inputs) == es + [e];
      ProtocolBefore(c0.version, es, e, sent);
      KeepsRunning(c0, before, sent);
      if e.Served? {
        OneMore(es, e, e.fd);
        NothingInvented(c0, inputs, e.fd);
        NoExit(c0.version, sent(e.fd), Received(es + [e], e.fd), FramesOf(es, e.fd), e.frames);
        if BodyOf(e).Some? {
          var o := RequestDecoded(c0, before, input, sent(e.fd));
          CarriedOut(c.store, o);
        }
      }
      TurnRunning(c, input);
    }
  }

  /** What holds of a whole run in this respect held at any earlier time. */
  lemma {:induction false} EarlierRun(c0: Server, inputs: seq<Input>, k: nat, sent: int32 -> seq<Options>)
    requires Init(c0) && RoomKept(c0, inputs) && FollowProtocol(c0.version, History(c0, inputs), sent) && k <= |inputs|
    ensures RoomKept(c0, inputs[..k]) && FollowProtocol(c0.version, History(c0, inputs[..k]), sent)
    decreases |inputs|
  {
    if k < |inputs| {
      var before, input := inputs[..|inputs| - 1], inputs[|inputs| - 1];
      ProtocolBefore(c0.version, History(c0, before), Turn(After(c0, before), input).1, sent);
      EarlierRun(c0, before, k, sent);
      assert before[..k] == inputs[..k];
    } else {
      assert inputs[..k] == inputs;
    }
  }

  /** The largest record. */
  const RECORD_MAX: nat := 131078

  lemma MeaningGrows(es: seq<Employee>, o: Options)
    ensures |Records(Added(es, o))| <= |Records(es)| + RECORD_MAX
    ensures |Records(Meaning(es, o).employees)| <= |Records(es)| + RECORD_MAX
  {
    if o.add.Some? {
      RecordsSnoc(es, o.add.value);
    }
    var es1 := Added(es, o);
    if UpdateFinds(es1, o) {
      if o.update.Some? {
        SizeAfterSetHours(es1, FirstNamed(es1, o.update.value.name), o.update.value.hours);
      }
      var es2 := Updated(es1, o);
      if o.delete.Some? && DeleteFinds(es2, o) {
        SizeAfterSwapRemove(es2, FirstNamed(es2, o.delete.value));
      }
    }
  }

  lemma StoreGrows(st: Store, o: Options)
    requires |st.employees| < 0x1_0000_0000 && Requests.ValidOptions(o)
    ensures |Records(AddedBy(st.employees, Requests.Encode(o)))| <= |Records(st.employees)| + RECORD_MAX
    ensures var r := Interpret(st, Requests.Encode(o));
            r.Done? ==> |Records(r.store.employees)| <= |Records(st.employees)| + RECORD_MAX
  {
    AddedByEncoding(st.employees, o);
    MeaningGrows(st.employees, o);
    RequestMeaning(st, o);
  }

  /** No turn adds more than one record, so a run short enough keeps enough room. */
  lemma {:induction false} ShortRunHasRoom(c0: Server, inputs: seq<Input>, sent: int32 -> seq<Options>)
    requires Init(c0) && RESPONSE_HEADER + |Records(c0.store.employees)| + |inputs| * RECORD_MAX < 0xffff_ffff
    ensures FollowProtocol(c0.version, History(c0, inputs), sent) ==>
            RoomKept(c0, inputs)
            && |Records(After(c0, inputs).store.employees)| <= |Records(c0.store.employees)| + |inputs| * RECORD_MAX
    decreases |inputs|
  {
    if inputs != [] && FollowProtocol(c0.version, History(c0, inputs), sent) {
      var before, input := inputs[..|inputs| - 1], inputs[|inputs| - 1];
      var c, es := After(c0, before), History(c0, before);
      var e := Turn(c, input).1;
      assert before + [input] == inputs && History(c0, inputs) == es + [e];
      ProtocolBefore(c0.version, es, e, sent);
      ShortRunHasRoom(c0, before, sent);
      if e.Served? && BodyOf(e).Some? {
        var o := RequestDecoded(c0, before, input, sent(e.fd));
        StoreGrows(c.store, o);
      }
      KeepsRunning(c0, inputs, sent);
      StoreAfterTurn(c, input);
    }
  }

  // ---------- all of it ----------

  /** The requests os, carried out one after another, are all that has happened in a run and all that has been heard. */
  ghost predicate AllSatisfied(c0: Server, inputs: seq<Input>, log: seq<seq<byte>>, os: seq<Options>, sent: int32 -> seq<Options>)
    requires Init(c0)
  {
    var es := History(c0, inputs);
    && |log| == |es| && RequestsFor(sent, os, Bodies(es))
    && After(c0, inputs).store.employees == MeaningAll(c0.store.employees, os)
    && forall fd :: AllValidOptions(sent(fd)) && Satisfied(c0, es, log, os, fd, sent(fd))
  }

  /** When all clients follow the protocol and there is room, the server keeps running, and there is one order of all
      completed requests such that the employees are what they mean one after another, and every client has heard
      exactly what its own requests mean in it. */
  lemma EveryClientSatisfied(c0: Server, inputs: seq<Input>, log: seq<seq<byte>>, sent: int32 -> seq<Options>)
    returns (os: seq<Options>)
    requires Init(c0) && RoomKept(c0, inputs)
    requires FollowProtocol(c0.version, History(c0, inputs), sent) && Logged(c0.version, History(c0, inputs), log)
    ensures After(c0, inputs).status == Running && AllSatisfied(c0, inputs, log, os, sent)
  {
    KeepsRunning(c0, inputs, sent);
    os := ProtocolRun(c0, inputs, sent);
    forall fd ensures Satisfied(c0, History(c0, inputs), log, os, fd, sent(fd)) {
      ClientSatisfied(c0, inputs, log, os, fd, sent(fd));
    }
  }

  /** A server that stops before the end of a run only if it has ended itself does not stop then. */
  lemma SatisfiedInTheEnd(c0: Server, inputs: seq<Input>, log: seq<seq<byte>>, sent: int32 -> seq<Options>)
    returns (os: seq<Options>)
    requires Init(c0) && |log| <= |inputs| && Logged(c0.version, History(c0, inputs[..|log|]), log)
    requires After(c0, inputs[..|log|]).status == Running ==> |log| == |inputs|
    ensures RoomKept(c0, inputs) && FollowProtocol(c0.version, History(c0, inputs), sent) ==>
            After(c0, inputs[..|log|]).status == Running && AllSatisfied(c0, inputs, log, os, sent)
  {
    os := [];
    if RoomKept(c0, inputs) && FollowProtocol(c0.version, History(c0, inputs), sent) {
      EarlierRun(c0, inputs, |log|, sent);
      KeepsRunning(c0, inputs[..|log|], sent);
      assert inputs[..|log|] == inputs;
      os := EveryClientSatisfied(c0, inputs, log, sent);
    }
  }
}
