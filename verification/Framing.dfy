/** One client connection as a value: what one readiness event does to it, and the one-pass
    description of a byte stream that every way of cutting it into reads must agree with. */
module Framing {
  import opened Bytes

  // proto_msg
  const HANDSHAKE_REQUEST: uint32 := 0
  const HANDSHAKE_RESPONSE: uint32 := 1
  const DB_ACCESS_REQUEST: uint32 := 2
  const DB_ACCESS_RESPONSE: uint32 := 3
  const INVALID_REQUEST: uint32 := 4

  const HANDSHAKE_SIZE: nat := 6
  const HEADER_SIZE: nat := 8

  /** The bytes collected so far, up to the saved cursor. */
  datatype ConnState =
    | Uninitialized(header: seq<byte>)
    | Initialized(header: seq<byte>)
    | Request(body: seq<byte>, size: uint32)

  /** What the server has understood from a client. */
  datatype Frame =
    | Handshake(version: uint16)
    | NotHandshake(tag: uint32)
    | NotRequest(tag: uint32)
    | EmptyRequest
    | Header(size: uint32)
    | Body(bytes: seq<byte>)
    | Closed   // the server drops the connection
    | Exits    // the server process ends

  function Tag(header: seq<byte>): uint32
    requires |header| >= 4
  {
    FromHostWord(header[..4])
  }

  function Version(header: seq<byte>): uint16
    requires |header| >= 6
  {
    FromBe16(header[4..6])
  }

  function BodySize(header: seq<byte>): uint32
    requires |header| >= 8
  {
    FromBe32(header[4..8])
  }

  /** A handshake with the wrong version leaves its six bytes in the header buffer, so the next read asks
      for nothing. A body of 2^31 bytes or more fills up without ever comparing equal to its size. */
  predicate ValidState(version: uint16, st: ConnState) {
    match st
    case Uninitialized(h) => |h| < 6 || (|h| == 6 && Tag(h) == HANDSHAKE_REQUEST && Version(h) != version)
    case Initialized(h) => |h| < 8
    case Request(b, n) => |b| < n || (|b| == n && INT_MAX < n < 0xffff_ffff)
  }

  // ---------- one readiness event, as the code handles it ----------

  /** How many bytes `receive_from_client` asks for. */
  function Wanted(st: ConnState): (n: int) {
    match st
    case Uninitialized(h) => HANDSHAKE_SIZE - |h|
    case Initialized(h) => HEADER_SIZE - |h|
    case Request(b, n) => n - |b|
  }

  /** `recv` of at most n bytes when `avail` is there to be read; nothing means end of stream or n = 0.
      Any answer of the network is such an `avail`; one call returns an `int`, so at most INT_MAX bytes. */
  function Recv(n: nat, avail: seq<byte>): (chunk: seq<byte>)
    ensures |chunk| <= n && |chunk| <= |avail| && chunk == avail[..|chunk|] && |chunk| <= INT_MAX
    ensures chunk == [] <==> n == 0 || avail == []
  {
    avail[..Min(Min(n, |avail|), INT_MAX)]
  }

  function Prefix(st: ConnState): seq<byte> {
    match st
    case Uninitialized(h) => h
    case Initialized(h) => h
    case Request(b, _) => b
  }

  function Extend(st: ConnState, chunk: seq<byte>): ConnState {
    match st
    case Uninitialized(h) => Uninitialized(h + chunk)
    case Initialized(h) => Initialized(h + chunk)
    case Request(b, n) => Request(b + chunk, n)
  }

  /** `receive_from_client`: the new state and its `int` result. */
  function Receive(version: uint16, st: ConnState, avail: seq<byte>): (r: (ConnState, int))
    requires ValidState(version, st)
  {
    var chunk := Recv(Wanted(st), avail);
    if chunk == [] then (st, 0)
    else
      var st' := Extend(st, chunk);
      (st', CInt(|Prefix(st')|))
  }

  /** `handle_uninitialized_client`. */
  function Greet(version: uint16, h: seq<byte>): (r: (ConnState, Frame))
    requires |h| == HANDSHAKE_SIZE
  {
    if Tag(h) != HANDSHAKE_REQUEST then (Uninitialized([]), NotHandshake(Tag(h)))
    else if Version(h) != version then (Uninitialized(h), Handshake(Version(h)))
    else (Initialized([]), Handshake(Version(h)))
  }

  /** `handle_initialized_client`: the new state, the byte count, and what was understood. */
  function ReadHeader(version: uint16, h: seq<byte>, more: seq<byte>): (r: (ConnState, int, Frame))
    requires |h| == HEADER_SIZE
  {
    if Tag(h) != DB_ACCESS_REQUEST then (Initialized([]), 8, NotRequest(Tag(h)))
    else if BodySize(h) == 0 then (Initialized([]), 8, EmptyRequest)
    else
      var (st, n) := Receive(version, Request([], BodySize(h)), more);
      (st, n, Header(BodySize(h)))
  }

  datatype Outcome = Outcome(st: ConnState, frames: seq<Frame>)

  /** `conn->state == REQUEST && nbytes_read == conn->buf_size`, an `int` against a `size_t`. */
  predicate Complete(st: ConnState, nbytes: int32) {
    st.Request? && SizeT(nbytes) == st.size
  }

  /** The handled request leaves the connection waiting for the next header. */
  function Finish(st: ConnState, nbytes: int32, frames: seq<Frame>): (o: Outcome) {
    if Complete(st, nbytes) then Outcome(Initialized([]), frames + [Body(st.body)])
    else Outcome(st, frames)
  }

  /** A state right after a read that returned something. */
  predicate Filled(st: ConnState) {
    match st
    case Uninitialized(h) => |h| <= HANDSHAKE_SIZE
    case Initialized(h) => |h| <= HEADER_SIZE
    case Request(b, n) => 0 < |b| <= n
  }

  /** What the sweep loop does once `receive_from_client` has returned nbytes != 0. */
  function Handle(version: uint16, st: ConnState, nbytes: int32, more: seq<byte>): (o: Outcome)
    requires Filled(st) && nbytes == CInt(|Prefix(st)|)
  {
    if nbytes == -1 then Outcome(st, [Exits])
    else if st.Uninitialized? && nbytes == HANDSHAKE_SIZE then
      var (st2, f) := Greet(version, st.header);
      Finish(st2, nbytes, [f])
    else if st.Initialized? && nbytes == HEADER_SIZE then
      var (st2, n2, f) := ReadHeader(version, st.header, more);
      if n2 == -1 then Outcome(st2, [f, Exits]) else Finish(st2, n2, [f])
    else Finish(st, nbytes, [])
  }

  /** The bytes of the second read, made inside `handle_initialized_client`. */
  function SecondRead(st: ConnState, more: seq<byte>): (s: seq<byte>)
    requires Filled(st)
  {
    if st.Initialized? && |st.header| == HEADER_SIZE
       && Tag(st.header) == DB_ACCESS_REQUEST && BodySize(st.header) != 0
    then Recv(BodySize(st.header), more)
    else []
  }

  /** The body of the sweep loop for one ready client: `more` answers the second read, if there is one. */
  function Service(version: uint16, st: ConnState, avail: seq<byte>, more: seq<byte>): (o: Outcome)
    requires ValidState(version, st)
  {
    var (st1, n) := Receive(version, st, avail);
    if n == 0 then Outcome(st1, [Closed]) else Handle(version, st1, n, more)
  }

  /** The bytes a service takes off the stream. */
  function Consumed(version: uint16, st: ConnState, avail: seq<byte>, more: seq<byte>): (s: seq<byte>)
    requires ValidState(version, st)
  {
    var chunk := Recv(Wanted(st), avail);
    if chunk == [] then [] else chunk + SecondRead(Extend(st, chunk), more)
  }

  predicate Ended(frames: seq<Frame>) {
    frames != [] && (frames[|frames| - 1] == Closed || frames[|frames| - 1] == Exits)
  }

  // ---------- the one-pass description of a stream ----------

  datatype Mode = Greeting | Ready | Reading(size: uint32)

  /** What a stream says first: its last frames, or one frame and how what follows n bytes further on is read. */
  datatype Head = End(frames: seq<Frame>) | Goes(frame: Frame, mode: Mode, n: nat)

  /** Six-byte handshakes, then eight-byte headers, each followed by the body it announces; the end of the stream
      closes the connection. */
  function HeadOfStream(version: uint16, mode: Mode, s: seq<byte>): (h: Head)
    requires mode.Reading? ==> mode.size > 0
    ensures h.Goes? ==> 0 < h.n <= |s| && (h.mode.Reading? ==> h.mode.size > 0)
  {
    match mode
    case Greeting =>
      if |s| < HANDSHAKE_SIZE then End([Closed])
      else if Tag(s) != HANDSHAKE_REQUEST then Goes(NotHandshake(Tag(s)), Greeting, 6)
      else if Version(s) != version then End([Handshake(Version(s)), Closed])
      else Goes(Handshake(Version(s)), Ready, 6)
    case Ready =>
      if |s| < HEADER_SIZE then End([Closed])
      else if Tag(s) != DB_ACCESS_REQUEST then Goes(NotRequest(Tag(s)), Ready, 8)
      else if BodySize(s) == 0 then Goes(EmptyRequest, Ready, 8)
      else Goes(Header(BodySize(s)), Reading(BodySize(s)), 8)
    case Reading(n) =>
      if |s| < n then End([Closed])
      else if n == 0xffff_ffff then End([Exits])
      else if n > INT_MAX then End([Closed])
      else Goes(Body(s[..n]), Ready, n)
  }

  /** What a whole stream means, read once from left to right. */
  function Frames(version: uint16, mode: Mode, s: seq<byte>): (fs: seq<Frame>)
    requires mode.Reading? ==> mode.size > 0
    decreases |s|
  {
    var h := HeadOfStream(version, mode, s);
    if h.End? then h.frames else [h.frame] + Frames(version, h.mode, s[h.n..])
  }

  function ModeOf(st: ConnState): Mode {
    match st
    case Uninitialized(_) => Greeting
    case Initialized(_) => Ready
    case Request(_, n) => Reading(n)
  }

  /** The one-pass description of what has been collected and what follows. */
  function Onward(version: uint16, st: ConnState, rest: seq<byte>): (fs: seq<Frame>)
    requires st.Request? ==> st.size > 0
  {
    Frames(version, ModeOf(st), Prefix(st) + rest)
  }

  /** What is still to come when the connection is in state st and the stream goes on with rest. */
  function Future(version: uint16, st: ConnState, rest: seq<byte>): (fs: seq<Frame>)
    requires ValidState(version, st)
  {
    if st.Uninitialized? && |st.header| == HANDSHAKE_SIZE then [Closed] else Onward(version, st, rest)
  }

  // ---------- every service takes the next step of the one-pass description ----------

  lemma HeadOf(h: seq<byte>, rest: seq<byte>)
    ensures |h| >= 6 ==> Tag(h + rest) == Tag(h) && Version(h + rest) == Version(h) && (h + rest)[6..] == h[6..] + rest
    ensures |h| >= 8 ==> BodySize(h + rest) == BodySize(h) && (h + rest)[8..] == h[8..] + rest
  {
    if |h| >= 6 {
      assert (h + rest)[..4] == h[..4] && (h + rest)[4..6] == h[4..6];
    }
    if |h| >= 8 {
      assert (h + rest)[4..8] == h[4..8];
    }
  }

  /** What a handled read and the one-pass description say of the same bytes. */
  ghost predicate Agrees(version: uint16, o: Outcome, expected: seq<Frame>, rest: seq<byte>) {
    if Ended(o.frames) then expected == o.frames
    else ValidState(version, o.st) && expected == o.frames + Future(version, o.st, rest)
  }

  lemma GreetAgrees(version: uint16, h: seq<byte>, more: seq<byte>, rest: seq<byte>)
    requires |h| == HANDSHAKE_SIZE
    ensures Agrees(version, Handle(version, Uninitialized(h), 6, more), Onward(version, Uninitialized(h), rest), rest)
  {
    HeadOf(h, rest);
    assert h[6..] + rest == rest == [] + rest;
  }

  /** The completed handling of a body, or of a body that can never complete. */
  lemma FinishAgrees(version: uint16, b: seq<byte>, n: uint32, frames: seq<Frame>, rest: seq<byte>)
    requires 0 < |b| <= n && CInt(|b|) != -1
    ensures var o := Finish(Request(b, n), CInt(|b|), frames);
            ValidState(version, o.st)
            && frames + Onward(version, Request(b, n), rest) == o.frames + Future(version, o.st, rest)
  {
    if Complete(Request(b, n), CInt(|b|)) {
      assert (b + rest)[..n] == b && (b + rest)[n..] == rest == [] + rest;
      assert frames + ([Body(b)] + Frames(version, Ready, rest)) == frames + [Body(b)] + Frames(version, Ready, rest);
    }
  }

  /** A full body of 2^32 - 1 bytes makes `receive_from_client` return -1. */
  lemma ExitAgrees(version: uint16, b: seq<byte>, n: uint32, rest: seq<byte>)
    requires |b| <= n && CInt(|b|) == -1
    ensures Onward(version, Request(b, n), rest) == [Exits]
  {
  }

  lemma BodyAgrees(version: uint16, b: seq<byte>, n: uint32, more: seq<byte>, rest: seq<byte>)
    requires 0 < |b| <= n
    ensures Agrees(version, Handle(version, Request(b, n), CInt(|b|), more), Onward(version, Request(b, n), rest), rest)
  {
    if CInt(|b|) == -1 {
      ExitAgrees(version, b, n, rest);
    } else {
      FinishAgrees(version, b, n, [], rest);
    }
  }

  lemma HeaderThenBody(version: uint16, h: seq<byte>, chunk: seq<byte>, rest: seq<byte>)
    requires |h| == HEADER_SIZE && Tag(h) == DB_ACCESS_REQUEST && BodySize(h) != 0
    ensures Onward(version, Initialized(h), chunk + rest)
         == [Header(BodySize(h))] + Onward(version, Request(chunk, BodySize(h)), rest)
  {
    HeadOf(h, chunk + rest);
    assert h[8..] + (chunk + rest) == chunk + rest;
  }

  /** The outcome of a complete header once the second read has given chunk. */
  ghost function AfterSecondRead(h: seq<byte>, chunk: seq<byte>): (o: Outcome)
    requires |h| == HEADER_SIZE && |chunk| <= BodySize(h)
  {
    var n, st := BodySize(h), Request(chunk, BodySize(h));
    var nbytes := if chunk == [] then 0 else CInt(|chunk|);
    if nbytes == -1 then Outcome(st, [Header(n), Exits]) else Finish(st, nbytes, [Header(n)])
  }

  lemma HandleHeader(version: uint16, h: seq<byte>, more: seq<byte>)
    requires |h| == HEADER_SIZE && Tag(h) == DB_ACCESS_REQUEST && BodySize(h) != 0
    ensures Handle(version, Initialized(h), 8, more) == AfterSecondRead(h, Recv(BodySize(h), more))
  {
    var chunk := Recv(BodySize(h), more);
    assert [] + chunk == chunk;
    assert ReadHeader(version, h, more)
        == (Request(chunk, BodySize(h)), if chunk == [] then 0 else CInt(|chunk|), Header(BodySize(h)));
  }

  lemma SecondReadAgrees(version: uint16, h: seq<byte>, chunk: seq<byte>, rest: seq<byte>)
    requires |h| == HEADER_SIZE && Tag(h) == DB_ACCESS_REQUEST && BodySize(h) != 0
    requires |chunk| <= BodySize(h)
    ensures Agrees(version, AfterSecondRead(h, chunk), Onward(version, Initialized(h), chunk + rest), rest)
  {
    var n := BodySize(h);
    HeaderThenBody(version, h, chunk, rest);
    if chunk != [] {
      if CInt(|chunk|) == -1 {
        ExitAgrees(version, chunk, n, rest);
      } else {
        FinishAgrees(version, chunk, n, [Header(n)], rest);
      }
    }
  }

  lemma RejectedAgrees(version: uint16, h: seq<byte>, more: seq<byte>, rest: seq<byte>)
    requires |h| == HEADER_SIZE && !(Tag(h) == DB_ACCESS_REQUEST && BodySize(h) != 0)
    ensures Agrees(version, Handle(version, Initialized(h), 8, more), Onward(version, Initialized(h), rest), rest)
  {
    HeadOf(h, rest);
    assert h[8..] + rest == rest == [] + rest;
  }

  /** A complete header, then whatever the second read inside `handle_initialized_client` gives. */
  lemma HeaderAgrees(version: uint16, h: seq<byte>, more: seq<byte>, rest: seq<byte>)
    requires |h| == HEADER_SIZE
    ensures var st := Initialized(h);
            Agrees(version, Handle(version, st, 8, more), Onward(version, st, SecondRead(st, more) + rest), rest)
  {
    var chunk := SecondRead(Initialized(h), more);
    if Tag(h) == DB_ACCESS_REQUEST && BodySize(h) != 0 {
      HandleHeader(version, h, more);
      SecondReadAgrees(version, h, chunk, rest);
    } else {
      assert chunk + rest == rest;
      RejectedAgrees(version, h, more, rest);
    }
  }

  lemma HandleAgrees(version: uint16, st: ConnState, more: seq<byte>, rest: seq<byte>)
    requires Filled(st)
    ensures Agrees(version, Handle(version, st, CInt(|Prefix(st)|), more),
                   Onward(version, st, SecondRead(st, more) + rest), rest)
  {
    assert [] + rest == rest;
    match st
    case Uninitialized(h) => if |h| == HANDSHAKE_SIZE { GreetAgrees(version, h, more, rest); }
    case Initialized(h) => if |h| == HEADER_SIZE { HeaderAgrees(version, h, more, rest); }
    case Request(b, n) => BodyAgrees(version, b, n, more, rest);
  }

  lemma ExtendAgrees(version: uint16, st: ConnState, chunk: seq<byte>, rest: seq<byte>)
    requires ValidState(version, st) && 0 < |chunk| <= Wanted(st)
    ensures Filled(Extend(st, chunk))
    ensures Future(version, st, chunk + rest) == Onward(version, Extend(st, chunk), rest)
  {
    assert Prefix(st) + (chunk + rest) == Prefix(st) + chunk + rest;
  }

  /** The stream ends where `recv` finds nothing although it asked for something. */
  ghost predicate EndsHere(st: ConnState, avail: seq<byte>, rest: seq<byte>) {
    avail == [] && Wanted(st) > 0 ==> rest == []
  }

  lemma ConsumedParts(version: uint16, st: ConnState, avail: seq<byte>, more: seq<byte>, rest: seq<byte>)
    requires ValidState(version, st) && Recv(Wanted(st), avail) != []
    ensures var chunk := Recv(Wanted(st), avail);
            Consumed(version, st, avail, more) + rest == chunk + (SecondRead(Extend(st, chunk), more) + rest)
  {
  }

  /** One service against the one-pass description, whatever the connection's state and the chunks. */
  lemma ServiceAgrees(version: uint16, st: ConnState, avail: seq<byte>, more: seq<byte>, rest: seq<byte>)
    requires ValidState(version, st) && EndsHere(st, avail, rest)
    ensures Agrees(version, Service(version, st, avail, more),
                   Future(version, st, Consumed(version, st, avail, more) + rest), rest)
  {
    var chunk := Recv(Wanted(st), avail);
    if chunk == [] {
      assert Consumed(version, st, avail, more) + rest == rest;
    } else {
      var st1 := Extend(st, chunk);
      ConsumedParts(version, st, avail, more, rest);
      ExtendAgrees(version, st, chunk, SecondRead(st1, more) + rest);
      HandleAgrees(version, st1, more, rest);
      assert Service(version, st, avail, more) == Handle(version, st1, CInt(|Prefix(st1)|), more);
    }
  }

  /** A body of 2^31 bytes or more is never complete: the `int` count has turned negative by then. Full, it waits
      for one more readiness event, in which a read of nothing is taken for the end of the connection. */
  lemma OversizedBody(version: uint16, b: seq<byte>, n: uint32, x: byte, avail: seq<byte>, more: seq<byte>)
    requires INT_MAX < n < 0xffff_ffff && |b| == n - 1
    ensures Service(version, Request(b, n), [x], more) == Outcome(Request(b + [x], n), [])
    ensures Service(version, Request(b + [x], n), avail, more) == Outcome(Request(b + [x], n), [Closed])
  {
    assert Recv(1, [x]) == [x];
  }

  // ---------- every way of cutting one stream ----------

  /** What the network has ready of the stream s: at least one byte unless the stream is over. */
  function Offer(s: seq<byte>, k: nat): (avail: seq<byte>)
    ensures avail <= s && (avail == [] <==> s == [])
  {
    s[..Min(Max(1, k), |s|)]
  }

  /** What the first read of a service finds, and what its second read finds if there is one. */
  function Offers(version: uint16, st: ConnState, s: seq<byte>, cut: (nat, nat)): (r: (seq<byte>, seq<byte>))
    requires ValidState(version, st)
  {
    var avail := Offer(s, cut.0);
    (avail, Offer(s[|Recv(Wanted(st), avail)|..], cut.1))
  }

  lemma ConsumedIsPrefix(version: uint16, st: ConnState, s: seq<byte>, cut: (nat, nat))
    requires ValidState(version, st)
    ensures var (avail, more) := Offers(version, st, s, cut);
            var c := Consumed(version, st, avail, more);
            c <= s && (c == [] ==> Ended(Service(version, st, avail, more).frames))
  {
    var (avail, more) := Offers(version, st, s, cut);
    var chunk := Recv(Wanted(st), avail);
    if chunk != [] {
      var c2 := SecondRead(Extend(st, chunk), more);
      assert c2 <= more <= s[|chunk|..];
      assert chunk <= s;
      assert chunk + s[|chunk|..] == s;
    }
  }

  /** Serving a stream, one readiness event per cut, until the connection ends or the cuts run out. */
  ghost function Serve(version: uint16, st: ConnState, s: seq<byte>, cuts: seq<(nat, nat)>): (fs: seq<Frame>)
    requires ValidState(version, st)
    decreases |cuts|
  {
    if cuts == [] then []
    else
      var (avail, more) := Offers(version, st, s, cuts[0]);
      var o := Service(version, st, avail, more);
      if Ended(o.frames) then o.frames
      else
        ConsumedIsPrefix(version, st, s, cuts[0]);
        var rest := s[|Consumed(version, st, avail, more)|..];
        ServiceAgrees(version, st, avail, more, rest);
        o.frames + Serve(version, o.st, rest, cuts[1..])
  }

  /** However a stream is cut into reads, the frames are those of the one-pass description: never anything
      else, and all of them once there have been enough readiness events to drain it. */
  lemma {:induction false} FragmentationIndependence(version: uint16, st: ConnState, s: seq<byte>, cuts: seq<(nat, nat)>)
    requires ValidState(version, st)
    ensures Serve(version, st, s, cuts) <= Future(version, st, s)
    ensures |cuts| > |s| ==> Serve(version, st, s, cuts) == Future(version, st, s)
    decreases |cuts|
  {
    if cuts != [] {
      var (avail, more) := Offers(version, st, s, cuts[0]);
      var o := Service(version, st, avail, more);
      var c := Consumed(version, st, avail, more);
      ConsumedIsPrefix(version, st, s, cuts[0]);
      var rest := s[|c|..];
      assert c + rest == s;
      if Ended(o.frames) {
        ServiceEnds(version, st, avail, more, rest);
      } else {
        ServiceAgrees(version, st, avail, more, rest);
        FragmentationIndependence(version, o.st, rest, cuts[1..]);
      }
    }
  }

  /** A connection that ends leaves nothing unsaid, even if it leaves bytes unread. */
  lemma ServiceEnds(version: uint16, st: ConnState, avail: seq<byte>, more: seq<byte>, rest: seq<byte>)
    requires ValidState(version, st) && EndsHere(st, avail, rest)
    requires Ended(Service(version, st, avail, more).frames)
    ensures Future(version, st, Consumed(version, st, avail, more) + rest) == Service(version, st, avail, more).frames
  {
    ServiceAgrees(version, st, avail, more, rest);
  }

  /** Two cuttings of one stream cannot be told apart. */
  lemma CutsDoNotMatter(version: uint16, s: seq<byte>, cuts: seq<(nat, nat)>, cuts': seq<(nat, nat)>)
    requires |cuts| > |s| && |cuts'| > |s|
    ensures Serve(version, Uninitialized([]), s, cuts) == Serve(version, Uninitialized([]), s, cuts')
         == Frames(version, Greeting, s)
  {
    assert [] + s == s;
    FragmentationIndependence(version, Uninitialized([]), s, cuts);
    FragmentationIndependence(version, Uninitialized([]), s, cuts');
  }

  // ---------- no request without a handshake ----------

  predicate IsHandshake(f: Frame) {
    f.Handshake? || f.NotHandshake?
  }

  predicate IsRequest(f: Frame) {
    f.NotRequest? || f.EmptyRequest? || f.Header? || f.Body?
  }

  /** Everything that is understood as a request comes after a handshake with the server's own version. */
  lemma {:induction false} RequestsFollowHandshake(version: uint16, s: seq<byte>, k: nat)
    requires k < |Frames(version, Greeting, s)| && IsRequest(Frames(version, Greeting, s)[k])
    ensures Handshake(version) in Frames(version, Greeting, s)[..k]
    decreases |s|
  {
    var fs, h := Frames(version, Greeting, s), HeadOfStream(version, Greeting, s);
    if h == Goes(Handshake(version), Ready, 6) {
      assert fs[..k][0] == Handshake(version);
    } else {
      var tail := Frames(version, Greeting, s[6..]);
      RequestsFollowHandshake(version, s[6..], k - 1);
      assert fs[..k] == [fs[0]] + tail[..k - 1];
    }
  }

  /** Once past the greeting nothing is taken for a handshake any more. */
  lemma {:induction false} NoSecondHandshake(version: uint16, mode: Mode, s: seq<byte>, k: nat)
    requires mode != Greeting && (mode.Reading? ==> mode.size > 0)
    requires k < |Frames(version, mode, s)|
    ensures !IsHandshake(Frames(version, mode, s)[k])
    decreases |s|
  {
    var h := HeadOfStream(version, mode, s);
    if k > 0 {
      NoSecondHandshake(version, h.mode, s[h.n..], k - 1);
    }
  }

  /** A client that announces another version gets nothing after that but the end of its connection. */
  lemma {:induction false} WrongVersionIsLast(version: uint16, s: seq<byte>, k: nat)
    requires k < |Frames(version, Greeting, s)|
    requires Frames(version, Greeting, s)[k].Handshake? && Frames(version, Greeting, s)[k].version != version
    ensures Frames(version, Greeting, s)[k + 1..] == [Closed]
    ensures forall i :: 0 <= i < k ==> Frames(version, Greeting, s)[i].NotHandshake?
    decreases |s|
  {
    var fs, h := Frames(version, Greeting, s), HeadOfStream(version, Greeting, s);
    if h.Goes? {
      var tail := Frames(version, h.mode, s[6..]);
      assert k > 0 && tail[k - 1] == fs[k];
      if h.mode == Ready {
        NoSecondHandshake(version, Ready, s[6..], k - 1);
      } else {
        WrongVersionIsLast(version, s[6..], k - 1);
        assert fs[k + 1..] == tail[k..];
      }
    }
  }

  // ---------- streams and their beginnings ----------

  /** What a stream says first does not change when more comes, unless that was its end. */
  lemma HeadStays(version: uint16, mode: Mode, s: seq<byte>, rest: seq<byte>)
    requires mode.Reading? ==> mode.size > 0
    ensures var h := HeadOfStream(version, mode, s);
            h == End([Closed]) || HeadOfStream(version, mode, s + rest) == h
  {
    HeadOf(s, rest);
    if mode.Reading? && |s| >= mode.size {
      assert (s + rest)[..mode.size] == s[..mode.size];
    }
  }

  // ---------- what a well-behaved client sends ----------

  function HandshakeBytes(version: uint16): (s: seq<byte>)
    ensures |s| == HANDSHAKE_SIZE
  {
    HostWord(HANDSHAKE_REQUEST) + Be16(version)
  }

  function RequestBytes(body: seq<byte>): (s: seq<byte>)
    requires |body| <= INT_MAX
  {
    HostWord(DB_ACCESS_REQUEST) + Be32(|body|) + body
  }

  ghost predicate ShortBodies(bodies: seq<seq<byte>>) {
    forall i :: 0 <= i < |bodies| ==> |bodies[i]| <= INT_MAX
  }

  function RequestStream(bodies: seq<seq<byte>>): (s: seq<byte>)
    requires forall i :: 0 <= i < |bodies| ==> |bodies[i]| <= INT_MAX
  {
    if bodies == [] then [] else RequestBytes(bodies[0]) + RequestStream(bodies[1..])
  }

  function RequestFrames(bodies: seq<seq<byte>>): (fs: seq<Frame>)
    requires forall i :: 0 <= i < |bodies| ==> |bodies[i]| <= INT_MAX
  {
    if bodies == [] then [Closed]
    else (if bodies[0] == [] then [EmptyRequest] else [Header(|bodies[0]|), Body(bodies[0])])
         + RequestFrames(bodies[1..])
  }

  lemma OneRequest(version: uint16, body: seq<byte>, rest: seq<byte>)
    requires |body| <= INT_MAX
    ensures var understood := if body == [] then [EmptyRequest] else [Header(|body|), Body(body)];
            Frames(version, Ready, RequestBytes(body) + rest) == understood + Frames(version, Ready, rest)
  {
    var s := RequestBytes(body) + rest;
    HostWordRoundTrip(DB_ACCESS_REQUEST);
    Be32RoundTrip(|body|);
    assert s[..4] == HostWord(DB_ACCESS_REQUEST);
    assert s[4..8] == Be32(|body|);
    assert s[8..] == body + rest;
    if body == [] {
      assert body + rest == rest;
    } else {
      assert (body + rest)[..|body|] == body && (body + rest)[|body|..] == rest;
    }
  }

  lemma {:induction false} ManyRequests(version: uint16, bodies: seq<seq<byte>>)
    requires ShortBodies(bodies)
    ensures Frames(version, Ready, RequestStream(bodies)) == RequestFrames(bodies)
  {
    if bodies != [] {
      OneRequest(version, bodies[0], RequestStream(bodies[1..]));
      ManyRequests(version, bodies[1..]);
    }
  }

  lemma HandshakeFirst(version: uint16, bodies: seq<seq<byte>>)
    requires ShortBodies(bodies)
    ensures var s := HandshakeBytes(version) + RequestStream(bodies);
            Tag(s) == HANDSHAKE_REQUEST && Version(s) == version && s[6..] == RequestStream(bodies)
  {
    var s := HandshakeBytes(version) + RequestStream(bodies);
    HostWordRoundTrip(HANDSHAKE_REQUEST);
    Be16RoundTrip(version);
    assert s[..4] == HostWord(HANDSHAKE_REQUEST) && s[4..6] == Be16(version);
  }
  /** The server understands exactly the requests that a client with its version sends, in order. */
  lemma ConversationUnderstood(version: uint16, bodies: seq<seq<byte>>)
    requires ShortBodies(bodies)
    ensures Frames(version, Greeting, HandshakeBytes(version) + RequestStream(bodies))
         == [Handshake(version)] + RequestFrames(bodies)
  {
    HandshakeFirst(version, bodies);
    ManyRequests(version, bodies);
  }
}
