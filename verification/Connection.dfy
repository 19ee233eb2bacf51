/** `client_connection`: the buffers and cursors behind a `ConnState`, and the server's handlers over them. */
module Connection {
  import opened Bytes
  import opened Framing

  datatype ClientState = UNINITIALIZED | INITIALIZED | REQUEST

  /** `recv` into dst at a cursor: the only way bytes get into a connection's buffers. */
  method RecvInto(dst: array<byte>, at: nat, n: nat, avail: seq<byte>) returns (k: nat)
    requires at + n <= dst.Length
    modifies dst
    ensures k == |Recv(n, avail)|
    ensures dst[..at + k] == old(dst[..at]) + Recv(n, avail)
  {
    var chunk := Recv(n, avail);
    k := |chunk|;
    Store(dst, at, chunk);
  }

  /** The five bytes of a handshake response. */
  function HandshakeReply(flag: byte): seq<byte> {
    HostWord(HANDSHAKE_RESPONSE) + [flag]
  }

  lemma ReplyBytes(flag: byte)
    ensures HandshakeReply(flag) == [1, 0, 0, 0, flag] && HostWord(INVALID_REQUEST) == [4, 0, 0, 0]
  {
  }

  /** What the server sends for a frame that needs no database. */
  function Reply(version: uint16, f: Frame): seq<byte> {
    match f
    case Handshake(v) => HandshakeReply(if v == version then 0 else 1)
    case NotHandshake(_) => HostWord(INVALID_REQUEST)
    case NotRequest(_) => HostWord(INVALID_REQUEST)
    case EmptyRequest => HostWord(DB_ACCESS_RESPONSE) + [0] + Be32(0)
    case _ => []
  }

  /** What is sent for all the frames of one service, before any answer of the database. */
  function Replies(version: uint16, fs: seq<Frame>): (s: seq<byte>) {
    if fs == [] then [] else Reply(version, fs[0]) + Replies(version, fs[1..])
  }

  lemma OneReply(version: uint16, f: Frame)
    ensures Replies(version, [f]) == Reply(version, f)
  {
    assert Reply(version, f) + [] == Reply(version, f);
  }

  lemma TwoReplies(version: uint16, f: Frame, g: Frame)
    requires Reply(version, g) == []
    ensures Replies(version, [f, g]) == Reply(version, f)
  {
    assert [f, g][1..] == [g];
    OneReply(version, g);
    assert Reply(version, f) + [] == Reply(version, f);
  }

  lemma {:induction false} RepliesBoth(version: uint16, a: seq<Frame>, b: seq<Frame>)
    ensures Replies(version, a + b) == Replies(version, a) + Replies(version, b)
  {
    if a == [] {
      assert a + b == b;
    } else {
      assert (a + b)[1..] == a[1..] + b;
      RepliesBoth(version, a[1..], b);
    }
  }

  /** How the sweep goes on after a service. */
  datatype Verdict = Waits | HasRequest | Disconnects | EndsServer

  /** The verdict and the connection's state are right for the outcome; only the answer to a complete request,
      and the return to INITIALIZED behind it, are still to come. */
  ghost predicate Judged(v: Verdict, st: ConnState, o: Outcome) {
    match v
    case Waits => !Ended(o.frames) && o.st == st && !(o.frames != [] && o.frames[|o.frames| - 1].Body?)
    case HasRequest =>
      && st.Request? && |st.body| == st.size && o.st == Initialized([])
      && o.frames != [] && o.frames[|o.frames| - 1] == Body(st.body)
    case Disconnects => o.frames != [] && o.frames[|o.frames| - 1] == Closed
    case EndsServer => o.frames != [] && o.frames[|o.frames| - 1] == Exits
  }

  lemma JudgeFinish(version: uint16, st: ConnState, nbytes: int32, f: Frame)
    requires st.Request? ==> |st.body| <= st.size && nbytes == if st.body == [] then 0 else CInt(|st.body|)
    requires st.Request? ==> 0 < st.size
    requires f != Closed && f != Exits && !f.Body?
    ensures var v := if Complete(st, nbytes) then HasRequest else Waits;
            Judged(v, st, Framing.Finish(st, nbytes, [f])) && Judged(v, st, Framing.Finish(st, nbytes, []))
            && Replies(version, Framing.Finish(st, nbytes, [f]).frames) == Reply(version, f)
            && Replies(version, Framing.Finish(st, nbytes, []).frames) == []
  {
    OneReply(version, f);
    if Complete(st, nbytes) {
      OneReply(version, Body(st.body));
      TwoReplies(version, f, Body(st.body));
      assert [f] + [Body(st.body)] == [f, Body(st.body)] && [] + [Body(st.body)] == [Body(st.body)];
    }
  }

  class ClientConnection {
    const header: array<byte>
    var headerCursor: nat
    var buf: array?<byte>
    var bufCursor: nat
    var bufSize: uint32
    var connIdx: nat
    var state: ClientState

    ghost function Repr(): set<object>
      reads this
    {
      {this, header} + (if buf == null then {} else {buf})
    }

    ghost predicate Valid()
      reads this
    {
      && header.Length == HEADER_SIZE
      && headerCursor <= (if state == UNINITIALIZED then HANDSHAKE_SIZE else HEADER_SIZE)
      && (state == REQUEST <==> buf != null)
      && (buf != null ==> buf != header && buf.Length == bufSize && bufCursor <= bufSize && bufSize > 0
                          && headerCursor == HEADER_SIZE)
    }

    ghost function State(): ConnState
      requires Valid()
      reads this, Repr()
    {
      match state
      case UNINITIALIZED => Uninitialized(header[..headerCursor])
      case INITIALIZED => Initialized(header[..headerCursor])
      case REQUEST => Request(buf[..bufCursor], bufSize)
    }

    /** `client_connection_init` */
    constructor (connIdx: nat)
      ensures Valid() && fresh(Repr())
      ensures State() == Uninitialized([]) && this.connIdx == connIdx
    {
      header := new byte[HEADER_SIZE];
      headerCursor, buf, bufCursor, bufSize := 0, null, 0, 0;
      this.connIdx, state := connIdx, UNINITIALIZED;
    }

    /** `replacement_conn->conn_idx = conn_idx` */
    method MoveTo(idx: nat)
      requires Valid()
      modifies this`connIdx
      ensures Valid() && State() == old(State()) && Repr() == old(Repr()) && connIdx == idx
    {
      connIdx := idx;
      assert State() == old(State());
    }

    /** `receive_from_client` */
    method Receive(avail: seq<byte>, ghost version: uint16) returns (nbytes: int32)
      requires Valid() && ValidState(version, State())
      modifies this`headerCursor, this`bufCursor, header, if buf == null then {} else {buf}
      ensures Valid() && buf == old(buf)
      ensures (State(), nbytes as int) == Framing.Receive(version, old(State()), avail)
    {
      ghost var st := State();
      assert Prefix(st) + [] == Prefix(st);
      if state == UNINITIALIZED {
        nbytes := ReceiveHeader(HANDSHAKE_SIZE, avail);
      } else if state == INITIALIZED {
        nbytes := ReceiveHeader(HEADER_SIZE, avail);
      } else {
        var n := RecvInto(buf, bufCursor, bufSize - bufCursor, avail);
        bufCursor := bufCursor + n;
        nbytes := if n == 0 then 0 else CInt(bufCursor);
      }
    }

    /** The two header branches of `receive_from_client`. */
    method ReceiveHeader(size: nat, avail: seq<byte>) returns (nbytes: int32)
      requires Valid() && state != REQUEST && headerCursor <= size
      requires size == if state == UNINITIALIZED then HANDSHAKE_SIZE else HEADER_SIZE
      modifies this`headerCursor, header
      ensures Valid()
      ensures header[..headerCursor] == old(header[..headerCursor]) + Recv(size - old(headerCursor), avail)
      ensures nbytes == if Recv(size - old(headerCursor), avail) == [] then 0 else headerCursor
    {
      var n := RecvInto(header, headerCursor, size - headerCursor, avail);
      headerCursor := headerCursor + n;
      nbytes := if n == 0 then 0 else headerCursor;
    }

    /** `handle_uninitialized_client`; after a wrong version the header cursor is left where it is. */
    method Greet(version: uint16) returns (reply: seq<byte>)
      requires Valid() && state == UNINITIALIZED && headerCursor == HANDSHAKE_SIZE
      modifies this`headerCursor, this`state
      ensures Valid() && buf == old(buf)
      ensures var (st, f) := Framing.Greet(version, old(State()).header);
              State() == st && reply == Reply(version, f)
    {
      assert header[..6][..4] == header[..4] && header[..6][4..6] == header[4..6];
      var tag := FromHostWord(header[..4]);
      if tag != HANDSHAKE_REQUEST {
        reply := HostWord(INVALID_REQUEST);
        headerCursor := 0;
      } else if FromBe16(header[4..6]) != version {
        reply := HandshakeReply(1);
      } else {
        state := INITIALIZED;
        headerCursor := 0;
        reply := HandshakeReply(0);
      }
    }

    /** `handle_initialized_client`, with the second read it makes once the body buffer is there. */
    method ReadHeader(version: uint16, more: seq<byte>) returns (nbytes: int32, reply: seq<byte>)
      requires Valid() && state == INITIALIZED && headerCursor == HEADER_SIZE
      modifies this`headerCursor, this`state, this`buf, this`bufCursor, this`bufSize, header
      ensures Valid() && (buf == null || fresh(buf))
      ensures var (st, n, f) := Framing.ReadHeader(version, old(State()).header, more);
              State() == st && nbytes == n && reply == Reply(version, f)
    {
      ghost var h := header[..];
      assert header[..8] == h && h[..4] == header[..4] && h[4..8] == header[4..8];
      nbytes, reply := 8, [];
      if FromHostWord(header[..4]) != DB_ACCESS_REQUEST {
        reply := HostWord(INVALID_REQUEST);
        headerCursor := 0;
      } else if FromBe32(header[4..8]) == 0 {
        reply := HostWord(DB_ACCESS_RESPONSE) + [0] + Be32(0);
        headerCursor := 0;
      } else {
        var dataLen := FromBe32(header[4..8]);
        buf := new byte[dataLen];
        bufCursor, bufSize, state := 0, dataLen, REQUEST;
        nbytes := Receive(more, version);
      }
    }

    /** `conn->state == REQUEST && nbytes_read == conn->buf_size` */
    method Judge(nbytes: int32, ghost version: uint16, ghost f: Frame) returns (v: Verdict)
      requires Valid() && f != Closed && f != Exits && !f.Body?
      requires state == REQUEST ==> nbytes == if bufCursor == 0 then 0 else CInt(bufCursor)
      ensures Judged(v, State(), Framing.Finish(State(), nbytes, [f])) && Judged(v, State(), Framing.Finish(State(), nbytes, []))
      ensures Replies(version, Framing.Finish(State(), nbytes, [f]).frames) == Reply(version, f)
      ensures Replies(version, Framing.Finish(State(), nbytes, []).frames) == []
    {
      v := if state == REQUEST && SizeT(nbytes) == bufSize then HasRequest else Waits;
      JudgeFinish(version, State(), nbytes, f);
    }

    /** The sweep loop's work for a connection whose first read has returned something. */
    method Proceed(nbytes: int32, version: uint16, more: seq<byte>) returns (v: Verdict, reply: seq<byte>)
      requires Valid() && Filled(State()) && nbytes == CInt(|Prefix(State())|) && nbytes != -1
      modifies this`headerCursor, this`state, this`buf, this`bufCursor, this`bufSize, header
      ensures Valid() && (buf == old(buf) || fresh(buf))
      ensures var o := Handle(version, old(State()), nbytes, more);
              Judged(v, State(), o) && reply == Replies(version, o.frames)
    {
      reply := [];
      ghost var st := State();
      if state == UNINITIALIZED && nbytes == HANDSHAKE_SIZE {
        reply := Greet(version);
        v := Judge(nbytes, version, Framing.Greet(version, st.header).1);
      } else if state == INITIALIZED && nbytes == HEADER_SIZE {
        var n;
        n, reply := ReadHeader(version, more);
        ghost var f := Framing.ReadHeader(version, st.header, more).2;
        if n == -1 {
          TwoReplies(version, f, Exits);
          return EndsServer, reply;
        }
        v := Judge(n, version, f);
      } else {
        v := Judge(nbytes, version, EmptyRequest);
      }
    }

    /** The sweep loop's work for one ready client, up to the database request. */
    method Serve(version: uint16, avail: seq<byte>, more: seq<byte>) returns (v: Verdict, reply: seq<byte>)
      requires Valid() && ValidState(version, State())
      modifies this`headerCursor, this`state, this`buf, this`bufCursor, this`bufSize, header, if buf == null then {} else {buf}
      ensures Valid() && (buf == old(buf) || fresh(buf)) && fresh(Repr() - old(Repr()))
      ensures var o := Service(version, old(State()), avail, more);
              Judged(v, State(), o) && reply == Replies(version, o.frames)
    {
      var nbytes := Receive(avail, version);
      if nbytes == -1 {
        OneReply(version, Exits);
        return EndsServer, [];
      }
      if nbytes == 0 {
        OneReply(version, Closed);
        return Disconnects, [];
      }
      v, reply := Proceed(nbytes, version, more);
    }

    /** The end of `handle_db_access_request`. */
    method ResetForNextRequest()
      requires Valid() && state == REQUEST
      modifies this`headerCursor, this`state, this`buf, this`bufCursor
      ensures Valid() && State() == Initialized([]) && buf == null
    {
      state, headerCursor, buf, bufCursor := INITIALIZED, 0, null, 0;
    }
  }
}
