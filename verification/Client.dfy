/** The client: its request as one buffer, its socket loops, and the decoding of what comes back. */
module Client {
  import opened Bytes
  import opened Employees
  import opened Requests
  import opened Parse
  import opened OutBuffer
  import opened Framing
  import Interpreter
  import Connection

  /** A connected socket: what was sent into it, and what is going to come out of it before the stream ends. */
  class Socket {
    var sent: seq<byte>
    var incoming: seq<byte>

    constructor (incoming: seq<byte>)
      ensures sent == [] && this.incoming == incoming
    {
      sent, this.incoming := [], incoming;
    }

    /** `send`: takes at least one byte. */
    method SendSome(b: seq<byte>) returns (n: nat)
      requires b != []
      modifies this`sent
      ensures 0 < n <= |b| && sent == old(sent) + b[..n]
    {
      n :| 0 < n <= |b|;
      sent := sent + b[..n];
    }

    /** `recv` of at most n bytes: any number of what is to come, nothing only at the end of the stream. */
    method RecvSome(n: nat) returns (chunk: seq<byte>)
      requires n > 0
      modifies this`incoming
      ensures |chunk| <= n && old(incoming) == chunk + incoming
      ensures chunk == [] <==> old(incoming) == []
    {
      var k: nat :| k <= n && k <= |incoming| && (k == 0 <==> incoming == []);
      chunk := incoming[..k];
      incoming := incoming[k..];
    }

    /** `send_all`: the count comes back as an `int`, which is -1 for 2^32 - 1 bytes although all have been sent. */
    method SendAll(b: seq<byte>) returns (result: int32)
      modifies this`sent
      ensures sent == old(sent) + b && result == CountAsInt(|b|)
    {
      var total := 0;
      assert b[..0] == [] && sent + [] == sent;
      while total < |b|
        invariant total <= |b| && sent == old(sent) + b[..total]
      {
        var n := SendSome(b[total..]);
        TakeMore(old(sent), b, total, n);
        total := total + n;
      }
      assert b[..total] == b;
      result := CountAsInt(total);
    }

    /** `receive_all`: the count comes back as an `int`; 0 is also the answer to a stream that ends early, and then
        the buffer keeps what it held behind what has come. */
    method ReceiveAll(dst: array<byte>) returns (total: int32)
      requires dst.Length < 0x1_0000_0000
      modifies this`incoming, dst
      ensures dst[..] == ReadInto(old(incoming), old(dst[..])) && incoming == Beyond(old(incoming), dst.Length)
      ensures total == if |old(incoming)| < dst.Length then 0 else CInt(dst.Length)
    {
      ghost var s, old0 := incoming, dst[..];
      var n := 0;
      while n < dst.Length
        invariant n <= dst.Length && n <= |s| && incoming == s[n..] && dst[..n] == s[..n] && dst[n..] == old0[n..]
        decreases dst.Length - n
      {
        var chunk := RecvSome(dst.Length - n);
        if chunk == [] {
          Joined(s, old0, dst, n);
          return 0;
        }
        Store(dst, n, chunk);
        FilledMore(s, old0, n, chunk, incoming);
        n := n + |chunk|;
      }
      Joined(s, old0, dst, n);
      total := CInt(n);
    }
  }

  lemma Joined(s: seq<byte>, old0: seq<byte>, dst: array<byte>, n: nat)
    requires n <= |s| && n <= dst.Length == |old0| && dst[..n] == s[..n] && dst[n..] == old0[n..]
    requires n == |s| || n == |old0|
    ensures dst[..] == ReadInto(s, old0) && s[n..] == Beyond(s, |old0|)
  {
    assert dst[..] == dst[..n] + dst[n..];
  }

  // ---------- handshake ----------

  /** `send_handshake` */
  method SendHandshake(socket: Socket, version: uint16) returns (ok: bool)
    modifies socket`sent
    ensures ok && socket.sent == old(socket.sent) + HandshakeBytes(version)
  {
    var n := socket.SendAll(HostWord(HANDSHAKE_REQUEST) + Be16(version));
    ok := n != -1;
  }

  /** `receive_handshake`: a message of another type is refused after its four bytes. tag0 and flag0 are what the
      memory holds before, which a stream that ends early does not replace. */
  method ReceiveHandshake(socket: Socket, tag0: nat -> byte, flag0: byte) returns (ok: bool)
    modifies socket`incoming
    ensures var s := old(socket.incoming);
            var isReply := FromHostWord(ReadInto(s, Memory(4, tag0))) == HANDSHAKE_RESPONSE;
            (ok <==> isReply && ReadInto(Beyond(s, 4), [flag0]) == [0])
            && socket.incoming == if isReply then Beyond(Beyond(s, 4), 1) else Beyond(s, 4)
  {
    ghost var s := socket.incoming;
    var tag := Allocate(4, tag0);
    var n := socket.ReceiveAll(tag);
    if FromHostWord(tag[..]) != HANDSHAKE_RESPONSE {
      return false;
    }
    var f := new byte[1];
    f[0] := flag0;
    assert f[..] == [flag0];
    n := socket.ReceiveAll(f);
    assert f[..] == [f[0]];
    ok := f[0] == 0;
  }

  /** It accepts exactly the server's reply to its own version, and takes exactly the five bytes of any reply,
      whatever the memory held. */
  lemma HandshakeReplyUnderstood(flag: byte, rest: seq<byte>, tag0: seq<byte>, flag0: byte)
    requires |tag0| == 4
    ensures var s := Connection.HandshakeReply(flag) + rest;
            FromHostWord(ReadInto(s, tag0)) == HANDSHAKE_RESPONSE && ReadInto(Beyond(s, 4), [flag0]) == [flag]
            && Beyond(Beyond(s, 4), 1) == rest
  {
    HostWordRoundTrip(HANDSHAKE_RESPONSE);
    assert (Connection.HandshakeReply(flag) + rest)[..4] == HostWord(HANDSHAKE_RESPONSE);
  }

  /** What the server answers to a message of the wrong type is no handshake reply. */
  lemma RefusalIsNoHandshake(rest: seq<byte>, tag0: seq<byte>)
    requires |tag0| == 4
    ensures FromHostWord(ReadInto(HostWord(INVALID_REQUEST) + rest, tag0)) != HANDSHAKE_RESPONSE
  {
    HostWordRoundTrip(INVALID_REQUEST);
  }

  // ---------- the request ----------

  /** What the command line asks for. The text of an employee to add is a string in memory. */
  datatype Arguments = Arguments(add: Option<seq<byte>>, update: Option<(seq<byte>, seq<byte>)>, delete: Option<seq<byte>>, list: bool)

  predicate AddAcceptable(a: Arguments) {
    a.add.Some? ==> var v := ParseVals(a.add.value); v.Vals? && |v.name| <= 0xffff && |v.address| <= 0xffff
  }

  predicate OthersAcceptable(a: Arguments) {
    && (a.update.Some? ==> ParseHours(a.update.value.1).Some? && |a.update.value.0| <= 0xffff)
    && (a.delete.Some? ==> |a.delete.value| <= 0xffff)
  }

  /** All of it can be parsed, and every string fits its length field. */
  predicate Acceptable(a: Arguments) {
    AddAcceptable(a) && OthersAcceptable(a)
  }

  function RequestedAdd(a: Arguments): Option<Employee>
    requires AddAcceptable(a)
  {
    if a.add.Some? then var v := ParseVals(a.add.value); Some(Employee(v.name, v.address, v.hours)) else None
  }

  function RequestedUpdate(a: Arguments): Option<Update>
    requires OthersAcceptable(a)
  {
    if a.update.Some? then Some(Update(a.update.value.0, ParseHours(a.update.value.1).value)) else None
  }

  function Requested(a: Arguments): Options
    requires Acceptable(a)
  {
    Options(RequestedAdd(a), RequestedUpdate(a), a.delete, a.list)
  }

  ghost predicate NulFreeArguments(a: Arguments) {
    && (a.add.Some? ==> NulFree(a.add.value))
    && (a.update.Some? ==> NulFree(a.update.value.0))
    && (a.delete.Some? ==> NulFree(a.delete.value))
  }

  lemma {:induction false} TokensNulFree(s: seq<byte>, i: nat)
    requires NulFree(s) && i < |Tokens(s)|
    ensures NulFree(Tokens(s)[i])
    decreases |s|
  {
    if s[0] == COMMA {
      TokensNulFree(s[1..], i);
    } else if i > 0 {
      TokensNulFree(s[Span(s)..], i - 1);
    }
  }

  /** What can be asked for on the command line is a request that can be encoded. */
  lemma RequestedIsValid(a: Arguments)
    requires NulFreeArguments(a) && Acceptable(a)
    ensures ValidOptions(Requested(a))
  {
    if a.add.Some? {
      TokensNulFree(a.add.value, 0);
      TokensNulFree(a.add.value, 1);
    }
  }

  /** A message of eight header bytes, with only the tag filled in, and the body so far. */
  ghost predicate Building(out: OutBuffer, header: seq<byte>, body: seq<byte>)
    reads out, out.buf
  {
    out.Holds(header + body) && out.Exact() && |header| == HEADER_SIZE && header[..4] == HostWord(DB_ACCESS_REQUEST)
  }

  lemma BodyGrows(header: seq<byte>, body: seq<byte>, part: seq<byte>)
    ensures header + body + part == header + (body + part)
  {
  }

  /** The message type, and room for the length. */
  method StartRequest() returns (out: OutBuffer, ghost header: seq<byte>)
    ensures fresh(out) && fresh(out.buf) && Building(out, header, [])
  {
    out := new OutBuffer(HEADER_SIZE);
    ghost var w := out.buf[..];
    out.Patch(0, HostWord(DB_ACCESS_REQUEST), w);
    header := HostWord(DB_ACCESS_REQUEST) + w[4..];
    assert w[..0] + HostWord(DB_ACCESS_REQUEST) + w[4..] == header + [];
  }

  lemma LengthPatched(header: seq<byte>, body: seq<byte>)
    requires |header| == HEADER_SIZE && header[..4] == HostWord(DB_ACCESS_REQUEST) && |body| <= INT_MAX
    ensures (header + body)[..4] + Be32(|body|) + (header + body)[8..] == RequestBytes(body)
  {
  }

  /** The length of the body goes into the header. */
  method FinishRequest(out: OutBuffer, ghost header: seq<byte>, ghost body: seq<byte>)
    requires Building(out, header, body) && |body| <= INT_MAX
    modifies out.buf
    ensures out.buf[..] == RequestBytes(body)
  {
    var dataLen := out.cursor - HEADER_SIZE;
    out.Patch(4, Be32(dataLen), header + body);
    LengthPatched(header, body);
    assert out.buf[..out.cursor] == out.buf[..];
  }

  method AddAdd(out: OutBuffer, text: array<byte>, ghost header: seq<byte>, ghost a: Arguments) returns (ok: bool)
    requires Building(out, header, []) && text != out.buf
    requires a.add.Some? && HoldsString(text[..], 0, a.add.value) && ParseVals(a.add.value) != NullRead
    modifies out, out.buf, text
    ensures out.buf == old(out.buf) || fresh(out.buf)
    ensures (ok <==> AddAcceptable(a)) && (ok ==> Building(out, header, AddPart(RequestedAdd(a))))
  {
    assert header + [] == header;
    ok := out.SerializeAddText(text, a.add.value, header);
  }

  /** The encodings of all but the add option. */
  ghost function Tail(a: Arguments): seq<byte>
    requires OthersAcceptable(a)
  {
    UpdatePart(RequestedUpdate(a)) + (DeletePart(a.delete) + ListPart(a.list))
  }

  lemma TailParts(before: seq<byte>, u: seq<byte>, d: seq<byte>, l: seq<byte>)
    ensures before + u + d + l == before + (u + (d + l))
    ensures before + [] == before
  {
  }

  /** The request building of `main`, in its order: add, update, delete, list. */
  method BuildRequest(a: Arguments, text: array<byte>) returns (ok: bool, out: OutBuffer)
    requires NulFreeArguments(a)
    requires a.add.Some? ==> HoldsString(text[..], 0, a.add.value) && ParseVals(a.add.value) != NullRead
    modifies text
    ensures ok <==> Acceptable(a)
    ensures ok ==> ValidOptions(Requested(a)) && out.buf[..] == RequestBytes(Encode(Requested(a)))
  {
    ghost var header, body;
    out, header := StartRequest();
    body := [];
    if a.add.Some? {
      ok := AddAdd(out, text, header, a);
      if !ok {
        return;
      }
      body := AddPart(RequestedAdd(a));
    }
    ok, body := BuildRest(a, out, header, body);
    if ok {
      RequestedIsValid(a);
      FinishRequest(out, header, body);
    }
  }

  /** The options that need no parsing of a list of values. */
  method BuildRest(a: Arguments, out: OutBuffer, ghost header: seq<byte>, ghost before: seq<byte>)
    returns (ok: bool, ghost body: seq<byte>)
    requires Building(out, header, before)
    modifies out, out.buf
    ensures out.buf == old(out.buf) || fresh(out.buf)
    ensures ok <==> OthersAcceptable(a)
    ensures ok ==> Building(out, header, body) && body == before + Tail(a)
  {
    body := before;
    ghost var u, d, l := [], [], [];
    if a.update.Some? {
      ok := out.SerializeUpdate(a.update.value.0, a.update.value.1, header + body);
      if !ok {
        return;
      }
      u := EncodeUpdate(Update(a.update.value.0, ParseHours(a.update.value.1).value));
      BodyGrows(header, body, u);
    }
    TailParts(before, u, d, l);
    body := before + u;
    if a.delete.Some? {
      ok := out.SerializeDelete(a.delete.value, header + body);
      if !ok {
        return;
      }
      d := EncodeDelete(a.delete.value);
      BodyGrows(header, body, d);
    }
    TailParts(body, d, [], []);
    body := body + d;
    if a.list {
      out.SerializeListOption(header + body);
      l := [LIST];
      BodyGrows(header, body, l);
    }
    TailParts(body, l, [], []);
    TailParts(before, u, d, l);
    body := body + l;
    ok := true;
  }

  // ---------- the list response ----------

  /** A string field of a record, and the cursor behind it. */
  method TakeFieldAt(buf: array<byte>, p: nat) returns (s: seq<byte>, q: nat)
    requires p <= buf.Length && ReadField(buf[p..]).Some?
    ensures q <= buf.Length && ReadField(buf[p..]) == Some((s, buf[q..]))
  {
    Advance(buf[..], p, 2);
    var n := FromBe16(buf[p..p + 2]);
    Advance(buf[..], p + 2, n);
    s, q := UntilNul(buf[p + 2..p + 2 + n]), p + 2 + n;
  }

  method TakeRecordAt(buf: array<byte>, p: nat) returns (e: Employee, q: nat)
    requires p <= buf.Length && ReadRecord(buf[p..]).Some?
    ensures q <= buf.Length && ReadRecord(buf[p..]) == Some((e, buf[q..]))
  {
    var name, address;
    name, q := TakeFieldAt(buf, p);
    address, q := TakeFieldAt(buf, q);
    Advance(buf[..], q, 4);
    e := Employee(name, address, FromBe32(buf[q..q + 4]));
    q := q + 4;
  }

  /** The room for employees after n of them have been decoded; it starts at 32 and doubles when it is full. */
  function Room(n: nat): (r: nat)
    ensures r >= 32 && r >= n
  {
    if n == 0 then 32 else if Room(n - 1) == n - 1 then 2 * (n - 1) else Room(n - 1)
  }

  /** How many of the first n entries the code as written loses: those that were there when it last grew. */
  function Lost(n: nat): (r: nat)
    ensures r <= n
  {
    if n == 0 then 0 else if Room(n - 1) == n - 1 then n - 1 else Lost(n - 1)
  }

  /** The first growth comes with the 33rd employee. */
  lemma {:induction false} LostNothing(n: nat)
    ensures Lost(n) == 0 <==> n <= 32
    ensures n <= 32 ==> Room(n) == 32
  {
    if n > 0 {
      LostNothing(n - 1);
    }
  }

  /** Entries of the array from malloc; None where nothing has been stored. The first `lost` of es are gone. */
  ghost predicate Entries(list: seq<Option<Employee>>, es: seq<Employee>, lost: nat) {
    && lost <= |es| <= |list|
    && (forall i :: 0 <= i < lost ==> list[i] == None)
    && (forall i :: lost <= i < |es| ==> list[i] == Some(es[i]))
  }

  /** Room for twice as many. With `copies` the old entries are taken along, as is meant; as written they are not. */
  method Grow(list: array<Option<Employee>>, copies: bool) returns (bigger: array<Option<Employee>>)
    ensures fresh(bigger) && bigger.Length == 2 * list.Length
    ensures forall i :: 0 <= i < list.Length ==> bigger[i] == if copies then list[i] else None
  {
    bigger := new Option<Employee>[2 * list.Length](_ => None);
    if copies {
      for i := 0 to list.Length
        invariant forall j :: 0 <= j < i ==> bigger[j] == list[j]
      {
        bigger[i] := list[i];
      }
    }
  }

  method Append(list: array<Option<Employee>>, n: nat, e: Employee, copies: bool, ghost es: seq<Employee>)
    returns (list': array<Option<Employee>>)
    requires n == |es| && list.Length == Room(n) && Entries(list[..], es, if copies then 0 else Lost(n))
    modifies list
    ensures (list' == list || fresh(list')) && list'.Length == Room(n + 1)
    ensures Entries(list'[..], es + [e], if copies then 0 else Lost(n + 1))
  {
    list' := list;
    if n == list.Length {
      list' := Grow(list, copies);
    }
    list'[n] := Some(e);
  }

  /** What is still to be decoded, on top of what has been. */
  ghost predicate ToDecode(s: seq<byte>, done: seq<Employee>, all: seq<Employee>) {
    ReadAllRecords(s).Some? && done + ReadAllRecords(s).value == all
  }

  lemma NothingDecoded(s: seq<byte>, all: seq<Employee>)
    requires ReadAllRecords(s) == Some(all)
    ensures s[0..] == s && ToDecode(s[0..], [], all)
  {
    assert s[0..] == s && [] + all == all;
  }

  lemma AllDecoded(done: seq<Employee>, all: seq<Employee>)
    requires ToDecode([], done, all)
    ensures done == all
  {
  }

  lemma OneRecord(s: seq<byte>, done: seq<Employee>, all: seq<Employee>)
    requires ToDecode(s, done, all) && s != []
    ensures ReadRecord(s).Some?
    ensures ToDecode(ReadRecord(s).value.1, done + [ReadRecord(s).value.0], all)
  {
    var (e, rest) := ReadRecord(s).value;
    assert done + ([e] + ReadAllRecords(rest).value) == done + [e] + ReadAllRecords(rest).value;
  }

  /** One turn of the decoding loop. */
  method DecodeOne(buf: array<byte>, p: nat, list: array<Option<Employee>>, n: nat, copies: bool,
                   ghost done: seq<Employee>, ghost all: seq<Employee>)
    returns (list': array<Option<Employee>>, q: nat, ghost e: Employee)
    requires p < buf.Length && ToDecode(buf[p..], done, all)
    requires n == |done| && list.Length == Room(n) && Entries(list[..], done, if copies then 0 else Lost(n))
    modifies list
    ensures p < q <= buf.Length && ToDecode(buf[q..], done + [e], all)
    ensures (list' == list || fresh(list')) && list'.Length == Room(n + 1)
    ensures Entries(list'[..], done + [e], if copies then 0 else Lost(n + 1))
  {
    OneRecord(buf[p..], done, all);
    var x;
    x, q := TakeRecordAt(buf, p);
    e := x;
    list' := Append(list, n, x, copies, done);
  }

  /** `deserialize_list_employee_response` on well-formed bytes: list holds n entries. As meant they are all the
      employees in order; as written those from before the last growth are lost. */
  method DeserializeList(buf: array<byte>, copies: bool, ghost all: seq<Employee>)
    returns (list: array<Option<Employee>>, n: nat)
    requires ReadAllRecords(buf[..]) == Some(all)
    ensures n == |all| && Entries(list[..], all, if copies then 0 else Lost(n))
  {
    ghost var done, e := [], Employee([], [], 0);
    list, n := new Option<Employee>[32](_ => None), 0;
    var p := 0;
    NothingDecoded(buf[..], all);
    while p < buf.Length
      invariant p <= buf.Length && n == |done| && ToDecode(buf[p..], done, all)
      invariant fresh(list) && list.Length == Room(n) && Entries(list[..], done, if copies then 0 else Lost(n))
    {
      list, p, e := DecodeOne(buf, p, list, n, copies, done, all);
      n, done := n + 1, done + [e];
    }
    AllDecoded(done, all);
  }

  // ---------- the response ----------

  /** What is received of a response, before any of it is decoded. */
  datatype Raw = Refused | Flagged(flag: byte) | Data(bytes: seq<byte>) | Unreceived

  /** What the client takes off the stream, and what it leaves, when its two buffers held header0 and data0 before. */
  function TakeOver(s: seq<byte>, header0: nat -> byte, data0: nat -> byte): (r: (Raw, seq<byte>)) {
    var (header, rest) := (ReadInto(s, Memory(9, header0)), Beyond(s, 9));
    if FromHostWord(header[..4]) == INVALID_REQUEST then (Refused, rest)
    else if header[4] != 0 then (Flagged(header[4]), rest)
    else
      var n: nat := FromBe32(header[5..9]);
      (if n == 0xffff_ffff <= |rest| then Unreceived else Data(ReadInto(rest, Memory(n, data0))), Beyond(rest, n))
  }

  /** The same when the stream does not end inside the response; None if it does. */
  function Take(s: seq<byte>): (r: Option<(Raw, seq<byte>)>)
    ensures r.Some? ==> |r.value.1| < |s|
  {
    if |s| < 9 then None
    else if FromHostWord(s[..4]) == INVALID_REQUEST then Some((Refused, s[9..]))
    else if s[4] != 0 then Some((Flagged(s[4]), s[9..]))
    else
      var n: nat := FromBe32(s[5..9]);
      if |s| - 9 < n then None
      else Some((if n == 0xffff_ffff then Unreceived else Data(s[9..9 + n]), s[9 + n..]))
  }

  /** Then nothing comes from the memory. */
  lemma TakenFromStream(s: seq<byte>, header0: nat -> byte, data0: nat -> byte)
    ensures Take(s).Some? ==> TakeOver(s, header0, data0) == Take(s).value
  {
    if Take(s).Some? {
      assert s[..9][..4] == s[..4] && s[..9][5..9] == s[5..9];
      if FromHostWord(s[..4]) != INVALID_REQUEST && s[4] == 0 {
        var n: nat := FromBe32(s[5..9]);
        assert s[9..][..n] == s[9..9 + n] && s[9..][n..] == s[9 + n..];
      }
    }
  }

  /** The four bytes with which the server refuses a message are understood, although no more follow. */
  lemma ShortRefusal(header0: nat -> byte, data0: nat -> byte)
    ensures TakeOver(HostWord(INVALID_REQUEST), header0, data0) == (Refused, [])
  {
    HostWordRoundTrip(INVALID_REQUEST);
    assert ReadInto(HostWord(INVALID_REQUEST), Memory(9, header0))[..4] == HostWord(INVALID_REQUEST);
  }

  datatype Answer = InvalidRequest | RequestError(flag: byte) | Done(employees: seq<Employee>) | NoAnswer

  /** What the client makes of it; None if it announces data that is no list of records. */
  function Decode(raw: Raw): (a: Option<Answer>) {
    match raw
    case Refused => Some(InvalidRequest)
    case Flagged(flag) => Some(RequestError(flag))
    case Unreceived => Some(NoAnswer)
    case Data(bytes) => if ReadAllRecords(bytes).None? then None else Some(Done(ReadAllRecords(bytes).value))
  }

  /** What a response of the server is received as. */
  function RawOf(r: Interpreter.Response): Raw {
    match r
    case NotFound => Flagged(1)
    case Success(data) => Data(data)
  }

  /** Response framing: of every response, whatever it lists, exactly its bytes are taken off the stream. */
  lemma ResponseTaken(bytes: seq<byte>, r: Interpreter.Response, rest: seq<byte>)
    requires Interpreter.IsResponse(bytes, r) && |bytes| < 0x1_0000_0000
    ensures Take(bytes + rest) == Some((RawOf(r), rest))
  {
    var s := bytes + rest;
    HostWordRoundTrip(DB_ACCESS_RESPONSE);
    assert bytes[..4] == HostWord(DB_ACCESS_RESPONSE) && s[..4] == bytes[..4] && s[4] == bytes[4];
    if r.Success? {
      var n := |r.data|;
      Be32RoundTrip(n);
      assert bytes[4] == 0;
      assert s[5..9] == Be32(n) && s[9..9 + n] == r.data && s[9 + n..] == rest;
    } else {
      assert s[9..] == rest;
    }
  }

  /** The display loop, which reads the first n entries. */
  method Collect(list: array<Option<Employee>>, n: nat, ghost es: seq<Employee>) returns (r: seq<Employee>)
    requires n == |es| && Entries(list[..], es, 0)
    ensures r == es
  {
    r := [];
    for i := 0 to n
      invariant r == es[..i]
    {
      r := r + [list[i].value];
    }
  }

  /** The data of a response into a buffer of its size. */
  method ReceiveData(socket: Socket, n: uint32, data0: nat -> byte) returns (raw: Raw, buf: array<byte>)
    modifies socket`incoming
    ensures var s := old(socket.incoming);
            && socket.incoming == Beyond(s, n)
            && raw == (if n == 0xffff_ffff <= |s| then Unreceived else Data(ReadInto(s, Memory(n, data0))))
    ensures raw.Data? ==> buf[..] == raw.bytes
  {
    buf := Allocate(n, data0);
    var k := socket.ReceiveAll(buf);
    raw := if k == -1 then Unreceived else Data(buf[..]);
  }

  /** The receiving half of `deserialize_response`, from any stream. */
  method ReceiveResponse(socket: Socket, header0: nat -> byte, data0: nat -> byte) returns (raw: Raw, buf: array<byte>)
    modifies socket`incoming
    ensures (raw, socket.incoming) == TakeOver(old(socket.incoming), header0, data0)
    ensures raw.Data? ==> buf[..] == raw.bytes
  {
    var header := Allocate(9, header0);
    buf := header;
    var n := socket.ReceiveAll(header);
    if n == -1 {
      raw := Unreceived;
    } else if FromHostWord(header[..4]) == INVALID_REQUEST {
      raw := Refused;
    } else if header[4] != 0 {
      raw := Flagged(header[4]);
    } else {
      raw, buf := ReceiveData(socket, FromBe32(header[5..9]), data0);
    }
  }

  /** `deserialize_response`: what it takes off the stream does not depend on the decoding that follows. */
  method DeserializeResponse(socket: Socket, header0: nat -> byte, data0: nat -> byte) returns (a: Answer)
    requires Decode(TakeOver(socket.incoming, header0, data0).0).Some?
    modifies socket`incoming
    ensures var taken := TakeOver(old(socket.incoming), header0, data0);
            socket.incoming == taken.1 && Some(a) == Decode(taken.0)
  {
    var raw, buf := ReceiveResponse(socket, header0, data0);
    match raw {
      case Refused => a := InvalidRequest;
      case Flagged(flag) => a := RequestError(flag);
      case Unreceived => a := NoAnswer;
      case Data(_) => a := DecodeData(buf);
    }
  }

  /** The decoding half: an empty response is not decoded at all. */
  method DecodeData(buf: array<byte>) returns (a: Answer)
    requires ReadAllRecords(buf[..]).Some?
    ensures a == Done(ReadAllRecords(buf[..]).value)
  {
    a := Done([]);
    if buf.Length > 0 {
      var list, count := DeserializeList(buf, true, ReadAllRecords(buf[..]).value);
      var es := Collect(list, count, ReadAllRecords(buf[..]).value);
      a := Done(es);
    }
  }

  /** The answer to an empty request is a response like any other. */
  lemma EmptyReplyIsResponse(version: uint16)
    ensures Interpreter.IsResponse(Connection.Reply(version, EmptyRequest), Interpreter.Success([]))
  {
  }

  // ---------- from the request to its answer ----------

  /** What the user should be shown: an error for an absent name, else the employees if they were asked for. */
  function Shown(m: Interpreter.Effect, o: Options): Answer {
    if m.response == Interpreter.NotFound then RequestError(1) else Done(if o.list then m.employees else [])
  }

  /** A request that the server has carried out leaves both ends at a message boundary, whatever it lists. */
  lemma RequestFramed(st: Interpreter.Store, o: Options, bytes: seq<byte>, rest: seq<byte>)
    requires |st.employees| < 0x1_0000_0000 && ValidOptions(o)
    ensures var r := Interpreter.Interpret(st, Encode(o));
            r.Done? && Interpreter.IsResponse(bytes, r.response) ==>
            Take(bytes + rest) == Some((RawOf(Interpreter.Meaning(st.employees, o).response), rest))
  {
    var r := Interpreter.Interpret(st, Encode(o));
    if r.Done? && Interpreter.IsResponse(bytes, r.response) {
      Interpreter.RequestMeaning(st, o);
      Interpreter.ResponseFits(st, Encode(o));
      ResponseTaken(bytes, r.response, rest);
    }
  }

  /** What the user is shown; None if a string is listed that does not fit its length field, which cannot be decoded. */
  ghost function Understood(es: seq<Employee>, o: Options): (a: Option<Answer>) {
    var m := Interpreter.Meaning(es, o);
    if m.response.Success? && o.list && !AllFit(m.employees) then None else Some(Shown(m, o))
  }

  /** What is received as the meaning of a request is decoded to what should be shown, exactly if the strings that
      are listed fit their length fields. */
  lemma MeaningDecoded(es: seq<Employee>, o: Options)
    requires AllValid(es) && ValidOptions(o)
    ensures Decode(RawOf(Interpreter.Meaning(es, o).response)) == Understood(es, o)
  {
    var m := Interpreter.Meaning(es, o);
    Interpreter.MeaningKeepsValid(es, o);
    if o.list {
      AllRecordsRoundTrip(m.employees);
    }
  }

  /** A request that the server has carried out is answered with its meaning: what the client makes of the bytes
      sent back is what the options mean on the employees there were, unless a string that is listed does not fit. */
  lemma RequestAnswered(st: Interpreter.Store, o: Options, bytes: seq<byte>, rest: seq<byte>)
    requires |st.employees| < 0x1_0000_0000 && ValidOptions(o) && AllValid(st.employees)
    requires var m := Interpreter.Meaning(st.employees, o); m.response.Success? && o.list ==> AllFit(m.employees)
    ensures var r := Interpreter.Interpret(st, Encode(o));
            r.Done? && Interpreter.IsResponse(bytes, r.response) ==>
            && Take(bytes + rest).Some? && Take(bytes + rest).value.1 == rest
            && Decode(Take(bytes + rest).value.0) == Some(Shown(Interpreter.Meaning(st.employees, o), o))
  {
    RequestFramed(st, o, bytes, rest);
    MeaningDecoded(st.employees, o);
  }
}
