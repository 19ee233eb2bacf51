/** Every message and the database file, byte by byte: what each byte is, said without the functions that encode and
    decode them. */
module Formats {
  import opened Bytes
  import opened Employees
  import opened Requests
  import opened Framing
  import opened Interpreter
  import FileImage
  import Connection
  import Client

  // ---------- numbers ----------

  /** The two bytes at p are n, high byte first. */
  ghost predicate Short(s: seq<byte>, p: nat, n: int) {
    p + 2 <= |s| && s[p] as int * 0x100 + s[p + 1] as int == n
  }

  /** The four bytes at p are n, high byte first. */
  ghost predicate Long(s: seq<byte>, p: nat, n: int) {
    p + 4 <= |s| && s[p] as int * 0x100_0000 + s[p + 1] as int * 0x1_0000 + s[p + 2] as int * 0x100 + s[p + 3] as int == n
  }

  /** The four bytes at the front are n, low byte first. */
  ghost predicate Starts(s: seq<byte>, n: int) {
    4 <= |s| && s[0] as int + s[1] as int * 0x100 + s[2] as int * 0x1_0000 + s[3] as int * 0x100_0000 == n
  }

  /** The bytes at p are t. */
  ghost predicate At(s: seq<byte>, p: nat, t: seq<byte>) {
    p + |t| <= |s| && s[p..p + |t|] == t
  }

  lemma ShortAt(s: seq<byte>, p: nat, n: uint16)
    requires At(s, p, Be16(n))
    ensures Short(s, p, n)
  {
    Be16Places(n);
    assert s[p..p + 2][0] == s[p] && s[p..p + 2][1] == s[p + 1];
  }

  lemma LongAt(s: seq<byte>, p: nat, n: uint32)
    requires At(s, p, Be32(n))
    ensures Long(s, p, n)
  {
    Be32Places(n);
    var t := s[p..p + 4];
    assert t[0] == s[p] && t[1] == s[p + 1] && t[2] == s[p + 2] && t[3] == s[p + 3];
  }

  lemma StartsWithWord(s: seq<byte>, n: uint32)
    requires At(s, 0, HostWord(n))
    ensures Starts(s, n)
  {
    HostWordPlaces(n);
    var t := s[0..4];
    assert t[0] == s[0] && t[1] == s[1] && t[2] == s[2] && t[3] == s[3];
  }

  /** Where the parts of a concatenation stand. */
  lemma Parts(a: seq<byte>, b: seq<byte>, c: seq<byte>)
    ensures At(a + b + c, 0, a) && At(a + b + c, |a|, b) && At(a + b + c, |a| + |b|, c)
  {
  }

  lemma Within(s: seq<byte>, p: nat, t: seq<byte>, q: nat, u: seq<byte>)
    requires At(s, p, t) && At(t, q, u)
    ensures At(s, p + q, u)
  {
    forall k | 0 <= k < |u| ensures s[p + q + k] == u[k] {
      assert s[p..p + |t|][q + k] == s[p + q + k] && t[q..q + |u|][k] == u[k];
    }
  }

  // ---------- from the client to the server ----------

  /** Handshake: type 0 and the version. */
  lemma HandshakeFormat(version: uint16)
    ensures var s := HandshakeBytes(version); |s| == 6 && Starts(s, 0) && Short(s, 4, version)
  {
    var s := HandshakeBytes(version);
    Parts(HostWord(HANDSHAKE_REQUEST), Be16(version), []);
    assert HostWord(HANDSHAKE_REQUEST) + Be16(version) + [] == s;
    StartsWithWord(s, HANDSHAKE_REQUEST);
    ShortAt(s, 4, version);
  }

  /** Request: type 2, the length of the body, and the body. */
  lemma RequestFormat(body: seq<byte>)
    requires |body| <= INT_MAX
    ensures var s := RequestBytes(body); |s| == 8 + |body| && Starts(s, 2) && Long(s, 4, |body|) && s[8..] == body
  {
    var s := RequestBytes(body);
    Parts(HostWord(DB_ACCESS_REQUEST), Be32(|body|), body);
    StartsWithWord(s, DB_ACCESS_REQUEST);
    LongAt(s, 4, |body|);
  }

  /** A text inside a body: its length and its characters. */
  ghost predicate IsText(s: seq<byte>, p: nat, t: seq<byte>) {
    Short(s, p, |t|) && At(s, p + 2, t)
  }

  lemma TextAt(s: seq<byte>, p: nat, t: seq<byte>)
    requires |t| <= 0xffff && At(s, p, Text(t))
    ensures IsText(s, p, t)
  {
    Parts(Be16(|t|), t, []);
    assert Be16(|t|) + t + [] == Text(t);
    Within(s, p, Text(t), 0, Be16(|t|));
    Within(s, p, Text(t), 2, t);
    ShortAt(s, p, |t|);
  }

  lemma TextIn(a: seq<byte>, t: seq<byte>, c: seq<byte>)
    requires |t| <= 0xffff
    ensures IsText(a + Text(t) + c, |a|, t)
  {
    Parts(a, Text(t), c);
    TextAt(a + Text(t) + c, |a|, t);
  }

  lemma LongLast(a: seq<byte>, n: uint32)
    ensures Long(a + Be32(n), |a|, n)
  {
    LongAt(a + Be32(n), |a|, n);
  }

  /** Add: an a, the name, the address, and the hours. */
  lemma AddFormat(e: Employee)
    requires Sendable(e.name) && Sendable(e.address)
    ensures var s := EncodeAdd(e);
            && |s| == 9 + |e.name| + |e.address| && s[0] as char == 'a'
            && IsText(s, 1, e.name) && IsText(s, 3 + |e.name|, e.address) && Long(s, 5 + |e.name| + |e.address|, e.hours)
  {
    var head := [ADD] + Text(e.name);
    Regrouped(head, Text(e.address), Be32(e.hours));
    TextIn([ADD], e.name, Text(e.address) + Be32(e.hours));
    TextIn(head, e.address, Be32(e.hours));
    LongLast(head + Text(e.address), e.hours);
  }

  /** Update: a u, the name, and the hours. */
  lemma UpdateFormat(u: Update)
    requires Sendable(u.name)
    ensures var s := EncodeUpdate(u);
            |s| == 7 + |u.name| && s[0] as char == 'u' && IsText(s, 1, u.name) && Long(s, 3 + |u.name|, u.hours)
  {
    TextIn([UPDATE], u.name, Be32(u.hours));
    LongLast([UPDATE] + Text(u.name), u.hours);
  }

  /** Delete: a d and the name. */
  lemma DeleteFormat(name: seq<byte>)
    requires Sendable(name)
    ensures var s := EncodeDelete(name); |s| == 3 + |name| && s[0] as char == 'd' && IsText(s, 1, name)
  {
    TextIn([DELETE], name, []);
    assert [DELETE] + Text(name) + [] == EncodeDelete(name);
  }

  /** A body: the add, the update, the delete, and an l, as far as they are asked for, with nothing between them. */
  lemma BodyFormat(o: Options)
    requires ValidOptions(o)
    ensures var (s, a, u, d) := (Encode(o), AddPart(o.add), UpdatePart(o.update), DeletePart(o.delete));
            && At(s, 0, a) && At(s, |a|, u) && At(s, |a| + |u|, d)
            && |s| == |a| + |u| + |d| + (if o.list then 1 else 0)
            && (o.list ==> s[|a| + |u| + |d|] as char == 'l')
  {
    var a, u, d, l := AddPart(o.add), UpdatePart(o.update), DeletePart(o.delete), ListPart(o.list);
    FourParts(a, u, d, l);
    if o.list {
      assert Encode(o)[|a| + |u| + |d|..|a| + |u| + |d| + 1][0] == LIST;
    }
  }

  /** An option that is not asked for has no bytes. */
  lemma PartsFormat(o: Options)
    requires ValidOptions(o)
    ensures AddPart(o.add) == if o.add.Some? then EncodeAdd(o.add.value) else []
    ensures UpdatePart(o.update) == if o.update.Some? then EncodeUpdate(o.update.value) else []
    ensures DeletePart(o.delete) == if o.delete.Some? then EncodeDelete(o.delete.value) else []
  {
  }

  lemma FourParts(a: seq<byte>, u: seq<byte>, d: seq<byte>, l: seq<byte>)
    ensures var s := a + (u + (d + l));
            && s == a + u + d + l && |s| == |a| + |u| + |d| + |l|
            && At(s, 0, a) && At(s, |a|, u) && At(s, |a| + |u|, d) && At(s, |a| + |u| + |d|, l)
  {
    Regrouped(a, u, d + l);
    Regrouped(a + u, d, l);
    Parts(a, u, d + l);
    Parts(a + u, d, l);
  }

  // ---------- from the server to the client ----------

  /** Handshake response: type 1, and 0 exactly for a client of the server's version. */
  lemma HandshakeReplyFormat(version: uint16, v: uint16)
    ensures var s := Connection.Reply(version, Handshake(v));
            |s| == 5 && Starts(s, 1) && (s[4] == 0 <==> v == version) && (s[4] == 1 <==> v != version)
  {
    StartsWithWord(Connection.Reply(version, Handshake(v)), HANDSHAKE_RESPONSE);
  }

  /** The client takes it as a success exactly if its version is the server's. */
  lemma HandshakeAccepted(version: uint16, v: uint16, rest: seq<byte>, tag0: seq<byte>, flag0: byte)
    requires |tag0| == 4
    ensures var s := Connection.Reply(version, Handshake(v)) + rest;
            FromHostWord(ReadInto(s, tag0)) == HANDSHAKE_RESPONSE && (ReadInto(Beyond(s, 4), [flag0]) == [0] <==> v == version)
  {
    Client.HandshakeReplyUnderstood(if v == version then 0 else 1, rest, tag0, flag0);
  }

  /** The refusal of a message of the wrong type: type 4 and nothing else. */
  lemma RefusalFormat(version: uint16, tag: uint32)
    ensures var s, t := Connection.Reply(version, NotHandshake(tag)), Connection.Reply(version, NotRequest(tag));
            |s| == 4 && Starts(s, 4) && t == s
  {
    StartsWithWord(Connection.Reply(version, NotHandshake(tag)), INVALID_REQUEST);
  }

  /** The client takes it for what it is, in the place of a response and in that of a handshake response. */
  lemma RefusalUnderstood(version: uint16, tag: uint32, rest: seq<byte>, tag0: seq<byte>, header0: nat -> byte, data0: nat -> byte)
    requires |tag0| == 4
    ensures var s := Connection.Reply(version, NotRequest(tag));
            && Client.TakeOver(s, header0, data0) == (Client.Refused, [])
            && FromHostWord(ReadInto(Connection.Reply(version, NotHandshake(tag)) + rest, tag0)) == INVALID_REQUEST
  {
    Client.ShortRefusal(header0, data0);
    HostWordRoundTrip(INVALID_REQUEST);
    assert (HostWord(INVALID_REQUEST) + rest)[..4] == HostWord(INVALID_REQUEST);
  }

  /** Response: type 3, error flag, and after flag 0 the length of the data and the data. */
  lemma ResponseFormat(bytes: seq<byte>, r: Response)
    requires IsResponse(bytes, r)
    ensures |bytes| == ResponseLength(r) >= 9 && Starts(bytes, 3)
    ensures match r
            case NotFound => |bytes| == 9 && bytes[4] == 1
            case Success(data) => bytes[4] == 0 && Long(bytes, 5, |data|) && bytes[9..] == data
  {
    StartsWithWord(bytes, DB_ACCESS_RESPONSE);
    if r.Success? {
      var head := HostWord(DB_ACCESS_RESPONSE) + [0];
      Parts(head, Be32(|r.data|), r.data);
      LongAt(bytes, 5, |r.data|);
    }
  }

  /** The answer to a request for nothing has no data. */
  lemma EmptyReplyFormat(version: uint16)
    ensures var s := Connection.Reply(version, EmptyRequest);
            |s| == 9 && Starts(s, 3) && s[4] == 0 && Long(s, 5, 0)
  {
    ResponseFormat(Connection.Reply(version, EmptyRequest), Success([]));
  }

  // ---------- what each end reads ----------

  /** The server's reading of six bytes of greeting. */
  lemma GreetingRead(version: uint16, s: seq<byte>, tag: int, v: int)
    requires |s| >= 6 && Starts(s, tag) && Short(s, 4, v)
    ensures Frames(version, Greeting, s)
         == if tag != 0 then [NotHandshake(tag)] + Frames(version, Greeting, s[6..])
            else if v != version then [Handshake(v), Closed]
            else [Handshake(v)] + Frames(version, Ready, s[6..])
  {
    FromHostWordPlaces(s[..4]);
    FromBe16Places(s[4..6]);
  }

  /** Its reading of an eight-byte header. */
  lemma HeaderRead(version: uint16, s: seq<byte>, tag: int, n: int)
    requires |s| >= 8 && Starts(s, tag) && Long(s, 4, n)
    ensures Frames(version, Ready, s)
         == if tag != 2 then [NotRequest(tag)] + Frames(version, Ready, s[8..])
            else if n == 0 then [EmptyRequest] + Frames(version, Ready, s[8..])
            else [Header(n)] + Frames(version, Reading(n), s[8..])
  {
    FromHostWordPlaces(s[..4]);
    FromBe32Places(s[4..8]);
  }

  /** Its reading of a body of n bytes. */
  lemma BodyRead(version: uint16, s: seq<byte>, n: uint32)
    requires n > 0
    ensures Frames(version, Reading(n), s)
         == if |s| < n then [Closed]
            else if n == 4294967295 then [Exits]
            else if n > 2147483647 then [Closed]
            else [Body(s[..n])] + Frames(version, Ready, s[n..])
  {
  }

  /** The client's reading of a response. */
  lemma ResponseRead(s: seq<byte>, tag: int, n: int)
    requires |s| >= 9 && Starts(s, tag) && Long(s, 5, n)
    ensures Client.Take(s)
         == if tag == 4 then Some((Client.Refused, s[9..]))
            else if s[4] != 0 then Some((Client.Flagged(s[4]), s[9..]))
            else if |s| - 9 < n then None
            else Some((if n == 0xffff_ffff then Client.Unreceived else Client.Data(s[9..9 + n]), s[9 + n..]))
  {
    FromHostWordPlaces(s[..4]);
    FromBe32Places(s[5..9]);
  }

  // ---------- records and the file ----------

  /** A string of a record at p: the number of its bytes with a NUL, modulo 2^16, and that many of them. */
  ghost predicate IsField(s: seq<byte>, p: nat, t: seq<byte>) {
    var n := (|t| + 1) % 0x1_0000;
    Short(s, p, n) && At(s, p + 2, (t + [0])[..n])
  }

  lemma FieldAt(s: seq<byte>, p: nat, t: seq<byte>)
    requires At(s, p, Field(t))
    ensures IsField(s, p, t)
  {
    var n := WireLength(t);
    Parts(Be16(n), (t + [0])[..n], []);
    assert Be16(n) + (t + [0])[..n] + [] == Field(t);
    Within(s, p, Field(t), 0, Be16(n));
    Within(s, p, Field(t), 2, (t + [0])[..n]);
    ShortAt(s, p, n);
  }

  lemma FieldIn(a: seq<byte>, t: seq<byte>, c: seq<byte>)
    ensures IsField(a + Field(t) + c, |a|, t)
  {
    Parts(a, Field(t), c);
    FieldAt(a + Field(t) + c, |a|, t);
  }

  lemma FieldInFront(t: seq<byte>, c: seq<byte>)
    ensures IsField(Field(t) + c, 0, t)
  {
    Parts(Field(t), c, []);
    assert Field(t) + c + [] == Field(t) + c;
    FieldAt(Field(t) + c, 0, t);
  }

  /** The number of bytes of a field. */
  ghost function FieldLength(t: seq<byte>): (n: nat) {
    2 + (|t| + 1) % 0x1_0000
  }

  /** A record: name, address, hours. */
  lemma RecordFormat(e: Employee)
    ensures var s, n, m := Record(e), FieldLength(e.name), FieldLength(e.address);
            |s| == n + m + 4 && IsField(s, 0, e.name) && IsField(s, n, e.address) && Long(s, n + m, e.hours)
  {
    var f, g, h := Field(e.name), Field(e.address), Be32(e.hours);
    assert |f| == FieldLength(e.name) && |g| == FieldLength(e.address);
    Regrouped(f, g, h);
    FieldInFront(e.name, g + h);
    FieldIn(f, e.address, h);
    LongLast(f + g, e.hours);
  }

  /** The i-th record of a list stands behind the ones before it. */
  lemma RecordsFormat(es: seq<Employee>, i: nat)
    requires i < |es|
    ensures At(Records(es), |Records(es[..i])|, Record(es[i]))
    ensures |Records(es)| == |Records(es[..i])| + |Record(es[i])| + |Records(es[i + 1..])|
  {
    RecordsSplit(es, i);
    Parts(Records(es[..i]), Record(es[i]), Records(es[i + 1..]));
  }

  lemma {:induction false} RecordsSplit(es: seq<Employee>, i: nat)
    requires i < |es|
    ensures Records(es) == Records(es[..i]) + Record(es[i]) + Records(es[i + 1..])
  {
    if i > 0 {
      var tail := es[1..];
      RecordsSplit(tail, i - 1);
      FirstApart(es, i);
      RecordsCons(es[0], tail[..i - 1]);
      assert tail[i - 1] == es[i] && tail[i..] == es[i + 1..];
      Regrouped(Record(es[0]), Records(tail[..i - 1]), Record(es[i]));
      Regrouped(Record(es[0]), Records(tail[..i - 1]) + Record(es[i]), Records(tail[i..]));
    }
  }

  /** The file: its size modulo 2^32, the number of employees, and the records. */
  lemma ImageFormat(es: seq<Employee>)
    requires |es| < 0x1_0000_0000
    ensures var s := FileImage.Image(es);
            && |s| == 8 + |Records(es)| && Long(s, 0, |s| % 0x1_0000_0000) && Long(s, 4, |es|) && s[8..] == Records(es)
  {
    var s, size := FileImage.Image(es), FileImage.FileSize(es);
    Parts(Be32(size), Be32(|es|), Records(es));
    LongAt(s, 0, size);
    LongAt(s, 4, |es|);
  }

  /** The header check compares the first number in the file with the size of the file; the second is the count. */
  lemma FileRead(disk: seq<byte>, n: int, count: int)
    requires |disk| >= 8 && Long(disk, 0, n) && Long(disk, 4, count)
    ensures (FileImage.Accepts(disk) <==> n == |disk|) && FileImage.Stored(disk) == ReadRecords(disk[8..], count)
  {
    FromBe32Places(disk[..4]);
    FromBe32Places(disk[4..8]);
  }
}
