/** The body of a database request: at most one add, one update, one delete and one list option, in that order. */
module Requests {
  import opened Bytes
  import opened Employees

  const ADD: byte := 97      // 'a'
  const UPDATE: byte := 117  // 'u'
  const DELETE: byte := 100  // 'd'
  const LIST: byte := 108    // 'l'

  datatype Update = Update(name: seq<byte>, hours: uint32)

  /** What a user asks for in one request. */
  datatype Options = Options(add: Option<Employee>, update: Option<Update>, delete: Option<seq<byte>>, list: bool)

  /** `name_len > UINT16_MAX` is refused by the client. */
  predicate Sendable(s: seq<byte>) {
    NulFree(s) && |s| <= 0xffff
  }

  predicate ValidOptions(o: Options) {
    && (o.add.Some? ==> Sendable(o.add.value.name) && Sendable(o.add.value.address))
    && (o.update.Some? ==> Sendable(o.update.value.name))
    && (o.delete.Some? ==> Sendable(o.delete.value))
  }

  // ---------- encoding ----------

  /** A length and the characters, without a NUL. */
  function Text(s: seq<byte>): (r: seq<byte>)
    requires |s| <= 0xffff
    ensures |r| == 2 + |s|
  {
    Be16(|s|) + s
  }

  function EncodeAdd(e: Employee): (r: seq<byte>)
    requires |e.name| <= 0xffff && |e.address| <= 0xffff
    ensures |r| == 9 + |e.name| + |e.address|
  {
    [ADD] + Text(e.name) + Text(e.address) + Be32(e.hours)
  }

  function EncodeUpdate(u: Update): (r: seq<byte>)
    requires |u.name| <= 0xffff
    ensures |r| == 7 + |u.name|
  {
    [UPDATE] + Text(u.name) + Be32(u.hours)
  }

  function EncodeDelete(name: seq<byte>): (r: seq<byte>)
    requires |name| <= 0xffff
    ensures |r| == 3 + |name|
  {
    [DELETE] + Text(name)
  }

  function AddPart(add: Option<Employee>): seq<byte>
    requires add.Some? ==> |add.value.name| <= 0xffff && |add.value.address| <= 0xffff
  {
    if add.Some? then EncodeAdd(add.value) else []
  }

  function UpdatePart(update: Option<Update>): seq<byte>
    requires update.Some? ==> |update.value.name| <= 0xffff
  {
    if update.Some? then EncodeUpdate(update.value) else []
  }

  function DeletePart(delete: Option<seq<byte>>): seq<byte>
    requires delete.Some? ==> |delete.value| <= 0xffff
  {
    if delete.Some? then EncodeDelete(delete.value) else []
  }

  function ListPart(list: bool): seq<byte> {
    if list then [LIST] else []
  }

  /** The request body, in the order in which the client appends its options. */
  function Encode(o: Options): (r: seq<byte>)
    requires ValidOptions(o)
    ensures |r| < 0x10_0000
  {
    AddPart(o.add) + (UpdatePart(o.update) + (DeletePart(o.delete) + ListPart(o.list)))
  }

  // ---------- decoding, from the front of what is left ----------

  /** A length and that many characters; the result is the C string they hold. None is a read past the end. */
  function TakeText(s: seq<byte>): (r: Option<(seq<byte>, seq<byte>)>)
    ensures r.Some? ==> NulFree(r.value.0) && |r.value.1| < |s|
  {
    var length := TakeBytes(s, 2);
    if length.None? then None else
    var raw := TakeBytes(length.value.1, FromBe16(length.value.0));
    if raw.None? then None else Some((UntilNul(raw.value.0), raw.value.1))
  }

  /** `deserialize_add_employee_option`, after the option character. */
  function TakeAdd(s: seq<byte>): (r: Option<(Employee, seq<byte>)>)
    ensures r.Some? ==> Valid(r.value.0) && |r.value.1| < |s|
  {
    var name := TakeText(s);
    if name.None? then None else
    var address := TakeText(name.value.1);
    if address.None? then None else
    var hours := ReadHours(address.value.1);
    if hours.None? then None
    else Some((Employee(name.value.0, address.value.0, hours.value.0), hours.value.1))
  }

  /** `deserialize_update_employee_option`. */
  function TakeUpdate(s: seq<byte>): (r: Option<(Update, seq<byte>)>)
    ensures r.Some? ==> |r.value.1| < |s|
  {
    var name := TakeText(s);
    if name.None? then None else
    var hours := ReadHours(name.value.1);
    if hours.None? then None else Some((Update(name.value.0, hours.value.0), hours.value.1))
  }

  // ---------- round trips of single options ----------

  lemma TextRoundTrip(t: seq<byte>, rest: seq<byte>)
    requires Sendable(t)
    ensures TakeText(Text(t) + rest) == Some((t, rest))
  {
    Be16RoundTrip(|t|);
    assert Text(t) + rest == Be16(|t|) + (t + rest);
    TakeBytesAppend(Be16(|t|), t + rest);
    TakeBytesAppend(t, rest);
    UntilNulUnique(t, t);
  }

  lemma AddRoundTrip(e: Employee, rest: seq<byte>)
    requires Sendable(e.name) && Sendable(e.address)
    ensures (EncodeAdd(e) + rest)[0] == ADD
    ensures TakeAdd((EncodeAdd(e) + rest)[1..]) == Some((e, rest))
  {
    assert (EncodeAdd(e) + rest)[1..] == Text(e.name) + (Text(e.address) + (Be32(e.hours) + rest));
    TextRoundTrip(e.name, Text(e.address) + (Be32(e.hours) + rest));
    TextRoundTrip(e.address, Be32(e.hours) + rest);
    HoursRoundTrip(e.hours, rest);
  }

  lemma UpdateRoundTrip(u: Update, rest: seq<byte>)
    requires Sendable(u.name)
    ensures (EncodeUpdate(u) + rest)[0] == UPDATE
    ensures TakeUpdate((EncodeUpdate(u) + rest)[1..]) == Some((u, rest))
  {
    assert (EncodeUpdate(u) + rest)[1..] == Text(u.name) + (Be32(u.hours) + rest);
    TextRoundTrip(u.name, Be32(u.hours) + rest);
    HoursRoundTrip(u.hours, rest);
  }

  lemma DeleteRoundTrip(name: seq<byte>, rest: seq<byte>)
    requires Sendable(name)
    ensures (EncodeDelete(name) + rest)[0] == DELETE
    ensures TakeText((EncodeDelete(name) + rest)[1..]) == Some((name, rest))
  {
    assert (EncodeDelete(name) + rest)[1..] == Text(name) + rest;
    TextRoundTrip(name, rest);
  }
}
