/** The employee record, the searches over a list of them, and the record format that the
    database file and the list response share. */
module Employees {
  import opened Bytes

  /** `char *` fields are modelled by the C string they point to. */
  datatype Employee = Employee(name: seq<byte>, address: seq<byte>, hours: uint32)

  ghost predicate Valid(e: Employee) {
    NulFree(e.name) && NulFree(e.address)
  }

  ghost predicate AllValid(es: seq<Employee>) {
    forall i :: 0 <= i < |es| ==> Valid(es[i])
  }

  // ---------- searching and editing ----------

  /** The position of the first employee with the given name, or |es|. */
  function FirstNamed(es: seq<Employee>, name: seq<byte>): (i: nat)
    ensures i <= |es|
    ensures i < |es| ==> es[i].name == name
    ensures forall j :: 0 <= j < i ==> es[j].name != name
  {
    if es == [] || es[0].name == name then 0 else 1 + FirstNamed(es[1..], name)
  }

  lemma FirstNamedUnique(es: seq<Employee>, name: seq<byte>, i: nat)
    requires i <= |es|
    requires i < |es| ==> es[i].name == name
    requires forall j :: 0 <= j < i ==> es[j].name != name
    ensures FirstNamed(es, name) == i
  {
    var k := FirstNamed(es, name);
    if k < i {
      assert false;
    }
  }

  function SetHours(es: seq<Employee>, i: nat, hours: uint32): (r: seq<Employee>)
    requires i < |es|
  {
    es[i := es[i].(hours := hours)]
  }

  /** Deletion moves the last employee into the gap. */
  function SwapRemove(es: seq<Employee>, i: nat): (r: seq<Employee>)
    requires i < |es|
  {
    es[i := es[|es| - 1]][..|es| - 1]
  }

  /** Exactly one employee changes, and only in the hours. */
  lemma SetHoursAt(es: seq<Employee>, i: nat, hours: uint32)
    requires i < |es|
    ensures var r := SetHours(es, i, hours);
            && |r| == |es| && r[i] == Employee(es[i].name, es[i].address, hours)
            && forall j :: 0 <= j < |es| && j != i ==> r[j] == es[j]
  {
  }

  /** The last employee stands where the deleted one was, and everybody else where they were. */
  lemma SwapRemoveAt(es: seq<Employee>, i: nat)
    requires i < |es|
    ensures var r := SwapRemove(es, i);
            && |r| == |es| - 1 && (i < |r| ==> r[i] == es[|es| - 1])
            && forall j :: 0 <= j < |r| && j != i ==> r[j] == es[j]
  {
  }

  /** Deletion takes away exactly one employee. */
  lemma SwapRemoveTakesOne(es: seq<Employee>, i: nat)
    requires i < |es|
    ensures multiset(SwapRemove(es, i)) == multiset(es) - multiset{es[i]}
  {
    var last := es[|es| - 1];
    var moved := es[i := last];
    GapFilled(es, i);
    assert multiset(moved) == multiset(SwapRemove(es, i)) + multiset{last};
    assert multiset(moved) == multiset(es) - multiset{es[i]} + multiset{last};
    assert multiset(SwapRemove(es, i)) == multiset(moved) - multiset{last};
  }

  // ---------- the record format ----------

  /** The largest string whose length with its NUL still fits in the `uint16_t` length field. */
  const MAX_STRING: nat := 65534

  /** `uint16_t len = strlen(s) + 1`, which wraps. */
  function WireLength(s: seq<byte>): (n: uint16)
    ensures n <= |s| + 1
    ensures |s| <= MAX_STRING ==> n == |s| + 1
    ensures |s| > MAX_STRING ==> n < |s| + 1
  {
    (|s| + 1) % 0x1_0000
  }

  /** A length and that many bytes of the NUL-terminated string. */
  function Field(s: seq<byte>): (r: seq<byte>)
    ensures |r| == 2 + WireLength(s) as int
  {
    Be16(WireLength(s)) + (s + [0])[..WireLength(s)]
  }

  function Record(e: Employee): (r: seq<byte>)
    ensures |r| == 8 + WireLength(e.name) as int + WireLength(e.address) as int
  {
    Field(e.name) + Field(e.address) + Be32(e.hours)
  }

  function Records(es: seq<Employee>): (r: seq<byte>)
    ensures |r| >= 8 * |es|
  {
    if es == [] then [] else Record(es[0]) + Records(es[1..])
  }

  /** Reads a field; fails when bytes are missing or when the string has no NUL inside its field. */
  function ReadField(s: seq<byte>): (r: Option<(seq<byte>, seq<byte>)>)
    ensures r.Some? ==> NulFree(r.value.0) && |r.value.1| < |s|
  {
    var length := TakeBytes(s, 2);
    if length.None? then None else
    var raw := TakeBytes(length.value.1, FromBe16(length.value.0));
    if raw.None? || UntilNul(raw.value.0) == raw.value.0 then None
    else Some((UntilNul(raw.value.0), raw.value.1))
  }

  function ReadHours(s: seq<byte>): (r: Option<(uint32, seq<byte>)>)
    ensures r.Some? ==> |r.value.1| < |s|
  {
    var raw := TakeBytes(s, 4);
    if raw.None? then None else Some((FromBe32(raw.value.0), raw.value.1))
  }

  function ReadRecord(s: seq<byte>): (r: Option<(Employee, seq<byte>)>)
    ensures r.Some? ==> Valid(r.value.0) && |r.value.1| < |s|
  {
    var name := ReadField(s);
    if name.None? then None else
    var address := ReadField(name.value.1);
    if address.None? then None else
    var hours := ReadHours(address.value.1);
    if hours.None? then None
    else Some((Employee(name.value.0, address.value.0, hours.value.0), hours.value.1))
  }

  /** Reads n records from the front of s, as `read_employees` does. */
  function ReadRecords(s: seq<byte>, n: nat): (r: Option<seq<Employee>>)
    ensures r.Some? ==> |r.value| == n && AllValid(r.value)
    decreases n
  {
    if n == 0 then Some([]) else
    var first := ReadRecord(s);
    if first.None? then None else
    var others := ReadRecords(first.value.1, n - 1);
    if others.None? then None else Some([first.value.0] + others.value)
  }

  /** Reads records until the bytes run out, as the list response decoder does. */
  function ReadAllRecords(s: seq<byte>): (r: Option<seq<Employee>>)
    decreases |s|
  {
    if s == [] then Some([]) else
    var first := ReadRecord(s);
    if first.None? then None else
    var others := ReadAllRecords(first.value.1);
    if others.None? then None else Some([first.value.0] + others.value)
  }

  // ---------- round trips ----------

  /** Every string of every employee fits its length field. */
  ghost predicate AllFit(es: seq<Employee>) {
    es == [] || (Fits(es[0]) && AllFit(es[1..]))
  }

  predicate Fits(e: Employee) {
    |e.name| <= MAX_STRING && |e.address| <= MAX_STRING
  }

  /** A field reads back exactly when its string fits; a longer one loses its NUL. */
  lemma FieldRoundTrip(s: seq<byte>, rest: seq<byte>)
    requires NulFree(s)
    ensures |s| <= MAX_STRING ==> ReadField(Field(s) + rest) == Some((s, rest))
    ensures |s| > MAX_STRING ==> ReadField(Field(s) + rest) == None
  {
    var n := WireLength(s);
    var raw := (s + [0])[..n];
    Be16RoundTrip(n);
    assert Field(s) + rest == Be16(n) + (raw + rest);
    TakeBytesAppend(Be16(n), raw + rest);
    TakeBytesAppend(raw, rest);
    if |s| <= MAX_STRING {
      assert raw == s + [0] && (s + [0])[|s|] == 0;
      UntilNulUnique(s + [0], s);
    } else {
      assert raw == s[..n];
      UntilNulUnique(raw, raw);
    }
  }

  lemma AllFitElementwise(es: seq<Employee>)
    ensures AllFit(es) <==> forall i :: 0 <= i < |es| ==> Fits(es[i])
  {
    if es != [] {
      assert (forall i :: 0 <= i < |es| ==> Fits(es[i])) ==> forall i :: 0 <= i < |es[1..]| ==> Fits(es[1..][i]);
      AllFitElementwise(es[1..]);
    }
  }

  lemma HoursRoundTrip(hours: uint32, rest: seq<byte>)
    ensures ReadHours(Be32(hours) + rest) == Some((hours, rest))
  {
    Be32RoundTrip(hours);
    TakeBytesAppend(Be32(hours), rest);
  }

  lemma RecordParts(e: Employee, rest: seq<byte>)
    ensures Record(e) + rest == Field(e.name) + (Field(e.address) + (Be32(e.hours) + rest))
  {
  }

  lemma AppendFields(w: seq<byte>, e: Employee)
    ensures w + Field(e.name) + Field(e.address) + Be32(e.hours) == w + Record(e)
  {
  }

  lemma RecordRoundTrip(e: Employee, rest: seq<byte>)
    requires Valid(e)
    ensures Fits(e) ==> ReadRecord(Record(e) + rest) == Some((e, rest))
    ensures !Fits(e) ==> ReadRecord(Record(e) + rest) == None
  {
    RecordParts(e, rest);
    FieldRoundTrip(e.name, Field(e.address) + (Be32(e.hours) + rest));
    FieldRoundTrip(e.address, Be32(e.hours) + rest);
    HoursRoundTrip(e.hours, rest);
  }

  /** What decoding a list of records gives: the list, unless some string was too long. */
  ghost function Decoded(es: seq<Employee>): (r: Option<seq<Employee>>) {
    if AllFit(es) then Some(es) else None
  }

  lemma RecordsCons(e: Employee, es: seq<Employee>)
    ensures Records([e] + es) == Record(e) + Records(es)
    ensures AllFit([e] + es) <==> Fits(e) && AllFit(es)
  {
    assert ([e] + es)[1..] == es;
  }

  lemma ReadOneMore(e: Employee, es: seq<Employee>, tail: seq<byte>)
    requires Valid(e)
    ensures ReadRecords(tail, |es|) == Decoded(es)
            ==> ReadRecords(Record(e) + tail, |es| + 1) == Decoded([e] + es)
    ensures ReadAllRecords(tail) == Decoded(es)
            ==> ReadAllRecords(Record(e) + tail) == Decoded([e] + es)
  {
    RecordsCons(e, es);
    RecordRoundTrip(e, tail);
  }

  lemma RecordsPrefix(e: Employee, es: seq<Employee>, rest: seq<byte>)
    ensures Records([e] + es) + rest == Record(e) + (Records(es) + rest)
  {
    RecordsCons(e, es);
  }

  /** The file format loses nothing exactly when every string fits, whatever bytes follow. */
  lemma {:induction false} RecordsRoundTrip(es: seq<Employee>, rest: seq<byte>)
    requires AllValid(es)
    ensures ReadRecords(Records(es) + rest, |es|) == Decoded(es)
  {
    if es != [] {
      var e, tail := es[0], es[1..];
      assert es == [e] + tail;
      RecordsRoundTrip(tail, rest);
      ReadOneMore(e, tail, Records(tail) + rest);
      RecordsPrefix(e, tail, rest);
    }
  }

  /** The list response format, read to its end. */
  lemma {:induction false} AllRecordsRoundTrip(es: seq<Employee>)
    requires AllValid(es)
    ensures ReadAllRecords(Records(es)) == Decoded(es)
  {
    if es != [] {
      var e, tail := es[0], es[1..];
      assert es == [e] + tail;
      AllRecordsRoundTrip(tail);
      ReadOneMore(e, tail, Records(tail));
      RecordsCons(e, tail);
    }
  }

  lemma {:induction false} RecordsSnoc(es: seq<Employee>, e: Employee)
    ensures Records(es + [e]) == Records(es) + Record(e)
  {
    if es == [] {
      assert es + [e] == [e];
    } else {
      assert (es + [e])[1..] == es[1..] + [e];
      RecordsSnoc(es[1..], e);
    }
  }

  lemma RecordsTake(es: seq<Employee>, i: nat)
    requires i < |es|
    ensures Records(es[..i + 1]) == Records(es[..i]) + Record(es[i])
  {
    assert es[..i + 1] == es[..i] + [es[i]];
    RecordsSnoc(es[..i], es[i]);
  }

  /** What it means that the records from the i-th on are still to be read from s. */
  ghost predicate StillToRead(s: seq<byte>, all: seq<Employee>, i: nat) {
    i <= |all| && ReadRecords(s, |all| - i) == Some(all[i..])
  }

  lemma ReadStep(s: seq<byte>, all: seq<Employee>, i: nat)
    requires i < |all| && StillToRead(s, all, i)
    ensures var first := ReadRecord(s);
            first.Some? && first.value.0 == all[i] && StillToRead(first.value.1, all, i + 1)
  {
    assert all[i..][0] == all[i] && all[i..][1..] == all[i + 1..];
  }

  // ---------- sizes ----------

  lemma {:induction false} SizeAfterReplace(es: seq<Employee>, i: nat, e: Employee)
    requires i < |es|
    ensures |Records(es[i := e])| == |Records(es)| - |Record(es[i])| + |Record(e)|
    decreases |es|
  {
    if i == 0 {
      assert es[0 := e][1..] == es[1..];
    } else {
      assert es[i := e][1..] == es[1..][i - 1 := e];
      SizeAfterReplace(es[1..], i - 1, e);
    }
  }

  lemma SizeAfterSetHours(es: seq<Employee>, i: nat, hours: uint32)
    requires i < |es|
    ensures |Records(SetHours(es, i, hours))| == |Records(es)|
  {
    SizeAfterReplace(es, i, es[i].(hours := hours));
  }

  lemma GapFilled(es: seq<Employee>, i: nat)
    requires i < |es|
    ensures es[i := es[|es| - 1]] == SwapRemove(es, i) + [es[|es| - 1]]
  {
  }

  lemma SizeAfterSwapRemove(es: seq<Employee>, i: nat)
    requires i < |es|
    ensures |Records(SwapRemove(es, i))| == |Records(es)| - |Record(es[i])|
  {
    var last, kept := es[|es| - 1], SwapRemove(es, i);
    GapFilled(es, i);
    RecordsSnoc(kept, last);
    SizeAfterReplace(es, i, last);
  }
}
