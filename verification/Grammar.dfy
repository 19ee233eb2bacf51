/** Which texts the parsers accept, and with which values: grammars that do not speak of how the parsers go about it. */
module Grammar {
  import opened Bytes
  import opened Parse
  import Client

  // ---------- hours ----------

  ghost predicate White(s: seq<byte>) {
    forall k :: 0 <= k < |s| ==> s[k] as char == ' ' || 9 <= s[k] <= 13
  }

  ghost predicate Decimals(s: seq<byte>) {
    forall k :: 0 <= k < |s| ==> '0' <= s[k] as char <= '9'
  }

  ghost function PowerOfTen(n: nat): (p: nat) {
    if n == 0 then 1 else 10 * PowerOfTen(n - 1)
  }

  /** Every digit counts as much as its place says. */
  ghost function Positional(s: seq<byte>): (v: int) {
    if s == [] then 0 else (s[0] as int - 48) * PowerOfTen(|s| - 1) + Positional(s[1..])
  }

  ghost predicate Sign(s: seq<byte>) {
    s == [] || (|s| == 1 && (s[0] as char == '+' || s[0] as char == '-'))
  }

  /** The signed value, as far as a `long` of 64 bits can hold it, as a `uint32_t`. */
  ghost function AsHours(negative: bool, v: int): (r: uint32) {
    var signed := if negative then -v else v;
    var long := if signed > 9223372036854775807 then 9223372036854775807
                else if signed < -9223372036854775808 then -9223372036854775808 else signed;
    long % 4294967296
  }

  /** White space, a sign or none, and at least one digit, to the end. */
  ghost predicate IsHours(s: seq<byte>, i: nat, j: nat, v: uint32) {
    && i <= j < |s| && White(s[..i]) && Sign(s[i..j]) && Decimals(s[j..])
    && v == AsHours(i < j && s[i] as char == '-', Positional(s[j..]))
  }

  lemma PositionalSnoc(s: seq<byte>, c: byte)
    ensures Positional(s + [c]) == 10 * Positional(s) + (c as int - 48)
  {
    if s == [] {
      assert [] + [c] == [c];
    } else {
      assert (s + [c])[1..] == s[1..] + [c];
      PositionalSnoc(s[1..], c);
      Tenfold(s[0] as int - 48, |s| - 1);
    }
  }

  lemma Tenfold(d: int, n: nat)
    ensures d * PowerOfTen(n + 1) == 10 * (d * PowerOfTen(n))
  {
  }

  lemma {:induction false} DigitsArePositional(s: seq<byte>)
    requires AllDigits(s)
    ensures DigitsValue(s) == Positional(s)
  {
    if s != [] {
      var n := |s| - 1;
      DigitsArePositional(s[..n]);
      PositionalSnoc(s[..n], s[n]);
      LastApart(s);
    }
  }

  lemma {:induction false} SpacesCounted(s: seq<byte>, i: nat)
    requires i <= |s| && White(s[..i]) && (i < |s| ==> !IsSpace(s[i]))
    ensures CountSpaces(s) == i
  {
    if i > 0 {
      assert s[..i][0] == s[0] && s[..i][1..] == s[1..][..i - 1];
      SpacesCounted(s[1..], i - 1);
    }
  }

  lemma {:induction false} SpacesAreWhite(s: seq<byte>)
    ensures White(s[..CountSpaces(s)]) && (CountSpaces(s) < |s| ==> !IsSpace(s[CountSpaces(s)]))
  {
    if s != [] && IsSpace(s[0]) {
      SpacesAreWhite(s[1..]);
      var n := CountSpaces(s[1..]);
      assert s[..n + 1] == [s[0]] + s[1..][..n];
    }
  }

  /** Such a text is parsed to its value. */
  lemma HoursParsed(s: seq<byte>, i: nat, j: nat, v: uint32)
    requires IsHours(s, i, j, v)
    ensures ParseHours(s) == Some(v)
  {
    assert j == i + |s[i..j]| && (j > i ==> s[i..j][0] == s[i]) && s[j..][0] == s[j];
    SpacesCounted(s, i);
    assert AllDigits(s[j..]);
    CountAllDigits(s[j..]);
    DigitsArePositional(s[j..]);
    assert s[j..][..|s[j..]|] == s[j..];
  }

  lemma ToTheEnd(s: seq<byte>, j: nat, negative: bool)
    requires j <= |s| && FromDigits(s, j, negative).1 == |s| > 0
    ensures j < |s| && AllDigits(s[j..])
    ensures FromDigits(s, j, negative).0 == ToLong(negative, DigitsValue(s[j..]))
  {
    var t := s[j..];
    assert CountDigits(t) == |t| && t[..|t|] == t;
  }

  /** What is left of white space and sign when the parser succeeds. */
  lemma DigitsToTheEnd(s: seq<byte>, i: nat, j: nat)
    requires ParseHours(s).Some? && i == CountSpaces(s)
    requires j == if i < |s| && (s[i] == PLUS || s[i] == MINUS) then i + 1 else i
    ensures j < |s| && AllDigits(s[j..])
    ensures ParseHours(s).value == ToLong(i < j && s[i] == MINUS, DigitsValue(s[j..])) % 0x1_0000_0000
  {
    ToTheEnd(s, j, i < |s| && s[i] == MINUS);
  }

  lemma SignBetween(s: seq<byte>, i: nat, j: nat)
    requires i <= j <= i + 1 && j <= |s| && (i < j ==> s[i] == PLUS || s[i] == MINUS)
    ensures Sign(s[i..j])
  {
  }

  lemma SameValue(negative: bool, v: nat)
    ensures AsHours(negative, v) == ToLong(negative, v) % 0x1_0000_0000
  {
  }

  /** And no other text is. */
  lemma OnlyHours(s: seq<byte>) returns (i: nat, j: nat)
    requires ParseHours(s).Some?
    ensures IsHours(s, i, j, ParseHours(s).value)
  {
    i := CountSpaces(s);
    j := if i < |s| && (s[i] == PLUS || s[i] == MINUS) then i + 1 else i;
    SpacesAreWhite(s);
    DigitsToTheEnd(s, i, j);
    SignBetween(s, i, j);
    DigitsArePositional(s[j..]);
    SameValue(i < j && s[i] == MINUS, DigitsValue(s[j..]));
  }

  /** The hours parser accepts exactly these texts. */
  lemma HoursExactly(s: seq<byte>, v: uint32)
    ensures ParseHours(s) == Some(v) <==> exists i, j :: IsHours(s, i, j, v)
  {
    if ParseHours(s) == Some(v) {
      var i, j := OnlyHours(s);
      assert IsHours(s, i, j, v);
    }
    forall i, j | IsHours(s, i, j, v) ensures ParseHours(s) == Some(v) {
      HoursParsed(s, i, j, v);
    }
  }

  // ---------- the values of an employee ----------

  ghost predicate OnlyCommas(s: seq<byte>) {
    forall k :: 0 <= k < |s| ==> s[k] as char == ','
  }

  /** A field: characters, none of them a comma. */
  ghost predicate IsField(s: seq<byte>) {
    s != [] && forall k :: 0 <= k < |s| ==> s[k] as char != ','
  }

  ghost predicate EndsField(s: seq<byte>) {
    s == [] || s[0] as char == ','
  }

  /** Commas, one field, and what follows it. */
  ghost predicate Begins(s: seq<byte>, commas: seq<byte>, f: seq<byte>, rest: seq<byte>) {
    s == commas + f + rest && OnlyCommas(commas) && IsField(f) && EndsField(rest)
  }

  lemma {:induction false} CommasAre(s: seq<byte>)
    requires OnlyCommas(s)
    ensures s == Commas(|s|)
  {
    if s != [] {
      CommasAre(s[1..]);
    }
  }

  lemma FieldFirst(s: seq<byte>, commas: seq<byte>, f: seq<byte>, rest: seq<byte>)
    requires Begins(s, commas, f, rest)
    ensures Tokens(s) == [f] + Tokens(rest)
  {
    CommasAre(commas);
    CommasThenField(|commas|, f, rest);
  }

  lemma {:induction false} FirstToken(s: seq<byte>) returns (commas: seq<byte>, rest: seq<byte>)
    requires Tokens(s) != []
    ensures Begins(s, commas, Tokens(s)[0], rest) && Tokens(s)[1..] == Tokens(rest)
    decreases |s|
  {
    if s[0] == COMMA {
      var before;
      before, rest := FirstToken(s[1..]);
      commas := [s[0]] + before;
      assert s == [s[0]] + (before + Tokens(s)[0] + rest);
    } else {
      commas, rest := [], s[Span(s)..];
      assert s == [] + s[..Span(s)] + rest;
    }
  }

  lemma {:induction false} NoTokens(s: seq<byte>)
    ensures Tokens(s) == [] <==> OnlyCommas(s)
    decreases |s|
  {
    if s != [] && s[0] == COMMA {
      NoTokens(s[1..]);
      assert s == [s[0]] + s[1..];
    }
  }

  /** Name, address and hours as the first three fields, with any number of commas before each. */
  ghost predicate IsEmployee(s: seq<byte>, name: seq<byte>, address: seq<byte>, hours: uint32) {
    exists c1, r1, c2, r2, c3, t, r3 ::
      Begins(s, c1, name, r1) && Begins(r1, c2, address, r2) && Begins(r2, c3, t, r3) && ParseHours(t) == Some(hours)
  }

  /** An employee is read from exactly these texts. */
  lemma EmployeeExactly(s: seq<byte>, name: seq<byte>, address: seq<byte>, hours: uint32)
    ensures ParseVals(s) == Vals(name, address, hours) <==> IsEmployee(s, name, address, hours)
  {
    if ParseVals(s) == Vals(name, address, hours) {
      var c1, r1 := FirstToken(s);
      var c2, r2 := FirstToken(r1);
      var c3, r3 := FirstToken(r2);
      assert Begins(r2, c3, Tokens(s)[2], r3);
    }
    if IsEmployee(s, name, address, hours) {
      var c1, r1, c2, r2, c3, t, r3 :|
        Begins(s, c1, name, r1) && Begins(r1, c2, address, r2) && Begins(r2, c3, t, r3) && ParseHours(t) == Some(hours);
      FieldFirst(s, c1, name, r1);
      FieldFirst(r1, c2, address, r2);
      FieldFirst(r2, c3, t, r3);
      assert Tokens(s) == [name] + ([address] + ([t] + Tokens(r3)));
    }
  }

  /** Two fields and nothing but commas behind them. */
  ghost predicate IsPair(s: seq<byte>) {
    exists c1, f1, r1, c2, f2, r2 :: Begins(s, c1, f1, r1) && Begins(r1, c2, f2, r2) && OnlyCommas(r2)
  }

  /** On exactly these texts the code reads through a null pointer. */
  lemma NullReadExactly(s: seq<byte>)
    ensures ParseVals(s) == NullRead <==> IsPair(s)
  {
    if ParseVals(s) == NullRead {
      var c1, r1 := FirstToken(s);
      var c2, r2 := FirstToken(r1);
      NoTokens(r2);
      assert Begins(s, c1, Tokens(s)[0], r1) && Begins(r1, c2, Tokens(r1)[0], r2);
    }
    if IsPair(s) {
      var c1, f1, r1, c2, f2, r2 :| Begins(s, c1, f1, r1) && Begins(r1, c2, f2, r2) && OnlyCommas(r2);
      FieldFirst(s, c1, f1, r1);
      FieldFirst(r1, c2, f2, r2);
      NoTokens(r2);
    }
  }

  // ---------- the arguments of the client ----------

  /** The text of an employee to add whose strings fit their length fields. */
  ghost predicate CanAdd(text: seq<byte>) {
    exists name, address, hours :: IsEmployee(text, name, address, hours) && |name| <= 65535 && |address| <= 65535
  }

  ghost predicate AreHours(text: seq<byte>, v: uint32) {
    exists i, j :: IsHours(text, i, j, v)
  }

  ghost predicate CanUpdate(name: seq<byte>, text: seq<byte>) {
    |name| <= 65535 && exists v :: AreHours(text, v)
  }

  lemma CanAddExactly(text: seq<byte>)
    ensures CanAdd(text) <==> var v := ParseVals(text); v.Vals? && |v.name| <= 0xffff && |v.address| <= 0xffff
  {
    var v := ParseVals(text);
    if v.Vals? {
      EmployeeExactly(text, v.name, v.address, v.hours);
    }
    if CanAdd(text) {
      var name, address, hours :| IsEmployee(text, name, address, hours) && |name| <= 65535 && |address| <= 65535;
      EmployeeExactly(text, name, address, hours);
    }
  }

  lemma CanUpdateExactly(name: seq<byte>, text: seq<byte>)
    ensures CanUpdate(name, text) <==> ParseHours(text).Some? && |name| <= 0xffff
  {
    if ParseHours(text).Some? {
      HoursExactly(text, ParseHours(text).value);
      assert AreHours(text, ParseHours(text).value);
    }
    if CanUpdate(name, text) {
      var v :| AreHours(text, v);
      HoursExactly(text, v);
    }
  }

  /** The client builds a request from exactly these arguments. */
  lemma AcceptableExactly(a: Client.Arguments)
    ensures Client.Acceptable(a) <==>
            && (a.add.Some? ==> CanAdd(a.add.value))
            && (a.update.Some? ==> CanUpdate(a.update.value.0, a.update.value.1))
            && (a.delete.Some? ==> |a.delete.value| <= 65535)
  {
    if a.add.Some? {
      CanAddExactly(a.add.value);
    }
    if a.update.Some? {
      CanUpdateExactly(a.update.value.0, a.update.value.1);
    }
  }

  /** And this is what it asks for. */
  lemma AskedFor(a: Client.Arguments)
    requires Client.Acceptable(a)
    ensures var o := Client.Requested(a);
            && (o.add.Some? <==> a.add.Some?) && (o.update.Some? <==> a.update.Some?)
            && (o.add.Some? ==> IsEmployee(a.add.value, o.add.value.name, o.add.value.address, o.add.value.hours))
            && (o.update.Some? ==> o.update.value.name == a.update.value.0 && AreHours(a.update.value.1, o.update.value.hours))
            && o.delete == a.delete && o.list == a.list
  {
    if a.add.Some? {
      var v := ParseVals(a.add.value);
      EmployeeExactly(a.add.value, v.name, v.address, v.hours);
    }
    if a.update.Some? {
      HoursExactly(a.update.value.1, ParseHours(a.update.value.1).value);
    }
  }
}
