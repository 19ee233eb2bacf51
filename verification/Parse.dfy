/** `parse.c`: comma-separated employee strings, decimal hours, and the searches of the command line tool. */
module Parse {
  import opened Bytes
  import opened Employees

  const COMMA: byte := 44
  const PLUS: byte := 43
  const MINUS: byte := 45
  const ZERO: byte := 48

  // ---------- strtok(s, ",") (section 7.24.5.8 of C11) ----------

  ghost predicate CommaFree(s: seq<byte>) {
    forall i :: 0 <= i < |s| ==> s[i] != COMMA
  }

  /** The length of the longest comma-free prefix. */
  function Span(s: seq<byte>): (n: nat)
    ensures n <= |s| && forall i :: 0 <= i < n ==> s[i] != COMMA
    ensures n < |s| ==> s[n] == COMMA
  {
    if s == [] || s[0] == COMMA then 0 else 1 + Span(s[1..])
  }

  /** The nonempty fields of a string, in order. */
  function Tokens(s: seq<byte>): (ts: seq<seq<byte>>) {
    if s == [] then []
    else if s[0] == COMMA then Tokens(s[1..])
    else [s[..Span(s)]] + Tokens(s[Span(s)..])
  }

  /** The C string at address p is s. */
  ghost predicate HoldsString(mem: seq<byte>, p: nat, s: seq<byte>) {
    p + |s| < |mem| && mem[p + |s|] == 0 && forall i {:trigger s[i]} :: 0 <= i < |s| ==> s[i] == mem[p + i] && s[i] != 0
  }

  method SkipCommas(str: array<byte>, from: nat, ghost s: seq<byte>) returns (p: nat, ghost t: seq<byte>)
    requires HoldsString(str[..], from, s)
    ensures from <= p && HoldsString(str[..], p, t) && str[p] != COMMA
    ensures Tokens(t) == Tokens(s)
  {
    p, t := from, s;
    while str[p] == COMMA
      invariant from <= p && HoldsString(str[..], p, t)
      invariant Tokens(t) == Tokens(s)
      decreases |t|
    {
      p, t := p + 1, t[1..];
    }
  }

  method FindFieldEnd(str: array<byte>, p: nat, ghost s: seq<byte>) returns (q: nat)
    requires HoldsString(str[..], p, s)
    ensures q == p + Span(s)
    ensures str[q] == 0 <==> Span(s) == |s|
  {
    q := p;
    while str[q] != COMMA && str[q] != 0
      invariant p <= q <= p + |s|
      invariant forall i :: 0 <= i < q - p ==> s[i] != COMMA
      decreases p + |s| - q
    {
      assert q < p + |s| ==> str[q] == s[q - p];
      q := q + 1;
    }
    assert q < p + |s| ==> s[q - p] == COMMA;
  }

  /** The first field, and what is left once the comma after it is gone. */
  ghost function Rest(s: seq<byte>): (r: seq<byte>) {
    if Span(s) < |s| then s[Span(s) + 1..] else []
  }

  lemma FirstField(s: seq<byte>)
    requires s != [] && s[0] != COMMA
    ensures Tokens(s) == [s[..Span(s)]] + Tokens(Rest(s))
  {
    if Span(s) < |s| {
      assert s[Span(s)..][1..] == s[Span(s) + 1..];
    }
  }

  lemma HoldsSuffix(mem: seq<byte>, p: nat, s: seq<byte>, q: nat, r: seq<byte>)
    requires HoldsString(mem, p, s) && p <= q <= p + |s| && r == s[q - p..]
    ensures HoldsString(mem, q, r)
  {
    forall i {:trigger r[i]} | 0 <= i < |r| ensures r[i] == mem[q + i] && r[i] != 0 {
      var j := q - p + i;
      assert s[j] == mem[p + j];
    }
  }

  lemma HoldsElsewhere(mem: seq<byte>, p: nat, s: seq<byte>, q: nat)
    requires HoldsString(mem, p, s) && q < p
    ensures HoldsString(mem[q := 0], p, s)
  {
  }

  lemma HoldsPrefix(mem: seq<byte>, p: nat, s: seq<byte>, q: nat, r: seq<byte>)
    requires HoldsString(mem, p, s) && p <= q <= p + |s| && r == s[..q - p]
    ensures HoldsString(mem[q := 0], p, r)
  {
  }

  /** Ends the field at p with a NUL, in place of the comma after it if there is one. */
  method CutField(str: array<byte>, p: nat, ghost t: seq<byte>) returns (saved: nat)
    requires HoldsString(str[..], p, t)
    modifies str
    ensures HoldsString(str[..], p, t[..Span(t)]) && HoldsString(str[..], saved, Rest(t))
    ensures saved == p + Span(t) + (if Span(t) < |t| then 1 else 0)
    ensures forall i :: 0 <= i < p ==> str[i] == old(str[i])
  {
    var q := FindFieldEnd(str, p, t);
    ghost var mem := str[..];
    HoldsPrefix(mem, p, t, q, t[..Span(t)]);
    if str[q] == 0 {
      saved := q;
      assert mem[q := 0] == mem;
    } else {
      HoldsSuffix(mem, p, t, q + 1, Rest(t));
      HoldsElsewhere(mem, q + 1, Rest(t), q);
      str[q] := 0;
      saved := q + 1;
      assert str[..] == mem[q := 0];
    }
  }

  /** `strtok`: cuts the next field off in place; `saved` is where the next call resumes.
      s is the string at `from` before the call, rest the string at `saved` after it. */
  method Strtok(str: array<byte>, from: nat, ghost s: seq<byte>)
    returns (token: Option<nat>, saved: nat, ghost field: seq<byte>, ghost rest: seq<byte>)
    requires HoldsString(str[..], from, s)
    modifies str
    ensures HoldsString(str[..], saved, rest) && from <= saved
    ensures token == None ==> Tokens(s) == [] && rest == []
    ensures token.Some? ==> Tokens(s) == [field] + Tokens(rest) && HoldsString(str[..], token.value, field)
    ensures token.Some? ==> token.value + |field| < saved + (if rest == [] then 1 else 0)
    ensures forall i :: 0 <= i < from ==> str[i] == old(str[i])
  {
    var p;
    ghost var t;
    p, t := SkipCommas(str, from, s);
    if str[p] == 0 {
      return None, p, [], [];
    }
    FirstField(t);
    token, field, rest := Some(p), t[..Span(t)], Rest(t);
    saved := CutField(str, p, t);
  }

  // ---------- strtol(s, &end, 10) (section 7.22.1.4 of C11) ----------

  const LONG_MAX: int := 0x7fff_ffff_ffff_ffff

  predicate IsSpace(c: byte) {
    c == 32 || 9 <= c <= 13
  }

  predicate IsDigit(c: byte) {
    ZERO <= c <= ZERO + 9
  }

  function CountSpaces(s: seq<byte>): (n: nat)
    ensures n <= |s|
  {
    if s == [] || !IsSpace(s[0]) then 0 else 1 + CountSpaces(s[1..])
  }

  function CountDigits(s: seq<byte>): (n: nat)
    ensures n <= |s| && AllDigits(s[..n])
    ensures n < |s| ==> !IsDigit(s[n])
  {
    if s == [] || !IsDigit(s[0]) then 0
    else
      var n := CountDigits(s[1..]);
      assert s[..n + 1] == [s[0]] + s[1..][..n];
      1 + n
  }

  predicate AllDigits(s: seq<byte>) {
    forall i :: 0 <= i < |s| ==> IsDigit(s[i])
  }

  function DigitsValue(s: seq<byte>): (v: nat)
    requires AllDigits(s)
  {
    if s == [] then 0 else DigitsValue(s[..|s| - 1]) * 10 + (s[|s| - 1] - ZERO) as int
  }

  /** The value, clamped to `long`, and the offset of the first character not used. */
  function Strtol(s: seq<byte>): (r: (int, nat))
    ensures r.1 <= |s|
  {
    var a := CountSpaces(s);
    if a < |s| && s[a] == MINUS then FromDigits(s, a + 1, true)
    else if a < |s| && s[a] == PLUS then FromDigits(s, a + 1, false)
    else FromDigits(s, a, false)
  }

  /** The number that starts at b; without a digit nothing has been used. */
  function FromDigits(s: seq<byte>, b: nat, negative: bool): (r: (int, nat))
    requires b <= |s|
    ensures r.1 <= |s|
  {
    var t := s[b..];
    var n := CountDigits(t);
    if n == 0 then (0, 0) else (ToLong(negative, DigitsValue(t[..n])), b + n)
  }

  function ToLong(negative: bool, v: nat): (r: int)
    ensures -LONG_MAX - 1 <= r <= LONG_MAX
  {
    if negative then -(if v > LONG_MAX + 1 then LONG_MAX + 1 else v)
    else if v > LONG_MAX then LONG_MAX
    else v
  }

  /** `parse_employee_hours`: the whole string must be used; the `long` is converted to `uint32_t`. */
  function ParseHours(s: seq<byte>): (r: Option<uint32>)
  {
    var (v, end) := Strtol(s);
    if end == 0 || end != |s| then None else Some(v % 0x1_0000_0000)
  }

  // ---------- parse_employee_vals ----------

  datatype Parsed = BadArgument | NullRead | Vals(name: seq<byte>, address: seq<byte>, hours: uint32)

  /** With exactly two fields the code reads through the null third token. */
  function ParseVals(s: seq<byte>): (r: Parsed) {
    var ts := Tokens(s);
    if |ts| < 2 then BadArgument
    else if |ts| == 2 then NullRead
    else
      match ParseHours(ts[2])
      case None => BadArgument
      case Some(hours) => Vals(ts[0], ts[1], hours)
  }

  /** Copies the C string at p out of memory. */
  method ReadString(str: array<byte>, p: nat, ghost s: seq<byte>) returns (r: seq<byte>)
    requires HoldsString(str[..], p, s)
    ensures r == s
  {
    r := [];
    while str[p + |r|] != 0
      invariant |r| <= |s| && r == s[..|r|]
      invariant |r| < |s| ==> s[|r|] == str[p + |r|]
      decreases |s| - |r|
    {
      r := r + [str[p + |r|]];
    }
  }

  lemma HoldsBelow(mem: seq<byte>, mem': seq<byte>, p: nat, s: seq<byte>, bound: nat)
    requires HoldsString(mem, p, s) && p + |s| < bound <= |mem| == |mem'|
    requires forall i :: 0 <= i < bound ==> mem'[i] == mem[i]
    ensures HoldsString(mem', p, s)
  {
  }

  lemma TwoTokens(s: seq<byte>, field1: seq<byte>, rest1: seq<byte>, field2: seq<byte>, rest2: seq<byte>)
    requires Tokens(s) == [field1] + Tokens(rest1) && Tokens(rest1) == [field2] + Tokens(rest2)
    ensures Tokens(s) == [field1, field2] + Tokens(rest2)
  {
  }

  /** The three calls of `strtok`: the fields of s, as far as there are three. */
  method CutThree(str: array<byte>, ghost s: seq<byte>)
    returns (name: Option<nat>, address: Option<nat>, hours: Option<nat>, ghost ts: seq<seq<byte>>)
    requires HoldsString(str[..], 0, s)
    modifies str
    ensures ts == Tokens(s)
    ensures (name.Some? <==> |ts| >= 1) && (address.Some? <==> |ts| >= 2) && (hours.Some? <==> |ts| >= 3)
    ensures |ts| >= 3 ==> HoldsString(str[..], address.value, ts[1]) && HoldsString(str[..], hours.value, ts[2])
    ensures |ts| >= 3 ==> HoldsString(str[..], name.value, ts[0])
  {
    ghost var field1, field2, field3, rest1, rest2, rest3;
    var saved;
    ts := Tokens(s);
    name, saved, field1, rest1 := Strtok(str, 0, s);
    ghost var mem1, saved1 := str[..], saved;
    address, saved, field2, rest2 := Strtok(str, saved, rest1);
    ghost var mem2, saved2 := str[..], saved;
    hours, saved, field3, rest3 := Strtok(str, saved, rest2);
    if name.Some? && address.Some? {
      TwoTokens(s, field1, rest1, field2, rest2);
      if hours.Some? {
        HoldsBelow(mem1, str[..], name.value, field1, saved1);
        HoldsBelow(mem2, str[..], address.value, field2, saved2);
      }
    }
  }

  /** `parse_employee_vals`: name and address are left in the argument, cut out by NULs. */
  method ParseEmployeeVals(str: array<byte>, ghost s: seq<byte>)
    returns (ok: bool, name: nat, address: nat, hours: uint32)
    requires HoldsString(str[..], 0, s)
    requires ParseVals(s) != NullRead
    modifies str
    ensures ok <==> ParseVals(s).Vals?
    ensures ok ==>
              && HoldsString(str[..], name, ParseVals(s).name)
              && HoldsString(str[..], address, ParseVals(s).address)
              && hours == ParseVals(s).hours
  {
    ok, name, address, hours := false, 0, 0, 0;
    var token1, token2, token3, ts := CutThree(str, s);
    if token1 == None || token2 == None {
      return;
    }
    var shours := ReadString(str, token3.value, ts[2]);
    match ParseHours(shours) {
      case None =>
      case Some(h) =>
        ok, name, address, hours := true, token1.value, token2.value, h;
    }
  }

  // ---------- printing and parsing back ----------

  /** The usual decimal notation, without leading zeros. */
  function Decimal(n: nat): (s: seq<byte>)
    ensures s != [] && AllDigits(s)
  {
    if n < 10 then [ZERO + n] else Decimal(n / 10) + [ZERO + n % 10]
  }

  lemma {:induction false} DecimalValue(n: nat)
    ensures DigitsValue(Decimal(n)) == n
  {
    var s := Decimal(n);
    assert s[|s| - 1] == ZERO + n % 10;
    if n >= 10 {
      assert s[..|s| - 1] == Decimal(n / 10);
      DecimalValue(n / 10);
    }
  }

  lemma {:induction false} CountAllDigits(s: seq<byte>)
    requires AllDigits(s)
    ensures CountDigits(s) == |s|
  {
    if s != [] {
      CountAllDigits(s[1..]);
    }
  }

  lemma StrtolOfDigits(s: seq<byte>)
    requires s != [] && AllDigits(s)
    ensures Strtol(s) == (ToLong(false, DigitsValue(s)), |s|)
  {
    CountAllDigits(s);
    assert IsDigit(s[0]);
    assert s[0..] == s;
    assert s[..|s|] == s;
  }

  lemma ParseDigits(s: seq<byte>, v: uint32)
    requires Strtol(s) == (ToLong(false, v), |s|) && s != []
    ensures ParseHours(s) == Some(v)
  {
  }

  /** Hours printed in decimal parse back: no `uint32_t` reaches the `long` clamp. */
  lemma HoursTextRoundTrip(hours: uint32)
    ensures ParseHours(Decimal(hours)) == Some(hours)
  {
    DecimalValue(hours);
    StrtolOfDigits(Decimal(hours));
    ParseDigits(Decimal(hours), hours);
  }

  function Commas(n: nat): (s: seq<byte>)
    ensures |s| == n && forall i :: 0 <= i < n ==> s[i] == COMMA
  {
    if n == 0 then [] else [COMMA] + Commas(n - 1)
  }

  /** Commas in front of a field are skipped, however many. */
  lemma {:induction false} LeadingCommas(n: nat, s: seq<byte>)
    ensures Tokens(Commas(n) + s) == Tokens(s)
  {
    if n == 0 {
      assert Commas(0) + s == s;
    } else {
      assert Commas(n) + s == [COMMA] + (Commas(n - 1) + s);
      LeadingCommas(n - 1, s);
    }
  }

  lemma {:induction false} SpanOf(f: seq<byte>, rest: seq<byte>)
    requires CommaFree(f) && (rest == [] || rest[0] == COMMA)
    ensures Span(f + rest) == |f|
  {
    if f == [] {
      assert f + rest == rest;
    } else {
      assert (f + rest)[1..] == f[1..] + rest;
      SpanOf(f[1..], rest);
    }
  }

  /** A field that is followed by nothing or by a comma is one token. */
  lemma FieldThen(f: seq<byte>, rest: seq<byte>)
    requires f != [] && CommaFree(f) && (rest == [] || rest[0] == COMMA)
    ensures Tokens(f + rest) == [f] + Tokens(rest)
  {
    SpanOf(f, rest);
    assert (f + rest)[..|f|] == f && (f + rest)[|f|..] == rest;
  }

  lemma CommasThenField(n: nat, f: seq<byte>, rest: seq<byte>)
    requires f != [] && CommaFree(f) && (rest == [] || rest[0] == COMMA)
    ensures Tokens(Commas(n) + f + rest) == [f] + Tokens(rest)
    ensures n > 0 ==> (Commas(n) + f + rest)[0] == COMMA
  {
    assert Commas(n) + f + rest == Commas(n) + (f + rest);
    LeadingCommas(n, f + rest);
    FieldThen(f, rest);
  }

  /** One printed employee: extra commas in front and between, anything after a comma behind the hours. */
  ghost function Row(i: nat, name: seq<byte>, j: nat, address: seq<byte>, k: nat, hours: uint32, rest: seq<byte>)
    : seq<byte>
  {
    Commas(i) + name + (Commas(j + 1) + address + (Commas(k + 1) + Decimal(hours) + rest))
  }

  lemma DecimalHasNoComma(n: nat)
    ensures CommaFree(Decimal(n))
  {
    var s := Decimal(n);
    assert forall i :: 0 <= i < |s| ==> IsDigit(s[i]);
  }

  lemma RowTokens(i: nat, name: seq<byte>, j: nat, address: seq<byte>, k: nat, hours: uint32, rest: seq<byte>)
    requires name != [] && CommaFree(name) && address != [] && CommaFree(address)
    requires rest == [] || rest[0] == COMMA
    ensures Tokens(Row(i, name, j, address, k, hours, rest)) == [name] + ([address] + ([Decimal(hours)] + Tokens(rest)))
  {
    DecimalHasNoComma(hours);
    var hoursOn := Commas(k + 1) + Decimal(hours) + rest;
    CommasThenField(k + 1, Decimal(hours), rest);
    CommasThenField(j + 1, address, hoursOn);
    CommasThenField(i, name, Commas(j + 1) + address + hoursOn);
  }

  /** Printing an employee and parsing it back gives the same values, with any number of extra commas
      in front and between the fields, and with anything at all after a comma behind the hours. */
  lemma EmployeeTextRoundTrip(i: nat, name: seq<byte>, j: nat, address: seq<byte>, k: nat, hours: uint32, rest: seq<byte>)
    requires name != [] && CommaFree(name) && address != [] && CommaFree(address)
    requires rest == [] || rest[0] == COMMA
    ensures ParseVals(Row(i, name, j, address, k, hours, rest)) == Vals(name, address, hours)
  {
    RowTokens(i, name, j, address, k, hours, rest);
    HoursTextRoundTrip(hours);
  }

  // ---------- update_employee and delete_employee ----------

  /** The employee at i is the first of that name and has these hours now; nothing else has changed. */
  ghost predicate NewHours(was: seq<Employee>, es: seq<Employee>, i: nat, name: seq<byte>, hours: uint32) {
    && i < |was| == |es|
    && was[i].name == name && (forall j :: 0 <= j < i ==> was[j].name != name)
    && es[i].name == name && es[i].address == was[i].address && es[i].hours == hours
    && forall j :: 0 <= j < |es| && j != i ==> es[j] == was[j]
  }

  lemma HoursPut(was: seq<Employee>, es: seq<Employee>, i: nat, n: nat, name: seq<byte>, hours: uint32)
    requires i < n <= |was| && es == was[i := was[i].(hours := hours)]
    requires was[i].name == name && forall j :: 0 <= j < i ==> was[j].name != name
    ensures NewHours(was, es, i, name, hours) && FirstNamed(was[..n], name) == i
    ensures es[..n] == SetHours(was[..n], i, hours) && es[n..] == was[n..]
  {
    FirstNamedUnique(was[..n], name, i);
  }

  /** Overwrites the hours of the first employee of that name among the first n. */
  method UpdateEmployee(name: seq<byte>, shours: seq<byte>, employees: array<Employee>, n: nat) returns (ok: bool)
    requires n <= employees.Length
    modifies employees
    ensures ok <==> ParseHours(shours).Some? && FirstNamed(old(employees[..n]), name) < n
    ensures ok ==> var was := old(employees[..n]);
                   employees[..n] == SetHours(was, FirstNamed(was, name), ParseHours(shours).value)
    ensures ok ==> exists i :: 0 <= i < n && NewHours(old(employees[..]), employees[..], i, name, ParseHours(shours).value)
    ensures !ok ==> employees[..] == old(employees[..])
    ensures employees[n..] == old(employees[n..])
  {
    ghost var was := employees[..];
    var hours := ParseHours(shours);
    if hours == None {
      return false;
    }
    for i := 0 to n
      invariant employees[..] == was
      invariant forall j :: 0 <= j < i ==> was[j].name != name
    {
      if employees[i].name == name {
        employees[i] := employees[i].(hours := hours.value);
        HoursPut(was, employees[..], i, n, name, hours.value);
        return true;
      }
    }
    FirstNamedUnique(was[..n], name, n);
    ok := false;
  }

  /** Overwrites the first employee of that name with the last; the caller then drops the last. */
  method DeleteEmployee(name: seq<byte>, employees: array<Employee>, n: nat) returns (ok: bool)
    requires n <= employees.Length
    modifies employees
    ensures ok <==> FirstNamed(old(employees[..n]), name) < n
    ensures ok ==> var was := old(employees[..n]);
                   employees[..n - 1] == SwapRemove(was, FirstNamed(was, name))
    ensures !ok ==> employees[..] == old(employees[..])
    ensures n > 0 ==> employees[n - 1..] == old(employees[n - 1..])
  {
    for i := 0 to n
      invariant employees[..] == old(employees[..])
      invariant forall j :: 0 <= j < i ==> employees[j].name != name
    {
      if employees[i].name == name {
        FirstNamedUnique(employees[..n], name, i);
        employees[i] := employees[n - 1];
        return true;
      }
    }
    FirstNamedUnique(employees[..n], name, n);
    ok := false;
  }
}
