/** The server's copy of the database and `deserialize_request_options` over it. */
module Database {
  import opened Bytes
  import opened Employees
  import opened Requests
  import opened Interpreter
  import opened DbFile
  import opened OutBuffer
  import Framing
  import FileImage

  /** A length, that many characters, and the cursor behind them. */
  method TakeTextAt(body: array<byte>, p: nat) returns (s: seq<byte>, q: nat)
    requires p <= body.Length && TakeText(body[p..]).Some?
    ensures q <= body.Length && TakeText(body[p..]) == Some((s, body[q..]))
  {
    Advance(body[..], p, 2);
    var n := FromBe16(body[p..p + 2]);
    Advance(body[..], p + 2, n);
    s := UntilNul(body[p + 2..p + 2 + n]);
    q := p + 2 + n;
  }

  method TakeHoursAt(body: array<byte>, p: nat) returns (hours: uint32, q: nat)
    requires p <= body.Length && ReadHours(body[p..]).Some?
    ensures q <= body.Length && ReadHours(body[p..]) == Some((hours, body[q..]))
  {
    Advance(body[..], p, 4);
    hours := FromBe32(body[p..p + 4]);
    q := p + 4;
  }

  /** `deserialize_add_employee_option` */
  method TakeAddAt(body: array<byte>, p: nat) returns (e: Employee, q: nat)
    requires p <= body.Length && TakeAdd(body[p..]).Some?
    ensures q <= body.Length && TakeAdd(body[p..]) == Some((e, body[q..]))
  {
    var name, address, hours;
    name, q := TakeTextAt(body, p);
    address, q := TakeTextAt(body, q);
    hours, q := TakeHoursAt(body, q);
    e := Employee(name, address, hours);
  }

  /** `deserialize_update_employee_option` */
  method TakeUpdateAt(body: array<byte>, p: nat) returns (u: Update, q: nat)
    requires p <= body.Length && TakeUpdate(body[p..]).Some?
    ensures q <= body.Length && TakeUpdate(body[p..]) == Some((u, body[q..]))
  {
    var name, hours;
    name, q := TakeTextAt(body, p);
    hours, q := TakeHoursAt(body, q);
    u := Update(name, hours);
  }

  /** The search loop over the first n employees. */
  method Find(employees: array<Employee>, n: nat, name: seq<byte>) returns (i: nat)
    requires n <= employees.Length
    ensures i == FirstNamed(employees[..n], name)
  {
    i := 0;
    while i < n && employees[i].name != name
      invariant i <= n
      invariant forall j :: 0 <= j < i ==> employees[j].name != name
    {
      i := i + 1;
    }
    FirstNamedUnique(employees[..n], name, i);
  }

  class Database {
    var employees: array<Employee>
    var count: uint32   // dbhdr->employee_count
    var fsize: uint32   // dbhdr->fsize
    const file: DbFile

    ghost predicate Valid()
      reads this, file
    {
      count <= employees.Length
    }

    ghost function View(): Store
      requires Valid()
      reads this, employees, file
    {
      Store(employees[..count], fsize, file.data)
    }

    /** What `main` does at start-up once the header has been accepted. */
    constructor (file: DbFile, employees: array<Employee>, fsize: uint32, count: uint32)
      requires count <= employees.Length
      ensures Valid() && View() == Store(employees[..count], fsize, file.data)
      ensures this.file == file && this.employees == employees
    {
      this.file, this.employees, this.fsize, this.count := file, employees, fsize, count;
    }

    /** `write_db` on the employees in memory. */
    method Save(ghost rest: seq<byte>) returns (ok: bool)
      requires Valid()
      modifies this`fsize, file
      ensures Valid()
      ensures match Interpreter.Save(old(View()), rest)
              case Next(st, _) => ok && View() == st
              case _ => !ok
    {
      var size;
      ok, size := file.WriteDb(employees, count);
      if ok {
        fsize := size;
      }
    }

    /** `realloc` to exactly one more employee than there are, and the new one in the last place. */
    method Append(e: Employee)
      requires Valid() && count + 1 < 0x1_0000_0000
      modifies this`employees, this`count
      ensures Valid() && fresh(employees)
      ensures View() == old(View()).(employees := old(View()).employees + [e])
    {
      var bigger := new Employee[count + 1](_ => e);
      for i := 0 to count
        invariant employees == old(employees) && count == old(count)
        invariant forall j :: 0 <= j < i ==> bigger[j] == employees[j]
        invariant bigger[count] == e
      {
        bigger[i] := employees[i];
      }
      assert bigger[..count + 1] == employees[..count] + [e];
      employees, count := bigger, count + 1;
    }

    method AddOption(body: array<byte>, p: nat) returns (ok: bool, q: nat)
      requires Valid() && p <= body.Length
      requires AddStep(View(), body[p..]) != Undefined
      modifies this`employees, this`count, this`fsize, file
      ensures Valid() && (employees == old(employees) || fresh(employees))
      ensures match AddStep(old(View()), body[p..])
              case Next(st, rest) => ok && q <= body.Length && View() == st && body[q..] == rest
              case _ => !ok
    {
      ok, q := true, p;
      if p < body.Length && body[p] == ADD {
        assert body[p..][1..] == body[p + 1..];
        var e;
        e, q := TakeAddAt(body, p + 1);
        Append(e);
        ok := Save(body[q..]);
      }
    }

    method UpdateOption(body: array<byte>, p: nat) returns (ok: bool, found: bool, q: nat)
      requires Valid() && p <= body.Length
      requires UpdateStep(View(), body[p..]) != Undefined
      modifies this`fsize, employees, file
      ensures Valid()
      ensures match UpdateStep(old(View()), body[p..])
              case Next(st, rest) => ok && found && q <= body.Length && View() == st && body[q..] == rest
              case Stop(st, rest) => ok && !found && q <= body.Length && View() == st && body[q..] == rest
              case _ => !ok
    {
      ok, found, q := true, true, p;
      if p < body.Length && body[p] == UPDATE {
        assert body[p..][1..] == body[p + 1..];
        var u;
        u, q := TakeUpdateAt(body, p + 1);
        var i := Find(employees, count, u.name);
        found := i < count;
        if found {
          employees[i] := employees[i].(hours := u.hours);
          ok := Save(body[q..]);
        }
      }
    }

    /** The last employee moves into the gap and the count goes down. */
    method RemoveAt(i: nat)
      requires Valid() && i < count
      modifies this`count, employees
      ensures Valid()
      ensures View() == old(View()).(employees := SwapRemove(old(View()).employees, i))
    {
      count := count - 1;
      employees[i] := employees[count];
      assert employees[..count] == SwapRemove(old(employees[..count]), i);
    }

    method DeleteOption(body: array<byte>, p: nat) returns (ok: bool, found: bool, q: nat)
      requires Valid() && p <= body.Length
      requires DeleteStep(View(), body[p..]) != Undefined
      modifies this`fsize, this`count, employees, file
      ensures Valid()
      ensures match DeleteStep(old(View()), body[p..])
              case Next(st, rest) => ok && found && q <= body.Length && View() == st && body[q..] == rest
              case Stop(st, rest) => ok && !found && q <= body.Length && View() == st && body[q..] == rest
              case _ => !ok
    {
      ok, found, q := true, true, p;
      if p < body.Length && body[p] == DELETE {
        assert body[p..][1..] == body[p + 1..];
        var name;
        name, q := TakeTextAt(body, p + 1);
        var i := Find(employees, count, name);
        found := i < count;
        if found {
          RemoveAt(i);
          ok := Save(body[q..]);
        }
      }
    }

    /** The list option and the final response. */
    method ListOption(body: array<byte>, p: nat, out: OutBuffer, ghost w: seq<byte>)
      requires Valid() && p <= body.Length && Blank(out, w) && out.buf != body
      requires Interpreter.Respond(Next(View(), body[p..])) != Crashed
      modifies out, out.buf
      ensures out.buf == old(out.buf) || fresh(out.buf)
      ensures Answers(out, Interpreter.Respond(Next(View(), body[p..])))
    {
      if p < body.Length && body[p] == LIST {
        out.SerializeList(employees, count, w);
        FillHeader(out, w, Records(employees[..count]));
      } else {
        assert w + [] == w;
        FillHeader(out, w, []);
      }
    }

    /** `deserialize_request_options` from the delete option on. */
    method RunFromDelete(body: array<byte>, p: nat, out: OutBuffer, ghost w: seq<byte>) returns (ok: bool, q: nat)
      requires Valid() && p <= body.Length && Blank(out, w) && out.buf != body
      requires FromDelete(Next(View(), body[p..])) != Crashed
      modifies this`count, this`fsize, employees, file, out, out.buf
      ensures Valid() && (out.buf == old(out.buf) || fresh(out.buf))
      ensures Achieves(body, out, old(FromDelete(Next(View(), body[p..]))), ok, q)
    {
      var found;
      ok, found, q := DeleteOption(body, p);
      if ok && found {
        ListOption(body, q, out, w);
      } else if ok {
        FlagAbsent(out, w);
      }
    }

    /** `deserialize_request_options` from the update option on. */
    method RunFromUpdate(body: array<byte>, p: nat, out: OutBuffer, ghost w: seq<byte>) returns (ok: bool, q: nat)
      requires Valid() && p <= body.Length && Blank(out, w) && out.buf != body
      requires FromUpdate(Next(View(), body[p..])) != Crashed
      modifies this`count, this`fsize, employees, file, out, out.buf
      ensures Valid() && (out.buf == old(out.buf) || fresh(out.buf))
      ensures Achieves(body, out, old(FromUpdate(Next(View(), body[p..]))), ok, q)
    {
      var found;
      ok, found, q := UpdateOption(body, p);
      if ok && found {
        ok, q := RunFromDelete(body, q, out, w);
      } else if ok {
        FlagAbsent(out, w);
      }
    }

    /** `deserialize_request_options`: q is where the cursor ends. */
    method DeserializeRequestOptions(body: array<byte>, out: OutBuffer, ghost w: seq<byte>) returns (ok: bool, q: nat)
      requires Valid() && Blank(out, w) && out.buf != body
      requires Interpret(View(), body[..]) != Crashed
      modifies this`employees, this`count, this`fsize, employees, file, out, out.buf
      ensures Valid() && (employees == old(employees) || fresh(employees))
      ensures out.buf == old(out.buf) || fresh(out.buf)
      ensures Achieves(body, out, old(Interpret(View(), body[..])), ok, q)
    {
      ghost var o := Interpret(View(), body[..]);
      assert body[..] == body[0..];
      assert o == FromUpdate(AddStep(View(), body[0..]));
      ok, q := AddOption(body, 0);
      if ok {
        ok, q := RunFromUpdate(body, q, out, w);
      }
    }

    /** The database, the response buffer and the cursor are as the outcome says. */
    ghost predicate Achieves(body: array<byte>, out: OutBuffer, o: Result, ok: bool, q: nat)
      requires Valid()
      reads this, employees, file, body, out, out.buf
    {
      (ok <==> o.Done?) && (ok ==> View() == o.store && Answers(out, o) && q <= body.Length && body[q..] == o.rest)
    }
  }

  /** A response buffer of nine bytes with only its tag filled in. */
  ghost predicate Blank(out: OutBuffer, w: seq<byte>)
    reads out, out.buf
  {
    out.Holds(w) && out.Exact() && |w| == RESPONSE_HEADER && w[..4] == HostWord(Framing.DB_ACCESS_RESPONSE)
  }

  ghost predicate Answers(out: OutBuffer, o: Result)
    reads out, out.buf
  {
    o.Done? && IsResponse(out.buf[..], o.response)
  }

  lemma HeaderPatched(w: seq<byte>, data: seq<byte>)
    requires |w| == RESPONSE_HEADER && |data| < 0x1_0000_0000
    ensures var flagged := (w + data)[..4] + [0] + (w + data)[5..];
            flagged[..5] + Be32(|data|) + flagged[9..] == w[..4] + [0] + Be32(|data|) + data
  {
  }

  /** The success flag and the length of the data behind the header. */
  method FillHeader(out: OutBuffer, ghost w: seq<byte>, ghost data: seq<byte>)
    requires out.Holds(w + data) && out.Exact() && |w| == RESPONSE_HEADER && |w + data| < 0x1_0000_0000
    requires w[..4] == HostWord(Framing.DB_ACCESS_RESPONSE)
    modifies out.buf
    ensures IsResponse(out.buf[..], Success(data))
  {
    out.Patch(4, [0], w + data);
    var length := out.buf.Length - RESPONSE_HEADER;
    ghost var flagged := (w + data)[..4] + [0] + (w + data)[5..];
    out.Patch(5, Be32(length), flagged);
    HeaderPatched(w, data);
    assert out.buf[..out.cursor] == out.buf[..];
  }

  /** Error flag 1: an employee that is not there. */
  method FlagAbsent(out: OutBuffer, ghost w: seq<byte>)
    requires Blank(out, w)
    modifies out.buf
    ensures IsResponse(out.buf[..], NotFound)
  {
    out.Patch(4, [1], w);
    assert out.buf[..out.cursor] == out.buf[..];
  }

  /** The start of the server's `main` on an existing file. */
  method Open(file: DbFile, prior: seq<byte>) returns (ok: bool, db: Database?)
    requires file.pos == 0 && |prior| == FileImage.HEADER
    modifies file
    ensures file.data == old(file.data) && (ok ==> db != null && fresh(db) && db.file == file && fresh(db.employees) && db.Valid())
    ensures match Reopened(file.data)
            case Some(st) => ok && db.View() == st
            case None => |file.data| >= FileImage.HEADER && !FileImage.Accepts(file.data) ==> !ok
  {
    db := null;
    var fsize, count;
    ok, fsize, count := file.ReadDbHdr(prior);
    if !ok {
      return;
    }
    var employees := new Employee[count](_ => Employee([], [], 0));
    ok := file.ReadEmployees(employees, count);
    if ok {
      db := new Database(file, employees, fsize, count);
    }
  }
}
