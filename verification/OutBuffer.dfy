/** The growing buffer with a cursor that `proto.c` serializes into. `*capacity` is the length of the array. */
module OutBuffer {
  import opened Bytes
  import opened Employees
  import opened Requests
  import opened Parse

  lemma AppendAdd(w: seq<byte>, e: Employee)
    requires |e.name| <= 0xffff && |e.address| <= 0xffff
    ensures w + [ADD] + Text(e.name) + Text(e.address) + Be32(e.hours) == w + EncodeAdd(e)
  {
  }

  lemma AppendUpdate(w: seq<byte>, u: Update)
    requires |u.name| <= 0xffff
    ensures w + [UPDATE] + Text(u.name) + Be32(u.hours) == w + EncodeUpdate(u)
  {
  }

  lemma AppendText(w: seq<byte>, s: seq<byte>)
    requires |s| <= 0xffff
    ensures w + Be16(|s|) + s == w + Text(s)
  {
  }

  lemma AppendRecord(w: seq<byte>, es: seq<Employee>, i: nat)
    requires i < |es|
    ensures w + Records(es[..i]) + Record(es[i]) == w + Records(es[..i + 1])
  {
    RecordsTake(es, i);
  }

  class OutBuffer {
    var buf: array<byte>
    var cursor: nat

    /** The bytes before the cursor are w. */
    ghost predicate Holds(w: seq<byte>)
      reads this, buf
    {
      cursor == |w| && cursor <= buf.Length && buf[..cursor] == w
    }

    /** The capacity is not larger than what is used. */
    ghost predicate Exact()
      reads this
    {
      buf.Length == cursor
    }

    /** `malloc(capacity)` with the cursor at its end: a header to be filled in later. */
    constructor (capacity: nat)
      ensures fresh(buf) && Exact() && cursor == capacity
    {
      buf := new byte[capacity];
      cursor := capacity;
    }

    /** `resize_buffer`: room for n more bytes and not one too many. */
    method Resize(n: nat, ghost w: seq<byte>)
      requires Holds(w)
      modifies this
      ensures Holds(w) && buf.Length == Max(old(buf.Length), cursor + n)
      ensures buf == old(buf) || fresh(buf)
    {
      var delta := buf.Length - cursor;
      if delta < n {
        var bigger := new byte[buf.Length + (n - delta)];
        for i := 0 to buf.Length
          invariant buf == old(buf) && cursor == old(cursor)
          invariant forall j :: 0 <= j < i ==> bigger[j] == buf[j]
        {
          bigger[i] := buf[i];
        }
        assert bigger[..cursor] == buf[..cursor];
        buf := bigger;
      }
    }

    /** `memcpy`, `strncpy` or a store at the cursor, which then moves past it. */
    method Put(s: seq<byte>, ghost w: seq<byte>)
      requires Holds(w) && cursor + |s| <= buf.Length
      modifies this`cursor, buf
      ensures Holds(w + s)
    {
      Store(buf, cursor, s);
      cursor := cursor + |s|;
    }

    method PutText(s: seq<byte>, ghost w: seq<byte>)
      requires |s| <= 0xffff && Holds(w) && cursor + 2 + |s| <= buf.Length
      modifies this`cursor, buf
      ensures Holds(w + Text(s))
    {
      Put(Be16(|s|), w);
      Put(s, w + Be16(|s|));
      AppendText(w, s);
    }

    /** `serialize_add_employee_option` from the parsed values on. */
    method SerializeAdd(e: Employee, ghost w: seq<byte>) returns (ok: bool)
      requires Holds(w)
      modifies this, buf
      ensures ok <==> |e.name| <= 0xffff && |e.address| <= 0xffff
      ensures ok ==> Holds(w + EncodeAdd(e)) && (old(Exact()) ==> Exact())
      ensures buf == old(buf) || fresh(buf)
    {
      if |e.name| > 0xffff || |e.address| > 0xffff {
        return false;
      }
      Resize(|e.name| + |e.address| + 2 * 2 + 4 + 1, w);
      Put([ADD], w);
      PutText(e.name, w + [ADD]);
      PutText(e.address, w + [ADD] + Text(e.name));
      Put(Be32(e.hours), w + [ADD] + Text(e.name) + Text(e.address));
      AppendAdd(w, e);
      ok := true;
    }

    /** `serialize_add_employee_option`: the argument is cut up in place by the parser. */
    method SerializeAddText(arg: array<byte>, ghost s: seq<byte>, ghost w: seq<byte>) returns (ok: bool)
      requires HoldsString(arg[..], 0, s) && ParseVals(s) != NullRead
      requires Holds(w) && arg != buf
      modifies this, buf, arg
      ensures var v := ParseVals(s);
              (ok <==> v.Vals? && |v.name| <= 0xffff && |v.address| <= 0xffff)
              && (ok ==> Holds(w + EncodeAdd(Employee(v.name, v.address, v.hours))) && (old(Exact()) ==> Exact()))
      ensures buf == old(buf) || fresh(buf)
    {
      var name, address, hours;
      ok, name, address, hours := ParseEmployeeVals(arg, s);
      if ok {
        ghost var v := ParseVals(s);
        var nameText := ReadString(arg, name, v.name);
        var addressText := ReadString(arg, address, v.address);
        ok := SerializeAdd(Employee(nameText, addressText, hours), w);
      }
    }

    /** `serialize_update_employee_option` */
    method SerializeUpdate(name: seq<byte>, shours: seq<byte>, ghost w: seq<byte>) returns (ok: bool)
      requires Holds(w)
      modifies this, buf
      ensures ok <==> ParseHours(shours).Some? && |name| <= 0xffff
      ensures ok ==> Holds(w + EncodeUpdate(Update(name, ParseHours(shours).value))) && (old(Exact()) ==> Exact())
      ensures buf == old(buf) || fresh(buf)
    {
      var hours := ParseHours(shours);
      if hours == None || |name| > 0xffff {
        return false;
      }
      Resize(2 + 4 + |name| + 1, w);
      Put([UPDATE], w);
      PutText(name, w + [UPDATE]);
      Put(Be32(hours.value), w + [UPDATE] + Text(name));
      AppendUpdate(w, Update(name, hours.value));
      ok := true;
    }

    /** `serialize_delete_employee_option` */
    method SerializeDelete(name: seq<byte>, ghost w: seq<byte>) returns (ok: bool)
      requires Holds(w)
      modifies this, buf
      ensures ok <==> |name| <= 0xffff
      ensures ok ==> Holds(w + EncodeDelete(name)) && (old(Exact()) ==> Exact())
      ensures buf == old(buf) || fresh(buf)
    {
      if |name| > 0xffff {
        return false;
      }
      Resize(2 + |name| + 1, w);
      Put([DELETE], w);
      PutText(name, w + [DELETE]);
      assert w + [DELETE] + Text(name) == w + EncodeDelete(name);
      ok := true;
    }

    /** `serialize_list_option` */
    method SerializeListOption(ghost w: seq<byte>)
      requires Holds(w)
      modifies this, buf
      ensures Holds(w + [LIST]) && (old(Exact()) ==> Exact())
      ensures buf == old(buf) || fresh(buf)
    {
      Resize(1, w);
      Put([LIST], w);
    }

    method PutField(s: seq<byte>, ghost w: seq<byte>)
      requires Holds(w) && cursor + |Field(s)| <= buf.Length
      modifies this`cursor, buf
      ensures Holds(w + Field(s))
    {
      var length := WireLength(s);
      Put(Be16(length), w);
      Put((s + [0])[..length], w + Be16(length));
      assert w + Be16(length) + (s + [0])[..length] == w + Field(s);
    }

    /** One turn of the loop in `serialize_list_employee_response`. */
    method SerializeRecord(e: Employee, ghost w: seq<byte>)
      requires Holds(w)
      modifies this, buf
      ensures Holds(w + Record(e)) && (old(Exact()) ==> Exact())
      ensures buf == old(buf) || fresh(buf)
    {
      Resize(WireLength(e.name) as int + WireLength(e.address) as int + 2 * 2 + 4, w);
      PutField(e.name, w);
      PutField(e.address, w + Field(e.name));
      Put(Be32(e.hours), w + Field(e.name) + Field(e.address));
      AppendFields(w, e);
    }

    /** `serialize_list_employee_response`, for a total that fits the `uint32_t` buffer length. */
    method SerializeList(employees: array<Employee>, n: nat, ghost w: seq<byte>)
      requires n <= employees.Length && Holds(w) && Exact()
      requires |w| + |Records(employees[..n])| < 0x1_0000_0000
      modifies this, buf
      ensures Holds(w + Records(employees[..n])) && Exact()
      ensures buf == old(buf) || fresh(buf)
    {
      ghost var es := employees[..n];
      assert w + Records(es[..0]) == w;
      for i := 0 to n
        invariant Holds(w + Records(es[..i])) && Exact()
        invariant buf == old(buf) || fresh(buf)
      {
        SerializeRecord(employees[i], w + Records(es[..i]));
        AppendRecord(w, es, i);
      }
      assert es[..n] == es;
    }

    /** Stores over bytes already written. */
    method Patch(at: nat, s: seq<byte>, ghost w: seq<byte>)
      requires Holds(w) && at + |s| <= cursor
      modifies buf
      ensures Holds(w[..at] + s + w[at + |s|..])
    {
      for i := 0 to |s|
        invariant buf[..at] == w[..at] && buf[at + |s|..cursor] == w[at + |s|..]
        invariant forall j :: 0 <= j < i ==> buf[at + j] == s[j]
      {
        buf[at + i] := s[i];
      }
      assert buf[at..at + |s|] == s;
      assert buf[..cursor] == buf[..at] + buf[at..at + |s|] + buf[at + |s|..cursor];
    }
  }
}
