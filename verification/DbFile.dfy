/** `serialize.c` over an open file: bytes and a position. */
module DbFile {
  import opened Bytes
  import opened Employees
  import opened FileImage

  lemma WriteMore(d0: seq<byte>, p0: nat, w: seq<byte>, b: seq<byte>, i: nat, n: nat, d1: seq<byte>, p1: nat, d2: seq<byte>)
    requires i <= |b| && n <= |b| - i
    requires d1 == Overwrite(d0, p0, w + b[..i]) && p1 == p0 + |w + b[..i]| && d2 == Overwrite(d1, p1, b[i..][..n])
    ensures d2 == Overwrite(d0, p0, w + b[..i + n])
  {
    OverwriteTwice(d0, p0, w + b[..i], b[i..][..n]);
    TakeMore(w, b, i, n);
  }

  lemma AppendField(w: seq<byte>, s: seq<byte>)
    ensures w + Be16(WireLength(s)) + (s + [0])[..WireLength(s)] == w + Field(s)
  {
  }

  class DbFile {
    var data: seq<byte>
    var pos: nat

    constructor (data: seq<byte>)
      ensures this.data == data && pos == 0
    {
      this.data := data;
      pos := 0;
    }

    /** Since the file was d0 at position p0, exactly the bytes w have been written, in sequence. */
    ghost predicate Wrote(d0: seq<byte>, p0: nat, w: seq<byte>)
      reads this
    {
      data == Overwrite(d0, p0, w) && pos == p0 + |w|
    }

    /** `lseek(fd, p, SEEK_SET)` */
    method Seek(p: nat)
      modifies this
      ensures pos == p && data == old(data)
    {
      pos := p;
    }

    /** `write`: may take fewer bytes than offered, but takes at least one. */
    method WriteSome(b: seq<byte>) returns (n: nat)
      requires b != []
      modifies this
      ensures 0 < n <= |b|
      ensures Wrote(old(data), old(pos), b[..n])
    {
      n :| 0 < n <= |b|;
      data := Overwrite(data, pos, b[..n]);
      pos := pos + n;
    }

    /** `write_all` */
    method WriteAll(b: seq<byte>, ghost d0: seq<byte>, ghost p0: nat, ghost w: seq<byte>) returns (total: nat)
      requires Wrote(d0, p0, w)
      modifies this
      ensures Wrote(d0, p0, w + b) && total == |b|
    {
      total := 0;
      assert b[..0] == [] && w + [] == w;
      while total < |b|
        invariant total <= |b|
        invariant Wrote(d0, p0, w + b[..total])
      {
        ghost var d1, p1 := data, pos;
        var n := WriteSome(b[total..]);
        WriteMore(d0, p0, w, b, total, n, d1, p1, data);
        total := total + n;
      }
      assert b[..total] == b;
    }

    /** A string field: its `uint16_t` length, then that many bytes of the string and its NUL. */
    method WriteField(s: seq<byte>, ghost d0: seq<byte>, ghost p0: nat, ghost w: seq<byte>) returns (nbytes: nat)
      requires Wrote(d0, p0, w)
      modifies this
      ensures Wrote(d0, p0, w + Field(s)) && nbytes == |Field(s)|
    {
      var length := WireLength(s);
      var n1 := WriteAll(Be16(length), d0, p0, w);
      var n2 := WriteAll((s + [0])[..length], d0, p0, w + Be16(length));
      AppendField(w, s);
      nbytes := n1 + n2;
    }

    /** `fserialize_employee` */
    method SerializeEmployee(e: Employee, ghost d0: seq<byte>, ghost p0: nat, ghost w: seq<byte>) returns (nbytes: nat)
      requires Wrote(d0, p0, w)
      modifies this
      ensures Wrote(d0, p0, w + Record(e)) && nbytes == |Record(e)|
    {
      var n1 := WriteField(e.name, d0, p0, w);
      var n2 := WriteField(e.address, d0, p0, w + Field(e.name));
      var n3 := WriteAll(Be32(e.hours), d0, p0, w + Field(e.name) + Field(e.address));
      AppendFields(w, e);
      nbytes := n1 + n2 + n3;
    }

    /** `write_employees`: the byte count comes back as an `int`. */
    method WriteEmployees(employees: array<Employee>, n: nat) returns (nbytes: int32)
      requires n <= employees.Length
      modifies this
      ensures Wrote(old(data), old(pos), Records(employees[..n]))
      ensures nbytes == CInt(|Records(employees[..n])| % 0x1_0000_0000)
    {
      var total := 0;
      ghost var d0, p0, es := data, pos, employees[..n];
      for i := 0 to n
        invariant Wrote(d0, p0, Records(es[..i]))
        invariant total == |Records(es[..i])|
      {
        var k := SerializeEmployee(employees[i], d0, p0, Records(es[..i]));
        RecordsTake(es, i);
        total := total + k;
      }
      assert es[..n] == es;
      nbytes := CInt(total % 0x1_0000_0000);
    }

    /** `write_db`: on success the new `dbhdr->fsize` comes back with it. */
    method WriteDb(employees: array<Employee>, count: uint32) returns (ok: bool, fsize: uint32)
      requires count <= employees.Length
      modifies this
      ensures data == FileImage.WriteDb(old(data), employees[..count])
      ensures ok <==> !CountsAsFailure(employees[..count])
      ensures ok ==> fsize == FileSize(employees[..count])
    {
      Seek(HEADER);
      var nbytes := WriteEmployees(employees, count);
      if nbytes == -1 {
        return false, 0;
      }
      CountThroughInt(|Records(employees[..count])|);
      fsize := (HEADER + SizeT(nbytes) as int) % 0x1_0000_0000;
      Seek(0);
      data := Overwrite(data, 0, HeaderBytes(fsize, count));
      pos := HEADER;
      ok := true;
    }

    /** `write_new_file_hdr` on a file just created, with the position put back to the start. */
    method WriteNewFileHdr()
      requires data == [] && pos == 0
      modifies this
      ensures data == Image([]) && pos == 0
    {
      data := Overwrite(data, pos, HeaderBytes(HEADER, 0));
      pos := 0;
      OverwriteFront([], HeaderBytes(HEADER, 0));
      assert HeaderBytes(HEADER, 0) + [] == Image([]);
    }

    // ---------- reading ----------

    /** `read`: everything asked for, or as much as there is before the end of the file. */
    method Read(n: nat) returns (chunk: seq<byte>)
      modifies this
      ensures data == old(data)
      ensures var rest := Drop(data, old(pos));
              match TakeBytes(rest, n)
              case Some((taken, left)) => chunk == taken && Drop(data, pos) == left
              case None => chunk == rest && Drop(data, pos) == []
    {
      if pos >= |data| {
        chunk := [];
      } else {
        chunk := data[pos..pos + Min(n, |data| - pos)];
        ghost var rest := data[pos..];
        if n <= |rest| {
          TakeBytesSlices(rest, n);
        }
        pos := pos + |chunk|;
      }
    }

    /** The two reads of a string field. The model keeps what the buffer holds up to its first NUL. */
    method ReadFieldBytes() returns (ok: bool, s: seq<byte>)
      modifies this
      ensures data == old(data)
      ensures var r := ReadField(Drop(data, old(pos)));
              (r.Some? ==> ok && s == r.value.0 && Drop(data, pos) == r.value.1) && (!ok ==> r == None)
    {
      var length := Read(2);
      if |length| != 2 {
        return false, [];
      }
      var n := FromBe16(length);
      var raw := Read(n);
      if |raw| != n {
        return false, [];
      }
      ok, s := true, UntilNul(raw);
    }

    /** `fdeserialize_employee` */
    method DeserializeEmployee() returns (ok: bool, e: Employee)
      modifies this
      ensures data == old(data)
      ensures var r := ReadRecord(Drop(data, old(pos)));
              (r.Some? ==> ok && e == r.value.0 && Drop(data, pos) == r.value.1) && (!ok ==> r == None)
    {
      e := Employee([], [], 0);
      var name, address;
      ok, name := ReadFieldBytes();
      if !ok {
        return;
      }
      ok, address := ReadFieldBytes();
      if !ok {
        return;
      }
      var hours := Read(4);
      if |hours| != 4 {
        return false, e;
      }
      e := Employee(name, address, FromBe32(hours));
    }

    /** One turn of the loop in `read_employees`; all is what the file has if it is well formed. */
    method ReadEmployeeAt(employees: array<Employee>, i: nat, ghost all: Option<seq<Employee>>) returns (ok: bool)
      requires i < employees.Length
      requires all.Some? ==> i < |all.value| && StillToRead(Drop(data, pos), all.value, i)
      modifies this, employees
      ensures data == old(data)
      ensures all.Some? ==> ok && employees[i] == all.value[i] && StillToRead(Drop(data, pos), all.value, i + 1)
      ensures forall j :: 0 <= j < i ==> employees[j] == old(employees[j])
    {
      if all.Some? {
        ReadStep(Drop(data, pos), all.value, i);
      }
      var e;
      ok, e := DeserializeEmployee();
      if ok {
        employees[i] := e;
      }
    }

    /** `read_employees` into an array with room for n. */
    method ReadEmployees(employees: array<Employee>, n: nat) returns (ok: bool)
      requires n <= employees.Length
      modifies this, employees
      ensures data == old(data)
      ensures var all := ReadRecords(Drop(data, old(pos)), n);
              (all.Some? ==> ok && employees[..n] == all.value) && (!ok ==> all == None)
    {
      ghost var all := ReadRecords(Drop(data, pos), n);
      for i := 0 to n
        invariant data == old(data)
        invariant all.Some? ==> StillToRead(Drop(data, pos), all.value, i)
        invariant all.Some? ==> forall j :: 0 <= j < i ==> employees[j] == all.value[j]
      {
        ok := ReadEmployeeAt(employees, i, all);
        if !ok {
          return;
        }
      }
      ok := true;
    }

    /** `read_dbhdr`: prior is what the header structure held before, of which a shorter file leaves a part. */
    method ReadDbHdr(prior: seq<byte>) returns (ok: bool, fsize: uint32, count: uint32)
      requires pos == 0 && |prior| == HEADER
      modifies this
      ensures data == old(data)
      ensures var header := ReadInto(data, prior);
              ok == (fsize == |data|) && fsize == FromBe32(header[..4]) && count == FromBe32(header[4..])
      ensures |data| >= HEADER ==> ok == Accepts(data) && fsize == StoredSize(data) && count == StoredCount(data)
      ensures |data| >= HEADER ==> Drop(data, pos) == data[HEADER..]
    {
      if |data| >= HEADER {
        TakeBytesSlices(data, HEADER);
        assert data[..HEADER][..4] == data[..4] && data[..HEADER][4..] == data[4..8];
      }
      var chunk := Read(HEADER);
      var bytes := chunk + prior[|chunk|..];
      fsize, count := FromBe32(bytes[..4]), FromBe32(bytes[4..]);
      ok := |data| == fsize;
    }
  }
}
