/** What `serialize.c` makes of the bytes of the database file. */
module FileImage {
  import opened Bytes
  import opened Employees

  const HEADER: nat := 8

  function Zeros(n: nat): (s: seq<byte>)
    ensures |s| == n
  {
    if n == 0 then [] else [0] + Zeros(n - 1)
  }

  /** The first n bytes; a gap reads as zeros. */
  function Front(s: seq<byte>, n: nat): (r: seq<byte>)
    ensures |r| == n
  {
    if n <= |s| then s[..n] else s + Zeros(n - |s|)
  }

  function Drop(s: seq<byte>, n: nat): (r: seq<byte>) {
    if n <= |s| then s[n..] else []
  }

  /** One byte put at a position; a gap before it reads as zeros. */
  function Put(f: seq<byte>, pos: nat, x: byte): (r: seq<byte>)
    ensures |r| == Max(|f|, pos + 1)
  {
    if pos < |f| then f[pos := x] else f + Zeros(pos - |f|) + [x]
  }

  /** `write` at a position: bytes past the end extend the file, nothing is cut off. */
  function Overwrite(f: seq<byte>, pos: nat, b: seq<byte>): (r: seq<byte>)
    ensures |r| == if b == [] then |f| else Max(|f|, pos + |b|)
    decreases |b|
  {
    if b == [] then f else Overwrite(Put(f, pos, b[0]), pos + 1, b[1..])
  }

  /** Writing in two steps is writing at once. */
  lemma {:induction false} OverwriteTwice(f: seq<byte>, pos: nat, a: seq<byte>, b: seq<byte>)
    ensures Overwrite(Overwrite(f, pos, a), pos + |a|, b) == Overwrite(f, pos, a + b)
    decreases |a|
  {
    if a == [] {
      assert a + b == b;
    } else {
      OverwriteTwice(Put(f, pos, a[0]), pos + 1, a[1..], b);
      assert (a + b)[1..] == a[1..] + b;
    }
  }

  lemma PutParts(f: seq<byte>, pos: nat, x: byte, n: nat)
    requires n > pos
    ensures Put(f, pos, x) == Front(f, pos) + [x] + Drop(f, pos + 1)
    ensures Front(Put(f, pos, x), pos + 1) == Front(f, pos) + [x]
    ensures Drop(Put(f, pos, x), n) == Drop(f, n)
  {
  }

  lemma Regroup(front: seq<byte>, b: seq<byte>)
    requires b != []
    ensures front + [b[0]] + b[1..] == front + b
  {
  }

  /** What is kept on both sides of the bytes written. */
  lemma {:induction false} OverwriteParts(f: seq<byte>, pos: nat, b: seq<byte>)
    requires b != []
    ensures Overwrite(f, pos, b) == Front(f, pos) + b + Drop(f, pos + |b|)
    decreases |b|
  {
    PutParts(f, pos, b[0], pos + |b|);
    if |b| == 1 {
      assert b == [b[0]];
    } else {
      OverwriteParts(Put(f, pos, b[0]), pos + 1, b[1..]);
      Regroup(Front(f, pos), b);
    }
  }

  /** `dbhdr->fsize`, computed in 32 bits. */
  function FileSize(es: seq<Employee>): (n: uint32) {
    (HEADER + |Records(es)|) % 0x1_0000_0000
  }

  lemma WholeTurns(low: int, turns: int)
    ensures (low + turns * 0x1_0000_0000) % 0x1_0000_0000 == low % 0x1_0000_0000
  {
  }

  /** The byte count survives the detour through `int` and `size_t`, modulo 2^32. */
  lemma CountThroughInt(total: nat)
    ensures CInt(total % 0x1_0000_0000) == -1 <==> total % 0x1_0000_0000 == 0xffff_ffff
    ensures (HEADER + SizeT(CInt(total % 0x1_0000_0000)) as int) % 0x1_0000_0000 == (HEADER + total) % 0x1_0000_0000
  {
    var low, high := total % 0x1_0000_0000, total / 0x1_0000_0000;
    assert HEADER + total == (HEADER + low) + high * 0x1_0000_0000;
    WholeTurns(HEADER + low, high);
  }

  function HeaderBytes(fsize: uint32, count: uint32): (s: seq<byte>)
    ensures |s| == HEADER
  {
    Be32(fsize) + Be32(count)
  }

  /** `write_employees` returns its byte count as an `int`; `write_db` takes -1 for a failure. */
  predicate CountsAsFailure(es: seq<Employee>) {
    |Records(es)| % 0x1_0000_0000 == 0xffff_ffff
  }

  /** `write_db`: the records first, from byte 8 on, then the header over the first eight bytes. */
  function WriteDb(disk: seq<byte>, es: seq<Employee>): (r: seq<byte>)
    requires |es| < 0x1_0000_0000
  {
    var disk1 := Overwrite(disk, HEADER, Records(es));
    if CountsAsFailure(es) then disk1 else Overwrite(disk1, 0, HeaderBytes(FileSize(es), |es|))
  }

  /** The bytes that a database of these employees should consist of. */
  function Image(es: seq<Employee>): (s: seq<byte>)
    requires |es| < 0x1_0000_0000
    ensures |s| == HEADER + |Records(es)|
  {
    HeaderBytes(FileSize(es), |es|) + Records(es)
  }

  lemma AfterRecords(disk: seq<byte>, recs: seq<byte>)
    ensures Drop(Overwrite(disk, HEADER, recs), HEADER) == recs + Drop(disk, HEADER + |recs|)
  {
    if recs == [] {
      assert recs + Drop(disk, HEADER) == Drop(disk, HEADER);
    } else {
      OverwriteParts(disk, HEADER, recs);
      assert Front(disk, HEADER) + recs + Drop(disk, HEADER + |recs|)
          == Front(disk, HEADER) + (recs + Drop(disk, HEADER + |recs|));
    }
  }

  lemma OverwriteFront(f: seq<byte>, b: seq<byte>)
    requires b != []
    ensures Overwrite(f, 0, b) == b + Drop(f, |b|)
  {
    OverwriteParts(f, 0, b);
    assert Front(f, 0) == [];
  }

  /** A write puts the image at the front and leaves the rest of a longer file as it was. */
  lemma WriteDbLeavesTail(disk: seq<byte>, es: seq<Employee>)
    requires |es| < 0x1_0000_0000 && !CountsAsFailure(es)
    ensures WriteDb(disk, es) == Image(es) + Drop(disk, |Image(es)|)
  {
    var recs, header := Records(es), HeaderBytes(FileSize(es), |es|);
    AfterRecords(disk, recs);
    OverwriteFront(Overwrite(disk, HEADER, recs), header);
    assert header + (recs + Drop(disk, HEADER + |recs|)) == header + recs + Drop(disk, HEADER + |recs|);
  }

  /** Nothing ever shortens the file, not even a write that fails half-way. */
  lemma WriteDbLength(disk: seq<byte>, es: seq<Employee>)
    requires |es| < 0x1_0000_0000
    ensures |WriteDb(disk, es)| == Max(|disk|, HEADER + |Records(es)|)
  {
  }

  // ---------- reading the file back ----------

  function StoredSize(disk: seq<byte>): uint32
    requires |disk| >= HEADER
  {
    FromBe32(disk[..4])
  }

  function StoredCount(disk: seq<byte>): uint32
    requires |disk| >= HEADER
  {
    FromBe32(disk[4..8])
  }

  /** `read_dbhdr` succeeds: the size in the header is the size of the file. */
  predicate Accepts(disk: seq<byte>)
    requires |disk| >= HEADER
  {
    StoredSize(disk) == |disk|
  }

  /** What `read_employees` reads after the header. */
  function Stored(disk: seq<byte>): (r: Option<seq<Employee>>)
    requires |disk| >= HEADER
  {
    ReadRecords(disk[HEADER..], StoredCount(disk))
  }

  /** An image reads back as its employees, whatever bytes of older images follow it. */
  lemma ImageReadsBack(es: seq<Employee>, tail: seq<byte>)
    requires |es| < 0x1_0000_0000 && AllValid(es)
    ensures var disk := Image(es) + tail;
            StoredSize(disk) == FileSize(es) && StoredCount(disk) == |es| && Stored(disk) == Decoded(es)
  {
    var disk := Image(es) + tail;
    assert disk[..4] == Be32(FileSize(es)) && disk[4..8] == Be32(|es|);
    assert disk[HEADER..] == Records(es) + tail;
    Be32RoundTrip(FileSize(es));
    Be32RoundTrip(|es|);
    RecordsRoundTrip(es, tail);
  }

  // ---------- any run of writes ----------

  ghost predicate Countable(runs: seq<seq<Employee>>) {
    forall i :: 0 <= i < |runs| ==> |runs[i]| < 0x1_0000_0000
  }

  /** The file after a run of `write_db` calls. */
  ghost function AfterWrites(disk: seq<byte>, runs: seq<seq<Employee>>): (r: seq<byte>)
    requires Countable(runs)
  {
    if runs == [] then disk
    else WriteDb(AfterWrites(disk, runs[..|runs| - 1]), runs[|runs| - 1])
  }

  /** The largest of the first length and the sizes of all the images written. */
  ghost function Largest(length: nat, runs: seq<seq<Employee>>): (n: nat)
  {
    if runs == [] then length
    else Max(Largest(length, runs[..|runs| - 1]), HEADER + |Records(runs[|runs| - 1])|)
  }

  /** The length only ever grows, to the largest image so far; failing writes included. */
  lemma {:induction false} LengthAfterWrites(disk: seq<byte>, runs: seq<seq<Employee>>)
    requires Countable(runs)
    ensures |AfterWrites(disk, runs)| == Largest(|disk|, runs)
  {
    if runs != [] {
      var before := runs[..|runs| - 1];
      LengthAfterWrites(disk, before);
      WriteDbLength(AfterWrites(disk, before), runs[|runs| - 1]);
    }
  }

  lemma FitsWhenExact(size: nat, n: nat)
    requires n >= size
    ensures size % 0x1_0000_0000 == n <==> n == size && n < 0x1_0000_0000
  {
  }

  lemma WrittenFile(es: seq<Employee>, tail: seq<byte>)
    requires |es| < 0x1_0000_0000 && AllValid(es)
    ensures var out := Image(es) + tail;
            |out| >= HEADER
            && (Accepts(out) <==> |Image(es)| == |out| && |Image(es)| < 0x1_0000_0000)
            && Stored(out) == Decoded(es)
  {
    ImageReadsBack(es, tail);
    FitsWhenExact(|Image(es)|, |Image(es) + tail|);
  }

  lemma CountsAsSuccess(es: seq<Employee>)
    requires |Records(es)| < 0xffff_ffff
    ensures !CountsAsFailure(es)
  {
  }

  /** Writing a smaller image over a file that has just been accepted leaves a file that is not. */
  lemma SmallerImage(disk: seq<byte>, es: seq<Employee>, es': seq<Employee>)
    requires |es| < 0x1_0000_0000 && |es'| < 0x1_0000_0000 && AllValid(es) && AllValid(es')
    requires Image(es) <= disk && Accepts(disk) && |Records(es')| < |Records(es)|
    ensures var out := WriteDb(disk, es'); |out| == |disk| && !Accepts(out)
  {
    var tail := disk[|Image(es)|..];
    WrittenFile(es, tail);
    assert Image(es) + tail == disk;
    var out, tail' := WriteDb(disk, es'), Drop(disk, |Image(es')|);
    CountsAsSuccess(es');
    WriteDbLength(disk, es');
    WriteDbLeavesTail(disk, es');
    WrittenFile(es', tail');
    assert |Image(es')| < |out|;
  }

  /** After any run of writes whose last one succeeded: the header check passes exactly when the last image
      was the largest (and its size fits 32 bits), while the records read back in any case. */
  lemma FileAfterWrites(disk: seq<byte>, runs: seq<seq<Employee>>)
    requires Countable(runs) && runs != []
    requires AllValid(runs[|runs| - 1]) && !CountsAsFailure(runs[|runs| - 1])
    ensures var last, out := runs[|runs| - 1], AfterWrites(disk, runs);
            |out| >= HEADER
            && (Accepts(out) <==> |Image(last)| == Largest(|disk|, runs) && |Image(last)| < 0x1_0000_0000)
            && Stored(out) == Decoded(last)
  {
    var last, before := runs[|runs| - 1], AfterWrites(disk, runs[..|runs| - 1]);
    LengthAfterWrites(disk, runs);
    WriteDbLeavesTail(before, last);
    WrittenFile(last, Drop(before, |Image(last)|));
  }
}
