/** Bytes, fixed-width integers and C strings, as the wire format and the database file use them. */
module Bytes {
  type byte = x: int | 0 <= x < 0x100
  type uint16 = x: int | 0 <= x < 0x1_0000
  type uint32 = x: int | 0 <= x < 0x1_0000_0000
  type uint64 = x: int | 0 <= x < 0x1_0000_0000_0000_0000
  type int32 = x: int | -0x8000_0000 <= x < 0x8000_0000

  const INT_MAX: int := 0x7fff_ffff

  datatype Option<+T> = None | Some(value: T)

  /** `htons` stored to memory. */
  function Be16(n: uint16): (s: seq<byte>)
    ensures |s| == 2
  {
    [n / 0x100, n % 0x100]
  }

  /** `htonl` stored to memory. */
  function Be32(n: uint32): (s: seq<byte>)
    ensures |s| == 4
  {
    Be16(n / 0x1_0000) + Be16(n % 0x1_0000)
  }

  function FromBe16(s: seq<byte>): uint16
    requires |s| == 2
  {
    s[0] as int * 0x100 + s[1] as int
  }

  function FromBe32(s: seq<byte>): uint32
    requires |s| == 4
  {
    FromBe16(s[..2]) as int * 0x1_0000 + FromBe16(s[2..]) as int
  }

  /** A message tag is stored in host order; the host is taken to be little-endian. */
  function HostWord(n: uint32): (s: seq<byte>)
    ensures |s| == 4
  {
    var be := Be32(n);
    [be[3], be[2], be[1], be[0]]
  }

  function FromHostWord(s: seq<byte>): uint32
    requires |s| == 4
  {
    FromBe32([s[3], s[2], s[1], s[0]])
  }

  lemma Be16RoundTrip(n: uint16)
    ensures FromBe16(Be16(n)) == n
  {
  }

  lemma Be32RoundTrip(n: uint32)
    ensures FromBe32(Be32(n)) == n
  {
    Be16RoundTrip(n / 0x1_0000);
    Be16RoundTrip(n % 0x1_0000);
    assert Be32(n)[..2] == Be16(n / 0x1_0000) && Be32(n)[2..] == Be16(n % 0x1_0000);
  }

  lemma HostWordRoundTrip(n: uint32)
    ensures FromHostWord(HostWord(n)) == n
  {
    Be32RoundTrip(n);
    assert [HostWord(n)[3], HostWord(n)[2], HostWord(n)[1], HostWord(n)[0]] == Be32(n);
  }

  // ---------- byte order, place by place ----------

  lemma Be16Places(n: uint16)
    ensures Be16(n)[0] as int * 0x100 + Be16(n)[1] as int == n
  {
  }

  lemma Be32Places(n: uint32)
    ensures var s := Be32(n);
            s[0] as int * 0x100_0000 + s[1] as int * 0x1_0000 + s[2] as int * 0x100 + s[3] as int == n
  {
    Be16Places(n / 0x1_0000);
    Be16Places(n % 0x1_0000);
  }

  /** The low byte comes first. */
  lemma HostWordPlaces(n: uint32)
    ensures var s := HostWord(n);
            s[0] as int + s[1] as int * 0x100 + s[2] as int * 0x1_0000 + s[3] as int * 0x100_0000 == n
  {
    Be32Places(n);
  }

  lemma FromBe16Places(s: seq<byte>)
    requires |s| == 2
    ensures FromBe16(s) == s[0] as int * 0x100 + s[1] as int
  {
  }

  lemma FromBe32Places(s: seq<byte>)
    requires |s| == 4
    ensures FromBe32(s) == s[0] as int * 0x100_0000 + s[1] as int * 0x1_0000 + s[2] as int * 0x100 + s[3] as int
  {
    FromBe16Places(s[..2]);
    FromBe16Places(s[2..]);
  }

  lemma FromHostWordPlaces(s: seq<byte>)
    requires |s| == 4
    ensures FromHostWord(s) == s[0] as int + s[1] as int * 0x100 + s[2] as int * 0x1_0000 + s[3] as int * 0x100_0000
  {
    FromBe32Places([s[3], s[2], s[1], s[0]]);
  }

  /** The conversions keep the value modulo the width of the result. */
  lemma ConversionsCongruent(n: uint32, k: int32)
    ensures (CInt(n) - n) % 0x1_0000_0000 == 0 && (SizeT(k) - k) % 0x1_0000_0000_0000_0000 == 0
  {
  }

  /** The conversion of a byte count to `int`, which wraps from 2^31 on. */
  function CInt(n: uint32): (r: int32)
  {
    if n <= INT_MAX then n else n - 0x1_0000_0000
  }

  /** `send_all` and `receive_all` return a `size_t` as an `int`; -1 stands for an error. */
  function CountAsInt(n: nat): (r: int32)
    ensures r == -1 <==> n % 0x1_0000_0000 == 0xffff_ffff
    ensures n < 0x1_0000_0000 ==> (r == -1 <==> n == 0xffff_ffff)
  {
    CInt(n % 0x1_0000_0000)
  }

  /** The conversion of an `int` to `size_t`. */
  function SizeT(n: int32): (r: uint64)
  {
    if n < 0 then n + 0x1_0000_0000_0000_0000 else n
  }

  /** The first n bytes and what follows them; None when there are fewer. */
  function TakeBytes(s: seq<byte>, n: nat): (r: Option<(seq<byte>, seq<byte>)>)
    ensures r.Some? <==> n <= |s|
    ensures r.Some? ==> |r.value.0| == n && |r.value.1| == |s| - n
  {
    if n == 0 then Some(([], s))
    else if s == [] then None
    else
      var r := TakeBytes(s[1..], n - 1);
      if r.None? then None else Some(([s[0]] + r.value.0, r.value.1))
  }

  lemma {:induction false} TakeBytesAppend(a: seq<byte>, b: seq<byte>)
    ensures TakeBytes(a + b, |a|) == Some((a, b))
  {
    if a == [] {
      assert a + b == b;
    } else {
      assert (a + b)[1..] == a[1..] + b;
      TakeBytesAppend(a[1..], b);
      assert [a[0]] + a[1..] == a;
    }
  }

  lemma TakeBytesSlices(s: seq<byte>, n: nat)
    requires n <= |s|
    ensures TakeBytes(s, n) == Some((s[..n], s[n..]))
  {
    TakeBytesAppend(s[..n], s[n..]);
    assert s[..n] + s[n..] == s;
  }

  /** A cursor moved n bytes on. */
  lemma Advance(body: seq<byte>, p: nat, n: nat)
    requires p <= |body| && n <= |body| - p
    ensures TakeBytes(body[p..], n) == Some((body[p..p + n], body[p + n..]))
  {
    TakeBytesSlices(body[p..], n);
    assert body[p..][..n] == body[p..p + n] && body[p..][n..] == body[p + n..];
  }

  /** Taking n bytes more of b behind w and the first i bytes of b. */
  lemma TakeMore(w: seq<byte>, b: seq<byte>, i: nat, n: nat)
    requires i <= |b| && n <= |b| - i
    ensures w + b[..i] + b[i..][..n] == w + b[..i + n]
  {
    assert b[..i] + b[i..][..n] == b[..i + n];
    assert w + b[..i] + b[i..][..n] == w + (b[..i] + b[i..][..n]);
  }

  /** `memcpy`: the bytes go behind the first `at` of dst. */
  method Store(dst: array<byte>, at: nat, chunk: seq<byte>)
    requires at + |chunk| <= dst.Length
    modifies dst
    ensures dst[..at + |chunk|] == old(dst[..at]) + chunk
    ensures dst[at + |chunk|..] == old(dst[at + |chunk|..])
  {
    for i := 0 to |chunk|
      invariant dst[..at] == old(dst[..at]) && dst[at + |chunk|..] == old(dst[at + |chunk|..])
      invariant forall j :: 0 <= j < i ==> dst[at + j] == chunk[j]
    {
      dst[at + i] := chunk[i];
    }
    assert dst[at..at + |chunk|] == chunk;
    assert dst[..at + |chunk|] == dst[..at] + dst[at..at + |chunk|];
  }

  /** What a new buffer of n bytes holds. */
  function Memory(n: nat, m: nat -> byte): (s: seq<byte>)
    ensures |s| == n && forall i :: 0 <= i < n ==> s[i] == m(i)
  {
    seq(n, i requires 0 <= i < n => m(i))
  }

  /** `malloc` */
  method Allocate(n: nat, m: nat -> byte) returns (a: array<byte>)
    ensures fresh(a) && a[..] == Memory(n, m)
  {
    a := new byte[n](i requires 0 <= i < n => m(i));
    assert forall i :: 0 <= i < n ==> a[i] == m(i);
  }

  /** A buffer that held `old0`, once it has been filled from s, as far as s goes. */
  function ReadInto(s: seq<byte>, old0: seq<byte>): (r: seq<byte>)
    ensures |r| == |old0|
  {
    if |s| < |old0| then s + old0[|s|..] else s[..|old0|]
  }

  /** What is left of s after n bytes. */
  function Beyond(s: seq<byte>, n: nat): (r: seq<byte>)
    ensures |r| <= |s|
  {
    if |s| < n then [] else s[n..]
  }

  /** The next chunk of s into such a buffer. */
  lemma FilledMore(s: seq<byte>, old0: seq<byte>, n: nat, chunk: seq<byte>, rest: seq<byte>)
    requires n <= |s| && n + |chunk| <= |old0| && s[n..] == chunk + rest
    ensures n + |chunk| <= |s| && s[..n + |chunk|] == s[..n] + chunk && s[n + |chunk|..] == rest
    ensures old0[n..][|chunk|..] == old0[n + |chunk|..]
  {
    assert |s[n..]| == |chunk| + |rest|;
    assert s == s[..n] + (chunk + rest);
  }

  lemma Regrouped<T>(a: seq<T>, b: seq<T>, c: seq<T>)
    ensures a + (b + c) == a + b + c && b + [] == b
  {
  }

  lemma FirstApart<T>(xs: seq<T>, n: nat)
    requires 0 < n <= |xs|
    ensures xs[..n][0] == xs[0] && xs[..n][1..] == xs[1..][..n - 1]
    ensures xs[..n] == [xs[0]] + xs[1..][..n - 1]
  {
  }

  lemma LastApart<T>(xs: seq<T>)
    requires xs != []
    ensures xs[..|xs| - 1] + [xs[|xs| - 1]] == xs
  {
  }

  function Min(a: nat, b: nat): nat {
    if a <= b then a else b
  }

  function Max(a: nat, b: nat): nat {
    if a <= b then b else a
  }

  // ---------- C strings ----------

  predicate NulFree(s: seq<byte>) {
    forall i :: 0 <= i < |s| ==> s[i] != 0
  }

  /** The C string that starts at the first byte of s: everything before the first NUL. */
  function UntilNul(s: seq<byte>): (r: seq<byte>)
    ensures |r| <= |s| && r == s[..|r|]
    ensures NulFree(r)
    ensures |r| < |s| ==> s[|r|] == 0
  {
    if s == [] || s[0] == 0 then [] else [s[0]] + UntilNul(s[1..])
  }

  lemma {:induction false} UntilNulUnique(s: seq<byte>, r: seq<byte>)
    requires |r| <= |s| && r == s[..|r|] && NulFree(r)
    requires |r| == |s| || s[|r|] == 0
    ensures UntilNul(s) == r
  {
    if r != [] {
      assert r[0] == s[0] && s[0] != 0;
      assert r[1..] == s[1..][..|r| - 1];
      UntilNulUnique(s[1..], r[1..]);
    }
  }
}
