/** The 64-bit FNV-1a hash of a descriptor (section 2 of draft-eastlake-fnv), and its injectivity on `int`. */
module FnvHash {
  import opened Bytes

  const MODULUS: int := 0x1_0000_0000_0000_0000
  const FNV_OFFSET: uint64 := 14695981039346656037
  const FNV_PRIME: uint64 := 1099511628211

  function Pow2(n: nat): (p: nat) {
    if n == 0 then 1 else 2 * Pow2(n - 1)
  }

  /** Exclusive or of the low n bits. */
  function XorBits(a: nat, b: nat, n: nat): (r: nat)
    ensures r < Pow2(n)
  {
    if n == 0 then 0
    else 2 * XorBits(a / 2, b / 2, n - 1) + (a % 2 + b % 2) % 2
  }

  function Xor8(a: byte, b: byte): (r: byte) {
    assert Pow2(8) == 0x100;
    XorBits(a, b, 8)
  }

  /** `h ^= b` for a byte b: the high 56 bits stay. */
  function XorByte(h: uint64, b: byte): (r: uint64)
    ensures r / 0x100 == h / 0x100
  {
    assert h / 0x100 <= 0xff_ffff_ffff_ffff;
    h / 0x100 * 0x100 + Xor8(h % 0x100, b) as int
  }

  /** `h *= FNV_PRIME` in 64 bits. */
  function TimesPrime(h: uint64): (r: uint64) {
    h as int * FNV_PRIME as int % MODULUS
  }

  /** One round of the loop. */
  function Round(h: uint64, b: byte): (r: uint64) {
    TimesPrime(XorByte(h, b))
  }

  /** `key >> (i * 8)`: an arithmetic shift. */
  function Shifted(key: int32, i: nat): (r: int32) {
    if i == 0 then key else Shifted(key, i - 1) / 0x100
  }

  /** `(key >> (i * 8)) & 0xff`. */
  function KeyByte(key: int32, i: nat): (r: byte) {
    Shifted(key, i) % 0x100
  }

  /** The hash after the first n bytes of the key. */
  function HashPrefix(key: int32, n: nat): (h: uint64) {
    if n == 0 then FNV_OFFSET
    else Round(HashPrefix(key, n - 1), KeyByte(key, n - 1))
  }

  /** `hash_key`: the bytes of an `int`, lowest first. */
  function Hash(key: int32): (h: uint64) {
    HashPrefix(key, 4)
  }

  method HashKey(key: int32) returns (hash: uint64)
    ensures hash == Hash(key)
  {
    hash := FNV_OFFSET;
    for i := 0 to 4
      invariant hash == HashPrefix(key, i)
    {
      hash := XorByte(hash, KeyByte(key, i));
      hash := TimesPrime(hash);
    }
  }

  // ---------- bit by bit, and a known hash ----------

  /** Bit i of x, the lowest one being bit 0. */
  ghost function Bit(x: nat, i: nat): (b: nat) {
    if i == 0 then x % 2 else Bit(x / 2, i - 1)
  }

  lemma {:induction false} XorBitsAt(a: nat, b: nat, n: nat, i: nat)
    requires i < n
    ensures Bit(XorBits(a, b, n), i) == 1 <==> Bit(a, i) != Bit(b, i)
  {
    var x, bit := XorBits(a / 2, b / 2, n - 1), (a % 2 + b % 2) % 2;
    assert XorBits(a, b, n) == 2 * x + bit;
    HalfAndBit(x, bit);
    if i > 0 {
      XorBitsAt(a / 2, b / 2, n - 1, i - 1);
    }
  }

  /** Exclusive or of two bytes. */
  lemma Xor8At(a: byte, b: byte, i: nat)
    requires i < 8
    ensures Bit(Xor8(a, b), i) == 1 <==> Bit(a, i) != Bit(b, i)
  {
    XorBitsAt(a, b, 8, i);
  }

  /** Below bit n the upper part of a number does not show, and above it the lower part does not. */
  lemma {:induction false} BitsApart(high: nat, low: nat, n: nat, i: nat)
    requires low < Pow2(n)
    ensures Bit(high * Pow2(n) + low, i) == if i < n then Bit(low, i) else Bit(high, i - n)
  {
    if n > 0 {
      var p := Pow2(n - 1);
      assert high * Pow2(n) == 2 * (high * p);
      assert (high * Pow2(n) + low) % 2 == low % 2 && (high * Pow2(n) + low) / 2 == high * p + low / 2;
      if i > 0 {
        BitsApart(high, low / 2, n - 1, i - 1);
      }
    }
  }

  lemma {:induction false} NoBits(i: nat)
    ensures Bit(0, i) == 0
  {
    if i > 0 {
      NoBits(i - 1);
    }
  }

  /** `h ^= b`: exclusive or of all bits, of which a byte has none from bit 8 on. */
  lemma XorByteAt(h: uint64, b: byte, i: nat)
    ensures i < 64 ==> (Bit(XorByte(h, b), i) == 1 <==> Bit(h, i) != Bit(b, i))
  {
    assert Pow2(8) == 0x100;
    BitsApart(h / 0x100, h % 0x100, 8, i);
    BitsApart(h / 0x100, Xor8(h % 0x100, b), 8, i);
    BitsApart(0, b, 8, i);
    if i < 8 {
      Xor8At(h % 0x100, b, i);
    } else {
      NoBits(i - 8);
      BitIsBit(h / 0x100, i - 8);
    }
  }

  lemma {:induction false} BitIsBit(x: nat, i: nat)
    ensures Bit(x, i) == 0 || Bit(x, i) == 1
  {
    if i > 0 {
      BitIsBit(x / 2, i - 1);
    }
  }

  /** The four bytes of an `int` in two's complement, the lowest first. */
  lemma KeyBytesPlaces(key: int32)
    ensures KeyByte(key, 0) as int + KeyByte(key, 1) as int * 0x100 + KeyByte(key, 2) as int * 0x1_0000
            + KeyByte(key, 3) as int * 0x100_0000
         == key as int % 0x1_0000_0000
  {
  }

  lemma OneBit(a: nat, x: nat, b: nat, y: nat, n: nat)
    requires x < 2 && y < 2
    ensures XorBits(2 * a + x, 2 * b + y, n + 1) == 2 * XorBits(a, b, n) + (x + y) % 2
  {
    HalfAndBit(a, x);
    HalfAndBit(b, y);
  }

  lemma HalfAndBit(a: nat, x: nat)
    requires x < 2
    ensures (2 * a + x) / 2 == a && (2 * a + x) % 2 == x
  {
  }

  lemma KnownHigh(n: nat)
    requires n == 0
    ensures XorBits(2, 6, n + 4) == 4
  {
    OneBit(0, 0, 0, 0, n);
    OneBit(0, 0, 0, 1, n + 1);
    OneBit(0, 1, 1, 1, n + 2);
    OneBit(1, 0, 3, 0, n + 3);
  }

  lemma KnownXor(n: nat)
    requires XorBits(2, 6, n) == 4
    ensures XorBits(0x25, 0x61, n + 4) == 0x44
  {
    OneBit(2, 0, 6, 0, n);
    OneBit(4, 1, 12, 0, n + 1);
    OneBit(9, 0, 24, 0, n + 2);
    OneBit(18, 1, 48, 1, n + 3);
  }

  lemma KnownXorByte(h: uint64, low: byte, b: byte)
    requires h == 0xcbf2_9ce4_8422_2325 && low == 0x25 && b == 0x61
    ensures XorByte(h, b) == 0xcbf2_9ce4_8422_2344
  {
    KnownHigh(0);
    KnownXor(4);
    assert h % 0x100 == low && h / 0x100 == 0xcb_f29c_e484_2223;
  }

  lemma KnownProduct(h: uint64)
    requires h == 0xcbf2_9ce4_8422_2344
    ensures TimesPrime(h) == 0xaf63_dc4c_8601_ec8c
  {
  }

  /** The 64-bit FNV-1a hash of the string a is published. */
  lemma KnownHash(key: int32)
    requires KeyByte(key, 0) as char == 'a'
    ensures HashPrefix(key, 1) == 0xaf63_dc4c_8601_ec8c
  {
    KnownXorByte(HashPrefix(key, 0), 0x25, KeyByte(key, 0));
    KnownProduct(XorByte(HashPrefix(key, 0), KeyByte(key, 0)));
  }

  // ---------- injectivity ----------

  lemma LowBits(x: int, y: int, p: int, q: int, r: int)
    requires 0 <= p < 2 && 0 <= q < 2 && 0 <= r < 2
    requires 2 * x + (p + q) % 2 == 2 * y + (p + r) % 2
    ensures x == y && q == r
  {
  }

  lemma Halve(b: nat, n: nat)
    requires n > 0 && b < Pow2(n)
    ensures b / 2 < Pow2(n - 1) && b == 2 * (b / 2) + b % 2
  {
  }

  lemma {:induction false} XorBitsInjective(a: nat, b: nat, c: nat, n: nat)
    requires b < Pow2(n) && c < Pow2(n)
    requires XorBits(a, b, n) == XorBits(a, c, n)
    ensures b == c
  {
    if n > 0 {
      LowBits(XorBits(a / 2, b / 2, n - 1), XorBits(a / 2, c / 2, n - 1), a % 2, b % 2, c % 2);
      Halve(b, n);
      Halve(c, n);
      XorBitsInjective(a / 2, b / 2, c / 2, n - 1);
    }
  }

  lemma XorByteInjective(h: uint64, b: byte, c: byte)
    requires XorByte(h, b) == XorByte(h, c)
    ensures b == c
  {
    assert Pow2(8) == 0x100;
    XorBitsInjective(h % 0x100, b, c, 8);
  }

  lemma {:induction false} KeyBytesDetermineKey(k: int32, k': int32, n: nat)
    requires Shifted(k, n) == Shifted(k', n)
    requires forall i :: 0 <= i < n ==> KeyByte(k, i) == KeyByte(k', i)
    ensures k == k'
  {
    if n > 0 {
      assert KeyByte(k, n - 1) == KeyByte(k', n - 1);
      KeyBytesDetermineKey(k, k', n - 1);
    }
  }

  /** The quotient that the reduction modulo 2^64 throws away. */
  ghost function Carry(h: uint64): (q: int)
    ensures h as int * FNV_PRIME as int == q * MODULUS + TimesPrime(h)
  {
    h as int * FNV_PRIME as int / MODULUS
  }

  /** The prime is odd, so multiplying by it loses nothing: 14886173955864302971 is its inverse modulo 2^64. */
  lemma TimesPrimeInjective(x: uint64, y: uint64)
    requires TimesPrime(x) == TimesPrime(y)
    ensures x == y
  {
    var d, k := x as int - y as int, Carry(x) - Carry(y);
    assert d * 1099511628211 == k * 0x1_0000_0000_0000_0000;
    assert d == (k * 14886173955864302971 - d * 887285111055) * 0x1_0000_0000_0000_0000;
  }

  /** With P = 2^40 + 435: the three xor differences d, f, g cannot cancel in d*P^3 + f*P^2 + g*P modulo 2^64. */
  lemma NoCancellation(d: int, f: int, g: int, delta: int, t: int)
    requires -255 <= d <= 255 && -510 <= f <= 510 && -510 <= g <= 510 && -255 <= delta <= 255
    requires delta == (567675 * d + 870 * f + g) * 0x100_0000_0000 + 435 * (189225 * d + 435 * f + g)
                      + t * 0x1_0000_0000_0000_0000
    ensures d == f == g == delta == 0
  {
    var high, low := 567675 * d + 870 * f + g, 189225 * d + 435 * f + g;
    assert delta - 435 * low == (high + t * 0x100_0000) * 0x100_0000_0000;
    assert high + t * 0x100_0000 == 0;
    assert delta == 435 * low;
    assert low == 0;
    assert -1 <= d <= 1;
    assert t == 0;
    assert high - low == 378450 * d + 435 * f;
  }

  /** Two related hash states before one round, and how far apart the round leaves them. */
  lemma RoundDifference(h: uint64, b: byte, h': uint64, b': byte) returns (e: int, k: int)
    ensures -510 <= e <= 510
    ensures Round(h, b) as int - Round(h', b') as int
         == (h as int - h' as int + e) * 1099511628211 - k * 0x1_0000_0000_0000_0000
    ensures h == h' ==> -255 <= e <= 255
    ensures h == h' && e == 0 ==> b == b'
  {
    e := XorByte(h, b) as int - h as int - (XorByte(h', b') as int - h' as int);
    k := Carry(XorByte(h, b)) - Carry(XorByte(h', b'));
    if h == h' && e == 0 {
      XorByteInjective(h, b, b');
    }
  }

  /** Equal states after a round come from states that agree above the low byte. */
  lemma RoundCollision(h: uint64, b: byte, h': uint64, b': byte)
    requires Round(h, b) == Round(h', b')
    ensures -255 <= h as int - h' as int <= 255
    ensures h == h' ==> b == b'
  {
    TimesPrimeInjective(XorByte(h, b), XorByte(h', b'));
    if h == h' {
      XorByteInjective(h, b, b');
    }
  }

  /** The square of 2^40 + 435, with its multiples of 2^64 apart. */
  lemma Squared(x: int)
    ensures x * 1099511628211 * 1099511628211
         == 870 * x * 0x100_0000_0000 + 435 * 435 * x + 65536 * x * 0x1_0000_0000_0000_0000
  {
  }

  lemma Cubed(x: int)
    ensures x * 1099511628211 * 1099511628211 * 1099511628211
         == 567675 * x * 0x100_0000_0000 + 435 * 189225 * x + 72057594123452416 * x * 0x1_0000_0000_0000_0000
  {
  }

  /** The difference after three rounds, with the powers of the prime expanded. */
  lemma ThreeRounds(d: int, f: int, g: int, k1: int, k2: int, k3: int) returns (t: int)
    ensures (((d * 1099511628211 - k1 * 0x1_0000_0000_0000_0000 + f) * 1099511628211
              - k2 * 0x1_0000_0000_0000_0000 + g) * 1099511628211 - k3 * 0x1_0000_0000_0000_0000)
         == (567675 * d + 870 * f + g) * 0x100_0000_0000 + 435 * (189225 * d + 435 * f + g)
            + t * 0x1_0000_0000_0000_0000
  {
    Cubed(d);
    Squared(f);
    t := 72057594123452416 * d + 65536 * f - 1208925820571204291060521 * k1 - 1099511628211 * k2 - k3;
  }

  /** Four rounds from one state collide only on equal bytes. */
  lemma FourRoundsInjective(h0: uint64, b0: byte, b1: byte, b2: byte, b3: byte, c0: byte, c1: byte, c2: byte, c3: byte)
    requires Round(Round(Round(Round(h0, b0), b1), b2), b3) == Round(Round(Round(Round(h0, c0), c1), c2), c3)
    ensures b0 == c0 && b1 == c1 && b2 == c2 && b3 == c3
  {
    var h1, g1 := Round(h0, b0), Round(h0, c0);
    var h2, g2 := Round(h1, b1), Round(g1, c1);
    var h3, g3 := Round(h2, b2), Round(g2, c2);
    RoundCollision(h3, b3, g3, c3);
    var d, k1 := RoundDifference(h0, b0, h0, c0);
    var f, k2 := RoundDifference(h1, b1, g1, c1);
    var g, k3 := RoundDifference(h2, b2, g2, c2);
    var t := ThreeRounds(d, f, g, k1, k2, k3);
    NoCancellation(d, f, g, h3 as int - g3 as int, t);
  }

  lemma HashAsRounds(k: int32)
    ensures Hash(k)
         == Round(Round(Round(Round(FNV_OFFSET, KeyByte(k, 0)), KeyByte(k, 1)), KeyByte(k, 2)), KeyByte(k, 3))
  {
    assert HashPrefix(k, 1) == Round(HashPrefix(k, 0), KeyByte(k, 0));
    assert HashPrefix(k, 2) == Round(HashPrefix(k, 1), KeyByte(k, 1));
    assert HashPrefix(k, 3) == Round(HashPrefix(k, 2), KeyByte(k, 2));
  }

  /** The top byte carries the sign, so four equal bytes leave no room for a difference. */
  lemma FourBytesDetermineKey(k: int32, k': int32)
    requires KeyByte(k, 0) == KeyByte(k', 0) && KeyByte(k, 1) == KeyByte(k', 1)
    requires KeyByte(k, 2) == KeyByte(k', 2) && KeyByte(k, 3) == KeyByte(k', 3)
    ensures k == k'
  {
    forall x: int32 ensures -0x80 <= Shifted(x, 3) < 0x80 {
      assert -0x80_0000 <= Shifted(x, 1) < 0x80_0000;
      assert -0x8000 <= Shifted(x, 2) < 0x8000;
    }
    assert Shifted(k, 3) == Shifted(k', 3);
    KeyBytesDetermineKey(k, k', 3);
  }

  /** `hash_key` never collides on 32-bit keys. */
  lemma HashInjective(k: int32, k': int32)
    requires Hash(k) == Hash(k')
    ensures k == k'
  {
    HashAsRounds(k);
    HashAsRounds(k');
    FourRoundsInjective(FNV_OFFSET, KeyByte(k, 0), KeyByte(k, 1), KeyByte(k, 2), KeyByte(k, 3),
                        KeyByte(k', 0), KeyByte(k', 1), KeyByte(k', 2), KeyByte(k', 3));
    FourBytesDetermineKey(k, k');
  }
}
