/** Bytes, the in-memory images of 16-, 32- and 64-bit values, and the
    truncating integer casts that the codec applies to Lua integers. */
module Bytes {

  type byte = bv8

  /** The two byte orders the codec knows (BO_LE and BO_BE). */
  datatype ByteOrder = LittleEndian | BigEndian

  function Pow256(w: nat): (r: nat)
    ensures r >= 1
    ensures w >= 1 ==> r >= 256 && r % 2 == 0
  {
    if w == 0 then 1 else 256 * Pow256(w - 1)
  }

  function Reverse(s: seq<byte>): (r: seq<byte>)
    ensures |r| == |s|
    ensures forall k :: 0 <= k < |s| ==> r[k] == s[|s| - 1 - k]
  {
    if s == [] then [] else Reverse(s[1..]) + [s[0]]
  }

  lemma ReverseReverse(s: seq<byte>)
    ensures Reverse(Reverse(s)) == s
  {
  }

  /** The bytes b, given least significant first, laid out in order o. */
  function InOrder(b: seq<byte>, o: ByteOrder): (r: seq<byte>)
    ensures |r| == |b|
  {
    if o == LittleEndian then b else Reverse(b)
  }

  lemma InOrderInvolutive(b: seq<byte>, o: ByteOrder)
    ensures InOrder(InOrder(b, o), o) == b
  {
    ReverseReverse(b);
  }

  /** (char) n and (unsigned char) n: the low byte. */
  function ToU8(n: int): (r: byte)
    ensures r as int == n % 256
  {
    var m := n % 256;
    assert m % 256 == m;
    m as byte
  }

  /** The w low-order bytes of the two's-complement form of n, least
      significant first: what a C cast to a w-byte unsigned type keeps. */
  function LittleEndianBytes(n: int, w: nat): (r: seq<byte>)
    ensures |r| == w
    decreases w
  {
    if w == 0 then [] else [ToU8(n)] + LittleEndianBytes(n / 256, w - 1)
  }

  /** The unsigned number whose little-endian bytes are b. */
  function Unsigned(b: seq<byte>): (r: nat)
    ensures r < Pow256(|b|)
  {
    if b == [] then 0 else b[0] as int + 256 * Unsigned(b[1..])
  }

  lemma MulAtLeast(d: int, k: int)
    requires d > 0 && k >= 1
    ensures d * k >= d
  {
    if k > 1 {
      MulAtLeast(d, k - 1);
      assert d * k == d * (k - 1) + d;
    }
  }

  /** Euclidean division is determined by its defining equation. */
  lemma DivModUnique(n: int, d: int, a: int, m: int)
    requires d > 0 && n == d * a + m && 0 <= m < d
    ensures n % d == m && n / d == a
  {
    var q, r := n / d, n % d;
    assert n == d * q + r && 0 <= r < d;
    if a > q {
      MulAtLeast(d, a - q);
      assert false;
    } else if a < q {
      MulAtLeast(d, q - a);
      assert false;
    }
  }

  lemma ModSplit(n: int, p: nat)
    requires p >= 1
    ensures n % (256 * p) == n % 256 + 256 * ((n / 256) % p)
  {
    var q, r := n / 256, n % 256;
    var a, b := q / p, q % p;
    assert n == 256 * q + r;
    assert q == p * a + b;
    assert 256 * q == 256 * (p * a) + 256 * b;
    assert 256 * (p * a) == (256 * p) * a;
    assert n == (256 * p) * a + (256 * b + r);
    assert 0 <= 256 * b + r < 256 * p;
    DivModUnique(n, 256 * p, a, 256 * b + r);
  }

  lemma {:induction false} ValueOfLittleEndianBytes(n: int, w: nat)
    ensures Unsigned(LittleEndianBytes(n, w)) == n % Pow256(w)
    decreases w
  {
    if w > 0 {
      var b := LittleEndianBytes(n, w);
      var p := Pow256(w - 1);
      assert b[1..] == LittleEndianBytes(n / 256, w - 1);
      ValueOfLittleEndianBytes(n / 256, w - 1);
      assert Unsigned(b[1..]) == (n / 256) % p;
      assert b[0] as int == n % 256;
      assert Unsigned(b) == n % 256 + 256 * ((n / 256) % p);
      ModSplit(n, p);
      assert Pow256(w) == 256 * p;
    }
  }

  lemma MultipleModZero(x: int, p: int, k: int)
    requires p > 0 && x == p * k
    ensures x % p == 0
  {
    DivModUnique(x, p, k, 0);
  }

  /** A C cast to a w-byte integer type: n reduced modulo 256^w, read as
      two's complement when signed. */
  function Wrap(n: int, w: nat, signed: bool): (r: int)
    requires w >= 1
    ensures (r - n) % Pow256(w) == 0
    ensures signed ==> -(Pow256(w) / 2) <= r < Pow256(w) / 2
    ensures !signed ==> 0 <= r < Pow256(w)
  {
    var p := Pow256(w);
    var q, m := n / p, n % p;
    assert n == p * q + m;
    var r := if signed && m >= p / 2 then m - p else m;
    var k := if signed && m >= p / 2 then -q - 1 else -q;
    assert r - n == p * k;
    MultipleModZero(r - n, p, k);
    r
  }

  /** A cast leaves a number that the target type can hold unchanged. */
  lemma WrapInRange(n: int, w: nat, signed: bool)
    requires w >= 1
    requires signed ==> -(Pow256(w) / 2) <= n < Pow256(w) / 2
    requires !signed ==> 0 <= n < Pow256(w)
    ensures Wrap(n, w, signed) == n
  {
    var p := Pow256(w);
    var x := Wrap(n, w, signed) - n;
    assert -p < x < p;
    if x > 0 {
      DivModUnique(x, p, 0, x);
    } else if x < 0 {
      DivModUnique(x, p, -1, x + p);
    }
  }

  /** Reading the bytes as a two's-complement number. */
  function Signed(b: seq<byte>): (r: int)
    requires |b| >= 1
    ensures -(Pow256(|b|) / 2) <= r < Pow256(|b|) / 2
  {
    var x := Unsigned(b);
    if x >= Pow256(|b|) / 2 then x - Pow256(|b|) else x
  }

  lemma SignedOfLittleEndianBytes(n: int, w: nat)
    requires w >= 1
    ensures Signed(LittleEndianBytes(n, w)) == Wrap(n, w, true)
    ensures Unsigned(LittleEndianBytes(n, w)) == Wrap(n, w, false)
  {
    ValueOfLittleEndianBytes(n, w);
  }

  // ---- the in-memory images of 16-, 32- and 64-bit unsigned values ----
  // The functions below carry no contracts about one another; the lemmas
  // after them state how they fit together.

  /** A 16-bit value from its low and high byte. */
  function Join16(lo: byte, hi: byte): bv16 {
    ((hi as bv16) << 8) | lo as bv16
  }

  /** The bytes of v in order o: least significant first for LittleEndian. */
  function Image16(v: bv16, o: ByteOrder): (r: seq<byte>)
    ensures |r| == 2
  {
    var lo, hi := (v & 0xFF) as byte, (v >> 8) as byte;
    if o == LittleEndian then [lo, hi] else [hi, lo]
  }

  /** A 16-bit load from b in order o. */
  function Load16(b: seq<byte>, o: ByteOrder): bv16
    requires |b| == 2
  {
    if o == LittleEndian then Join16(b[0], b[1]) else Join16(b[1], b[0])
  }

  /** A 32-bit value from its four bytes, least significant first. */
  function Join32(b0: byte, b1: byte, b2: byte, b3: byte): bv32 {
    ((b3 as bv32) << 24) | ((b2 as bv32) << 16) | ((b1 as bv32) << 8) | b0 as bv32
  }

  function Image32(v: bv32, o: ByteOrder): (r: seq<byte>)
    ensures |r| == 4
  {
    var b0, b1 := (v & 0xFF) as byte, ((v >> 8) & 0xFF) as byte;
    var b2, b3 := ((v >> 16) & 0xFF) as byte, (v >> 24) as byte;
    if o == LittleEndian then [b0, b1, b2, b3] else [b3, b2, b1, b0]
  }

  function Load32(b: seq<byte>, o: ByteOrder): bv32
    requires |b| == 4
  {
    if o == LittleEndian then Join32(b[0], b[1], b[2], b[3]) else Join32(b[3], b[2], b[1], b[0])
  }

  function Low32(v: bv64): bv32 { (v & 0xFFFF_FFFF) as bv32 }

  function High32(v: bv64): bv32 { (v >> 32) as bv32 }

  /** A 64-bit value from its low and high 32-bit halves. */
  function Join64(lo: bv32, hi: bv32): bv64 {
    ((hi as bv64) << 32) | lo as bv64
  }

  /** A 64-bit value is stored as its two 32-bit halves, the low half first
      in little-endian order. */
  function Image64(v: bv64, o: ByteOrder): (r: seq<byte>)
    ensures |r| == 8
  {
    if o == LittleEndian then Image32(Low32(v), o) + Image32(High32(v), o)
    else Image32(High32(v), o) + Image32(Low32(v), o)
  }

  function Load64(b: seq<byte>, o: ByteOrder): bv64
    requires |b| == 8
  {
    var first, second := Load32(b[..4], o), Load32(b[4..], o);
    if o == LittleEndian then Join64(first, second) else Join64(second, first)
  }

  /** Join16 and the byte extractions of Image16 are inverse. */
  lemma Join16Bytes(lo: byte, hi: byte, v: bv16)
    ensures (Join16(lo, hi) & 0xFF) as byte == lo && (Join16(lo, hi) >> 8) as byte == hi
    ensures Join16((v & 0xFF) as byte, (v >> 8) as byte) == v
  {
  }

  lemma Join32Bytes(b0: byte, b1: byte, b2: byte, b3: byte, v: bv32)
    ensures (Join32(b0, b1, b2, b3) & 0xFF) as byte == b0
    ensures ((Join32(b0, b1, b2, b3) >> 8) & 0xFF) as byte == b1
    ensures ((Join32(b0, b1, b2, b3) >> 16) & 0xFF) as byte == b2
    ensures (Join32(b0, b1, b2, b3) >> 24) as byte == b3
    ensures Join32((v & 0xFF) as byte, ((v >> 8) & 0xFF) as byte,
                   ((v >> 16) & 0xFF) as byte, (v >> 24) as byte) == v
  {
  }

  lemma Halves64(lo: bv32, hi: bv32, v: bv64)
    ensures Low32(Join64(lo, hi)) == lo && High32(Join64(lo, hi)) == hi
    ensures Join64(Low32(v), High32(v)) == v
  {
  }

  /** Storing a 16-bit value and loading it back in the same order gives
      the value, and loading bytes and storing the value gives the bytes. */
  lemma Image16Load16(v: bv16, b: seq<byte>, o: ByteOrder)
    requires |b| == 2
    ensures Load16(Image16(v, o), o) == v
    ensures Image16(Load16(b, o), o) == b
  {
    if o == LittleEndian {
      Join16Bytes(b[0], b[1], v);
    } else {
      Join16Bytes(b[1], b[0], v);
    }
  }

  lemma Image32Load32(v: bv32, b: seq<byte>, o: ByteOrder)
    requires |b| == 4
    ensures Load32(Image32(v, o), o) == v
    ensures Image32(Load32(b, o), o) == b
  {
    if o == LittleEndian {
      Join32Bytes(b[0], b[1], b[2], b[3], v);
    } else {
      Join32Bytes(b[3], b[2], b[1], b[0], v);
    }
  }

  lemma Image64Load64(v: bv64, b: seq<byte>, o: ByteOrder)
    requires |b| == 8
    ensures Load64(Image64(v, o), o) == v
    ensures Image64(Load64(b, o), o) == b
  {
    var lo, hi := Low32(v), High32(v);
    var c := Image64(v, o);
    Halves64(lo, hi, v);
    if o == LittleEndian {
      assert c[..4] == Image32(lo, o) && c[4..] == Image32(hi, o);
      Image32Load32(lo, c[..4], o);
      Image32Load32(hi, c[4..], o);
    } else {
      assert c[..4] == Image32(hi, o) && c[4..] == Image32(lo, o);
      Image32Load32(hi, c[..4], o);
      Image32Load32(lo, c[4..], o);
    }
    var first, second := Load32(b[..4], o), Load32(b[4..], o);
    Image32Load32(first, b[..4], o);
    Image32Load32(second, b[4..], o);
    if o == LittleEndian {
      Halves64(first, second, v);
    } else {
      Halves64(second, first, v);
    }
    assert b == b[..4] + b[4..];
  }

  /** The image in one order is the reverse of the image in the other. */
  lemma Image16Reversed(x: bv16)
    ensures Image16(x, BigEndian) == Reverse(Image16(x, LittleEndian))
  {
  }

  lemma Image32Reversed(y: bv32)
    ensures Image32(y, BigEndian) == Reverse(Image32(y, LittleEndian))
  {
  }

  /** The image in order o is the little-endian image laid out in order o,
      and a load in order o reads the bytes laid out in order o. */
  lemma ImagesInOrder16(x: bv16, s: seq<byte>, o: ByteOrder)
    requires |s| == 2
    ensures Image16(x, o) == InOrder(Image16(x, LittleEndian), o)
    ensures Image16(Load16(s, o), LittleEndian) == InOrder(s, o)
  {
    Image16Reversed(x);
    var u := Load16(s, o);
    Image16Reversed(u);
    Image16Load16(u, s, o);
    InOrderInvolutive(Image16(u, LittleEndian), o);
  }

  lemma ImagesInOrder32(y: bv32, t: seq<byte>, o: ByteOrder)
    requires |t| == 4
    ensures Image32(y, o) == InOrder(Image32(y, LittleEndian), o)
    ensures Image32(Load32(t, o), LittleEndian) == InOrder(t, o)
  {
    Image32Reversed(y);
    var v := Load32(t, o);
    Image32Reversed(v);
    Image32Load32(v, t, o);
    InOrderInvolutive(Image32(v, LittleEndian), o);
  }

  // ---- the casts of a Lua integer to the C integer types ----

  /** (unsigned short) n. */
  function ToU16(n: int): bv16 {
    Load16(LittleEndianBytes(n, 2), LittleEndian)
  }

  /** (unsigned int) n. */
  function ToU32(n: int): bv32 {
    Load32(LittleEndianBytes(n, 4), LittleEndian)
  }

  /** Both casts keep the low-order bytes of n. */
  lemma CastImages(n: int)
    ensures Image16(ToU16(n), LittleEndian) == LittleEndianBytes(n, 2)
    ensures Image32(ToU32(n), LittleEndian) == LittleEndianBytes(n, 4)
  {
    Image16Load16(0, LittleEndianBytes(n, 2), LittleEndian);
    Image32Load32(0, LittleEndianBytes(n, 4), LittleEndian);
  }

  /** The value of a signed char, a short, a signed int; an unsigned short,
      an unsigned int: the number the value's little-endian image denotes,
      in two's complement for the signed types. */
  function Signed8(b: byte): (r: int)
    ensures -128 <= r < 128 && (r - b as int) % 256 == 0
  {
    if b as int >= 128 then b as int - 256 else b as int
  }

  function Unsigned16(v: bv16): nat {
    Unsigned(Image16(v, LittleEndian))
  }

  function Signed16(v: bv16): int {
    Signed(Image16(v, LittleEndian))
  }

  function Unsigned32(v: bv32): nat {
    Unsigned(Image32(v, LittleEndian))
  }

  function Signed32(v: bv32): int {
    Signed(Image32(v, LittleEndian))
  }

  /** The values read lie in the ranges of their C types. */
  lemma ReadRanges(x: bv16, y: bv32)
    ensures -0x8000 <= Signed16(x) < 0x8000 && 0 <= Unsigned16(x) < 0x1_0000
    ensures -0x8000_0000 <= Signed32(y) < 0x8000_0000 && 0 <= Unsigned32(y) < 0x1_0000_0000
  {
    assert Pow256(2) == 0x1_0000;
    assert Pow256(4) == 0x1_0000_0000;
  }

  /** Casting a Lua integer to a C integer type and reading it back as the
      same type (or its signed/unsigned twin) truncates it. */
  lemma CastRoundTrip(n: int)
    ensures Signed8(ToU8(n)) == Wrap(n, 1, true)
    ensures ToU8(n) as int == Wrap(n, 1, false)
    ensures Signed16(ToU16(n)) == Wrap(n, 2, true)
    ensures Unsigned16(ToU16(n)) == Wrap(n, 2, false)
    ensures Signed32(ToU32(n)) == Wrap(n, 4, true)
    ensures Unsigned32(ToU32(n)) == Wrap(n, 4, false)
  {
    CastImages(n);
    SignedOfLittleEndianBytes(n, 2);
    SignedOfLittleEndianBytes(n, 4);
  }
}
