/** The byte-swap primitives of the codec and the conditional swaps that
    adapt a native-order value to the byte order a format asks for. */
module Swap {
  import opened Bytes

  /** _swap16: exchanges the two bytes of a 16-bit value. */
  function ByteSwap16(i: bv16): bv16 {
    (i << 8) | (i >> 8)
  }

  /** _swap32: reverses the four bytes of a 32-bit value. */
  function ByteSwap32(i: bv32): bv32 {
    (i << 24) | ((i << 8) & 0x00FF_0000) | ((i >> 8) & 0x0000_FF00) | (i >> 24)
  }

  /** A byte swap turns the value's image in one order into its image in
      the other. */
  lemma ByteSwapImages(x: bv16, y: bv32)
    ensures Image16(ByteSwap16(x), LittleEndian) == Image16(x, BigEndian)
    ensures Image16(ByteSwap16(x), BigEndian) == Image16(x, LittleEndian)
    ensures Image32(ByteSwap32(y), LittleEndian) == Image32(y, BigEndian)
    ensures Image32(ByteSwap32(y), BigEndian) == Image32(y, LittleEndian)
  {
  }

  lemma ByteSwapsInvolutive(x: bv16, y: bv32)
    ensures ByteSwap16(ByteSwap16(x)) == x
    ensures ByteSwap32(ByteSwap32(y)) == y
  {
  }

  /** swap16: the 16-bit value to store for x when order b is asked for on
      a machine whose native order is native.  On a big-endian machine
      both branches swap. */
  function Swap16(x: bv16, b: ByteOrder, native: ByteOrder): bv16 {
    if native == LittleEndian then
      if b == LittleEndian then x else ByteSwap16(x)
    else
      if b == LittleEndian then ByteSwap16(x) else ByteSwap16(x)
  }

  /** swap32: the 32-bit value to store for x when order b is asked for. */
  function Swap32(x: bv32, b: ByteOrder, native: ByteOrder): bv32 {
    if native == LittleEndian then
      if b == LittleEndian then x else ByteSwap32(x)
    else
      if b == LittleEndian then ByteSwap32(x) else x
  }

  /** The order in which swap16 leaves a 16-bit field in memory: the order
      asked for on a little-endian machine, but little-endian whatever is
      asked for on a big-endian one, where swap16 swaps in both branches. */
  function ShortOrder(b: ByteOrder, native: ByteOrder): ByteOrder {
    if native == LittleEndian && b == BigEndian then BigEndian else LittleEndian
  }

  /** Each conditional swap is either the identity or a byte reversal:
      the identity exactly when native and requested order are both
      little-endian (16 bits) or agree (32 bits). */
  lemma SwapCases(x: bv16, y: bv32, b: ByteOrder, native: ByteOrder)
    ensures Swap16(x, b, native) == if native == LittleEndian && b == LittleEndian then x else ByteSwap16(x)
    ensures Swap32(y, b, native) == if b == native then y else ByteSwap32(y)
  {
  }

  /** The bytes the conditional swaps leave in memory: a 32-bit value
      comes out in the requested order; a 16-bit value comes out
      big-endian only when a little-endian machine is asked for big-endian
      order, and little-endian in every other case. */
  lemma SwapImages(x: bv16, y: bv32, b: ByteOrder, native: ByteOrder)
    ensures Image16(Swap16(x, b, native), native) == Image16(x, ShortOrder(b, native))
    ensures Image32(Swap32(y, b, native), native) == Image32(y, b)
  {
    ByteSwapImages(x, y);
  }

  /** Applying a conditional swap twice with the same orders gives the value back. */
  lemma SwapsInvolutive(x: bv16, y: bv32, b: ByteOrder, native: ByteOrder)
    ensures Swap16(Swap16(x, b, native), b, native) == x
    ensures Swap32(Swap32(y, b, native), b, native) == y
  {
    ByteSwapsInvolutive(x, y);
  }

  /** What unpack computes from two stored bytes: they are read big-endian
      only when a little-endian machine is asked for big-endian order. */
  lemma SwapAfterLoad16(s: seq<byte>, b: ByteOrder, native: ByteOrder)
    requires |s| == 2
    ensures Swap16(Load16(s, native), b, native) == Load16(s, ShortOrder(b, native))
  {
    var o := ShortOrder(b, native);
    var x := Swap16(Load16(s, native), b, native);
    SwapsInvolutive(Load16(s, native), 0, b, native);
    SwapImages(x, 0, b, native);
    Image16Load16(Load16(s, native), s, native);
    assert Image16(x, o) == s;
    Image16Load16(x, s, o);
  }

  /** Four stored bytes are read in the requested order. */
  lemma SwapAfterLoad32(t: seq<byte>, b: ByteOrder, native: ByteOrder)
    requires |t| == 4
    ensures Swap32(Load32(t, native), b, native) == Load32(t, b)
  {
    var y := Swap32(Load32(t, native), b, native);
    SwapsInvolutive(0, Load32(t, native), b, native);
    SwapImages(0, y, b, native);
    Image32Load32(Load32(t, native), t, native);
    assert Image32(y, b) == t;
    Image32Load32(y, t, b);
  }

  /** What pack stores for an integer n under h or H: its two low-order
      bytes laid out in the order swap16 leaves them. */
  lemma SwappedStore16(n: int, b: ByteOrder, native: ByteOrder)
    ensures Image16(Swap16(ToU16(n), b, native), native) == InOrder(LittleEndianBytes(n, 2), ShortOrder(b, native))
  {
    SwapImages(ToU16(n), 0, b, native);
    ImagesInOrder16(ToU16(n), [0, 0], ShortOrder(b, native));
    CastImages(n);
  }

  /** What pack stores for an integer n under i or I: its four low-order
      bytes laid out in the requested order. */
  lemma SwappedStore32(n: int, b: ByteOrder, native: ByteOrder)
    ensures Image32(Swap32(ToU32(n), b, native), native) == InOrder(LittleEndianBytes(n, 4), b)
  {
    SwapImages(0, ToU32(n), b, native);
    ImagesInOrder32(ToU32(n), [0, 0, 0, 0], b);
    CastImages(n);
  }

  /** What unpack reads from a field s under h or H: the number whose
      bytes s holds in the order the swap assumes. */
  lemma SwappedLoad16(s: seq<byte>, b: ByteOrder, native: ByteOrder)
    requires |s| == 2
    ensures Signed16(Swap16(Load16(s, native), b, native)) == Signed(InOrder(s, ShortOrder(b, native)))
    ensures Unsigned16(Swap16(Load16(s, native), b, native)) == Unsigned(InOrder(s, ShortOrder(b, native)))
  {
    var o := ShortOrder(b, native);
    SwapAfterLoad16(s, b, native);
    ImagesInOrder16(0, s, o);
  }

  /** What unpack reads from a field t under i or I: the number whose
      bytes t holds in the requested order. */
  lemma SwappedLoad32(t: seq<byte>, b: ByteOrder, native: ByteOrder)
    requires |t| == 4
    ensures Signed32(Swap32(Load32(t, native), b, native)) == Signed(InOrder(t, b))
    ensures Unsigned32(Swap32(Load32(t, native), b, native)) == Unsigned(InOrder(t, b))
  {
    SwapAfterLoad32(t, b, native);
    ImagesInOrder32(0, t, b);
  }
}
