/** What pack, unpack and size compute, written as functions of the format
    position, the byte order in force and the argument slot or remaining
    data.  The methods in module Struct are proved to compute exactly these;
    module Properties proves what these imply. */
module Codec {
  import opened Bytes
  import opened Swap
  import opened Lua
  import opened Format

  const SIZEOF_SHORT: nat := 2
  const SIZEOF_INT: nat := 4
  const SIZEOF_FLOAT: nat := 4
  const SIZEOF_DOUBLE: nat := 8

  predicate IsMarker(d: Directive) {
    d.LittleOrder? || d.BigOrder? || d.NativeOrder?
  }

  /** Whether d takes a pack argument, and a place in unpack's count. */
  predicate TakesValue(d: Directive) {
    !IsMarker(d) && !d.Pad?
  }

  /** The byte order in force after d: markers set it, nothing else does. */
  function NextOrder(d: Directive, order: ByteOrder, native: ByteOrder): (r: ByteOrder)
    ensures !IsMarker(d) ==> r == order
  {
    match d
    case LittleOrder => LittleEndian
    case BigOrder => BigEndian
    case NativeOrder => native
    case _ => order
  }

  /** The number of bytes d stands for. */
  function Width(d: Directive): nat {
    match d
    case LittleOrder => 0
    case BigOrder => 0
    case NativeOrder => 0
    case Pad => 1
    case SignedByte => 1
    case UnsignedByte => 1
    case Bool => 1
    case Short => SIZEOF_SHORT
    case UnsignedShort => SIZEOF_SHORT
    case Int => SIZEOF_INT
    case UnsignedInt => SIZEOF_INT
    case Float => SIZEOF_FLOAT
    case Double => SIZEOF_DOUBLE
    case FixedString(n) => n
  }

  /** The field written for a string under sN: exactly N bytes, the string
      cut to N bytes or filled up with zero bytes. */
  function StringField(str: seq<byte>, n: nat): (r: seq<byte>)
    ensures |r| == n
    ensures forall k :: 0 <= k < n ==> r[k] == if k < |str| then str[k] else 0
  {
    if n <= |str| then str[..n] else str + seq(n - |str|, _ => 0)
  }

  // ---------------------------------------------------------------- pack

  /** The bytes that pack appends for d, reading stack slot arg. */
  function PackDirective(d: Directive, order: ByteOrder, native: ByteOrder,
                         args: seq<Value>, arg: int): (r: Result<seq<byte>>)
    ensures r.Ok? ==> |r.value| == Width(d)
    ensures r.Err? ==> TakesValue(d) && r.error == BadArgument(arg)
  {
    match d
    case LittleOrder => Ok([])
    case BigOrder => Ok([])
    case NativeOrder => Ok([])
    case Pad => Ok([0])
    case SignedByte => var n :- CheckInteger(args, arg); Ok([ToU8(n)])
    case UnsignedByte => var n :- CheckInteger(args, arg); Ok([ToU8(n)])
    case Float => var f :- CheckSingle(args, arg); Ok(Image32(f, native))
    case Double => var f :- CheckDouble(args, arg); Ok(Image64(f, native))
    case Bool => Ok([if ToBoolean(Arg(args, arg)) then 1 else 0])
    case FixedString(n) => var s :- CheckString(args, arg); Ok(StringField(s, n))
    case Short => var n :- CheckInteger(args, arg); Ok(InOrder(LittleEndianBytes(n, SIZEOF_SHORT), ShortOrder(order, native)))
    case UnsignedShort => var n :- CheckInteger(args, arg); Ok(InOrder(LittleEndianBytes(n, SIZEOF_SHORT), ShortOrder(order, native)))
    case Int => var n :- CheckInteger(args, arg); Ok(InOrder(LittleEndianBytes(n, SIZEOF_INT), order))
    case UnsignedInt => var n :- CheckInteger(args, arg); Ok(InOrder(LittleEndianBytes(n, SIZEOF_INT), order))
  }

  /** pack from format position i on, with byte order order in force and
      the next value in stack slot arg. */
  function PackFrom(fmt: string, i: nat, order: ByteOrder, arg: int,
                    args: seq<Value>, native: ByteOrder): Result<seq<byte>>
    decreases |fmt| - i, 1
  {
    if AtEnd(fmt, i) then Ok([])
    else
      match Scan(fmt, i)
      case Err(e) => Err(e)
      case Ok((d, j)) => PackThen(fmt, d, j, order, arg, args, native)
  }

  /** pack of directive d followed by the format from position j on. */
  function PackThen(fmt: string, d: Directive, j: nat, order: ByteOrder, arg: int,
                    args: seq<Value>, native: ByteOrder): Result<seq<byte>>
    requires j <= |fmt|
    decreases |fmt| - j + 1, 0
  {
    match PackDirective(d, order, native, args, arg)
    case Err(e) => Err(e)
    case Ok(bytes) =>
      var next := if TakesValue(d) then arg + 1 else arg;
      Prepend(bytes, PackFrom(fmt, j, NextOrder(d, order, native), next, args, native))
  }

  /** r with prefix put in front of its bytes. */
  function Prepend(prefix: seq<byte>, r: Result<seq<byte>>): Result<seq<byte>> {
    match r
    case Ok(rest) => Ok(prefix + rest)
    case Err(e) => Err(e)
  }

  /** pack(fmt, ...): the walk starts at the native order and slot 2. */
  function PackSpec(fmt: string, args: seq<Value>, native: ByteOrder): Result<seq<byte>> {
    PackFrom(fmt, 0, native, FIRST_ARG, args, native)
  }

  // -------------------------------------------------------------- unpack

  /** The values unpack pushes for d (none or one), read from the
      Width(d) bytes b that d occupies. */
  function Decode(d: Directive, order: ByteOrder, native: ByteOrder, b: seq<byte>): (r: seq<Value>)
    requires |b| == Width(d)
    ensures |r| == if TakesValue(d) && d != FixedString(0) then 1 else 0
  {
    match d
    case LittleOrder => []
    case BigOrder => []
    case NativeOrder => []
    case Pad => []
    case SignedByte => [Integer(Signed8(b[0]))]
    case UnsignedByte => [Integer(b[0] as int)]
    case Float => [SingleNumber(Load32(b, native))]
    case Double => [DoubleNumber(Load64(b, native))]
    case Bool => [Boolean(b[0] != 0)]
    case FixedString(n) => if n > 0 then [LString(b)] else []
    case Short => [Integer(Signed(InOrder(b, ShortOrder(order, native))))]
    case UnsignedShort => [Integer(Unsigned(InOrder(b, ShortOrder(order, native))))]
    case Int => [Integer(Signed(InOrder(b, order)))]
    case UnsignedInt => [Integer(Unsigned(InOrder(b, order)))]
  }

  /** What unpack does for d with data the bytes left: avail fails when
      fewer than Width(d) bytes are left, and otherwise d's values are read
      from the next Width(d) bytes, which are consumed. */
  function UnpackDirective(d: Directive, order: ByteOrder, native: ByteOrder,
                           data: seq<byte>): (r: Result<(seq<Value>, nat)>)
    ensures r.Err? <==> |data| < Width(d)
    ensures r.Err? ==> r.error == MoreBytesNeeded(Width(d))
    ensures r.Ok? ==> r.value.1 == Width(d) <= |data|
  {
    if |data| < Width(d) then Err(MoreBytesNeeded(Width(d)))
    else Ok((Decode(d, order, native, data[..Width(d)]), Width(d)))
  }

  /** unpack's results: the values pushed and the count it returns. */
  datatype Unpacked = Unpacked(values: seq<Value>, count: nat)

  /** unpack from format position i on, with data the bytes left. */
  function UnpackFrom(fmt: string, i: nat, order: ByteOrder, data: seq<byte>,
                      native: ByteOrder): Result<Unpacked>
    decreases |fmt| - i, 1
  {
    if AtEnd(fmt, i) then Ok(Unpacked([], 0))
    else
      match Scan(fmt, i)
      case Err(e) => Err(e)
      case Ok((d, j)) => UnpackThen(fmt, d, j, order, data, native)
  }

  /** unpack of directive d followed by the format from position j on. */
  function UnpackThen(fmt: string, d: Directive, j: nat, order: ByteOrder, data: seq<byte>,
                      native: ByteOrder): Result<Unpacked>
    requires j <= |fmt|
    decreases |fmt| - j + 1, 0
  {
    match UnpackDirective(d, order, native, data)
    case Err(e) => Err(e)
    case Ok((vs, w)) =>
      Extend(vs, if TakesValue(d) then 1 else 0,
             UnpackFrom(fmt, j, NextOrder(d, order, native), data[w..], native))
  }

  /** r with values already pushed and count already counted put in front. */
  function Extend(values: seq<Value>, count: nat, r: Result<Unpacked>): Result<Unpacked> {
    match r
    case Ok(u) => Ok(Unpacked(values + u.values, count + u.count))
    case Err(e) => Err(e)
  }

  function UnpackSpec(fmt: string, data: seq<byte>, native: ByteOrder): Result<Unpacked> {
    UnpackFrom(fmt, 0, native, data, native)
  }

  // ---------------------------------------------------------------- size

  /** size from format position i on; x and ? are unknown to it. */
  function SizeFrom(fmt: string, i: nat): Result<nat>
    decreases |fmt| - i, 1
  {
    if AtEnd(fmt, i) then Ok(0)
    else
      match Scan(fmt, i)
      case Err(e) => Err(e)
      case Ok((d, j)) =>
        if d.Pad? || d.Bool? then Err(UnknownFormatChar(fmt[i])) else SizeThen(fmt, d, j)
  }

  /** size of directive d followed by the format from position j on. */
  function SizeThen(fmt: string, d: Directive, j: nat): Result<nat>
    requires j <= |fmt|
    decreases |fmt| - j + 1, 0
  {
    Plus(Width(d), SizeFrom(fmt, j))
  }

  /** r with count bytes already summed. */
  function Plus(count: nat, r: Result<nat>): Result<nat> {
    match r
    case Ok(n) => Ok(count + n)
    case Err(e) => Err(e)
  }

  function SizeSpec(fmt: string): Result<nat> {
    SizeFrom(fmt, 0)
  }
}
