/** What pack, unpack and size promise, proved about their specifications
    in module Codec (and so, through the contracts in module Struct, about
    the three methods). */
module Properties {
  import opened Bytes
  import opened Swap
  import opened Lua
  import opened Format
  import opened Codec

  // ------------------------------------------- sums over the directives

  /** The bytes the directives ds stand for. */
  function TotalWidth(ds: seq<Directive>): nat {
    if ds == [] then 0 else Width(ds[0]) + TotalWidth(ds[1..])
  }

  /** The directives that take a pack argument and a place in unpack's count. */
  function ValueCount(ds: seq<Directive>): nat {
    if ds == [] then 0 else (if TakesValue(ds[0]) then 1 else 0) + ValueCount(ds[1..])
  }

  /** The zero-length strings, which unpack counts but does not push. */
  function EmptyStrings(ds: seq<Directive>): nat {
    if ds == [] then 0 else (if ds[0] == FixedString(0) then 1 else 0) + EmptyStrings(ds[1..])
  }

  /** Whether size has a case for every directive in ds (it has none for x and ?). */
  predicate Sizable(ds: seq<Directive>) {
    forall k :: 0 <= k < |ds| ==> !ds[k].Pad? && !ds[k].Bool?
  }

  lemma EmptyStringsAreValues(ds: seq<Directive>)
    ensures EmptyStrings(ds) <= ValueCount(ds)
  {
  }

  // --------------------------------------------------------- pack length

  /** A pack that succeeds read a format of known directives, and wrote
      exactly the sum of their widths. */
  lemma {:induction false} PackLength(fmt: string, i: nat, order: ByteOrder, arg: int,
                                      args: seq<Value>, native: ByteOrder)
    requires PackFrom(fmt, i, order, arg, args, native).Ok?
    ensures TokenizeFrom(fmt, i).Ok?
    ensures |PackFrom(fmt, i, order, arg, args, native).value| == TotalWidth(TokenizeFrom(fmt, i).value)
    decreases |fmt| - i
  {
    if !AtEnd(fmt, i) {
      var (d, j) := Scan(fmt, i).value;
      var next := if TakesValue(d) then arg + 1 else arg;
      var bytes := PackDirective(d, order, native, args, arg).value;
      var o := NextOrder(d, order, native);
      assert PackFrom(fmt, i, order, arg, args, native) == Prepend(bytes, PackFrom(fmt, j, o, next, args, native));
      PackLength(fmt, j, o, next, args, native);
      var ds := TokenizeFrom(fmt, j).value;
      assert TokenizeFrom(fmt, i) == Ok([d] + ds);
      assert ([d] + ds)[1..] == ds;
    }
  }

  // ---------------------------------------------------------------- size

  /** size succeeds exactly on the formats of known directives that avoid
      x and ?, and then returns the sum of their widths. */
  lemma {:induction false} SizeOfDirectives(fmt: string, i: nat)
    ensures SizeFrom(fmt, i).Ok? <==> TokenizeFrom(fmt, i).Ok? && Sizable(TokenizeFrom(fmt, i).value)
    ensures SizeFrom(fmt, i).Ok? ==> SizeFrom(fmt, i).value == TotalWidth(TokenizeFrom(fmt, i).value)
    decreases |fmt| - i
  {
    if !AtEnd(fmt, i) && Scan(fmt, i).Ok? {
      var (d, j) := Scan(fmt, i).value;
      SizeOfDirectives(fmt, j);
      if TokenizeFrom(fmt, j).Ok? {
        var ds := TokenizeFrom(fmt, j).value;
        assert TokenizeFrom(fmt, i) == Ok([d] + ds);
        assert ([d] + ds)[1..] == ds;
        assert Sizable([d] + ds) <==> !d.Pad? && !d.Bool? && Sizable(ds) by {
          if !d.Pad? && !d.Bool? && Sizable(ds) {
            forall k | 0 <= k < |[d] + ds|
              ensures !([d] + ds)[k].Pad? && !([d] + ds)[k].Bool?
            {
              if k > 0 {
                assert ([d] + ds)[k] == ds[k - 1];
              }
            }
          }
          if Sizable([d] + ds) {
            assert ([d] + ds)[0] == d;
            forall k | 0 <= k < |ds|
              ensures !ds[k].Pad? && !ds[k].Bool?
            {
              assert ([d] + ds)[k + 1] == ds[k];
            }
          }
        }
      }
    }
  }

  /** When size fails it names a character of the format that is not in
      the published formatchars. */
  lemma {:induction false} SizeErrors(fmt: string, i: nat)
    ensures SizeFrom(fmt, i).Err? ==>
      exists k :: i <= k < |fmt| && fmt[k] !in FORMAT_CHARS &&
                  SizeFrom(fmt, i).error == UnknownFormatChar(fmt[k])
    decreases |fmt| - i
  {
    if !AtEnd(fmt, i) {
      ScanAccepts(fmt, i);
      if Scan(fmt, i).Err? {
        assert fmt[i] !in FORMAT_CHARS by {
          assert forall c :: c in FORMAT_CHARS ==> c in CODEC_CHARS;
        }
        assert SizeFrom(fmt, i).error == UnknownFormatChar(fmt[i]);
      } else {
        var (d, j) := Scan(fmt, i).value;
        if d.Pad? || d.Bool? {
          assert fmt[i] == 'x' || fmt[i] == '?';
          assert SizeFrom(fmt, i).error == UnknownFormatChar(fmt[i]);
        } else {
          SizeErrors(fmt, j);
          assert SizeFrom(fmt, i) == Plus(Width(d), SizeFrom(fmt, j));
        }
      }
    }
  }

  /** Where both succeed, size is the length of what pack makes. */
  lemma SizeIsPackLength(fmt: string, args: seq<Value>, native: ByteOrder)
    requires SizeSpec(fmt).Ok? && PackSpec(fmt, args, native).Ok?
    ensures |PackSpec(fmt, args, native).value| == SizeSpec(fmt).value
  {
    SizeOfDirectives(fmt, 0);
    PackLength(fmt, 0, native, FIRST_ARG, args, native);
  }

  // -------------------------------------------------------------- unpack

  /** An unpack that succeeds read a format of known directives, counted
      each directive that takes a value, and pushed one value for each of
      them except the zero-length strings. */
  lemma {:induction false} UnpackCount(fmt: string, i: nat, order: ByteOrder, data: seq<byte>,
                                       native: ByteOrder)
    requires UnpackFrom(fmt, i, order, data, native).Ok?
    ensures TokenizeFrom(fmt, i).Ok?
    ensures UnpackFrom(fmt, i, order, data, native).value.count == ValueCount(TokenizeFrom(fmt, i).value)
    ensures |UnpackFrom(fmt, i, order, data, native).value.values| ==
            ValueCount(TokenizeFrom(fmt, i).value) - EmptyStrings(TokenizeFrom(fmt, i).value)
    decreases |fmt| - i
  {
    if !AtEnd(fmt, i) {
      var (d, j) := Scan(fmt, i).value;
      var (vs, w) := UnpackDirective(d, order, native, data).value;
      var o := NextOrder(d, order, native);
      assert UnpackFrom(fmt, i, order, data, native) ==
        Extend(vs, if TakesValue(d) then 1 else 0, UnpackFrom(fmt, j, o, data[w..], native));
      UnpackCount(fmt, j, o, data[w..], native);
      var ds := TokenizeFrom(fmt, j).value;
      assert TokenizeFrom(fmt, i) == Ok([d] + ds);
      assert ([d] + ds)[1..] == ds;
      EmptyStringsAreValues(ds);
    }
  }

  /** On a format of known directives, unpack fails exactly when the data
      is shorter than the directives' total width. */
  lemma {:induction false} UnpackNeedsTotalWidth(fmt: string, i: nat, order: ByteOrder, data: seq<byte>,
                                                 native: ByteOrder)
    requires TokenizeFrom(fmt, i).Ok?
    ensures UnpackFrom(fmt, i, order, data, native).Ok? <==> TotalWidth(TokenizeFrom(fmt, i).value) <= |data|
    decreases |fmt| - i
  {
    if !AtEnd(fmt, i) {
      var (d, j) := Scan(fmt, i).value;
      var ds := TokenizeFrom(fmt, j).value;
      assert TokenizeFrom(fmt, i) == Ok([d] + ds);
      assert ([d] + ds)[1..] == ds;
      var o := NextOrder(d, order, native);
      if Width(d) <= |data| {
        var (vs, w) := UnpackDirective(d, order, native, data).value;
        assert UnpackFrom(fmt, i, order, data, native) ==
          Extend(vs, if TakesValue(d) then 1 else 0, UnpackFrom(fmt, j, o, data[w..], native));
        UnpackNeedsTotalWidth(fmt, j, o, data[w..], native);
      } else {
        assert UnpackFrom(fmt, i, order, data, native) == Err(MoreBytesNeeded(Width(d)));
      }
    }
  }

  // ------------------------------------------------- pack's arguments

  /** Whether pack's check for d accepts v: an integer for the integer
      directives, a string for s, a number for f and d; ? takes any value
      and the markers and x take none. */
  predicate Accepts(d: Directive, v: Value) {
    match d
    case SignedByte => v.Integer?
    case UnsignedByte => v.Integer?
    case Short => v.Integer?
    case UnsignedShort => v.Integer?
    case Int => v.Integer?
    case UnsignedInt => v.Integer?
    case Float => v.SingleNumber?
    case Double => v.DoubleNumber?
    case FixedString(_) => v.LString?
    case _ => true
  }

  lemma PackDirectiveAccepts(d: Directive, order: ByteOrder, native: ByteOrder, args: seq<Value>, arg: int)
    ensures PackDirective(d, order, native, args, arg).Ok? <==> Accepts(d, Arg(args, arg))
  {
  }

  /** Whether every directive of ds that takes a value accepts the one in
      its slot, the slots being counted from arg. */
  predicate ArgsAccepted(ds: seq<Directive>, arg: int, args: seq<Value>)
    decreases |ds|
  {
    ds == [] ||
    ((TakesValue(ds[0]) ==> Accepts(ds[0], Arg(args, arg))) &&
     ArgsAccepted(ds[1..], if TakesValue(ds[0]) then arg + 1 else arg, args))
  }

  /** On a format of known directives, pack fails exactly when a
      directive's check rejects the value in its slot. */
  lemma {:induction false} PackSucceeds(fmt: string, i: nat, order: ByteOrder, arg: int,
                                        args: seq<Value>, native: ByteOrder)
    requires TokenizeFrom(fmt, i).Ok?
    ensures PackFrom(fmt, i, order, arg, args, native).Ok? <==> ArgsAccepted(TokenizeFrom(fmt, i).value, arg, args)
    decreases |fmt| - i
  {
    if !AtEnd(fmt, i) {
      var (d, j) := Scan(fmt, i).value;
      var ds := TokenizeFrom(fmt, j).value;
      assert TokenizeFrom(fmt, i) == Ok([d] + ds);
      assert ([d] + ds)[1..] == ds;
      var next := if TakesValue(d) then arg + 1 else arg;
      var o := NextOrder(d, order, native);
      PackDirectiveAccepts(d, order, native, args, arg);
      PackSucceeds(fmt, j, o, next, args, native);
      assert PackFrom(fmt, i, order, arg, args, native) == PackThen(fmt, d, j, order, arg, args, native);
    }
  }

  // ------------------------------------------------------- round trip

  /** What unpack gives back for the field pack writes for v under d:
      integers cut to the field's width and read as signed or unsigned,
      the truth of the value under ?, the string cut or padded to the
      field, the number's bit image unchanged; nothing for markers, x and
      s0. */
  function Unpacks(d: Directive, v: Value): seq<Value>
    requires Accepts(d, v)
  {
    match d
    case SignedByte => [Integer(Wrap(v.n, 1, true))]
    case UnsignedByte => [Integer(Wrap(v.n, 1, false))]
    case Short => [Integer(Wrap(v.n, SIZEOF_SHORT, true))]
    case UnsignedShort => [Integer(Wrap(v.n, SIZEOF_SHORT, false))]
    case Int => [Integer(Wrap(v.n, SIZEOF_INT, true))]
    case UnsignedInt => [Integer(Wrap(v.n, SIZEOF_INT, false))]
    case Float => [v]
    case Double => [v]
    case Bool => [Boolean(ToBoolean(v))]
    case FixedString(n) => if n > 0 then [LString(StringField(v.bytes, n))] else []
    case _ => []
  }

  /** Unpacks where d takes a value and accepts v; nothing otherwise. */
  function Yield(d: Directive, v: Value): seq<Value> {
    if TakesValue(d) && Accepts(d, v) then Unpacks(d, v) else []
  }

  /** What unpack gives back for what pack makes of ds from slot arg on. */
  function Expected(ds: seq<Directive>, arg: int, args: seq<Value>): seq<Value>
    decreases |ds|
  {
    if ds == [] then []
    else
      var next := if TakesValue(ds[0]) then arg + 1 else arg;
      Yield(ds[0], Arg(args, arg)) + Expected(ds[1..], next, args)
  }

  lemma DecodeBytes(d: Directive, order: ByteOrder, native: ByteOrder, args: seq<Value>, arg: int)
    requires d.SignedByte? || d.UnsignedByte?
    requires Accepts(d, Arg(args, arg))
    ensures PackDirective(d, order, native, args, arg).Ok?
    ensures Decode(d, order, native, PackDirective(d, order, native, args, arg).value) == Unpacks(d, Arg(args, arg))
  {
    CastRoundTrip(Arg(args, arg).n);
  }

  lemma DecodeShorts(d: Directive, order: ByteOrder, native: ByteOrder, args: seq<Value>, arg: int)
    requires d.Short? || d.UnsignedShort?
    requires Accepts(d, Arg(args, arg))
    ensures PackDirective(d, order, native, args, arg).Ok?
    ensures Decode(d, order, native, PackDirective(d, order, native, args, arg).value) == Unpacks(d, Arg(args, arg))
  {
    var n := Arg(args, arg).n;
    var o := ShortOrder(order, native);
    InOrderInvolutive(LittleEndianBytes(n, SIZEOF_SHORT), o);
    SignedOfLittleEndianBytes(n, SIZEOF_SHORT);
    assert PackDirective(d, order, native, args, arg).value == InOrder(LittleEndianBytes(n, SIZEOF_SHORT), o);
  }

  lemma DecodeInt(order: ByteOrder, native: ByteOrder, args: seq<Value>, arg: int)
    requires Arg(args, arg).Integer?
    ensures PackDirective(Int, order, native, args, arg) == Ok(InOrder(LittleEndianBytes(Arg(args, arg).n, SIZEOF_INT), order))
    ensures Decode(Int, order, native, PackDirective(Int, order, native, args, arg).value) ==
            [Integer(Wrap(Arg(args, arg).n, SIZEOF_INT, true))]
  {
    var n := Arg(args, arg).n;
    InOrderInvolutive(LittleEndianBytes(n, SIZEOF_INT), order);
    SignedOfLittleEndianBytes(n, SIZEOF_INT);
  }

  lemma DecodeUnsignedInt(order: ByteOrder, native: ByteOrder, args: seq<Value>, arg: int)
    requires Arg(args, arg).Integer?
    ensures PackDirective(UnsignedInt, order, native, args, arg) == Ok(InOrder(LittleEndianBytes(Arg(args, arg).n, SIZEOF_INT), order))
    ensures Decode(UnsignedInt, order, native, PackDirective(UnsignedInt, order, native, args, arg).value) ==
            [Integer(Wrap(Arg(args, arg).n, SIZEOF_INT, false))]
  {
    var n := Arg(args, arg).n;
    InOrderInvolutive(LittleEndianBytes(n, SIZEOF_INT), order);
    SignedOfLittleEndianBytes(n, SIZEOF_INT);
  }

  /** Decoding the field pack writes for a directive gives what Unpacks says. */
  lemma DecodePacked(d: Directive, order: ByteOrder, native: ByteOrder, args: seq<Value>, arg: int)
    requires Accepts(d, Arg(args, arg))
    ensures PackDirective(d, order, native, args, arg).Ok?
    ensures Decode(d, order, native, PackDirective(d, order, native, args, arg).value) == Yield(d, Arg(args, arg))
  {
    match d
    case SignedByte => DecodeBytes(d, order, native, args, arg);
    case UnsignedByte => DecodeBytes(d, order, native, args, arg);
    case Short => DecodeShorts(d, order, native, args, arg);
    case UnsignedShort => DecodeShorts(d, order, native, args, arg);
    case Int => DecodeInt(order, native, args, arg);
    case UnsignedInt => DecodeUnsignedInt(order, native, args, arg);
    case Float => Image32Load32(Arg(args, arg).singleBits, [0, 0, 0, 0], native);
    case Double => Image64Load64(Arg(args, arg).doubleBits, [0, 0, 0, 0, 0, 0, 0, 0], native);
    case _ =>
  }

  /** pack's walk over a directive list rather than a format string. */
  function PackAll(ds: seq<Directive>, order: ByteOrder, arg: int, args: seq<Value>,
                   native: ByteOrder): Result<seq<byte>>
    decreases |ds|
  {
    if ds == [] then Ok([])
    else
      match PackDirective(ds[0], order, native, args, arg)
      case Err(e) => Err(e)
      case Ok(bytes) =>
        Prepend(bytes, PackAll(ds[1..], NextOrder(ds[0], order, native),
                               if TakesValue(ds[0]) then arg + 1 else arg, args, native))
  }

  /** unpack's walk over a directive list rather than a format string. */
  function UnpackAll(ds: seq<Directive>, order: ByteOrder, data: seq<byte>,
                     native: ByteOrder): Result<Unpacked>
    decreases |ds|
  {
    if ds == [] then Ok(Unpacked([], 0))
    else
      match UnpackDirective(ds[0], order, native, data)
      case Err(e) => Err(e)
      case Ok((vs, w)) =>
        Extend(vs, if TakesValue(ds[0]) then 1 else 0,
               UnpackAll(ds[1..], NextOrder(ds[0], order, native), data[w..], native))
  }

  /** The directives from i on are the one at i followed by those after it. */
  lemma TokenizeStep(fmt: string, i: nat)
    requires !AtEnd(fmt, i) && Scan(fmt, i).Ok? && TokenizeFrom(fmt, Scan(fmt, i).value.1).Ok?
    ensures TokenizeFrom(fmt, i).Ok?
    ensures TokenizeFrom(fmt, i).value[0] == Scan(fmt, i).value.0
    ensures TokenizeFrom(fmt, i).value[1..] == TokenizeFrom(fmt, Scan(fmt, i).value.1).value
  {
    var ds := TokenizeFrom(fmt, Scan(fmt, i).value.1).value;
    assert ([Scan(fmt, i).value.0] + ds)[1..] == ds;
  }

  /** pack over a format string is pack over its directives. */
  lemma {:induction false} PackIsPackAll(fmt: string, i: nat, order: ByteOrder, arg: int,
                                         args: seq<Value>, native: ByteOrder)
    requires TokenizeFrom(fmt, i).Ok?
    ensures PackFrom(fmt, i, order, arg, args, native) == PackAll(TokenizeFrom(fmt, i).value, order, arg, args, native)
    decreases |fmt| - i
  {
    if !AtEnd(fmt, i) {
      var (d, j) := Scan(fmt, i).value;
      TokenizeStep(fmt, i);
      PackIsPackAll(fmt, j, NextOrder(d, order, native), if TakesValue(d) then arg + 1 else arg, args, native);
      assert PackFrom(fmt, i, order, arg, args, native) == PackThen(fmt, d, j, order, arg, args, native);
    }
  }

  /** unpack over a format string is unpack over its directives. */
  lemma {:induction false} UnpackIsUnpackAll(fmt: string, i: nat, order: ByteOrder, data: seq<byte>,
                                             native: ByteOrder)
    requires TokenizeFrom(fmt, i).Ok?
    ensures UnpackFrom(fmt, i, order, data, native) == UnpackAll(TokenizeFrom(fmt, i).value, order, data, native)
    decreases |fmt| - i
  {
    if !AtEnd(fmt, i) {
      var (d, j) := Scan(fmt, i).value;
      TokenizeStep(fmt, i);
      if |data| >= Width(d) {
        UnpackIsUnpackAll(fmt, j, NextOrder(d, order, native), data[Width(d)..], native);
      }
      assert UnpackFrom(fmt, i, order, data, native) == UnpackThen(fmt, d, j, order, data, native);
    }
  }

  /** unpack of a directive over the field pack wrote for it, followed by
      more bytes: it yields Unpacks and consumes exactly that field. */
  lemma UnpackAfterPack(d: Directive, order: ByteOrder, arg: int, args: seq<Value>,
                        native: ByteOrder, more: seq<byte>)
    requires PackDirective(d, order, native, args, arg).Ok?
    ensures TakesValue(d) ==> Accepts(d, Arg(args, arg))
    ensures UnpackDirective(d, order, native, PackDirective(d, order, native, args, arg).value + more) ==
            Ok((Yield(d, Arg(args, arg)), Width(d)))
    ensures (PackDirective(d, order, native, args, arg).value + more)[Width(d)..] == more
  {
    PackDirectiveAccepts(d, order, native, args, arg);
    DecodePacked(d, order, native, args, arg);
    var bytes := PackDirective(d, order, native, args, arg).value;
    assert (bytes + more)[..Width(d)] == bytes;
  }

  /** pack of a non-empty list: the first directive's field followed by
      the rest's bytes. */
  lemma PackAllStep(ds: seq<Directive>, order: ByteOrder, arg: int, args: seq<Value>,
                    native: ByteOrder, rest: seq<byte>)
    requires ds != [] && PackAll(ds, order, arg, args, native).Ok?
    ensures PackDirective(ds[0], order, native, args, arg).Ok?
    ensures PackAll(ds[1..], NextOrder(ds[0], order, native),
                    if TakesValue(ds[0]) then arg + 1 else arg, args, native).Ok?
    ensures PackAll(ds, order, arg, args, native).value + rest ==
            PackDirective(ds[0], order, native, args, arg).value +
            (PackAll(ds[1..], NextOrder(ds[0], order, native),
                     if TakesValue(ds[0]) then arg + 1 else arg, args, native).value + rest)
  {
    var bytes := PackDirective(ds[0], order, native, args, arg).value;
    var tail := PackAll(ds[1..], NextOrder(ds[0], order, native),
                        if TakesValue(ds[0]) then arg + 1 else arg, args, native).value;
    assert PackAll(ds, order, arg, args, native).value == bytes + tail;
    assert (bytes + tail) + rest == bytes + (tail + rest);
  }

  /** unpack of a non-empty list over the field pack wrote for its first
      directive: that directive's values, then unpack of the rest over the
      bytes after the field. */
  lemma UnpackAllStep(ds: seq<Directive>, order: ByteOrder, arg: int, args: seq<Value>,
                      native: ByteOrder, more: seq<byte>)
    requires ds != [] && PackDirective(ds[0], order, native, args, arg).Ok?
    ensures TakesValue(ds[0]) ==> Accepts(ds[0], Arg(args, arg))
    ensures UnpackAll(ds, order, PackDirective(ds[0], order, native, args, arg).value + more, native) ==
            Extend(Yield(ds[0], Arg(args, arg)), if TakesValue(ds[0]) then 1 else 0,
                   UnpackAll(ds[1..], NextOrder(ds[0], order, native), more, native))
  {
    UnpackAfterPack(ds[0], order, arg, args, native, more);
  }

  /** The round trip over a directive list. */
  ghost predicate RoundTrips(ds: seq<Directive>, order: ByteOrder, arg: int, args: seq<Value>,
                             native: ByteOrder, rest: seq<byte>)
  {
    PackAll(ds, order, arg, args, native).Ok? ==>
      ArgsAccepted(ds, arg, args) &&
      UnpackAll(ds, order, PackAll(ds, order, arg, args, native).value + rest, native) ==
        Ok(Unpacked(Expected(ds, arg, args), ValueCount(ds)))
  }

  /** The round trip for a non-empty list follows from the one for its tail. */
  lemma RoundTripStep(ds: seq<Directive>, order: ByteOrder, arg: int, args: seq<Value>,
                      native: ByteOrder, rest: seq<byte>)
    requires ds != []
    requires RoundTrips(ds[1..], NextOrder(ds[0], order, native), if TakesValue(ds[0]) then arg + 1 else arg,
                        args, native, rest)
    ensures RoundTrips(ds, order, arg, args, native, rest)
  {
    if PackAll(ds, order, arg, args, native).Ok? {
      var next := if TakesValue(ds[0]) then arg + 1 else arg;
      var o := NextOrder(ds[0], order, native);
      PackAllStep(ds, order, arg, args, native, rest);
      UnpackAllStep(ds, order, arg, args, native, PackAll(ds[1..], o, next, args, native).value + rest);
    }
  }

  lemma {:induction false} RoundTripAll(ds: seq<Directive>, order: ByteOrder, arg: int, args: seq<Value>,
                                        native: ByteOrder, rest: seq<byte>)
    ensures RoundTrips(ds, order, arg, args, native, rest)
    decreases |ds|
  {
    if ds == [] {
      assert PackAll(ds, order, arg, args, native).value + rest == rest;
    } else {
      RoundTripAll(ds[1..], NextOrder(ds[0], order, native), if TakesValue(ds[0]) then arg + 1 else arg,
                   args, native, rest);
      RoundTripStep(ds, order, arg, args, native, rest);
    }
  }

  /** unpack applied to what pack makes, followed by any further bytes,
      gives back every value pack took, as Unpacks says, and counts them. */
  lemma RoundTrip(fmt: string, i: nat, order: ByteOrder, arg: int, args: seq<Value>,
                  native: ByteOrder, rest: seq<byte>)
    requires PackFrom(fmt, i, order, arg, args, native).Ok?
    ensures TokenizeFrom(fmt, i).Ok? && ArgsAccepted(TokenizeFrom(fmt, i).value, arg, args)
    ensures UnpackFrom(fmt, i, order, PackFrom(fmt, i, order, arg, args, native).value + rest, native) ==
            Ok(Unpacked(Expected(TokenizeFrom(fmt, i).value, arg, args), ValueCount(TokenizeFrom(fmt, i).value)))
  {
    PackLength(fmt, i, order, arg, args, native);
    var ds := TokenizeFrom(fmt, i).value;
    PackIsPackAll(fmt, i, order, arg, args, native);
    UnpackIsUnpackAll(fmt, i, order, PackFrom(fmt, i, order, arg, args, native).value + rest, native);
    RoundTripAll(ds, order, arg, args, native, rest);
  }

  // --------------------------------------------------- canonical values

  /** v is what unpack reads back unchanged after pack stores it under d:
      an integer the field's C type can hold, a number, a boolean, a
      string of exactly the field's length. */
  predicate Canonical(d: Directive, v: Value) {
    match d
    case SignedByte => v.Integer? && -0x80 <= v.n < 0x80
    case UnsignedByte => v.Integer? && 0 <= v.n < 0x100
    case Short => v.Integer? && -0x8000 <= v.n < 0x8000
    case UnsignedShort => v.Integer? && 0 <= v.n < 0x1_0000
    case Int => v.Integer? && -0x8000_0000 <= v.n < 0x8000_0000
    case UnsignedInt => v.Integer? && 0 <= v.n < 0x1_0000_0000
    case Float => v.SingleNumber?
    case Double => v.DoubleNumber?
    case Bool => v.Boolean?
    case FixedString(n) => v.LString? && |v.bytes| == n
    case _ => true
  }

  /** For a canonical value, unpack gives back the value itself. */
  lemma YieldCanonical(d: Directive, v: Value)
    requires TakesValue(d) && d != FixedString(0) && Canonical(d, v)
    ensures Accepts(d, v) && v != Nil
    ensures Yield(d, v) == [v]
  {
    assert Pow256(1) == 0x100;
    assert Pow256(2) == 0x1_0000;
    assert Pow256(4) == 0x1_0000_0000;
    match d
    case SignedByte => WrapInRange(v.n, 1, true);
    case UnsignedByte => WrapInRange(v.n, 1, false);
    case Short => WrapInRange(v.n, SIZEOF_SHORT, true);
    case UnsignedShort => WrapInRange(v.n, SIZEOF_SHORT, false);
    case Int => WrapInRange(v.n, SIZEOF_INT, true);
    case UnsignedInt => WrapInRange(v.n, SIZEOF_INT, false);
    case FixedString(n) => assert v.bytes[..n] == v.bytes;
    case _ =>
  }

  /** Whether every directive of ds that takes a value has a canonical one
      in its slot, the slots being counted from arg. */
  predicate CanonicalArgs(ds: seq<Directive>, arg: int, args: seq<Value>)
    decreases |ds|
  {
    ds == [] ||
    ((TakesValue(ds[0]) ==> Canonical(ds[0], Arg(args, arg))) &&
     CanonicalArgs(ds[1..], if TakesValue(ds[0]) then arg + 1 else arg, args))
  }

  /** With canonical values and no s0, unpack gives back exactly the
      values in the slots pack read, none of them nil. */
  lemma {:induction false} ExpectedCanonical(ds: seq<Directive>, arg: int, args: seq<Value>)
    requires CanonicalArgs(ds, arg, args) && EmptyStrings(ds) == 0
    ensures forall slot :: arg <= slot < arg + ValueCount(ds) ==> Arg(args, slot) != Nil
    ensures Expected(ds, arg, args) == seq(ValueCount(ds), k => Arg(args, arg + k))
    decreases |ds|
  {
    if ds != [] {
      var next := if TakesValue(ds[0]) then arg + 1 else arg;
      ExpectedCanonical(ds[1..], next, args);
      var later := seq(ValueCount(ds[1..]), k => Arg(args, next + k));
      if TakesValue(ds[0]) {
        YieldCanonical(ds[0], Arg(args, arg));
        assert [Arg(args, arg)] + later == seq(ValueCount(ds), k => Arg(args, arg + k));
      } else {
        assert later == seq(ValueCount(ds), k => Arg(args, arg + k));
      }
    }
  }

  /** unpack(fmt, pack(fmt, v1, ..., vn)) returns v1, ..., vn and n
      when each value is one its directive stores exactly and no s0
      occurs. */
  lemma CanonicalRoundTrip(fmt: string, args: seq<Value>, native: ByteOrder)
    requires PackSpec(fmt, args, native).Ok? && Tokenize(fmt).Ok?
    requires CanonicalArgs(Tokenize(fmt).value, FIRST_ARG, args) && EmptyStrings(Tokenize(fmt).value) == 0
    ensures ValueCount(Tokenize(fmt).value) <= |args|
    ensures UnpackSpec(fmt, PackSpec(fmt, args, native).value, native) ==
            Ok(Unpacked(args[..ValueCount(Tokenize(fmt).value)], ValueCount(Tokenize(fmt).value)))
  {
    var ds := Tokenize(fmt).value;
    RoundTrip(fmt, 0, native, FIRST_ARG, args, native, []);
    ExpectedCanonical(ds, FIRST_ARG, args);
    SlotsArePrefix(args, ValueCount(ds));
    assert PackSpec(fmt, args, native).value + [] == PackSpec(fmt, args, native).value;
  }

  /** n slots from the first argument on that are all filled are the
      first n arguments. */
  lemma SlotsArePrefix(args: seq<Value>, n: nat)
    requires forall slot :: FIRST_ARG <= slot < FIRST_ARG + n ==> Arg(args, slot) != Nil
    ensures n <= |args|
    ensures seq(n, k => Arg(args, FIRST_ARG + k)) == args[..n]
  {
    if n > 0 {
      assert Arg(args, FIRST_ARG + n - 1) != Nil;
    }
    forall k | 0 <= k < n ensures seq(n, k => Arg(args, FIRST_ARG + k))[k] == args[k] {
      assert Arg(args, FIRST_ARG + k) != Nil;
    }
  }

  // ------------------------------------------ what each walk looks at

  /** The field for one directive depends on its own slot only. */
  lemma PackDirectiveReadsOnlyItsSlot(d: Directive, order: ByteOrder, native: ByteOrder,
                                      args: seq<Value>, other: seq<Value>, arg: int)
    requires TakesValue(d) ==> Arg(args, arg) == Arg(other, arg)
    ensures PackDirective(d, order, native, args, arg) == PackDirective(d, order, native, other, arg)
  {
  }

  /** pack of a directive list reads only the slots its directives take. */
  lemma {:induction false} PackAllReadsOnlyItsSlots(ds: seq<Directive>, order: ByteOrder, arg: int,
                                                    args: seq<Value>, other: seq<Value>, native: ByteOrder)
    requires forall slot :: arg <= slot < arg + ValueCount(ds) ==> Arg(args, slot) == Arg(other, slot)
    ensures PackAll(ds, order, arg, args, native) == PackAll(ds, order, arg, other, native)
    decreases |ds|
  {
    if ds != [] {
      var next := if TakesValue(ds[0]) then arg + 1 else arg;
      var o := NextOrder(ds[0], order, native);
      PackDirectiveReadsOnlyItsSlot(ds[0], order, native, args, other, arg);
      PackAllReadsOnlyItsSlots(ds[1..], o, next, args, other, native);
    }
  }

  /** pack reads the stack slots from 2 up to the number of values its
      format takes, and no others. */
  lemma PackReadsOnlyItsArguments(fmt: string, args: seq<Value>, other: seq<Value>, native: ByteOrder)
    requires Tokenize(fmt).Ok?
    requires forall slot :: FIRST_ARG <= slot < FIRST_ARG + ValueCount(Tokenize(fmt).value) ==>
               Arg(args, slot) == Arg(other, slot)
    ensures PackSpec(fmt, args, native) == PackSpec(fmt, other, native)
  {
    PackIsPackAll(fmt, 0, native, FIRST_ARG, args, native);
    PackIsPackAll(fmt, 0, native, FIRST_ARG, other, native);
    PackAllReadsOnlyItsSlots(Tokenize(fmt).value, native, FIRST_ARG, args, other, native);
  }

  // ------------------------------------------------ single directives

  /** An unknown character aborts pack, unpack and size with an error
      naming it, whatever comes after it. */
  lemma UnknownCharacter(fmt: string, i: nat, order: ByteOrder, arg: int, args: seq<Value>,
                         data: seq<byte>, native: ByteOrder)
    requires i < |fmt| && fmt[i] != '\0' && fmt[i] !in CODEC_CHARS
    ensures PackFrom(fmt, i, order, arg, args, native) == Err(UnknownFormatChar(fmt[i]))
    ensures UnpackFrom(fmt, i, order, data, native) == Err(UnknownFormatChar(fmt[i]))
    ensures SizeFrom(fmt, i) == Err(UnknownFormatChar(fmt[i]))
  {
    ScanAccepts(fmt, i);
  }

  /** size refuses x and ?, which pack and unpack accept. */
  lemma SizeRefusesPadAndBool(fmt: string, i: nat)
    requires i < |fmt| && (fmt[i] == 'x' || fmt[i] == '?')
    ensures Scan(fmt, i).Ok?
    ensures SizeFrom(fmt, i) == Err(UnknownFormatChar(fmt[i]))
  {
    ScanCases(fmt, i);
  }

  /** The byte order set by the marker character c. */
  function MarkerOrder(c: char, native: ByteOrder): ByteOrder {
    if c == '<' then LittleEndian else if c == '>' then BigEndian else native
  }

  /** <, > and @ set the byte order for pack and take no argument and
      no byte. */
  lemma MarkerTakesNoArgument(fmt: string, i: nat, order: ByteOrder, arg: int, args: seq<Value>,
                              native: ByteOrder)
    requires i < |fmt| && (fmt[i] == '<' || fmt[i] == '>' || fmt[i] == '@')
    ensures PackFrom(fmt, i, order, arg, args, native) ==
            PackFrom(fmt, i + 1, MarkerOrder(fmt[i], native), arg, args, native)
  {
    ScanCases(fmt, i);
    var d := Scan(fmt, i).value.0;
    assert PackFrom(fmt, i, order, arg, args, native) == PackThen(fmt, d, i + 1, order, arg, args, native);
    var r := PackFrom(fmt, i + 1, MarkerOrder(fmt[i], native), arg, args, native);
    if r.Ok? {
      assert [] + r.value == r.value;
    }
  }

  /** <, > and @ set the byte order for unpack and take no byte and no
      place in the count. */
  lemma MarkerTakesNoByte(fmt: string, i: nat, order: ByteOrder, data: seq<byte>, native: ByteOrder)
    requires i < |fmt| && (fmt[i] == '<' || fmt[i] == '>' || fmt[i] == '@')
    ensures UnpackFrom(fmt, i, order, data, native) ==
            UnpackFrom(fmt, i + 1, MarkerOrder(fmt[i], native), data, native)
  {
    ScanCases(fmt, i);
    var d := Scan(fmt, i).value.0;
    assert UnpackFrom(fmt, i, order, data, native) == UnpackThen(fmt, d, i + 1, order, data, native);
    assert data[0..] == data;
    var r := UnpackFrom(fmt, i + 1, MarkerOrder(fmt[i], native), data, native);
    if r.Ok? {
      assert [] + r.value.values == r.value.values;
    }
  }

  /** <, > and @ add nothing to size. */
  lemma MarkerHasNoSize(fmt: string, i: nat)
    requires i < |fmt| && (fmt[i] == '<' || fmt[i] == '>' || fmt[i] == '@')
    ensures SizeFrom(fmt, i) == SizeFrom(fmt, i + 1)
  {
    ScanCases(fmt, i);
  }

  /** x writes one zero byte and skips one byte, taking no argument and no
      place in the count; unpack fails on it when no byte is left. */
  lemma PadTakesNoValue(fmt: string, i: nat, order: ByteOrder, arg: int, args: seq<Value>,
                        data: seq<byte>, native: ByteOrder)
    requires i < |fmt| && fmt[i] == 'x'
    ensures PackFrom(fmt, i, order, arg, args, native) == Prepend([0], PackFrom(fmt, i + 1, order, arg, args, native))
    ensures UnpackFrom(fmt, i, order, data, native) ==
            if data == [] then Err(MoreBytesNeeded(1)) else UnpackFrom(fmt, i + 1, order, data[1..], native)
  {
    ScanCases(fmt, i);
    assert UnpackFrom(fmt, i, order, data, native) == UnpackThen(fmt, Pad, i + 1, order, data, native);
    if data != [] {
      var r := UnpackFrom(fmt, i + 1, order, data[1..], native);
      if r.Ok? {
        assert [] + r.value.values == r.value.values;
      }
    }
  }

  /** s0 (an s with no digits, or with digits that read as zero) still
      demands a string argument and takes its slot; unpack counts it but
      pushes nothing. */
  lemma EmptyStringQuirk(fmt: string, i: nat, order: ByteOrder, arg: int, args: seq<Value>,
                         data: seq<byte>, native: ByteOrder)
    requires i < |fmt| && Scan(fmt, i).Ok? && Scan(fmt, i).value.0 == FixedString(0)
    ensures PackFrom(fmt, i, order, arg, args, native) ==
            if Arg(args, arg).LString? then PackFrom(fmt, Scan(fmt, i).value.1, order, arg + 1, args, native)
            else Err(BadArgument(arg))
    ensures UnpackFrom(fmt, i, order, data, native) == Extend([], 1, UnpackFrom(fmt, Scan(fmt, i).value.1, order, data, native))
  {
    var j := Scan(fmt, i).value.1;
    assert fmt[i] != '\0';
    assert PackFrom(fmt, i, order, arg, args, native) == PackThen(fmt, FixedString(0), j, order, arg, args, native);
    if Arg(args, arg).LString? {
      var r := PackFrom(fmt, j, order, arg + 1, args, native);
      assert StringField(Arg(args, arg).bytes, 0) == [];
      if r.Ok? {
        assert [] + r.value == r.value;
      }
    }
    assert UnpackFrom(fmt, i, order, data, native) == UnpackThen(fmt, FixedString(0), j, order, data, native);
    assert data[0..] == data;
  }

  /** pack of a two-character format: a marker, then a directive for
      the single argument. */
  lemma PackMarkedField(fmt: string, args: seq<Value>, native: ByteOrder)
    requires |fmt| == 2 && (fmt[0] == '<' || fmt[0] == '>') && fmt[1] != 's' && Scan(fmt, 1).Ok?
    requires PackDirective(Scan(fmt, 1).value.0, MarkerOrder(fmt[0], native), native, args, FIRST_ARG).Ok?
    ensures PackSpec(fmt, args, native) ==
            PackDirective(Scan(fmt, 1).value.0, MarkerOrder(fmt[0], native), native, args, FIRST_ARG)
  {
    var d := Scan(fmt, 1).value.0;
    var o := MarkerOrder(fmt[0], native);
    MarkerTakesNoArgument(fmt, 0, native, FIRST_ARG, args, native);
    assert Scan(fmt, 1).value.1 == 2;
    assert PackFrom(fmt, 1, o, FIRST_ARG, args, native) == PackThen(fmt, d, 2, o, FIRST_ARG, args, native);
    assert PackFrom(fmt, 2, NextOrder(d, o, native), if TakesValue(d) then FIRST_ARG + 1 else FIRST_ARG,
                    args, native) == Ok([]);
    var b := PackDirective(d, o, native, args, FIRST_ARG).value;
    assert b + [] == b;
  }

  /** The byte order of a 16-bit field: > gives big-endian bytes only on a
      little-endian machine, because on a big-endian one swap16 swaps in
      both branches. */
  lemma BigShortQuirk(n: int, native: ByteOrder)
    ensures PackSpec(">h", [Integer(n)], native) ==
            Ok(if native == LittleEndian then Reverse(LittleEndianBytes(n, 2)) else LittleEndianBytes(n, 2))
  {
    ScanCases(">h", 1);
    PackMarkedField(">h", [Integer(n)], native);
  }

  /** < gives little-endian bytes for a 16-bit field on either machine. */
  lemma LittleShort(n: int, native: ByteOrder)
    ensures PackSpec("<h", [Integer(n)], native) == Ok(LittleEndianBytes(n, 2))
  {
    ScanCases("<h", 1);
    PackMarkedField("<h", [Integer(n)], native);
  }

  /** A 32-bit field follows > on either machine. */
  lemma BigInt(n: int, native: ByteOrder)
    ensures PackSpec(">i", [Integer(n)], native) == Ok(Reverse(LittleEndianBytes(n, 4)))
  {
    ScanCases(">i", 1);
    PackMarkedField(">i", [Integer(n)], native);
  }

  /** A 32-bit field follows < on either machine. */
  lemma LittleInt(n: int, native: ByteOrder)
    ensures PackSpec("<i", [Integer(n)], native) == Ok(LittleEndianBytes(n, 4))
  {
    ScanCases("<i", 1);
    PackMarkedField("<i", [Integer(n)], native);
  }
}
