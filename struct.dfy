/** The three operations of the module, written as the C functions are:
    one pass over the format with a switch per character, the sticky byte
    order and the argument counter in local variables, and the output
    appended as it is produced.  Each is proved to compute its
    specification in module Codec. */
module Struct {
  import opened Bytes
  import opened Swap
  import opened Lua
  import opened Format
  import opened Codec
  import opened Cursor

  lemma PrependNothing(r: Result<seq<byte>>)
    ensures Prepend([], r) == r
  {
    if r.Ok? {
      assert [] + r.value == r.value;
    }
  }

  lemma PrependTwice(before: seq<byte>, b: seq<byte>, r: Result<seq<byte>>)
    ensures Prepend(before, Prepend(b, r)) == Prepend(before + b, r)
  {
    if r.Ok? {
      assert before + (b + r.value) == before + b + r.value;
    }
  }

  /** The bytes pack appends for the string str under sN (N = bytes): the
      first bytes bytes of str when it is long enough, otherwise all of str
      followed by one zero byte at a time up to bytes; nothing when bytes
      is 0. */
  method AddField(str: seq<byte>, bytes: nat) returns (field: seq<byte>)
    ensures field == StringField(str, bytes)
  {
    field := [];
    if bytes > 0 {
      if bytes <= |str| {
        field := str[..bytes];
      } else {
        field := str;
        var pad := bytes - |str|;
        while pad > 0
          invariant 0 <= pad <= bytes - |str|
          invariant field == str + seq(bytes - |str| - pad, _ => 0)
        {
          field := field + [0];
          pad := pad - 1;
        }
      }
    }
  }

  /** A pass of pack's switch at i does what PackDirective says of the
      directive there: it appends that directive's bytes or fails as it
      does, and leaves the format position on the directive's last
      character, the byte order as the directive sets it and the slot one
      short of the next value's (the loop then steps both). */
  ghost predicate MatchesPackDirective(fmt: string, i: nat, order: ByteOrder, slot: int, args: seq<Value>,
                                       native: ByteOrder, piece: Result<seq<byte>>, last: nat,
                                       byteorder: ByteOrder, arg: int)
    requires !AtEnd(fmt, i)
  {
    match Scan(fmt, i)
    case Err(e) => piece == Err(e)
    case Ok((d, j)) =>
      piece == PackDirective(d, order, native, args, slot) &&
      (piece.Ok? ==>
        last + 1 == j && byteorder == NextOrder(d, order, native) &&
        arg + 1 == (if TakesValue(d) then slot + 1 else slot))
  }

  /** The cases b and B: the integer argument cut to its low byte. */
  method PackByte(fmt: string, i: nat, order: ByteOrder, slot: int, args: seq<Value>, native: ByteOrder)
    returns (piece: Result<seq<byte>>, last: nat, byteorder: ByteOrder, arg: int)
    requires !AtEnd(fmt, i) && fmt[i] in "bB"
    ensures MatchesPackDirective(fmt, i, order, slot, args, native, piece, last, byteorder, arg)
  {
    last, byteorder, arg := i, order, slot;
    ghost var d := if fmt[i] == 'b' then SignedByte else UnsignedByte;
    ScanCases(fmt, i);
    var n :- CheckInteger(args, arg);
    piece := Ok([ToU8(n)]);
  }

  /** The cases f and d: the bit image of the number in the native order,
      with no swap. */
  method PackFloat(fmt: string, i: nat, order: ByteOrder, slot: int, args: seq<Value>, native: ByteOrder)
    returns (piece: Result<seq<byte>>, last: nat, byteorder: ByteOrder, arg: int)
    requires !AtEnd(fmt, i) && fmt[i] in "fd"
    ensures MatchesPackDirective(fmt, i, order, slot, args, native, piece, last, byteorder, arg)
  {
    last, byteorder, arg := i, order, slot;
    ScanCases(fmt, i);
    if fmt[i] == 'f' {
      var f :- CheckSingle(args, arg);
      piece := Ok(Image32(f, native));
    } else {
      var f :- CheckDouble(args, arg);
      piece := Ok(Image64(f, native));
    }
  }

  /** The case s: the length digits are read and the string argument is
      written as a field of exactly that many bytes. */
  method PackString(fmt: string, i: nat, order: ByteOrder, slot: int, args: seq<Value>, native: ByteOrder)
    returns (piece: Result<seq<byte>>, last: nat, byteorder: ByteOrder, arg: int)
    requires !AtEnd(fmt, i) && fmt[i] == 's'
    ensures MatchesPackDirective(fmt, i, order, slot, args, native, piece, last, byteorder, arg)
  {
    last, byteorder, arg := i, order, slot;
    var str :- CheckString(args, arg);
    var bytes;
    bytes, last := ReadLength(fmt, i);
    var field := AddField(str, bytes);
    assert Scan(fmt, i) == Ok((FixedString(bytes), last + 1));
    piece := Ok(field);
  }

  /** The cases h and H: the integer argument cut to 16 bits, passed
      through swap16 and written in the native order. */
  method PackShort(fmt: string, i: nat, order: ByteOrder, slot: int, args: seq<Value>, native: ByteOrder)
    returns (piece: Result<seq<byte>>, last: nat, byteorder: ByteOrder, arg: int)
    requires !AtEnd(fmt, i) && fmt[i] in "hH"
    ensures MatchesPackDirective(fmt, i, order, slot, args, native, piece, last, byteorder, arg)
  {
    last, byteorder, arg := i, order, slot;
    ghost var d := if fmt[i] == 'h' then Short else UnsignedShort;
    ScanCases(fmt, i);
    var n :- CheckInteger(args, arg);
    SwappedStore16(n, byteorder, native);
    assert PackDirective(d, order, native, args, slot) == Ok(InOrder(LittleEndianBytes(n, SIZEOF_SHORT), ShortOrder(order, native)));
    piece := Ok(Image16(Swap16(ToU16(n), byteorder, native), native));
  }

  /** The cases i and I: the integer argument cut to 32 bits, passed
      through swap32 and written in the native order. */
  method PackInt(fmt: string, i: nat, order: ByteOrder, slot: int, args: seq<Value>, native: ByteOrder)
    returns (piece: Result<seq<byte>>, last: nat, byteorder: ByteOrder, arg: int)
    requires !AtEnd(fmt, i) && fmt[i] in "iI"
    ensures MatchesPackDirective(fmt, i, order, slot, args, native, piece, last, byteorder, arg)
  {
    last, byteorder, arg := i, order, slot;
    ghost var d := if fmt[i] == 'i' then Int else UnsignedInt;
    ScanCases(fmt, i);
    var n :- CheckInteger(args, arg);
    SwappedStore32(n, byteorder, native);
    assert PackDirective(d, order, native, args, slot) == Ok(InOrder(LittleEndianBytes(n, SIZEOF_INT), order));
    piece := Ok(Image32(Swap32(ToU32(n), byteorder, native), native));
  }

  /** A pass of pack's switch at i agrees with PackFrom: it fails as pack
      does from i on, or the bytes it returns come first in what pack makes
      from i on, and the rest is what the directives after it make, from
      the slot after the one it leaves. */
  ghost predicate MatchesPackFrom(fmt: string, i: nat, order: ByteOrder, slot: int, args: seq<Value>,
                                  native: ByteOrder, piece: Result<seq<byte>>, last: nat,
                                  byteorder: ByteOrder, arg: int)
    requires !AtEnd(fmt, i)
  {
    (piece.Err? ==> PackFrom(fmt, i, order, slot, args, native) == Err(piece.error)) &&
    (piece.Ok? ==>
      i <= last < |fmt| && slot - 1 <= arg <= slot &&
      PackFrom(fmt, i, order, slot, args, native) ==
        Prepend(piece.value, PackFrom(fmt, last + 1, byteorder, arg + 1, args, native)))
  }

  lemma PackStep(fmt: string, i: nat, order: ByteOrder, slot: int, args: seq<Value>,
                 native: ByteOrder, piece: Result<seq<byte>>, last: nat, byteorder: ByteOrder, arg: int)
    requires !AtEnd(fmt, i)
    requires MatchesPackDirective(fmt, i, order, slot, args, native, piece, last, byteorder, arg)
    ensures MatchesPackFrom(fmt, i, order, slot, args, native, piece, last, byteorder, arg)
  {
  }

  /** One pass of pack's switch, for the character at position i with the
      byte order order in force and the next value in stack slot slot. */
  method PackItem(fmt: string, i: nat, order: ByteOrder, slot: int, args: seq<Value>, native: ByteOrder)
    returns (piece: Result<seq<byte>>, last: nat, byteorder: ByteOrder, arg: int)
    requires !AtEnd(fmt, i)
    ensures MatchesPackFrom(fmt, i, order, slot, args, native, piece, last, byteorder, arg)
  {
    last, byteorder, arg := i, order, slot;
    match fmt[i] {
      case '<' =>
        byteorder := LittleEndian;
        arg := arg - 1;
        piece := Ok([]);
      case '>' =>
        byteorder := BigEndian;
        arg := arg - 1;
        piece := Ok([]);
      case '@' =>
        byteorder := native;
        arg := arg - 1;
        piece := Ok([]);
      case 'x' =>
        arg := arg - 1;
        piece := Ok([0]);
      case 'b' | 'B' =>
        piece, last, byteorder, arg := PackByte(fmt, i, order, slot, args, native);
      case 'f' | 'd' =>
        piece, last, byteorder, arg := PackFloat(fmt, i, order, slot, args, native);
      case '?' =>
        piece := Ok([if ToBoolean(Arg(args, arg)) then 1 else 0]);
      case 's' =>
        piece, last, byteorder, arg := PackString(fmt, i, order, slot, args, native);
      case 'h' | 'H' =>
        piece, last, byteorder, arg := PackShort(fmt, i, order, slot, args, native);
      case 'i' | 'I' =>
        piece, last, byteorder, arg := PackInt(fmt, i, order, slot, args, native);
      case _ =>
        piece := Err(UnknownFormatChar(fmt[i]));
    }
    PackStep(fmt, i, order, slot, args, native, piece, last, byteorder, arg);
  }

  /** buf is what pack has appended when its walk has reached format
      position i with byte order order in force and the next value in
      stack slot arg: what the whole walk makes is buf followed by what the
      walk makes from there. */
  ghost predicate PackedUpTo(fmt: string, args: seq<Value>, native: ByteOrder,
                             buf: seq<byte>, i: nat, order: ByteOrder, arg: int)
  {
    i <= |fmt| && PackSpec(fmt, args, native) == Prepend(buf, PackFrom(fmt, i, order, arg, args, native))
  }

  /** pack: the byte string that the format makes of the arguments. */
  method Pack(fmt: string, args: seq<Value>, native: ByteOrder) returns (r: Result<seq<byte>>)
    ensures r == PackSpec(fmt, args, native)
  {
    var arg: int := FIRST_ARG;
    var byteorder := native;
    var buf: seq<byte> := [];
    var i: nat := 0;
    PrependNothing(PackSpec(fmt, args, native));
    while !AtEnd(fmt, i)
      invariant PackedUpTo(fmt, args, native, buf, i, byteorder, arg)
      decreases |fmt| - i
    {
      var piece, last, order, slot := PackItem(fmt, i, byteorder, arg, args, native);
      if piece.Err? {
        return Err(piece.error);
      }
      PrependTwice(buf, piece.value, PackFrom(fmt, last + 1, order, slot + 1, args, native));
      buf := buf + piece.value;
      byteorder, arg := order, slot + 1;
      i := last + 1;
    }
    assert buf + [] == buf;
    return Ok(buf);
  }

  lemma ExtendNothing(r: Result<Unpacked>)
    ensures Extend([], 0, r) == r
  {
    if r.Ok? {
      assert [] + r.value.values == r.value.values;
    }
  }

  lemma ExtendTwice(values: seq<Value>, count: nat, vs: seq<Value>, c: nat, r: Result<Unpacked>)
    ensures Extend(values, count, Extend(vs, c, r)) == Extend(values + vs, count + c, r)
  {
    if r.Ok? {
      assert values + (vs + r.value.values) == values + vs + r.value.values;
    }
  }

  /** A pass of unpack's switch at i agrees with UnpackFrom: it fails as
      unpack does from i on, or what it pushes and counts comes first in
      what unpack yields from i on, and the rest is what the directives
      after it yield from the bytes it leaves.  pushed is what the pass
      pushes (or the error it raises), data and rest the bytes left before
      and after it, and last, byteorder and arg the format position, byte
      order and count as the switch leaves them; the loop then steps the
      position and the count. */
  ghost predicate MatchesUnpackFrom(fmt: string, i: nat, order: ByteOrder, slot: int, native: ByteOrder,
                        data: seq<byte>, pushed: Result<seq<Value>>, rest: seq<byte>,
                        last: nat, byteorder: ByteOrder, arg: int)
    requires !AtEnd(fmt, i)
  {
    (pushed.Err? ==> UnpackFrom(fmt, i, order, data, native) == Err(pushed.error)) &&
    (pushed.Ok? ==>
      i < last + 1 <= |fmt| && slot - 1 <= arg <= slot &&
      UnpackFrom(fmt, i, order, data, native) ==
        Extend(pushed.value, arg + 1 - slot, UnpackFrom(fmt, last + 1, byteorder, rest, native)))
  }

  /** The cases <, > and @: the byte order changes, nothing is read,
      pushed or counted. */
  ghost predicate MarkerCase(fmt: string, i: nat, order: ByteOrder, slot: int, native: ByteOrder,
                        data: seq<byte>, pushed: Result<seq<Value>>, rest: seq<byte>,
                        last: nat, byteorder: ByteOrder, arg: int)
    requires !AtEnd(fmt, i) && fmt[i] in "<>@"
  {
    pushed == Ok([]) && rest == data && last == i && arg == slot - 1 &&
    byteorder == match fmt[i] case '<' => LittleEndian case '>' => BigEndian case _ => native
  }

  lemma MarkerCaseMeaning(fmt: string, i: nat, order: ByteOrder, slot: int, native: ByteOrder,
                        data: seq<byte>, pushed: Result<seq<Value>>, rest: seq<byte>,
                        last: nat, byteorder: ByteOrder, arg: int)
    requires !AtEnd(fmt, i) && fmt[i] in "<>@"
    requires MarkerCase(fmt, i, order, slot, native, data, pushed, rest, last, byteorder, arg)
    ensures MatchesUnpackFrom(fmt, i, order, slot, native, data, pushed, rest, last, byteorder, arg)
  {
    ScanCases(fmt, i);
  }

  /** The cases x, b, B and ?: avail takes one byte, which x skips (and is
      not counted), b and B push as a signed or unsigned integer and ?
      pushes as whether it is non-zero. */
  ghost predicate ByteCase(fmt: string, i: nat, order: ByteOrder, slot: int, native: ByteOrder,
                        data: seq<byte>, pushed: Result<seq<Value>>, rest: seq<byte>,
                        last: nat, byteorder: ByteOrder, arg: int)
    requires !AtEnd(fmt, i) && fmt[i] in "xbB?"
  {
    last == i && byteorder == order &&
    if |data| < 1 then pushed == Err(MoreBytesNeeded(1))
    else
      rest == data[1..] &&
      match fmt[i]
      case 'x' => pushed == Ok([]) && arg == slot - 1
      case 'b' => pushed == Ok([Integer(Signed8(data[0]))]) && arg == slot
      case 'B' => pushed == Ok([Integer(data[0] as int)]) && arg == slot
      case _ => pushed == Ok([Boolean(data[0] != 0)]) && arg == slot
  }

  method UnpackByte(fmt: string, i: nat, order: ByteOrder, slot: int, cursor: Cursor, native: ByteOrder)
    returns (pushed: Result<seq<Value>>, last: nat, byteorder: ByteOrder, arg: int)
    requires !AtEnd(fmt, i) && cursor.Valid() && fmt[i] in "xbB?"
    modifies cursor
    ensures cursor.Valid()
    ensures ByteCase(fmt, i, order, slot, native, old(cursor.Remaining()), pushed,
                   cursor.Remaining(), last, byteorder, arg)
  {
    last, byteorder, arg := i, order, slot;
    var p :- cursor.Avail(1);
    match fmt[i] {
      case 'x' =>
        arg := arg - 1;
        pushed := Ok([]);
      case 'b' =>
        pushed := Ok([Integer(Signed8(cursor.buffer[p]))]);
      case 'B' =>
        pushed := Ok([Integer(cursor.buffer[p] as int)]);
      case '?' =>
        pushed := Ok([Boolean(cursor.buffer[p] != 0)]);
    }
  }

  lemma ByteCaseMeaning(fmt: string, i: nat, order: ByteOrder, slot: int, native: ByteOrder,
                        data: seq<byte>, pushed: Result<seq<Value>>, rest: seq<byte>,
                        last: nat, byteorder: ByteOrder, arg: int)
    requires !AtEnd(fmt, i) && fmt[i] in "xbB?"
    requires ByteCase(fmt, i, order, slot, native, data, pushed, rest, last, byteorder, arg)
    ensures MatchesUnpackFrom(fmt, i, order, slot, native, data, pushed, rest, last, byteorder, arg)
  {
    ScanCases(fmt, i);
  }

  /** The cases f and d: avail takes a float or a double, which is pushed
      as read in the native order, with no swap. */
  ghost predicate FloatCase(fmt: string, i: nat, order: ByteOrder, slot: int, native: ByteOrder,
                        data: seq<byte>, pushed: Result<seq<Value>>, rest: seq<byte>,
                        last: nat, byteorder: ByteOrder, arg: int)
    requires !AtEnd(fmt, i) && fmt[i] in "fd"
  {
    last == i && byteorder == order && arg == slot &&
    if fmt[i] == 'f' then
      if |data| < SIZEOF_FLOAT then pushed == Err(MoreBytesNeeded(SIZEOF_FLOAT))
      else pushed == Ok([SingleNumber(Load32(data[..SIZEOF_FLOAT], native))]) && rest == data[SIZEOF_FLOAT..]
    else
      if |data| < SIZEOF_DOUBLE then pushed == Err(MoreBytesNeeded(SIZEOF_DOUBLE))
      else pushed == Ok([DoubleNumber(Load64(data[..SIZEOF_DOUBLE], native))]) && rest == data[SIZEOF_DOUBLE..]
  }

  method UnpackFloat(fmt: string, i: nat, order: ByteOrder, slot: int, cursor: Cursor, native: ByteOrder)
    returns (pushed: Result<seq<Value>>, last: nat, byteorder: ByteOrder, arg: int)
    requires !AtEnd(fmt, i) && cursor.Valid() && fmt[i] in "fd"
    modifies cursor
    ensures cursor.Valid()
    ensures FloatCase(fmt, i, order, slot, native, old(cursor.Remaining()), pushed,
                   cursor.Remaining(), last, byteorder, arg)
  {
    last, byteorder, arg := i, order, slot;
    if fmt[i] == 'f' {
      var p :- cursor.Avail(SIZEOF_FLOAT);
      pushed := Ok([SingleNumber(Load32(cursor.buffer[p..p + SIZEOF_FLOAT], native))]);
    } else {
      var p :- cursor.Avail(SIZEOF_DOUBLE);
      pushed := Ok([DoubleNumber(Load64(cursor.buffer[p..p + SIZEOF_DOUBLE], native))]);
    }
  }

  lemma FloatCaseMeaning(fmt: string, i: nat, order: ByteOrder, slot: int, native: ByteOrder,
                        data: seq<byte>, pushed: Result<seq<Value>>, rest: seq<byte>,
                        last: nat, byteorder: ByteOrder, arg: int)
    requires !AtEnd(fmt, i) && fmt[i] in "fd"
    requires FloatCase(fmt, i, order, slot, native, data, pushed, rest, last, byteorder, arg)
    ensures MatchesUnpackFrom(fmt, i, order, slot, native, data, pushed, rest, last, byteorder, arg)
  {
    ScanCases(fmt, i);
  }

  /** The case s: the length digits after it are read; a string of that
      many bytes is taken through avail and pushed, unless the length is 0,
      which reads and pushes nothing but is still counted. */
  ghost predicate StringCase(fmt: string, i: nat, order: ByteOrder, slot: int, native: ByteOrder,
                        data: seq<byte>, pushed: Result<seq<Value>>, rest: seq<byte>,
                        last: nat, byteorder: ByteOrder, arg: int)
    requires !AtEnd(fmt, i) && fmt[i] == 's'
  {
    i < last + 1 <= |fmt| && last + 1 == DigitRunEnd(fmt, i + 1) && AllDigits(fmt[i + 1..last + 1]) &&
    byteorder == order && arg == slot &&
    var n := DecimalValue(fmt[i + 1..last + 1]);
    if n == 0 then pushed == Ok([]) && rest == data
    else if |data| < n then pushed == Err(MoreBytesNeeded(n))
    else pushed == Ok([LString(data[..n])]) && rest == data[n..]
  }

  method UnpackString(fmt: string, i: nat, order: ByteOrder, slot: int, cursor: Cursor, native: ByteOrder)
    returns (pushed: Result<seq<Value>>, last: nat, byteorder: ByteOrder, arg: int)
    requires !AtEnd(fmt, i) && cursor.Valid() && fmt[i] == 's'
    modifies cursor
    ensures cursor.Valid()
    ensures StringCase(fmt, i, order, slot, native, old(cursor.Remaining()), pushed,
                   cursor.Remaining(), last, byteorder, arg)
  {
    byteorder, arg := order, slot;
    var bytes;
    bytes, last := ReadLength(fmt, i);
    pushed := Ok([]);
    if bytes > 0 {
      var p :- cursor.Avail(bytes);
      pushed := Ok([LString(cursor.buffer[p..p + bytes])]);
    }
  }

  lemma StringCaseMeaning(fmt: string, i: nat, order: ByteOrder, slot: int, native: ByteOrder,
                        data: seq<byte>, pushed: Result<seq<Value>>, rest: seq<byte>,
                        last: nat, byteorder: ByteOrder, arg: int)
    requires !AtEnd(fmt, i) && fmt[i] in "s"
    requires StringCase(fmt, i, order, slot, native, data, pushed, rest, last, byteorder, arg)
    ensures MatchesUnpackFrom(fmt, i, order, slot, native, data, pushed, rest, last, byteorder, arg)
  {
  }

  /** The cases h and H: avail takes a short, which is read in the native
      order, passed through swap16 and pushed as a signed or unsigned
      16-bit integer. */
  ghost predicate ShortCase(fmt: string, i: nat, order: ByteOrder, slot: int, native: ByteOrder,
                        data: seq<byte>, pushed: Result<seq<Value>>, rest: seq<byte>,
                        last: nat, byteorder: ByteOrder, arg: int)
    requires !AtEnd(fmt, i) && fmt[i] in "hH"
  {
    last == i && byteorder == order && arg == slot &&
    if |data| < SIZEOF_SHORT then pushed == Err(MoreBytesNeeded(SIZEOF_SHORT))
    else
      rest == data[SIZEOF_SHORT..] &&
      var b := InOrder(data[..SIZEOF_SHORT], ShortOrder(order, native));
      pushed == Ok([Integer(if fmt[i] == 'h' then Signed(b) else Unsigned(b))])
  }

  method UnpackShort(fmt: string, i: nat, order: ByteOrder, slot: int, cursor: Cursor, native: ByteOrder)
    returns (pushed: Result<seq<Value>>, last: nat, byteorder: ByteOrder, arg: int)
    requires !AtEnd(fmt, i) && cursor.Valid() && fmt[i] in "hH"
    modifies cursor
    ensures cursor.Valid()
    ensures ShortCase(fmt, i, order, slot, native, old(cursor.Remaining()), pushed,
                   cursor.Remaining(), last, byteorder, arg)
  {
    last, byteorder, arg := i, order, slot;
    if fmt[i] == 'h' {
      var p :- cursor.Avail(SIZEOF_SHORT);
      SwappedLoad16(cursor.buffer[p..p + SIZEOF_SHORT], byteorder, native);
      pushed := Ok([Integer(Signed16(Swap16(Load16(cursor.buffer[p..p + SIZEOF_SHORT], native), byteorder, native)))]);
    } else {
      var p :- cursor.Avail(SIZEOF_SHORT);
      SwappedLoad16(cursor.buffer[p..p + SIZEOF_SHORT], byteorder, native);
      pushed := Ok([Integer(Unsigned16(Swap16(Load16(cursor.buffer[p..p + SIZEOF_SHORT], native), byteorder, native)))]);
    }
  }

  lemma ShortCaseMeaning(fmt: string, i: nat, order: ByteOrder, slot: int, native: ByteOrder,
                        data: seq<byte>, pushed: Result<seq<Value>>, rest: seq<byte>,
                        last: nat, byteorder: ByteOrder, arg: int)
    requires !AtEnd(fmt, i) && fmt[i] in "hH"
    requires ShortCase(fmt, i, order, slot, native, data, pushed, rest, last, byteorder, arg)
    ensures MatchesUnpackFrom(fmt, i, order, slot, native, data, pushed, rest, last, byteorder, arg)
  {
    var d := if fmt[i] == 'h' then Short else UnsignedShort;
    ScanCases(fmt, i);
    if |data| >= SIZEOF_SHORT {
      assert Decode(d, order, native, data[..SIZEOF_SHORT]) == pushed.value;
    }
  }

  /** The cases i and I: avail takes an int, which is read in the native
      order, passed through swap32 and pushed as a signed or unsigned
      32-bit integer. */
  ghost predicate IntCase(fmt: string, i: nat, order: ByteOrder, slot: int, native: ByteOrder,
                        data: seq<byte>, pushed: Result<seq<Value>>, rest: seq<byte>,
                        last: nat, byteorder: ByteOrder, arg: int)
    requires !AtEnd(fmt, i) && fmt[i] in "iI"
  {
    last == i && byteorder == order && arg == slot &&
    if |data| < SIZEOF_INT then pushed == Err(MoreBytesNeeded(SIZEOF_INT))
    else
      rest == data[SIZEOF_INT..] &&
      var b := InOrder(data[..SIZEOF_INT], order);
      pushed == Ok([Integer(if fmt[i] == 'i' then Signed(b) else Unsigned(b))])
  }

  method UnpackInt(fmt: string, i: nat, order: ByteOrder, slot: int, cursor: Cursor, native: ByteOrder)
    returns (pushed: Result<seq<Value>>, last: nat, byteorder: ByteOrder, arg: int)
    requires !AtEnd(fmt, i) && cursor.Valid() && fmt[i] in "iI"
    modifies cursor
    ensures cursor.Valid()
    ensures IntCase(fmt, i, order, slot, native, old(cursor.Remaining()), pushed,
                   cursor.Remaining(), last, byteorder, arg)
  {
    last, byteorder, arg := i, order, slot;
    if fmt[i] == 'i' {
      var p :- cursor.Avail(SIZEOF_INT);
      SwappedLoad32(cursor.buffer[p..p + SIZEOF_INT], byteorder, native);
      pushed := Ok([Integer(Signed32(Swap32(Load32(cursor.buffer[p..p + SIZEOF_INT], native), byteorder, native)))]);
    } else {
      var p :- cursor.Avail(SIZEOF_INT);
      SwappedLoad32(cursor.buffer[p..p + SIZEOF_INT], byteorder, native);
      pushed := Ok([Integer(Unsigned32(Swap32(Load32(cursor.buffer[p..p + SIZEOF_INT], native), byteorder, native)))]);
    }
  }

  lemma IntCaseMeaning(fmt: string, i: nat, order: ByteOrder, slot: int, native: ByteOrder,
                        data: seq<byte>, pushed: Result<seq<Value>>, rest: seq<byte>,
                        last: nat, byteorder: ByteOrder, arg: int)
    requires !AtEnd(fmt, i) && fmt[i] in "iI"
    requires IntCase(fmt, i, order, slot, native, data, pushed, rest, last, byteorder, arg)
    ensures MatchesUnpackFrom(fmt, i, order, slot, native, data, pushed, rest, last, byteorder, arg)
  {
    var d := if fmt[i] == 'i' then Int else UnsignedInt;
    ScanCases(fmt, i);
    if |data| >= SIZEOF_INT {
      assert Decode(d, order, native, data[..SIZEOF_INT]) == pushed.value;
    }
  }

  /** One pass of unpack's switch: the values it pushes (none or one) are
      read through avail from the cursor, which moves past them. */
  method UnpackItem(fmt: string, i: nat, order: ByteOrder, slot: int, cursor: Cursor, native: ByteOrder)
    returns (pushed: Result<seq<Value>>, last: nat, byteorder: ByteOrder, arg: int)
    requires !AtEnd(fmt, i) && cursor.Valid()
    modifies cursor
    ensures cursor.Valid()
    ensures MatchesUnpackFrom(fmt, i, order, slot, native, old(cursor.Remaining()), pushed,
                              cursor.Remaining(), last, byteorder, arg)
  {
    ghost var data := cursor.Remaining();
    last, byteorder, arg := i, order, slot;
    match fmt[i] {
      case '<' =>
        byteorder := LittleEndian;
        arg := arg - 1;
        pushed := Ok([]);
        MarkerCaseMeaning(fmt, i, order, slot, native, data, pushed, cursor.Remaining(), last, byteorder, arg);
      case '>' =>
        byteorder := BigEndian;
        arg := arg - 1;
        pushed := Ok([]);
        MarkerCaseMeaning(fmt, i, order, slot, native, data, pushed, cursor.Remaining(), last, byteorder, arg);
      case '@' =>
        byteorder := native;
        arg := arg - 1;
        pushed := Ok([]);
        MarkerCaseMeaning(fmt, i, order, slot, native, data, pushed, cursor.Remaining(), last, byteorder, arg);
      case 'x' | 'b' | 'B' | '?' =>
        pushed, last, byteorder, arg := UnpackByte(fmt, i, order, slot, cursor, native);
        ByteCaseMeaning(fmt, i, order, slot, native, data, pushed, cursor.Remaining(), last, byteorder, arg);
      case 'f' | 'd' =>
        pushed, last, byteorder, arg := UnpackFloat(fmt, i, order, slot, cursor, native);
        FloatCaseMeaning(fmt, i, order, slot, native, data, pushed, cursor.Remaining(), last, byteorder, arg);
      case 's' =>
        pushed, last, byteorder, arg := UnpackString(fmt, i, order, slot, cursor, native);
        StringCaseMeaning(fmt, i, order, slot, native, data, pushed, cursor.Remaining(), last, byteorder, arg);
      case 'h' | 'H' =>
        pushed, last, byteorder, arg := UnpackShort(fmt, i, order, slot, cursor, native);
        ShortCaseMeaning(fmt, i, order, slot, native, data, pushed, cursor.Remaining(), last, byteorder, arg);
      case 'i' | 'I' =>
        pushed, last, byteorder, arg := UnpackInt(fmt, i, order, slot, cursor, native);
        IntCaseMeaning(fmt, i, order, slot, native, data, pushed, cursor.Remaining(), last, byteorder, arg);
      case _ =>
        pushed := Err(UnknownFormatChar(fmt[i]));
    }
  }

  /** values and count are what unpack has pushed and counted when its
      walk has reached format position i with byte order order in force
      and rest the bytes left: what the whole walk yields is those followed
      by what the walk yields from there. */
  ghost predicate UnpackedUpTo(fmt: string, data: seq<byte>, native: ByteOrder, values: seq<Value>,
                               count: nat, i: nat, order: ByteOrder, rest: seq<byte>)
  {
    i <= |fmt| &&
    UnpackSpec(fmt, data, native) == Extend(values, count, UnpackFrom(fmt, i, order, rest, native))
  }

  /** unpack: the values the format reads from data, and the count it
      returns. */
  method Unpack(fmt: string, data: seq<byte>, native: ByteOrder) returns (r: Result<Unpacked>)
    ensures r == UnpackSpec(fmt, data, native)
  {
    var cursor := new Cursor(data);
    var byteorder := native;
    var values: seq<Value> := [];
    var arg: nat := 0;
    var i: nat := 0;
    ExtendNothing(UnpackSpec(fmt, data, native));
    while !AtEnd(fmt, i)
      invariant cursor.Valid()
      invariant UnpackedUpTo(fmt, data, native, values, arg, i, byteorder, cursor.Remaining())
      decreases |fmt| - i
    {
      var pushed, last, order, slot := UnpackItem(fmt, i, byteorder, arg, cursor, native);
      if pushed.Err? {
        return Err(pushed.error);
      }
      ExtendTwice(values, arg, pushed.value, slot + 1 - arg,
                  UnpackFrom(fmt, last + 1, order, cursor.Remaining(), native));
      values := values + pushed.value;
      byteorder, arg := order, slot + 1;
      i := last + 1;
    }
    assert values + [] == values;
    return Ok(Unpacked(values, arg));
  }

  // ---------------------------------------------------------------- size

  /** A pass of size's switch at i does what SizeFrom says of the directive
      there: it fails on a character outside the codec's set and on x and
      ?, and otherwise adds the directive's width and leaves the format
      position on its last character. */
  ghost predicate MatchesSizeDirective(fmt: string, i: nat, piece: Result<nat>, last: nat)
    requires !AtEnd(fmt, i)
  {
    match Scan(fmt, i)
    case Err(e) => piece == Err(e)
    case Ok((d, j)) =>
      if d.Pad? || d.Bool? then piece == Err(UnknownFormatChar(fmt[i]))
      else piece == Ok(Width(d)) && last + 1 == j
  }

  /** A pass that does what its directive says fails as size does from i
      on, or adds the first bytes of the size from i on. */
  lemma SizeStep(fmt: string, i: nat, piece: Result<nat>, last: nat)
    requires !AtEnd(fmt, i)
    requires MatchesSizeDirective(fmt, i, piece, last)
    ensures piece.Err? ==> SizeFrom(fmt, i) == Err(piece.error)
    ensures piece.Ok? ==> i <= last < |fmt| && SizeFrom(fmt, i) == Plus(piece.value, SizeFrom(fmt, last + 1))
  {
  }

  /** One pass of size's switch: the bytes the directive at i adds, and
      the position of its last character.  x and ? fall to the default
      case with every other unknown character. */
  method SizeItem(fmt: string, i: nat) returns (piece: Result<nat>, last: nat)
    requires !AtEnd(fmt, i)
    ensures piece.Err? ==> SizeFrom(fmt, i) == Err(piece.error)
    ensures piece.Ok? ==> i <= last < |fmt| && SizeFrom(fmt, i) == Plus(piece.value, SizeFrom(fmt, last + 1))
  {
    last := i;
    match fmt[i] {
      case '@' | '<' | '>' =>
        piece := Ok(0);
      case 'b' | 'B' =>
        piece := Ok(1);
      case 'h' | 'H' =>
        piece := Ok(SIZEOF_SHORT);
      case 'i' | 'I' =>
        piece := Ok(SIZEOF_INT);
      case 'f' =>
        piece := Ok(SIZEOF_FLOAT);
      case 'd' =>
        piece := Ok(SIZEOF_DOUBLE);
      case 's' =>
        var b;
        b, last := ReadLength(fmt, i);
        piece := Ok(b);
      case _ =>
        piece := Err(UnknownFormatChar(fmt[i]));
    }
    SizeStep(fmt, i, piece, last);
  }

  /** bytes is what size has summed when its walk has reached format
      position i. */
  ghost predicate SizedUpTo(fmt: string, bytes: nat, i: nat) {
    i <= |fmt| && SizeSpec(fmt) == Plus(bytes, SizeFrom(fmt, i))
  }

  /** size: the number of bytes pack makes of the format. */
  method Size(fmt: string) returns (r: Result<nat>)
    ensures r == SizeSpec(fmt)
  {
    var bytes: nat := 0;
    var i: nat := 0;
    while !AtEnd(fmt, i)
      invariant SizedUpTo(fmt, bytes, i)
      decreases |fmt| - i
    {
      var piece, last := SizeItem(fmt, i);
      if piece.Err? {
        return Err(piece.error);
      }
      PlusTwice(bytes, piece.value, SizeFrom(fmt, last + 1));
      bytes := bytes + piece.value;
      i := last + 1;
    }
    return Ok(bytes);
  }

  lemma PlusTwice(bytes: nat, n: nat, r: Result<nat>)
    ensures Plus(bytes, Plus(n, r)) == Plus(bytes + n, r)
  {
  }
}
