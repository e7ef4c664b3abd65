/** What the codec sees of its Lua host: the values on the stack, the
    argument checks it calls, and the errors that abort a call. */
module Lua {
  import opened Bytes

  /** The ways a call is aborted with luaL_error. */
  datatype Error =
    | UnknownFormatChar(c: char)   // "unknown format character 'c'"
    | BadArgument(arg: int)        // a luaL_check* on stack slot arg failed
    | MoreBytesNeeded(needed: nat) // avail: "needed more byte(s) needed"

  datatype Result<+T> = Ok(value: T) | Err(error: Error) {
    predicate IsFailure() {
      Err?
    }

    function PropagateFailure<U>(): Result<U>
      requires Err?
    {
      Err(error)
    }

    function Extract(): T
      requires Ok?
    {
      value
    }
  }

  /** The Lua values the codec reads and produces.  A number handed to or
      produced by the f and d directives is represented by the bit pattern
      of its single- or double-precision form. */
  datatype Value =
    | Nil
    | Boolean(truth: bool)
    | Integer(n: int)
    | LString(bytes: seq<byte>)
    | SingleNumber(singleBits: bv32)
    | DoubleNumber(doubleBits: bv64)

  /** pack's first value is stack slot 2; slot 1 holds the format. */
  const FIRST_ARG: int := 2

  /** Stack slot arg; a slot past the top reads as nil. */
  function Arg(args: seq<Value>, arg: int): Value {
    if FIRST_ARG <= arg < FIRST_ARG + |args| then args[arg - FIRST_ARG] else Nil
  }

  /** luaL_checkinteger. */
  function CheckInteger(args: seq<Value>, arg: int): (r: Result<int>)
    ensures r.Ok? <==> Arg(args, arg).Integer?
    ensures r.Ok? ==> r.value == Arg(args, arg).n
    ensures r.Err? ==> r.error == BadArgument(arg)
  {
    match Arg(args, arg)
    case Integer(n) => Ok(n)
    case _ => Err(BadArgument(arg))
  }

  /** luaL_checklstring. */
  function CheckString(args: seq<Value>, arg: int): (r: Result<seq<byte>>)
    ensures r.Ok? <==> Arg(args, arg).LString?
    ensures r.Ok? ==> r.value == Arg(args, arg).bytes
    ensures r.Err? ==> r.error == BadArgument(arg)
  {
    match Arg(args, arg)
    case LString(s) => Ok(s)
    case _ => Err(BadArgument(arg))
  }

  /** luaL_checknumber, followed by the conversion to float. */
  function CheckSingle(args: seq<Value>, arg: int): (r: Result<bv32>)
    ensures r.Ok? <==> Arg(args, arg).SingleNumber?
    ensures r.Ok? ==> r.value == Arg(args, arg).singleBits
    ensures r.Err? ==> r.error == BadArgument(arg)
  {
    match Arg(args, arg)
    case SingleNumber(x) => Ok(x)
    case _ => Err(BadArgument(arg))
  }

  /** luaL_checknumber, as a double. */
  function CheckDouble(args: seq<Value>, arg: int): (r: Result<bv64>)
    ensures r.Ok? <==> Arg(args, arg).DoubleNumber?
    ensures r.Ok? ==> r.value == Arg(args, arg).doubleBits
    ensures r.Err? ==> r.error == BadArgument(arg)
  {
    match Arg(args, arg)
    case DoubleNumber(x) => Ok(x)
    case _ => Err(BadArgument(arg))
  }

  /** lua_toboolean: only nil (or an absent slot) and false are false. */
  function ToBoolean(v: Value): (r: bool)
    ensures !r <==> v == Nil || v == Boolean(false)
  {
    match v
    case Nil => false
    case Boolean(t) => t
    case _ => true
  }
}
