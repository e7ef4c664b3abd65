/** The format mini-language: one character per directive, and a decimal
    length after s.  pack, unpack and size read it left to right without a
    separate tokenising pass; Scan and Tokenize here describe what each of
    their switch statements recognises. */
module Format {
  import opened Lua

  datatype Directive =
    | LittleOrder             // <
    | BigOrder                // >
    | NativeOrder             // @
    | Pad                     // x
    | SignedByte              // b
    | UnsignedByte            // B
    | Float                   // f
    | Double                  // d
    | Bool                    // ?
    | FixedString(length: nat) // s followed by optional digits
    | Short                   // h
    | UnsignedShort           // H
    | Int                     // i
    | UnsignedInt             // I

  /** The characters published as the module's formatchars. */
  const FORMAT_CHARS: string := "@<>bBhHiIfds"

  /** The characters that pack and unpack accept. */
  const CODEC_CHARS: string := FORMAT_CHARS + "x?"

  /** The walk stops at the end of the string or at its first NUL, where
      the C string ends. */
  predicate AtEnd(fmt: string, i: nat) {
    i >= |fmt| || fmt[i] == '\0'
  }

  predicate IsDigit(c: char) {
    '0' <= c <= '9'
  }

  predicate AllDigits(s: string) {
    forall k :: 0 <= k < |s| ==> IsDigit(s[k])
  }

  /** The number a string of decimal digits denotes, read most significant
      digit first. */
  function DecimalValue(s: string): (r: nat)
    requires AllDigits(s)
    ensures s == [] ==> r == 0
  {
    if s == [] then 0 else DecimalValue(s[..|s| - 1]) * 10 + (s[|s| - 1] as int - '0' as int)
  }

  /** The end of the maximal run of digits that starts at i. */
  function DigitRunEnd(fmt: string, i: nat): (j: nat)
    requires i <= |fmt|
    ensures i <= j <= |fmt|
    ensures forall k :: i <= k < j ==> IsDigit(fmt[k])
    ensures j == |fmt| || !IsDigit(fmt[j])
    decreases |fmt| - i
  {
    if i < |fmt| && IsDigit(fmt[i]) then DigitRunEnd(fmt, i + 1) else i
  }

  /** The directive that starts at position i and the position after it. */
  function Scan(fmt: string, i: nat): (r: Result<(Directive, nat)>)
    requires i < |fmt|
    ensures r.Err? ==> r.error == UnknownFormatChar(fmt[i])
    ensures r.Ok? ==> i < r.value.1 <= |fmt|
    ensures r.Ok? && fmt[i] != 's' ==> r.value.1 == i + 1 && !r.value.0.FixedString?
    ensures r.Ok? && fmt[i] == 's' ==> r.value.0.FixedString? && r.value.1 == DigitRunEnd(fmt, i + 1)
  {
    match fmt[i]
    case '<' => Ok((LittleOrder, i + 1))
    case '>' => Ok((BigOrder, i + 1))
    case '@' => Ok((NativeOrder, i + 1))
    case 'x' => Ok((Pad, i + 1))
    case 'b' => Ok((SignedByte, i + 1))
    case 'B' => Ok((UnsignedByte, i + 1))
    case 'f' => Ok((Float, i + 1))
    case 'd' => Ok((Double, i + 1))
    case '?' => Ok((Bool, i + 1))
    case 's' =>
      var j := DigitRunEnd(fmt, i + 1);
      Ok((FixedString(DecimalValue(fmt[i + 1..j])), j))
    case 'h' => Ok((Short, i + 1))
    case 'H' => Ok((UnsignedShort, i + 1))
    case 'i' => Ok((Int, i + 1))
    case 'I' => Ok((UnsignedInt, i + 1))
    case _ => Err(UnknownFormatChar(fmt[i]))
  }

  /** Scan on each single-character directive. */
  lemma ScanCases(fmt: string, i: nat)
    requires i < |fmt|
    ensures fmt[i] == '<' ==> Scan(fmt, i) == Ok((LittleOrder, i + 1))
    ensures fmt[i] == '>' ==> Scan(fmt, i) == Ok((BigOrder, i + 1))
    ensures fmt[i] == '@' ==> Scan(fmt, i) == Ok((NativeOrder, i + 1))
    ensures fmt[i] == 'x' ==> Scan(fmt, i) == Ok((Pad, i + 1))
    ensures fmt[i] == 'b' ==> Scan(fmt, i) == Ok((SignedByte, i + 1))
    ensures fmt[i] == 'B' ==> Scan(fmt, i) == Ok((UnsignedByte, i + 1))
    ensures fmt[i] == 'f' ==> Scan(fmt, i) == Ok((Float, i + 1))
    ensures fmt[i] == 'd' ==> Scan(fmt, i) == Ok((Double, i + 1))
    ensures fmt[i] == '?' ==> Scan(fmt, i) == Ok((Bool, i + 1))
    ensures fmt[i] == 'h' ==> Scan(fmt, i) == Ok((Short, i + 1))
    ensures fmt[i] == 'H' ==> Scan(fmt, i) == Ok((UnsignedShort, i + 1))
    ensures fmt[i] == 'i' ==> Scan(fmt, i) == Ok((Int, i + 1))
    ensures fmt[i] == 'I' ==> Scan(fmt, i) == Ok((UnsignedInt, i + 1))
  {
  }

  /** The characters that start a directive are exactly the codec's set. */
  lemma ScanAccepts(fmt: string, i: nat)
    requires i < |fmt|
    ensures Scan(fmt, i).Ok? <==> fmt[i] in CODEC_CHARS
  {
  }

  /** The length digits after an s at position s, read the way the three
      copies of the C loop read them: on return last is the position of
      the last digit (s itself when there is none), so that the caller's
      step to the next character lands just after the run. */
  method ReadLength(fmt: string, s: nat) returns (bytes: nat, last: nat)
    requires s < |fmt|
    ensures s <= last < |fmt|
    ensures last + 1 == DigitRunEnd(fmt, s + 1)
    ensures AllDigits(fmt[s + 1..last + 1])
    ensures bytes == DecimalValue(fmt[s + 1..last + 1])
  {
    bytes := 0;
    var p := s + 1;
    while p < |fmt| && IsDigit(fmt[p])
      invariant s + 1 <= p <= |fmt|
      invariant forall k :: s + 1 <= k < p ==> IsDigit(fmt[k])
      invariant bytes == DecimalValue(fmt[s + 1..p])
    {
      assert fmt[s + 1..p + 1][..p - s - 1] == fmt[s + 1..p];
      bytes := bytes * 10 + (fmt[p] as int - '0' as int);
      p := p + 1;
    }
    last := p - 1;
  }

  /** The whole directive sequence, or the first unknown character. */
  function TokenizeFrom(fmt: string, i: nat): (r: Result<seq<Directive>>)
    decreases |fmt| - i
  {
    if AtEnd(fmt, i) then Ok([])
    else
      match Scan(fmt, i)
      case Err(e) => Err(e)
      case Ok((d, j)) =>
        match TokenizeFrom(fmt, j)
        case Err(e) => Err(e)
        case Ok(ds) => Ok([d] + ds)
  }

  function Tokenize(fmt: string): Result<seq<Directive>> {
    TokenizeFrom(fmt, 0)
  }

  /** When tokenizing fails it names a character of the format that is
      outside the codec's set. */
  lemma {:induction false} TokenizeErrors(fmt: string, i: nat)
    ensures TokenizeFrom(fmt, i).Err? ==>
      exists k :: i <= k < |fmt| && fmt[k] !in CODEC_CHARS &&
                  TokenizeFrom(fmt, i).error == UnknownFormatChar(fmt[k])
    decreases |fmt| - i
  {
    if !AtEnd(fmt, i) {
      ScanAccepts(fmt, i);
    }
    if !AtEnd(fmt, i) && Scan(fmt, i).Ok? {
      TokenizeErrors(fmt, Scan(fmt, i).value.1);
    }
  }
}
