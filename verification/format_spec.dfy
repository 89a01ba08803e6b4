/** The directive language of the formatter and an unbounded reference
    rendering of it: what a format string with its arguments means when no
    buffer bound gets in the way. */
module FormatSpec {
  import opened Wrappers
  import opened CStrings
  import opened Digits

  const INT_MIN: int := -0x8000_0000

  /** `int` and `unsigned int` of the target: 32 bits wide. */
  type int32 = x: int | INT_MIN <= x < 0x8000_0000
  type uint32 = x: int | 0 <= x < 0x1_0000_0000

  /** One variadic argument, tagged with the type `va_arg` reads it as. */
  datatype Arg =
    | IntArg(i: int32)
    | UIntArg(u: uint32)
    | StrArg(s: Option<seq<char>>)

  /** The conversion characters the formatter recognises after a '%'. */
  predicate IsDirective(spec: char)
  {
    spec in "%cduxbs"
  }

  /** The argument list starts with what directive `spec` reads: an int
      for %c and %d (never INT_MIN for %d, whose std::abs is undefined
      there), an unsigned int for %u, %x and %b, a pointer for %s. */
  predicate DirectiveFits(spec: char, args: seq<Arg>)
  {
    match spec
    case 'c' => |args| > 0 && args[0].IntArg?
    case 'd' => |args| > 0 && args[0].IntArg? && args[0].i != INT_MIN
    case 'u' => |args| > 0 && args[0].UIntArg?
    case 'x' => |args| > 0 && args[0].UIntArg?
    case 'b' => |args| > 0 && args[0].UIntArg?
    case 's' => |args| > 0 && args[0].StrArg?
    case _ => true
  }

  /** %c stores its int argument into a char: the low byte. */
  function LowByte(v: int): (c: char)
    ensures c as int < 256 && (v - c as int) % 256 == 0
  {
    (v % 256) as char
  }

  /** %d: a '-' for negative values, then the decimal digits of |v|. */
  function SignedDecimal(v: int): (t: seq<char>)
    ensures |t| > 0
    ensures (t[0] == '-') <==> v < 0
  {
    ToDigitsCanonical(if v < 0 then -v else v, 10);
    (if v < 0 then "-" else "") + ToDigits(if v < 0 then -v else v, 10)
  }

  /** The tag %x and %b put before their digits. */
  function RadixTag(radix: nat): (t: seq<char>)
    requires radix == 2 || radix == 16
    ensures |t| == 2 && t[0] == '0'
  {
    if radix == 16 then "0x" else "0b"
  }

  /** %x and %b: the radix tag, then the digits of the radix. */
  function Prefixed(val: nat, radix: nat): (t: seq<char>)
    requires radix == 2 || radix == 16
    ensures |t| >= 3 && t[..2] == RadixTag(radix)
  {
    RadixTag(radix) + ToDigits(val, radix)
  }

  /** The text of one directive and the arguments left after it. */
  datatype Expansion = Expansion(text: seq<char>, rest: seq<Arg>)

  /** What one directive stands for: None for an unknown conversion
      character (including the terminator) and for a null %s argument. */
  function Expand(spec: char, args: seq<Arg>): (r: Option<Expansion>)
    requires DirectiveFits(spec, args)
    ensures r.Some? ==> IsDirective(spec)
    ensures r.Some? && (spec == 'x' || spec == 'b') ==> |r.value.text| >= 3
    ensures r.Some? ==> r.value.rest == (if spec == '%' then args else args[1..])
  {
    match spec
    case '%' => Some(Expansion("%", args))
    case 'c' => Some(Expansion([LowByte(args[0].i)], args[1..]))
    case 'd' => Some(Expansion(SignedDecimal(args[0].i), args[1..]))
    case 'u' => Some(Expansion(ToDigits(args[0].u, 10), args[1..]))
    case 'x' => Some(Expansion(Prefixed(args[0].u, 16), args[1..]))
    case 'b' => Some(Expansion(Prefixed(args[0].u, 2), args[1..]))
    case 's' =>
      if args[0].s.None? then None
      else Some(Expansion(Content(args[0].s.value), args[1..]))
    case _ => None
  }

  /** Every directive the formatter can reach from index `i` of `fmt`
      finds an argument of the type it reads. Reading a missing or
      mistyped variadic argument is undefined behaviour, so callers must
      supply matching arguments; extra arguments are ignored. */
  predicate ArgsFit(fmt: seq<char>, i: nat, args: seq<Arg>)
    decreases |fmt| - i
  {
    if At(fmt, i) == '\0' then true
    else if fmt[i] != '%' then ArgsFit(fmt, i + 1, args)
    else
      var spec := At(fmt, i + 1);
      DirectiveFits(spec, args) &&
      match Expand(spec, args)
      case None => true
      case Some(x) => ArgsFit(fmt, i + 2, x.rest)
  }

  /** The unbounded output of a format string from index `i`. */
  datatype Rendered = Rendered(text: seq<char>, complete: bool)

  /** Reference rendering: plain characters stand for themselves and each
      directive for its expansion. `complete` is false when an error
      directive is met; `text` is then what precedes it. */
  function Render(fmt: seq<char>, i: nat, args: seq<Arg>): (r: Rendered)
    requires ArgsFit(fmt, i, args)
    decreases |fmt| - i
  {
    if At(fmt, i) == '\0' then Rendered([], true)
    else if fmt[i] != '%' then
      var r := Render(fmt, i + 1, args);
      Rendered([fmt[i]] + r.text, r.complete)
    else
      match Expand(At(fmt, i + 1), args)
      case None => Rendered([], false)
      case Some(x) =>
        var r := Render(fmt, i + 2, x.rest);
        Rendered(x.text + r.text, r.complete)
  }
}
