/** The bounded formatter: Printf_args and its digit routines. A buffer is
    a character sequence, `dst` and `end` are indices into it, and every
    routine returns the buffer after its writes. */
module Printf {
  import opened Wrappers
  import opened CStrings
  import opened Digits
  import opened FormatSpec

  /** `buf'` is `buf` with at most the positions lo <= k < hi changed. */
  predicate Frame(buf: seq<char>, buf': seq<char>, lo: int, hi: int)
  {
    |buf'| == |buf| &&
    forall k :: 0 <= k < |buf| && (k < lo || hi <= k) ==> buf'[k] == buf[k]
  }

  /** `buf` with the characters of `s` written from index `d` on. */
  function WriteAt(buf: seq<char>, d: nat, s: seq<char>): (w: seq<char>)
    requires d + |s| <= |buf|
    ensures Frame(buf, w, d, d + |s|) && w[d .. d + |s|] == s
  {
    buf[..d] + s + buf[d + |s|..]
  }

  /** Writing `pre` at `d` and then the first `n` characters of `t` right
      after it writes the first |pre| + n characters of pre + t at `d`. */
  lemma Prepended(buf: seq<char>, w: seq<char>, b: seq<char>, d: nat, pre: seq<char>, t: seq<char>, n: nat)
    requires d + |pre| + n <= |buf| && n <= |t|
    requires Frame(buf, w, d, d + |pre|) && w[d .. d + |pre|] == pre
    requires Frame(w, b, d + |pre|, d + |pre| + n) && b[d + |pre| .. d + |pre| + n] == t[..n]
    ensures Frame(buf, b, d, d + |pre| + n)
    ensures b[d .. d + |pre| + n] == (pre + t)[..|pre| + n]
  {
    var m := |pre|;
    assert b[d .. d + m] == w[d .. d + m];
    assert b[d .. d + m + n] == b[d .. d + m] + b[d + m .. d + m + n];
    assert (pre + t)[..m + n] == pre + t[..n];
  }

  /** The while loop of intToCStrInplaceImpl: one digit of `digits` per
      iteration, written at d, while d < e and digits remain. Returns the
      buffer and the number of characters written. */
  function DigitLoop(buf: seq<char>, d: nat, e: nat, digits: seq<char>): (r: (seq<char>, nat))
    requires d <= e <= |buf|
    ensures r.1 == Min(e - d, |digits|)
    ensures Frame(buf, r.0, d, d + r.1)
    ensures r.0[d .. d + r.1] == digits[..r.1]
    decreases |digits|
  {
    if d < e && |digits| > 0 then
      var (b, n) := DigitLoop(buf[d := digits[0]], d + 1, e, digits[1..]);
      assert b[d] == digits[0];
      assert b[d .. d + n + 1] == [digits[0]] + b[d + 1 .. d + 1 + n];
      assert digits[..n + 1] == [digits[0]] + digits[1..][..n];
      (b, n + 1)
    else (buf, 0)
  }

  /** intToCStrInplaceImpl as written, for the power `maxPower` that line
      26 computes: the loop runs for the powers maxPower down to 0, each
      iteration taking the digit val / radix^p and keeping the remainder,
      which is the digit sequence PowerDigits of maxPower + 1 places; a
      negative maxPower gives no iteration. */
  function IntToCStrFromPower(buf: seq<char>, d: nat, e: nat, val: nat, radix: nat, maxPower: int): (r: (seq<char>, nat))
    requires 2 <= radix && d <= e <= |buf|
    ensures r.1 == Min(e - d, if maxPower < 0 then 0 else maxPower + 1)
    ensures Frame(buf, r.0, d, d + r.1)
    ensures r.0[d .. d + r.1] == PowerDigits(val, radix, if maxPower < 0 then 0 else maxPower + 1)[..r.1]
  {
    DigitLoop(buf, d, e, PowerDigits(val, radix, if maxPower < 0 then 0 else maxPower + 1))
  }

  /** intToCStrInplaceImpl: writes the digits of `val` at `d`, never at or
      past `e`, most significant first, and returns how many it wrote.
      The digit count is the integer MaxPower, not the floating-point
      logarithm (see DigitCountRoundsDown). */
  function IntToCStrInplaceImpl(buf: seq<char>, d: nat, e: nat, val: nat, radix: nat): (r: (seq<char>, nat))
    requires IsRadix(radix) && d <= e <= |buf|
    ensures r.1 == Min(e - d, |ToDigits(val, radix)|)
    ensures Frame(buf, r.0, d, d + r.1)
    ensures r.0[d .. d + r.1] == ToDigits(val, radix)[..r.1]
  {
    IntToCStrFromPower(buf, d, e, val, radix, MaxPower(val, radix))
  }

  /** `pre` written at d, then the digits of `val` after it, cut at `e`:
      the shape of the '-' of %d and the "0x" / "0b" of %x / %b. */
  function PrefixThenDigits(buf: seq<char>, d: nat, e: nat, pre: seq<char>, val: nat, radix: nat): (r: (seq<char>, nat))
    requires IsRadix(radix) && d + |pre| <= e <= |buf|
    ensures r.1 == Min(e - d, |pre| + |ToDigits(val, radix)|)
    ensures Frame(buf, r.0, d, d + r.1)
    ensures r.0[d .. d + r.1] == (pre + ToDigits(val, radix))[..r.1]
  {
    var w := WriteAt(buf, d, pre);
    var r := IntToCStrInplaceImpl(w, d + |pre|, e, val, radix);
    Prepended(buf, w, r.0, d, pre, ToDigits(val, radix), r.1);
    (r.0, r.1 + |pre|)
  }

  /** The signed overload of intToDecimalCStrInplace (%d): nothing when
      there is no room, else a '-' for a negative value and then the
      decimal digits of its absolute value. */
  function IntToDecimalSigned(buf: seq<char>, d: nat, e: nat, val: int32): (r: (seq<char>, nat))
    requires val != INT_MIN && d <= e <= |buf|
    ensures r.1 == Min(e - d, |SignedDecimal(val)|)
    ensures Frame(buf, r.0, d, d + r.1)
    ensures r.0[d .. d + r.1] == SignedDecimal(val)[..r.1]
  {
    if d < e then
      if val < 0 then
        PrefixThenDigits(buf, d, e, "-", -val, 10)
      else
        IntToCStrInplaceImpl(buf, d, e, val, 10)
    else (buf, 0)
  }

  /** intToHexCStrInplace (radix 16) and intToBinaryCStrInplace (radix 2):
      with fewer than two free positions they write nothing; otherwise the
      "0x" / "0b" tag and then the digits. */
  function IntToPrefixed(buf: seq<char>, d: nat, e: nat, val: nat, radix: nat): (r: (seq<char>, nat))
    requires (radix == 2 || radix == 16) && d <= e <= |buf|
    ensures Frame(buf, r.0, d, d + r.1) && d + r.1 <= e
    ensures d + 1 < e ==> r.1 == Min(e - d, |Prefixed(val, radix)|)
    ensures d + 1 < e ==> r.0[d .. d + r.1] == Prefixed(val, radix)[..r.1]
    ensures d + 1 >= e ==> r == (buf, 0)
  {
    if d + 1 < e then
      PrefixThenDigits(buf, d, e, RadixTag(radix), val, radix)
    else (buf, 0)
  }

  /** strncpy(buf + d, s, n): the characters of `s` up to its terminator
      or up to `n`, then '\0' up to exactly `n` positions. */
  function StrNCopy(buf: seq<char>, d: nat, s: seq<char>, n: nat): (r: seq<char>)
    requires d + n <= |buf|
    ensures Frame(buf, r, d, d + n)
    ensures r[d .. d + Min(n, StrLen(s))] == Content(s)[..Min(n, StrLen(s))]
    ensures forall j :: d + Min(n, StrLen(s)) <= j < d + n ==> r[j] == '\0'
  {
    var k := Min(n, StrLen(s));
    buf[..d] + Content(s)[..k] + Zeros(n - k) + buf[d + n..]
  }

  /** The outcome of one directive: the buffer, how far the cursor moves
      and the remaining arguments; or an abort. */
  datatype Step =
    | Emitted(buf: seq<char>, adv: nat, rest: seq<Arg>)
    | Aborted(buf: seq<char>)

  /** The switch of Printf_args for conversion character `spec`, with the
      cursor at d < e. */
  function Convert(buf: seq<char>, d: nat, e: nat, spec: char, args: seq<Arg>): (r: Step)
    requires d < e <= |buf|
    requires DirectiveFits(spec, args)
    ensures r.Aborted? <==> Expand(spec, args).None?
    ensures r.Aborted? ==> r.buf == buf
    ensures r.Emitted? ==> r.rest == Expand(spec, args).value.rest
    ensures r.Emitted? ==> d + r.adv <= e && Frame(buf, r.buf, d, e)
    ensures r.Emitted? && (spec == 'x' || spec == 'b') && d + 1 >= e ==>
      r.adv == 0 && r.buf == buf
  {
    match spec
    case '%' => Emitted(buf[d := '%'], 1, args)
    case 'c' => Emitted(buf[d := LowByte(args[0].i)], 1, args[1..])
    case 'd' =>
      var (b, n) := IntToDecimalSigned(buf, d, e, args[0].i);
      Emitted(b, n, args[1..])
    case 'x' =>
      var (b, n) := IntToPrefixed(buf, d, e, args[0].u, 16);
      Emitted(b, n, args[1..])
    case 'u' =>
      var (b, n) := IntToCStrInplaceImpl(buf, d, e, args[0].u, 10);
      Emitted(b, n, args[1..])
    case 'b' =>
      var (b, n) := IntToPrefixed(buf, d, e, args[0].u, 2);
      Emitted(b, n, args[1..])
    case 's' =>
      if args[0].s.None? then Aborted(buf)
      else
        var s := args[0].s.value;
        Emitted(StrNCopy(buf, d, s, e - d), Min(e - d, StrLen(s)), args[1..])
    case _ => Aborted(buf)
  }

  /** Outside the %x/%b short-buffer case, a directive writes the longest
      prefix of its expansion that fits before `e`, and moves the cursor
      past exactly that prefix. */
  predicate WritesPrefix(buf: seq<char>, d: nat, e: nat, st: Step, t: seq<char>)
    requires d <= e <= |buf|
  {
    st.Emitted? && st.adv == Min(e - d, |t|) && d + st.adv <= |st.buf| &&
    st.buf[d .. d + st.adv] == t[..st.adv]
  }

  lemma ConvertWritesExpansion(buf: seq<char>, d: nat, e: nat, spec: char, args: seq<Arg>)
    requires d < e <= |buf|
    requires DirectiveFits(spec, args)
    requires Expand(spec, args).Some?
    requires (spec != 'x' && spec != 'b') || d + 1 < e
    ensures WritesPrefix(buf, d, e, Convert(buf, d, e, spec, args), Expand(spec, args).value.text)
  {
    if spec == '%' || spec == 'c' {
      ConvertWritesOne(buf, d, e, spec, args);
    } else if spec == 'd' || spec == 'u' {
      ConvertWritesDecimal(buf, d, e, spec, args);
    } else if spec == 'x' || spec == 'b' {
      ConvertWritesPrefixed(buf, d, e, spec, args);
    } else {
      ConvertWritesString(buf, d, e, spec, args);
    }
  }

  lemma ConvertWritesOne(buf: seq<char>, d: nat, e: nat, spec: char, args: seq<Arg>)
    requires d < e <= |buf|
    requires spec == '%' || spec == 'c'
    requires DirectiveFits(spec, args)
    ensures WritesPrefix(buf, d, e, Convert(buf, d, e, spec, args), Expand(spec, args).value.text)
  {
  }

  lemma ConvertWritesDecimal(buf: seq<char>, d: nat, e: nat, spec: char, args: seq<Arg>)
    requires d < e <= |buf|
    requires spec == 'd' || spec == 'u'
    requires DirectiveFits(spec, args)
    ensures WritesPrefix(buf, d, e, Convert(buf, d, e, spec, args), Expand(spec, args).value.text)
  {
    if spec == 'd' {
      ConvertWritesSigned(buf, d, e, args);
    } else {
      ConvertWritesUnsigned(buf, d, e, args);
    }
  }

  lemma ConvertWritesSigned(buf: seq<char>, d: nat, e: nat, args: seq<Arg>)
    requires d < e <= |buf|
    requires DirectiveFits('d', args)
    ensures WritesPrefix(buf, d, e, Convert(buf, d, e, 'd', args), Expand('d', args).value.text)
  {
    var p := IntToDecimalSigned(buf, d, e, args[0].i);
    assert Convert(buf, d, e, 'd', args) == Emitted(p.0, p.1, args[1..]);
    assert Expand('d', args).value.text == SignedDecimal(args[0].i);
  }

  lemma ConvertWritesUnsigned(buf: seq<char>, d: nat, e: nat, args: seq<Arg>)
    requires d < e <= |buf|
    requires DirectiveFits('u', args)
    ensures WritesPrefix(buf, d, e, Convert(buf, d, e, 'u', args), Expand('u', args).value.text)
  {
    var p := IntToCStrInplaceImpl(buf, d, e, args[0].u, 10);
    assert Convert(buf, d, e, 'u', args) == Emitted(p.0, p.1, args[1..]);
    assert Expand('u', args).value.text == ToDigits(args[0].u, 10);
  }

  lemma ConvertWritesPrefixed(buf: seq<char>, d: nat, e: nat, spec: char, args: seq<Arg>)
    requires d + 1 < e <= |buf|
    requires spec == 'x' || spec == 'b'
    requires DirectiveFits(spec, args)
    ensures WritesPrefix(buf, d, e, Convert(buf, d, e, spec, args), Expand(spec, args).value.text)
  {
    if spec == 'x' {
      ConvertWritesHex(buf, d, e, args);
    } else {
      ConvertWritesBinary(buf, d, e, args);
    }
  }

  lemma ConvertWritesHex(buf: seq<char>, d: nat, e: nat, args: seq<Arg>)
    requires d + 1 < e <= |buf|
    requires DirectiveFits('x', args)
    ensures WritesPrefix(buf, d, e, Convert(buf, d, e, 'x', args), Expand('x', args).value.text)
  {
    var p := IntToPrefixed(buf, d, e, args[0].u, 16);
    assert Convert(buf, d, e, 'x', args) == Emitted(p.0, p.1, args[1..]);
    assert Expand('x', args).value.text == Prefixed(args[0].u, 16);
  }

  lemma ConvertWritesBinary(buf: seq<char>, d: nat, e: nat, args: seq<Arg>)
    requires d + 1 < e <= |buf|
    requires DirectiveFits('b', args)
    ensures WritesPrefix(buf, d, e, Convert(buf, d, e, 'b', args), Expand('b', args).value.text)
  {
    var p := IntToPrefixed(buf, d, e, args[0].u, 2);
    assert Convert(buf, d, e, 'b', args) == Emitted(p.0, p.1, args[1..]);
    assert Expand('b', args).value.text == Prefixed(args[0].u, 2);
  }

  lemma ConvertWritesString(buf: seq<char>, d: nat, e: nat, spec: char, args: seq<Arg>)
    requires d < e <= |buf|
    requires spec == 's'
    requires DirectiveFits(spec, args) && Expand(spec, args).Some?
    ensures WritesPrefix(buf, d, e, Convert(buf, d, e, spec, args), Expand(spec, args).value.text)
  {
  }

  /** The for loop of Printf_args from format index `i` with the cursor at
      `d`: it runs while d < e and the format has characters left, then
      writes the terminator at the cursor and returns the cursor. An abort
      returns None with whatever was already written. */
  function FormatLoop(buf: seq<char>, d: nat, e: nat, fmt: seq<char>, i: nat, args: seq<Arg>): (r: (seq<char>, Option<nat>))
    requires d <= e < |buf|
    requires ArgsFit(fmt, i, args)
    ensures Frame(buf, r.0, d, e + 1)
    ensures r.1.Some? ==> d <= r.1.value <= e && r.0[r.1.value] == '\0'
    decreases |fmt| - i
  {
    if d < e && At(fmt, i) != '\0' then
      if fmt[i] == '%' then
        match Convert(buf, d, e, At(fmt, i + 1), args)
        case Aborted(b) => (b, None)
        case Emitted(b, n, rest) => FormatLoop(b, d + n, e, fmt, i + 2, rest)
      else
        FormatLoop(buf[d := fmt[i]], d + 1, e, fmt, i + 1, args)
    else
      (buf[d := '\0'], Some(d))
  }

  /** The range [dst, end] lies inside the buffer whenever the formatter
      will write to it. */
  predicate RangeInBuffer(buf: seq<char>, dst: Option<nat>, end: Option<nat>)
  {
    dst.Some? && end.Some? && dst.value <= end.value ==> end.value < |buf|
  }

  /** Printf_args: None (nullptr) for a null dst, end or fmt, or end < dst,
      before any write; otherwise the loop above. Writes only inside
      [dst, end], and a returned cursor lies in [dst, end] and holds '\0'. */
  function PrintfArgs(buf: seq<char>, dst: Option<nat>, end: Option<nat>, fmt: Option<seq<char>>, args: seq<Arg>): (r: (seq<char>, Option<nat>))
    requires RangeInBuffer(buf, dst, end)
    requires fmt.Some? ==> ArgsFit(fmt.value, 0, args)
    ensures dst.None? || end.None? || fmt.None? || end.value < dst.value ==> r == (buf, None)
    ensures dst.Some? && end.Some? && dst.value <= end.value ==> Frame(buf, r.0, dst.value, end.value + 1)
    ensures r.1.Some? ==> dst.Some? && end.Some? && dst.value <= r.1.value <= end.value && r.0[r.1.value] == '\0'
  {
    if dst.None? || end.None? || end.value < dst.value || fmt.None? then (buf, None)
    else FormatLoop(buf, dst.value, end.value, fmt.value, 0, args)
  }
}
