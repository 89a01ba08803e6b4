/** Laws of PreAllocString: the invariant every mutator keeps, the
    overflow policy of each mutator, and AddFormat against the reference
    rendering of its format. */
module PreAllocStringTheorems {
  import opened Wrappers
  import opened CStrings
  import opened FormatSpec
  import opened Printf
  import opened PrintfTheorems
  import opened PreAllocStrings

  /** The public mutators, as a caller would apply them in sequence. */
  datatype Mutation =
    | Clear
    | SetChar(c: char)
    | SetCStr(rhs: Option<seq<char>>)
    | PushChar(c: char)
    | PushCStr(rhs: Option<seq<char>>)
    | PushFormat(fmt: Option<seq<char>>, args: seq<Arg>)
    | PushSpace

  /** One mutation; None where the source has undefined behaviour: an
      AddFormat whose arguments do not fit its format or whose formatter
      call fails. */
  function Apply(s: PreAllocString, m: Mutation): (r: Option<PreAllocString>)
    requires Sized(s)
    ensures r.Some? ==> Sized(r.value) && |r.value.arr| == |s.arr|
  {
    match m
    case Clear => Some(Empty(s))
    case SetChar(c) => Some(AssignChar(s, c))
    case SetCStr(rhs) => Some(AssignCStr(s, rhs))
    case PushChar(c) => Some(AppendChar(s, c))
    case PushCStr(rhs) => Some(AppendCStr(s, rhs))
    case PushSpace => Some(AddWhiteSpace(s))
    case PushFormat(fmt, args) =>
      if fmt.None? then Some(AddFormat(s, fmt, args))
      else if ArgsFit(fmt.value, 0, args) && FormatInto(s, fmt.value, args).1.Some? then
        Some(AddFormat(s, fmt, args))
      else None
  }

  /** A sequence of mutations, stopping at the first undefined one. */
  function ApplyAll(s: PreAllocString, ms: seq<Mutation>): Option<PreAllocString>
    requires Sized(s)
    decreases |ms|
  {
    if |ms| == 0 then Some(s)
    else match Apply(s, ms[0])
      case None => None
      case Some(t) => ApplyAll(t, ms[1..])
  }

  /** One mutation keeps the capacity, length <= N - 1 and the terminator
      at arr[length]. */
  lemma ApplyKeepsValid(s: PreAllocString, m: Mutation)
    requires Valid(s)
    ensures Apply(s, m).Some? ==> Valid(Apply(s, m).value)
  {
  }

  /** Any sequence of mutations keeps the invariant. */
  lemma {:induction false} ApplyAllKeepsValid(s: PreAllocString, ms: seq<Mutation>)
    requires Valid(s)
    ensures ApplyAll(s, ms).Some? ==> Valid(ApplyAll(s, ms).value) && |ApplyAll(s, ms).value.arr| == |s.arr|
    decreases |ms|
  {
    if |ms| > 0 {
      ApplyKeepsValid(s, ms[0]);
      if Apply(s, ms[0]).Some? {
        ApplyAllKeepsValid(Apply(s, ms[0]).value, ms[1..]);
      }
    }
  }

  /** Emptying twice is emptying once. */
  lemma EmptyIdempotent(s: PreAllocString)
    requires Sized(s)
    ensures Empty(Empty(s)) == Empty(s)
  {
  }

  /** Assigning a character to a string of two or more characters does not
      make it a one-character string: the old tail stays. */
  lemma AssignCharKeepsTail(s: PreAllocString, c: char)
    requires Sized(s) && s.length >= 2
    ensures Text(AssignChar(s, c)) != [c]
    ensures Text(AssignChar(s, c))[1..] == Text(s)[1..]
  {
    assert |Text(AssignChar(s, c))| == s.length;
  }

  /** operator+=(const char*) on a non-empty string is all-or-nothing:
      either the whole C string is appended or nothing changes. */
  lemma AppendCStrAllOrNothing(s: PreAllocString, rhs: seq<char>)
    requires Sized(s) && s.length > 0
    ensures var r := AppendCStr(s, Some(rhs));
      r == s || (Valid(r) && Text(r) == Text(s) + Content(rhs))
    ensures StrLen(rhs) + s.length < |s.arr| ==> Text(AppendCStr(s, Some(rhs))) == Text(s) + Content(rhs)
    ensures StrLen(rhs) + s.length >= |s.arr| ==> AppendCStr(s, Some(rhs)) == s
  {
  }

  /** On an empty string the N - 1 cap makes operator+=(const char*)
      truncate instead: a C string longer than the capacity contributes its
      first N - 1 characters. */
  lemma AppendCStrTruncatesWhenEmpty(s: PreAllocString, rhs: seq<char>)
    requires Sized(s) && s.length == 0 && StrLen(rhs) >= |s.arr|
    ensures Text(AppendCStr(s, Some(rhs))) == Content(rhs)[..|s.arr| - 1]
  {
  }

  /** AddFormat against the reference rendering `o` of its format: when the
      formatter succeeds (the failing directive, if any, lies past the free
      space) the string grows by the first min(|o|, N - 1 - length)
      characters of `o`. For formats with %x/%b this needs the whole
      rendering to fit. */
  lemma AddFormatAppendsRendered(s: PreAllocString, fmt: seq<char>, args: seq<Arg>)
    requires Sized(s) && ArgsFit(fmt, 0, args)
    requires var o := Render(fmt, 0, args); var room := |s.arr| - 1 - s.length;
      (o.complete || |o.text| >= room) && (NoRadixTag(fmt, 0) || Fits(o, room))
    ensures FormatInto(s, fmt, args).1.Some?
    ensures var o := Render(fmt, 0, args); var room := |s.arr| - 1 - s.length;
      Text(AddFormat(s, Some(fmt), args)) == Text(s) + o.text[..Min(|o.text|, room)]
  {
    var o := Render(fmt, 0, args);
    var m := Min(|o.text|, |s.arr| - 1 - s.length);
    PrintfAgreesWithRender(s.arr, s.length, |s.arr| - 1, fmt, args);
    AddFormatFromCursor(s, fmt, args, m, o.text[..m]);
  }

  /** AddFormat keeps what the formatter wrote between the old length and
      the cursor it returned. */
  lemma AddFormatFromCursor(s: PreAllocString, fmt: seq<char>, args: seq<Arg>, m: nat, w: seq<char>)
    requires Sized(s) && ArgsFit(fmt, 0, args)
    requires var f := FormatInto(s, fmt, args);
      f.1 == Some(s.length + m) && s.length + m <= |f.0| && f.0[s.length .. s.length + m] == w
    ensures Text(AddFormat(s, Some(fmt), args)) == Text(s) + w
  {
    var r := AddFormat(s, Some(fmt), args);
    assert r.length == s.length + m;
    JoinSlices(r.arr, 0, s.length, s.length + m);
  }
}
