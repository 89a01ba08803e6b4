/** PreAllocString<N>: an inline array of N characters and a length. Each
    operation takes the string's value and returns its value afterwards;
    N is the array's size. */
module PreAllocStrings {
  import opened Wrappers
  import opened CStrings
  import opened FormatSpec
  import opened Printf

  datatype PreAllocString = PreAllocString(arr: seq<char>, length: nat)

  /** N > 1 (the static_assert) and length <= N - 1. */
  predicate Sized(s: PreAllocString)
  {
    |s.arr| > 1 && s.length < |s.arr|
  }

  /** Sized, and the terminator sits at arr[length]. */
  predicate Valid(s: PreAllocString)
  {
    Sized(s) && s.arr[s.length] == '\0'
  }

  /** The characters the string holds. */
  function Text(s: PreAllocString): seq<char>
    requires Sized(s)
  {
    s.arr[..s.length]
  }

  /** The constructor: length 0 over whatever the array held (`storage`).
      It does not write the terminator, so the string is Valid only if
      that storage already starts with '\0'. */
  function Create(storage: seq<char>): (s: PreAllocString)
    requires |storage| > 1
    ensures Sized(s) && Text(s) == [] && s.arr == storage
    ensures Valid(s) <==> storage[0] == '\0'
  {
    PreAllocString(storage, 0)
  }

  /** operator[]: arr[idx] for 0 <= idx <= length, which includes the
      terminator slot, and arr[0] for any other index. */
  function Index(s: PreAllocString, idx: int): (c: char)
    requires Sized(s)
    ensures 0 <= idx < s.length ==> c == Text(s)[idx]
    ensures Valid(s) && idx == s.length ==> c == '\0'
    ensures Valid(s) && (idx < 0 || idx > s.length) ==>
      c == (if s.length == 0 then '\0' else Text(s)[0])
  {
    if idx < 0 || idx > s.length then s.arr[0] else s.arr[idx]
  }

  /** GetLength: the number of characters held, below the capacity. */
  function GetLength(s: PreAllocString): (n: nat)
    requires Sized(s)
    ensures n == |Text(s)| && n < SizeOf(s)
  {
    s.length
  }

  /** SizeOf: the capacity N, terminator slot included. */
  function SizeOf(s: PreAllocString): (n: nat)
    requires Sized(s)
    ensures n > 1 && n > s.length
  {
    |s.arr|
  }

  /** Empty: length 0 and arr[0] = '\0'; no other position changes, and
      emptying an empty string changes nothing. */
  function Empty(s: PreAllocString): (r: PreAllocString)
    requires Sized(s)
    ensures Valid(r) && Text(r) == [] && |r.arr| == |s.arr|
    ensures r.arr[1..] == s.arr[1..]
    ensures Valid(s) && s.length == 0 ==> r == s
  {
    PreAllocString(s.arr[0 := '\0'], 0)
  }

  /** operator=(char): on an empty string the result is the one-character
      string [c]; otherwise only arr[0] changes and the length is kept, so
      the characters after the first stay as they were. */
  function AssignChar(s: PreAllocString, c: char): (r: PreAllocString)
    requires Sized(s)
    ensures Sized(r) && |r.arr| == |s.arr|
    ensures s.length == 0 ==> Valid(r) && Text(r) == [c]
    ensures s.length > 0 ==> r.length == s.length && Text(r) == [c] + Text(s)[1..]
    ensures s.length == 0 ==> r.arr[2..] == s.arr[2..]
    ensures s.length > 0 ==> r.arr[1..] == s.arr[1..]
    ensures Valid(s) ==> Valid(r)
  {
    if s.length < 1 then PreAllocString(s.arr[1 := '\0'][0 := c], 1)
    else PreAllocString(s.arr[0 := c], s.length)
  }

  /** operator=(const char*): a null pointer changes nothing; otherwise the
      string becomes the first min(strlen(rhs), N - 1) characters of rhs,
      terminated, and the array past the terminator is untouched. */
  function AssignCStr(s: PreAllocString, rhs: Option<seq<char>>): (r: PreAllocString)
    requires Sized(s)
    ensures rhs.None? ==> r == s
    ensures rhs.Some? ==>
      Valid(r) && |r.arr| == |s.arr| &&
      r.length == Min(StrLen(rhs.value), |s.arr| - 1) &&
      Text(r) == Content(rhs.value)[..r.length] &&
      r.arr[r.length + 1..] == s.arr[r.length + 1..]
    ensures rhs.Some? && StrLen(rhs.value) < |s.arr| ==> Text(r) == Content(rhs.value)
  {
    if rhs.None? then s
    else
      var k := StrNLen(rhs.value, |s.arr| - 1);
      PreAllocString((rhs.value[..k] + s.arr[k..])[k := '\0'], k)
  }

  /** operator+=(char): appends and re-terminates when length + 1 < N,
      and otherwise leaves the string as it is (saturating). */
  function AppendChar(s: PreAllocString, c: char): (r: PreAllocString)
    requires Sized(s)
    ensures s.length + 1 < |s.arr| ==>
      Valid(r) && |r.arr| == |s.arr| && Text(r) == Text(s) + [c] &&
      r.arr[r.length + 1..] == s.arr[r.length + 1..]
    ensures s.length + 1 >= |s.arr| ==> r == s
  {
    if s.length + 1 < |s.arr| then
      PreAllocString(s.arr[s.length := c][s.length + 1 := '\0'], s.length + 1)
    else s
  }

  /** AddWhiteSpace: appends one space under the policy of operator+=(char). */
  function AddWhiteSpace(s: PreAllocString): (r: PreAllocString)
    requires Sized(s)
    ensures s.length + 1 < |s.arr| ==> Valid(r) && Text(r) == Text(s) + [' ']
    ensures s.length + 1 < |s.arr| ==> |r.arr| == |s.arr| && r.arr[r.length + 1..] == s.arr[r.length + 1..]
    ensures s.length + 1 >= |s.arr| ==> r == s
  {
    AppendChar(s, ' ')
  }

  /** operator+=(const char*): with k = min(strlen(rhs), N - 1), the k
      characters are appended only if k + length < N; a null pointer or a
      k that does not fit leaves the string as it is. */
  function AppendCStr(s: PreAllocString, rhs: Option<seq<char>>): (r: PreAllocString)
    requires Sized(s)
    ensures rhs.None? ==> r == s
    ensures rhs.Some? && StrNLen(rhs.value, |s.arr| - 1) + s.length < |s.arr| ==>
      Valid(r) && |r.arr| == |s.arr| &&
      Text(r) == Text(s) + Content(rhs.value)[..StrNLen(rhs.value, |s.arr| - 1)] &&
      r.arr[r.length + 1..] == s.arr[r.length + 1..]
    ensures rhs.Some? && StrNLen(rhs.value, |s.arr| - 1) + s.length >= |s.arr| ==> r == s
  {
    if rhs.None? then s
    else
      var k := StrNLen(rhs.value, |s.arr| - 1);
      if k + s.length < |s.arr| then
        var arr := s.arr[..s.length] + rhs.value[..k] + s.arr[s.length + k..];
        PreAllocString(arr[s.length + k := '\0'], s.length + k)
      else s
  }

  /** The formatter call AddFormat makes, into [arr + length, arr + N - 1]. */
  function FormatInto(s: PreAllocString, fmt: seq<char>, args: seq<Arg>): (r: (seq<char>, Option<nat>))
    requires Sized(s) && ArgsFit(fmt, 0, args)
    ensures |r.0| == |s.arr| && r.0[..s.length] == Text(s)
    ensures r.1.Some? ==> s.length <= r.1.value < |s.arr| && r.0[r.1.value] == '\0'
  {
    PrintfArgs(s.arr, Some(s.length), Some(|s.arr| - 1), Some(fmt), args)
  }

  /** AddFormat: a null format changes nothing; otherwise it formats into
      the free part of the array and the length grows by however far the
      cursor moved, truncated output included. The source subtracts the
      cursor from the start without checking it for nullptr, so it is
      modelled only where the formatter succeeds. */
  function AddFormat(s: PreAllocString, fmt: Option<seq<char>>, args: seq<Arg>): (r: PreAllocString)
    requires Sized(s)
    requires fmt.Some? ==> ArgsFit(fmt.value, 0, args) && FormatInto(s, fmt.value, args).1.Some?
    ensures fmt.None? ==> r == s
    ensures fmt.Some? ==>
      Valid(r) && |r.arr| == |s.arr| && s.length <= r.length && Text(r)[..s.length] == Text(s)
    ensures fmt.Some? ==>
      r.arr == FormatInto(s, fmt.value, args).0 && r.length == FormatInto(s, fmt.value, args).1.value
  {
    if fmt.None? then s
    else
      var (b, cursor) := FormatInto(s, fmt.value, args);
      PreAllocString(b, s.length + (cursor.value - s.length))
  }
}
