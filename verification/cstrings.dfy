/** C strings as the formatter and the fixed-capacity string read them: a
    character sequence followed by an implicit terminator, where an embedded
    '\0' ends the string early. */
module CStrings {

  function Min(a: int, b: int): int
  {
    if a <= b then a else b
  }

  /** The character at index `i` of a C string; past the last element it is
      the terminator. */
  function At(s: seq<char>, i: nat): char
  {
    if i < |s| then s[i] else '\0'
  }

  /** strlen: the number of characters before the first terminator. */
  function StrLen(s: seq<char>): (n: nat)
    ensures n <= |s|
    ensures forall k :: 0 <= k < n ==> s[k] != '\0'
    ensures n < |s| ==> s[n] == '\0'
  {
    if |s| == 0 || s[0] == '\0' then 0 else 1 + StrLen(s[1..])
  }

  /** strnlen: strlen, but reading at most `max` characters. */
  function StrNLen(s: seq<char>, max: nat): (n: nat)
    ensures n <= max && n <= StrLen(s)
    ensures n == max || n == StrLen(s)
  {
    Min(StrLen(s), max)
  }

  /** The characters of a C string, without its terminator. */
  function Content(s: seq<char>): (c: seq<char>)
    ensures c <= s
    ensures '\0' !in c
    ensures |c| < |s| ==> s[|c|] == '\0'
  {
    s[..StrLen(s)]
  }

  /** `n` terminator characters, as strncpy pads with. */
  function Zeros(n: nat): (z: seq<char>)
    ensures |z| == n
    ensures forall k :: 0 <= k < n ==> z[k] == '\0'
  {
    seq(n, _ => '\0')
  }

  /** Reading a C string character by character meets the terminator
      exactly at index StrLen(s). */
  lemma AtBeforeTerminator(s: seq<char>, i: nat)
    ensures i < StrLen(s) ==> At(s, i) == s[i] && At(s, i) != '\0'
    ensures i == StrLen(s) ==> At(s, i) == '\0'
  {
  }
}
