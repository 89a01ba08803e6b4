/** Concrete calls: the formatter's documented examples, its error and
    short-buffer behaviour, the digit-count defect of the floating-point
    logarithm, and a capacity-8 string session. */
module Scenarios {
  import opened Wrappers
  import opened CStrings
  import opened Digits
  import opened FormatSpec
  import opened Printf
  import opened PrintfTheorems
  import opened PreAllocStrings
  import opened PreAllocStringTheorems

  // Digit strings of the values used below, read back through the
  // positional round trip.

  lemma DigitsOf5()
    ensures ToDigits(5, 2) == "101"
  {
    assert FromDigits("101", 2) == 5 by {
      assert FromDigits("1", 2) == 1;
      assert FromDigits("01", 2) == 1;
    }
    DigitsRoundTrip("101", 2);
  }

  lemma DigitsOf255()
    ensures ToDigits(255, 16) == "ff"
  {
    assert FromDigits("f", 16) == 15;
    assert FromDigits("ff", 16) == 255;
    DigitsRoundTrip("ff", 16);
  }

  lemma DigitsOf12345()
    ensures ToDigits(12345, 10) == "12345"
  {
    assert FromDigits("5", 10) == 5;
    assert FromDigits("45", 10) == 45;
    assert FromDigits("345", 10) == 345;
    assert FromDigits("2345", 10) == 2345;
    assert FromDigits("12345", 10) == 12345;
    DigitsRoundTrip("12345", 10);
  }

  lemma DigitsOfZero()
    ensures ToDigits(0, 10) == "0"
  {
    assert FromDigits("0", 10) == 0;
    DigitsRoundTrip("0", 10);
  }

  /** A format that is one directive renders as that directive's text. */
  lemma SingleDirective(buf: seq<char>, d: nat, e: nat, spec: char, a: Arg, t: seq<char>)
    requires d <= e < |buf| && spec != 'x' && spec != 'b' && spec != '%'
    requires DirectiveFits(spec, [a]) && Expand(spec, [a]) == Some(Expansion(t, []))
    requires |t| <= e - d
    ensures var r := PrintfArgs(buf, Some(d), Some(e), Some(['%', spec]), [a]);
      r.1 == Some(d + |t|) && r.0[d .. d + |t|] == t
  {
    var fmt := ['%', spec];
    assert At(fmt, 1) == spec && At(fmt, 2) == '\0';
    assert Render(fmt, 2, []) == Rendered([], true);
    assert Render(fmt, 0, [a]) == Rendered(t, true);
    RendersInFull(buf, d, e, fmt, [a], t);
  }

  /** A complete rendering that fits is written in full. */
  lemma RendersInFull(buf: seq<char>, d: nat, e: nat, fmt: seq<char>, args: seq<Arg>, t: seq<char>)
    requires d <= e < |buf| && ArgsFit(fmt, 0, args)
    requires Render(fmt, 0, args) == Rendered(t, true) && |t| <= e - d
    ensures var r := PrintfArgs(buf, Some(d), Some(e), Some(fmt), args);
      r.1 == Some(d + |t|) && r.0[d .. d + |t|] == t
  {
    PrintfAgreesWithRender(buf, d, e, fmt, args);
  }

  /** The same for %x and %b, whose tag needs room beyond the cursor. */
  lemma SingleRadixDirective(buf: seq<char>, d: nat, e: nat, spec: char, v: uint32, t: seq<char>)
    requires d <= e < |buf| && (spec == 'x' || spec == 'b')
    requires Expand(spec, [UIntArg(v)]) == Some(Expansion(t, []))
    requires |t| <= e - d
    ensures var r := PrintfArgs(buf, Some(d), Some(e), Some(['%', spec]), [UIntArg(v)]);
      r.1 == Some(d + |t|) && r.0[d .. d + |t|] == t
  {
    var fmt := ['%', spec];
    assert At(fmt, 1) == spec && At(fmt, 2) == '\0';
    assert Render(fmt, 2, []) == Rendered([], true);
    assert Render(fmt, 0, [UIntArg(v)]) == Rendered(t, true);
    RendersInFull(buf, d, e, fmt, [UIntArg(v)], t);
  }

  /** "%x" of 255 writes "0xff". */
  lemma HexOutput(buf: seq<char>)
    requires |buf| >= 8
    ensures var r := PrintfArgs(buf, Some(0), Some(7), Some("%x"), [UIntArg(255)]);
      r.1 == Some(4) && r.0[..4] == "0xff"
  {
    DigitsOf255();
    assert Prefixed(255, 16) == "0xff";
    assert [UIntArg(255)][1..] == [];
    SingleRadixDirective(buf, 0, 7, 'x', 255, "0xff");
  }

  /** "%b" of 5 writes "0b101". */
  lemma BinaryOutput(buf: seq<char>)
    requires |buf| >= 8
    ensures var r := PrintfArgs(buf, Some(0), Some(7), Some("%b"), [UIntArg(5)]);
      r.1 == Some(5) && r.0[..5] == "0b101"
  {
    DigitsOf5();
    assert Prefixed(5, 2) == "0b101";
    assert [UIntArg(5)][1..] == [];
    SingleRadixDirective(buf, 0, 7, 'b', 5, "0b101");
  }

  /** "%d" of -12345 writes "-12345". */
  lemma NegativeDecimalOutput(buf: seq<char>)
    requires |buf| >= 8
    ensures var r := PrintfArgs(buf, Some(0), Some(7), Some("%d"), [IntArg(-12345)]);
      r.1 == Some(6) && r.0[..6] == "-12345"
  {
    ExpandNegative();
    SingleDirective(buf, 0, 7, 'd', IntArg(-12345), "-12345");
  }

  /** The expansion of "%d" for -12345. */
  lemma ExpandNegative()
    ensures DirectiveFits('d', [IntArg(-12345)])
    ensures Expand('d', [IntArg(-12345)]) == Some(Expansion("-12345", []))
  {
    DigitsOf12345();
    assert SignedDecimal(-12345) == "-12345";
    assert [IntArg(-12345)][1..] == [];
  }

  /** "%d" of 0 writes "0". */
  lemma ZeroDecimalOutput(buf: seq<char>)
    requires |buf| >= 2
    ensures var r := PrintfArgs(buf, Some(0), Some(1), Some("%d"), [IntArg(0)]);
      r.1 == Some(1) && r.0[..1] == "0"
  {
    DigitsOfZero();
    assert SignedDecimal(0) == "0";
    assert [IntArg(0)][1..] == [];
    SingleDirective(buf, 0, 1, 'd', IntArg(0), "0");
  }

  /** A null %s argument, an unknown conversion character and a '%' at the
      end of the format all give nullptr once reached with room left. */
  lemma ErrorDirectives(buf: seq<char>, d: nat, e: nat)
    requires d < e < |buf|
    ensures PrintfArgs(buf, Some(d), Some(e), Some("%s"), [StrArg(None)]).1 == None
    ensures PrintfArgs(buf, Some(d), Some(e), Some("%q"), []).1 == None
    ensures PrintfArgs(buf, Some(d), Some(e), Some("ab%"), []).1 == None || e - d <= 2
  {
    assert At("%s", 1) == 's';
    assert At("%q", 1) == 'q';
    assert At("ab%", 3) == '\0';
    if e - d > 2 {
      RenderPlain("ab", 0, []);
      assert Render("ab%", 0, []) == Rendered("ab", false);
      PrintfAgreesWithRender(buf, d, e, "ab%", []);
    }
  }

  /** Once the buffer is full, a later unknown directive is never reached:
      the output is cut and the call succeeds. */
  lemma ErrorPastTheEndIsIgnored(buf: seq<char>, d: nat)
    requires d + 2 < |buf|
    ensures var r := PrintfArgs(buf, Some(d), Some(d + 2), Some("abc%q"), []);
      r.1 == Some(d + 2) && r.0[d .. d + 2] == "ab"
  {
    RenderPlainPrefix();
    RendersCut(buf, d, d + 2, "abc%q", [], "abc", false);
  }

  /** A rendering at least as long as the room fills the room with its
      beginning, whether or not it is complete. */
  lemma RendersCut(buf: seq<char>, d: nat, e: nat, fmt: seq<char>, args: seq<Arg>, t: seq<char>, complete: bool)
    requires d <= e < |buf| && ArgsFit(fmt, 0, args) && NoRadixTag(fmt, 0)
    requires Render(fmt, 0, args) == Rendered(t, complete) && |t| >= e - d
    ensures var r := PrintfArgs(buf, Some(d), Some(e), Some(fmt), args);
      r.1 == Some(e) && r.0[d .. e] == t[..e - d]
  {
    PrintfAgreesWithRender(buf, d, e, fmt, args);
  }

  /** "%%xy" holds no %x directive: the 'x' follows a literal "%%". With
      two free positions the text "%xy" is cut to "%x" and the call
      succeeds. */
  lemma LiteralPercentBeforeX(buf: seq<char>, d: nat)
    requires d + 2 < |buf|
    ensures var r := PrintfArgs(buf, Some(d), Some(d + 2), Some("%%xy"), []);
      r.1 == Some(d + 2) && r.0[d .. d + 2] == "%x"
  {
    RenderLiteralPercent();
    RendersCut(buf, d, d + 2, "%%xy", [], "%xy", true);
  }

  lemma RenderLiteralPercent()
    ensures ArgsFit("%%xy", 0, []) && NoRadixTag("%%xy", 0)
    ensures Render("%%xy", 0, []) == Rendered("%xy", true)
  {
    assert StrLen("%%xy") == 4;
    assert At("%%xy", 1) == '%' && At("%%xy", 4) == '\0';
    assert Render("%%xy", 3, []) == Rendered("y", true);
    assert Render("%%xy", 2, []) == Rendered("xy", true);
    assert NoRadixTag("%%xy", 2);
  }

  lemma RenderPlainPrefix()
    ensures ArgsFit("abc%q", 0, []) && NoRadixTag("abc%q", 0)
    ensures Render("abc%q", 0, []) == Rendered("abc", false)
  {
    assert StrLen("abc%q") == 5;
    assert At("abc%q", 4) == 'q';
    assert Render("abc%q", 3, []) == Rendered([], false);
    assert Render("abc%q", 2, []) == Rendered("c", false);
    assert Render("abc%q", 1, []) == Rendered("bc", false);
  }

  /** With a single free position, %x writes nothing and does not move the
      cursor, and the next format character is written there instead. */
  lemma RadixTagNeedsTwoSlots(buf: seq<char>, d: nat, v: uint32)
    requires d + 1 < |buf|
    ensures var r := PrintfArgs(buf, Some(d), Some(d + 1), Some("%xA"), [UIntArg(v)]);
      r.1 == Some(d + 1) && r.0[d] == 'A'
  {
    assert At("%xA", 1) == 'x';
    assert At("%xA", 2) == 'A';
  }

  /** The digit count the source computes, std::log(val) / std::log(radix)
      truncated to int, is 2 for val == 1000 and radix == 10 in IEEE-754
      double arithmetic (the quotient is 2.9999999999999996). Entered with
      that power, the loop of intToCStrInplaceImpl writes "a00" where the
      digits of 1000 are "1000". */
  lemma DigitCountRoundsDown(buf: seq<char>)
    requires |buf| >= 4
    ensures IntToCStrFromPower(buf, 0, 4, 1000, 10, 2).1 == 3
    ensures IntToCStrFromPower(buf, 0, 4, 1000, 10, 2).0[..3] == "a00"
    ensures IntToCStrInplaceImpl(buf, 0, 4, 1000, 10).0[..4] == "1000"
  {
    PowerDigitsHead(1000, 10, 3, 100, 10, 0);
    PowerDigitsHead(0, 10, 2, 10, 0, 0);
    PowerDigitsHead(0, 10, 1, 1, 0, 0);
    assert PowerDigits(1000, 10, 3) == "a00";
    DigitsOf1000();
  }

  lemma DigitsOf1000()
    ensures ToDigits(1000, 10) == "1000"
  {
    assert FromDigits("0", 10) == 0;
    assert FromDigits("00", 10) == 0;
    assert FromDigits("000", 10) == 0;
    assert FromDigits("1000", 10) == 1000;
    DigitsRoundTrip("1000", 10);
  }

  /** For val == 0 the source takes std::log(0), which is minus infinity,
      and converts the quotient to int; that conversion is undefined, and
      x86 compilers yield INT_MIN. Entered with a negative power the loop
      writes nothing, so "%d" of 0 prints no digit at all, where the
      digit string of 0 is "0". */
  lemma ZeroHasNoDigits(buf: seq<char>, d: nat, e: nat)
    requires d < e <= |buf|
    ensures IntToCStrFromPower(buf, d, e, 0, 10, INT_MIN).1 == 0
    ensures var r := IntToCStrInplaceImpl(buf, d, e, 0, 10); r.1 == 1 && r.0[d] == '0'
  {
    assert ToDigits(0, 10) == "0" by { DigitsOfZero(); }
  }

  lemma DigitsOf12()
    ensures ToDigits(12, 10) == "12"
  {
    assert FromDigits("2", 10) == 2;
    assert FromDigits("12", 10) == 12;
    DigitsRoundTrip("12", 10);
  }

  lemma DigitsOf1234567()
    ensures ToDigits(1234567, 10) == "1234567"
  {
    assert FromDigits("7", 10) == 7;
    assert FromDigits("67", 10) == 67;
    assert FromDigits("567", 10) == 567;
    assert FromDigits("4567", 10) == 4567;
    assert FromDigits("34567", 10) == 34567;
    assert FromDigits("234567", 10) == 234567;
    assert FromDigits("1234567", 10) == 1234567;
    DigitsRoundTrip("1234567", 10);
  }

  /** "%d" of a non-negative value renders as its decimal digits. */
  lemma RenderDecimal(v: int32, t: seq<char>)
    requires 0 <= v && ToDigits(v, 10) == t
    ensures ArgsFit("%d", 0, [IntArg(v)]) && NoRadixTag("%d", 0)
    ensures Render("%d", 0, [IntArg(v)]) == Rendered(t, true)
  {
    assert At("%d", 1) == 'd' && At("%d", 2) == '\0';
    assert StrLen("%d") == 2;
    assert [IntArg(v)][1..] == [];
    assert Render("%d", 2, []) == Rendered([], true);
  }

  /** Assigning "ab" and appending 'c' to a capacity-8 string. */
  lemma SessionStart(storage: seq<char>)
    requires |storage| == 8
    ensures var s := AppendChar(AssignCStr(Create(storage), Some("ab")), 'c');
      Sized(s) && |s.arr| == 8 && s.length == 3 && Text(s) == "abc"
  {
    assert StrLen("ab") == 2;
    assert Content("ab") == "ab";
  }

  /** Holding "abc" in capacity 8, "%d" of 12 fits and appends "12". */
  lemma SessionFits(s: PreAllocString)
    requires Sized(s) && |s.arr| == 8 && s.length == 3 && Text(s) == "abc"
    ensures ArgsFit("%d", 0, [IntArg(12)])
    ensures FormatInto(s, "%d", [IntArg(12)]).1.Some?
    ensures var r := AddFormat(s, Some("%d"), [IntArg(12)]);
      Text(r) == "abc12" && r.length == 5 && |r.arr| == 8
  {
    DigitsOf12();
    RenderDecimal(12, "12");
    AppendsRendered(s, "%d", [IntArg(12)], "12");
    assert "abc" + "12"[..2] == "abc12";
  }

  /** AddFormatAppendsRendered for a complete decimal rendering `t`. */
  lemma AppendsRendered(s: PreAllocString, fmt: seq<char>, args: seq<Arg>, t: seq<char>)
    requires Sized(s) && ArgsFit(fmt, 0, args) && NoRadixTag(fmt, 0)
    requires Render(fmt, 0, args) == Rendered(t, true)
    ensures FormatInto(s, fmt, args).1.Some?
    ensures var m := Min(|t|, |s.arr| - 1 - s.length);
      var r := AddFormat(s, Some(fmt), args);
      Text(r) == Text(s) + t[..m] && r.length == s.length + m && |r.arr| == |s.arr|
  {
    AddFormatAppendsRendered(s, fmt, args);
  }

  /** Holding "abc12" in capacity 8, "%d" of 1234567 has two free
      positions: the call succeeds and the first two digits are committed. */
  lemma SessionTruncates(s: PreAllocString)
    requires Sized(s) && |s.arr| == 8 && s.length == 5 && Text(s) == "abc12"
    ensures ArgsFit("%d", 0, [IntArg(1234567)])
    ensures FormatInto(s, "%d", [IntArg(1234567)]).1.Some?
    ensures var r := AddFormat(s, Some("%d"), [IntArg(1234567)]);
      Text(r) == "abc1212" && GetLength(r) == 7
  {
    DigitsOf1234567();
    RenderDecimal(1234567, "1234567");
    AppendsRendered(s, "%d", [IntArg(1234567)], "1234567");
    assert "abc12" + "1234567"[..2] == "abc1212";
  }

  /** A capacity-8 session: assign "ab", append 'c', AddFormat "%d" of 12
      gives "abc12"; AddFormat "%d" of 1234567 then has two free positions
      and commits the truncated "12", giving "abc1212". */
  lemma CapacityEightSession(storage: seq<char>)
    requires |storage| == 8
    ensures ArgsFit("%d", 0, [IntArg(12)]) && ArgsFit("%d", 0, [IntArg(1234567)])
    ensures var s2 := AppendChar(AssignCStr(Create(storage), Some("ab")), 'c');
      Text(s2) == "abc" &&
      FormatInto(s2, "%d", [IntArg(12)]).1.Some? &&
      var s3 := AddFormat(s2, Some("%d"), [IntArg(12)]);
      Text(s3) == "abc12" &&
      FormatInto(s3, "%d", [IntArg(1234567)]).1.Some? &&
      var s4 := AddFormat(s3, Some("%d"), [IntArg(1234567)]);
      Text(s4) == "abc1212" && GetLength(s4) == 7
  {
    SessionStart(storage);
    var s2 := AppendChar(AssignCStr(Create(storage), Some("ab")), 'c');
    SessionFits(s2);
    var s3 := AddFormat(s2, Some("%d"), [IntArg(12)]);
    SessionTruncates(s3);
  }
}
