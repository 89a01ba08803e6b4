/** What Printf_args writes, compared with the unbounded reference
    rendering: the exact text when it fits, and the longest prefix that
    fits when it does not (for formats without %x/%b directives, whose
    tag is dropped whole rather than cut). */
module PrintfTheorems {
  import opened Wrappers
  import opened CStrings
  import opened Digits
  import opened FormatSpec
  import opened Printf

  /** The rendering fits `room` positions: all of it when complete, and
      with room left to reach the failing directive otherwise. */
  predicate Fits(o: Rendered, room: int)
  {
    if o.complete then |o.text| <= room else |o.text| < room
  }

  /** No %x or %b directive occurs from index `i` of the format. The
      format is read directive by directive, as the loop reads it, so the
      'x' after a literal "%%" is plain text; reading stops at the
      terminator and at an unknown conversion character, where the loop
      stops too. */
  predicate NoRadixTag(fmt: seq<char>, i: nat)
    decreases |fmt| - i
  {
    if At(fmt, i) == '\0' then true
    else if fmt[i] != '%' then NoRadixTag(fmt, i + 1)
    else
      var spec := At(fmt, i + 1);
      spec != 'x' && spec != 'b' && (IsDirective(spec) ==> NoRadixTag(fmt, i + 2))
  }

  /** The outcome the reference predicts for `room` positions starting at
      `d`: failure when the failing directive is reached with room left,
      otherwise the cursor after min(|text|, room) characters of the text. */
  predicate AgreesWith(r: (seq<char>, Option<nat>), o: Rendered, d: nat, room: nat)
  {
    var m := Min(|o.text|, room);
    if !o.complete && |o.text| < room then r.1 == None
    else r.1 == Some(d + m) && d + m <= |r.0| && r.0[d .. d + m] == o.text[..m]
  }

  lemma {:induction false} LoopAgreesWithRender(buf: seq<char>, d: nat, e: nat, fmt: seq<char>, i: nat, args: seq<Arg>)
    requires d <= e < |buf| && i <= StrLen(fmt)
    requires ArgsFit(fmt, i, args)
    requires NoRadixTag(fmt, i) || Fits(Render(fmt, i, args), e - d)
    ensures AgreesWith(FormatLoop(buf, d, e, fmt, i, args), Render(fmt, i, args), d, e - d)
    decreases |fmt| - i, 4
  {
    AtBeforeTerminator(fmt, i);
    if d < e && At(fmt, i) != '\0' {
      if fmt[i] == '%' {
        DirectiveAgrees(buf, d, e, fmt, i, args);
      } else {
        PlainAgrees(buf, d, e, fmt, i, args);
      }
    }
  }

  /** One plain character, then the rest of the loop. */
  lemma {:induction false} PlainAgrees(buf: seq<char>, d: nat, e: nat, fmt: seq<char>, i: nat, args: seq<Arg>)
    requires d < e < |buf| && i < StrLen(fmt) && fmt[i] != '%'
    requires ArgsFit(fmt, i, args)
    requires NoRadixTag(fmt, i) || Fits(Render(fmt, i, args), e - d)
    ensures AgreesWith(FormatLoop(buf, d, e, fmt, i, args), Render(fmt, i, args), d, e - d)
    decreases |fmt| - i, 1
  {
    PlainStep(buf, d, e, fmt, i, args);
    var b := buf[d := fmt[i]];
    assert b[d .. d + 1] == [fmt[i]];
    WrittenInFull(b, d, 1, e, fmt, i, i + 1, args, [fmt[i]], Render(fmt, i, args));
  }

  /** One unfolding of the loop and of the reference at a plain character. */
  lemma PlainStep(buf: seq<char>, d: nat, e: nat, fmt: seq<char>, i: nat, args: seq<Arg>)
    requires d < e < |buf| && i < StrLen(fmt) && fmt[i] != '%'
    requires ArgsFit(fmt, i, args)
    ensures ArgsFit(fmt, i + 1, args)
    ensures Render(fmt, i, args) == Rendered([fmt[i]] + Render(fmt, i + 1, args).text, Render(fmt, i + 1, args).complete)
    ensures FormatLoop(buf, d, e, fmt, i, args) == FormatLoop(buf[d := fmt[i]], d + 1, e, fmt, i + 1, args)
  {
    AtBeforeTerminator(fmt, i);
  }

  /** One directive, then the rest of the loop. */
  lemma {:induction false} DirectiveAgrees(buf: seq<char>, d: nat, e: nat, fmt: seq<char>, i: nat, args: seq<Arg>)
    requires d < e < |buf| && i < StrLen(fmt) && fmt[i] == '%'
    requires ArgsFit(fmt, i, args)
    requires NoRadixTag(fmt, i) || Fits(Render(fmt, i, args), e - d)
    ensures AgreesWith(FormatLoop(buf, d, e, fmt, i, args), Render(fmt, i, args), d, e - d)
    decreases |fmt| - i, 3
  {
    RenderStepDirective(fmt, i, args);
    if Expand(At(fmt, i + 1), args).None? {
      DirectiveAborts(buf, d, e, fmt, i, args);
    } else {
      DirectiveEmits(buf, d, e, fmt, i, args);
    }
  }

  /** A directive with an expansion, then the rest of the loop: its text
      is either written in full or cut at `e`. */
  lemma {:induction false} DirectiveEmits(buf: seq<char>, d: nat, e: nat, fmt: seq<char>, i: nat, args: seq<Arg>)
    requires d < e < |buf| && i + 2 <= StrLen(fmt) && fmt[i] == '%'
    requires ArgsFit(fmt, i, args) && DirectiveFits(At(fmt, i + 1), args)
    requires Expand(At(fmt, i + 1), args).Some?
    requires var x := Expand(At(fmt, i + 1), args).value;
      ArgsFit(fmt, i + 2, x.rest) &&
      Render(fmt, i, args) == Rendered(x.text + Render(fmt, i + 2, x.rest).text, Render(fmt, i + 2, x.rest).complete)
    requires NoRadixTag(fmt, i) || Fits(Render(fmt, i, args), e - d)
    ensures AgreesWith(FormatLoop(buf, d, e, fmt, i, args), Render(fmt, i, args), d, e - d)
    decreases |fmt| - i, 2
  {
    var spec := At(fmt, i + 1);
    var x := Expand(spec, args).value;
    if spec == 'x' || spec == 'b' {
      AtBeforeTerminator(fmt, i + 1);
      RadixDirectiveFits(fmt, i, Render(fmt, i, args), x.text, Render(fmt, i + 2, x.rest).text, e - d);
    }
    if |x.text| <= e - d {
      DirectiveInFull(buf, d, e, fmt, i, args);
    } else {
      DirectiveCut(buf, d, e, fmt, i, args);
    }
  }

  /** The directive's text fits: the loop goes on after it. */
  lemma {:induction false} DirectiveInFull(buf: seq<char>, d: nat, e: nat, fmt: seq<char>, i: nat, args: seq<Arg>)
    requires d < e < |buf| && i + 2 <= StrLen(fmt) && fmt[i] == '%'
    requires ArgsFit(fmt, i, args) && DirectiveFits(At(fmt, i + 1), args)
    requires Expand(At(fmt, i + 1), args).Some?
    requires var x := Expand(At(fmt, i + 1), args).value;
      ArgsFit(fmt, i + 2, x.rest) && |x.text| <= e - d &&
      Render(fmt, i, args) == Rendered(x.text + Render(fmt, i + 2, x.rest).text, Render(fmt, i + 2, x.rest).complete)
    requires (At(fmt, i + 1) != 'x' && At(fmt, i + 1) != 'b') || d + 1 < e
    requires NoRadixTag(fmt, i) || Fits(Render(fmt, i, args), e - d)
    ensures AgreesWith(FormatLoop(buf, d, e, fmt, i, args), Render(fmt, i, args), d, e - d)
    decreases |fmt| - i, 1
  {
    var x := Expand(At(fmt, i + 1), args).value;
    var b, n := DirectiveStep(buf, d, e, fmt, i, args);
    WrittenInFull(b, d, n, e, fmt, i, i + 2, x.rest, x.text, Render(fmt, i, args));
  }

  /** The directive's text overruns `e`: the loop stops there. */
  lemma DirectiveCut(buf: seq<char>, d: nat, e: nat, fmt: seq<char>, i: nat, args: seq<Arg>)
    requires d < e < |buf| && i + 2 <= StrLen(fmt) && fmt[i] == '%'
    requires ArgsFit(fmt, i, args) && DirectiveFits(At(fmt, i + 1), args)
    requires Expand(At(fmt, i + 1), args).Some?
    requires var x := Expand(At(fmt, i + 1), args).value;
      ArgsFit(fmt, i + 2, x.rest) && |x.text| > e - d &&
      Render(fmt, i, args) == Rendered(x.text + Render(fmt, i + 2, x.rest).text, Render(fmt, i + 2, x.rest).complete)
    requires (At(fmt, i + 1) != 'x' && At(fmt, i + 1) != 'b') || d + 1 < e
    ensures AgreesWith(FormatLoop(buf, d, e, fmt, i, args), Render(fmt, i, args), d, e - d)
  {
    var x := Expand(At(fmt, i + 1), args).value;
    var b, n := DirectiveStep(buf, d, e, fmt, i, args);
    assert n == e - d;
    CutAfter(buf, b, d, e, fmt, i, args, x.rest, x.text, Render(fmt, i, args));
  }

  /** A directive that filled the buffer: the loop stops right after it. */
  lemma CutAfter(buf: seq<char>, b: seq<char>, d: nat, e: nat, fmt: seq<char>, i: nat, args: seq<Arg>,
                 rest: seq<Arg>, x: seq<char>, o: Rendered)
    requires d < e < |buf| == |b| && e - d < |x| && b[d .. e] == x[..e - d]
    requires ArgsFit(fmt, i, args) && ArgsFit(fmt, i + 2, rest)
    requires FormatLoop(buf, d, e, fmt, i, args) == FormatLoop(b, e, e, fmt, i + 2, rest)
    requires o == Rendered(x + Render(fmt, i + 2, rest).text, Render(fmt, i + 2, rest).complete)
    ensures AgreesWith(FormatLoop(buf, d, e, fmt, i, args), o, d, e - d)
  {
    var o' := Render(fmt, i + 2, rest);
    Truncated(b, d, e, fmt, i + 2, rest, x, o'.text, o'.complete);
  }

  /** Under the side condition, a %x or %b directive is only met when the
      whole rendering fits, so its text of three or more characters fits. */
  lemma RadixDirectiveFits(fmt: seq<char>, i: nat, o: Rendered, t: seq<char>, u: seq<char>, room: int)
    requires i + 1 < StrLen(fmt) && fmt[i] == '%' && (fmt[i + 1] == 'x' || fmt[i + 1] == 'b')
    requires |t| >= 3 && o.text == t + u
    requires NoRadixTag(fmt, i) || Fits(o, room)
    ensures 3 <= |t| <= room
  {
    AtBeforeTerminator(fmt, i);
    AtBeforeTerminator(fmt, i + 1);
    assert !NoRadixTag(fmt, i);
  }

  /** A plain character or directive at index i whose text `t` was
      written in full at d, then the rest of the loop from index j and
      position d + |t|. */
  lemma {:induction false} WrittenInFull(b: seq<char>, d: nat, n: nat, e: nat, fmt: seq<char>, i: nat, j: nat,
                                         rest: seq<Arg>, t: seq<char>, o: Rendered)
    requires d + n <= e < |b| && n == |t| && b[d .. d + n] == t
    requires i < j <= StrLen(fmt) && ArgsFit(fmt, j, rest)
    requires o == Rendered(t + Render(fmt, j, rest).text, Render(fmt, j, rest).complete)
    requires NoRadixTag(fmt, i) ==> NoRadixTag(fmt, j)
    requires NoRadixTag(fmt, i) || Fits(o, e - d)
    ensures AgreesWith(FormatLoop(b, d + n, e, fmt, j, rest), o, d, e - d)
    decreases |fmt| - i, 0
  {
    var o' := Render(fmt, j, rest);
    HypothesisCarriesOver(fmt, i, j, t, o, o', e - d);
    LoopAgreesWithRender(b, d + n, e, fmt, j, rest);
    Concatenated(b, FormatLoop(b, d + n, e, fmt, j, rest), d, n, e, t, o'.text, o'.complete);
  }

  /** The side condition of LoopAgreesWithRender carries over past text
      that was written in full. */
  lemma HypothesisCarriesOver(fmt: seq<char>, i: nat, j: nat, x: seq<char>, o: Rendered, o': Rendered, room: int)
    requires i <= j && (NoRadixTag(fmt, i) ==> NoRadixTag(fmt, j))
    requires o == Rendered(x + o'.text, o'.complete)
    requires NoRadixTag(fmt, i) || Fits(o, room)
    ensures NoRadixTag(fmt, j) || Fits(o', room - |x|)
  {
  }

  /** A directive without an expansion ends the loop with nullptr. */
  lemma DirectiveAborts(buf: seq<char>, d: nat, e: nat, fmt: seq<char>, i: nat, args: seq<Arg>)
    requires d < e < |buf| && i < StrLen(fmt) && fmt[i] == '%'
    requires ArgsFit(fmt, i, args) && DirectiveFits(At(fmt, i + 1), args)
    requires Expand(At(fmt, i + 1), args).None?
    ensures FormatLoop(buf, d, e, fmt, i, args).1 == None
  {
    LoopStepDirective(buf, d, e, fmt, i, args);
  }

  /** One unfolding of the loop at a directive with an expansion: the
      buffer `b` and advance `n` the loop continues from, and what the
      directive wrote. */
  lemma DirectiveStep(buf: seq<char>, d: nat, e: nat, fmt: seq<char>, i: nat, args: seq<Arg>)
    returns (b: seq<char>, n: nat)
    requires d < e < |buf| && i + 2 <= StrLen(fmt) && fmt[i] == '%'
    requires ArgsFit(fmt, i, args) && DirectiveFits(At(fmt, i + 1), args)
    requires Expand(At(fmt, i + 1), args).Some?
    requires ArgsFit(fmt, i + 2, Expand(At(fmt, i + 1), args).value.rest)
    ensures d + n <= e && Frame(buf, b, d, e)
    ensures FormatLoop(buf, d, e, fmt, i, args) == FormatLoop(b, d + n, e, fmt, i + 2, Expand(At(fmt, i + 1), args).value.rest)
    ensures (At(fmt, i + 1) != 'x' && At(fmt, i + 1) != 'b') || d + 1 < e ==>
      n == Min(e - d, |Expand(At(fmt, i + 1), args).value.text|) &&
      b[d .. d + n] == Expand(At(fmt, i + 1), args).value.text[..n]
  {
    LoopStepDirective(buf, d, e, fmt, i, args);
    b, n := ConvertStep(buf, d, e, At(fmt, i + 1), args);
  }

  /** The buffer and advance of one directive, with what it wrote. */
  lemma ConvertStep(buf: seq<char>, d: nat, e: nat, spec: char, args: seq<Arg>) returns (b: seq<char>, n: nat)
    requires d < e <= |buf| && DirectiveFits(spec, args)
    ensures Convert(buf, d, e, spec, args).Emitted? ==>
      b == Convert(buf, d, e, spec, args).buf && n == Convert(buf, d, e, spec, args).adv
    ensures Expand(spec, args).Some? ==> d + n <= e && Frame(buf, b, d, e)
    ensures Expand(spec, args).Some? && ((spec != 'x' && spec != 'b') || d + 1 < e) ==>
      n == Min(e - d, |Expand(spec, args).value.text|) && b[d .. d + n] == Expand(spec, args).value.text[..n]
  {
    var st := Convert(buf, d, e, spec, args);
    b := st.buf;
    if st.Emitted? {
      n := st.adv;
      if (spec != 'x' && spec != 'b') || d + 1 < e {
        ConvertWritesExpansion(buf, d, e, spec, args);
      }
    } else {
      n := 0;
    }
  }

  lemma RenderStepDirective(fmt: seq<char>, i: nat, args: seq<Arg>)
    requires i < StrLen(fmt) && fmt[i] == '%'
    requires ArgsFit(fmt, i, args)
    ensures DirectiveFits(At(fmt, i + 1), args)
    ensures Expand(At(fmt, i + 1), args).None? ==> Render(fmt, i, args) == Rendered([], false)
    ensures Expand(At(fmt, i + 1), args).Some? ==>
      var x := Expand(At(fmt, i + 1), args).value;
      i + 2 <= StrLen(fmt) && ArgsFit(fmt, i + 2, x.rest) &&
      Render(fmt, i, args) == Rendered(x.text + Render(fmt, i + 2, x.rest).text, Render(fmt, i + 2, x.rest).complete)
  {
    AtBeforeTerminator(fmt, i);
    AtBeforeTerminator(fmt, i + 1);
  }

  lemma LoopStepDirective(buf: seq<char>, d: nat, e: nat, fmt: seq<char>, i: nat, args: seq<Arg>)
    requires d < e < |buf| && i < StrLen(fmt) && fmt[i] == '%'
    requires ArgsFit(fmt, i, args)
    requires DirectiveFits(At(fmt, i + 1), args)
    requires Expand(At(fmt, i + 1), args).Some? ==>
      i + 2 <= StrLen(fmt) && ArgsFit(fmt, i + 2, Expand(At(fmt, i + 1), args).value.rest)
    ensures var st := Convert(buf, d, e, At(fmt, i + 1), args);
      if st.Aborted? then FormatLoop(buf, d, e, fmt, i, args).1 == None
      else FormatLoop(buf, d, e, fmt, i, args) == FormatLoop(st.buf, d + st.adv, e, fmt, i + 2, st.rest)
  {
    AtBeforeTerminator(fmt, i);
  }

  /** A directive whose text overruns the buffer ends the loop at e. */
  lemma Truncated(b: seq<char>, d: nat, e: nat, fmt: seq<char>, i: nat, args: seq<Arg>,
                  x: seq<char>, t: seq<char>, complete: bool)
    requires d < e < |b| && e - d < |x|
    requires b[d .. e] == x[..e - d]
    requires ArgsFit(fmt, i, args)
    ensures AgreesWith(FormatLoop(b, e, e, fmt, i, args), Rendered(x + t, complete), d, e - d)
  {
    var r := FormatLoop(b, e, e, fmt, i, args);
    assert r == (b[e := '\0'], Some(e));
    assert r.0[d .. e] == b[d .. e];
    assert (x + t)[..e - d] == x[..e - d];
  }

  /** Gluing a directive's full text at d to what the rest of the loop
      wrote from d + n. */
  lemma Concatenated(b: seq<char>, r: (seq<char>, Option<nat>), d: nat, n: nat, e: nat,
                     x: seq<char>, t: seq<char>, complete: bool)
    requires d + n <= e < |b| && |x| == n
    requires b[d .. d + n] == x
    requires Frame(b, r.0, d + n, e + 1)
    requires AgreesWith(r, Rendered(t, complete), d + n, e - d - n)
    ensures AgreesWith(r, Rendered(x + t, complete), d, e - d)
  {
    if complete || |t| >= e - d - n {
      var m' := Min(|t|, e - d - n);
      assert r.1 == Some(d + n + m') && r.0[d + n .. d + n + m'] == t[..m'];
      FrameKeepsBelow(b, r.0, d, d + n, d + n, e + 1);
      JoinSlices(r.0, d, d + n, d + n + m');
      assert (x + t)[..n + m'] == x + t[..m'];
    }
  }

  /** A frame over [lo, hi) keeps every slice below lo. */
  lemma FrameKeepsBelow(b: seq<char>, b': seq<char>, a: nat, c: nat, lo: nat, hi: nat)
    requires a <= c <= lo && c <= |b|
    requires Frame(b, b', lo, hi)
    ensures b'[a .. c] == b[a .. c]
  {
    forall k | a <= k < c
      ensures b'[k] == b[k]
    {
    }
  }

  /** Adjacent slices join. */
  lemma JoinSlices(s: seq<char>, a: nat, m: nat, c: nat)
    requires a <= m <= c <= |s|
    ensures s[a .. c] == s[a .. m] + s[m .. c]
  {
  }

  /** Printf_args against the reference: when the whole rendering fits,
      the output is exactly the rendering followed by '\0'; a format without
      %x/%b that overflows is cut at `end` with '\0' there; an error
      directive reached with room left gives nullptr. */
  lemma PrintfAgreesWithRender(buf: seq<char>, d: nat, e: nat, fmt: seq<char>, args: seq<Arg>)
    requires d <= e < |buf|
    requires ArgsFit(fmt, 0, args)
    requires NoRadixTag(fmt, 0) || Fits(Render(fmt, 0, args), e - d)
    ensures AgreesWith(PrintfArgs(buf, Some(d), Some(e), Some(fmt), args), Render(fmt, 0, args), d, e - d)
  {
    LoopAgreesWithRender(buf, d, e, fmt, 0, args);
  }

  /** A format string without '%' renders as its own characters, whatever
      the arguments. */
  lemma {:induction false} RenderPlain(fmt: seq<char>, i: nat, args: seq<Arg>)
    requires i <= StrLen(fmt)
    requires forall k :: i <= k < StrLen(fmt) ==> fmt[k] != '%'
    ensures ArgsFit(fmt, i, args) && NoRadixTag(fmt, i)
    ensures Render(fmt, i, args) == Rendered(fmt[i .. StrLen(fmt)], true)
    decreases |fmt| - i
  {
    AtBeforeTerminator(fmt, i);
    if i < StrLen(fmt) {
      RenderPlain(fmt, i + 1, args);
      assert fmt[i .. StrLen(fmt)] == [fmt[i]] + fmt[i + 1 .. StrLen(fmt)];
    }
  }

  /** Plain characters are copied one for one: without '%' the output is
      the first min(strlen(fmt), end - dst) characters of the format, with
      no error when that truncates. */
  lemma PlainFormatCopied(buf: seq<char>, d: nat, e: nat, fmt: seq<char>, args: seq<Arg>)
    requires d <= e < |buf|
    requires '%' !in Content(fmt)
    ensures ArgsFit(fmt, 0, args)
    ensures var k := Min(StrLen(fmt), e - d);
      var r := PrintfArgs(buf, Some(d), Some(e), Some(fmt), args);
      r.1 == Some(d + k) && r.0[d .. d + k] == fmt[..k] && r.0[d + k] == '\0'
  {
    forall k | 0 <= k < StrLen(fmt)
      ensures fmt[k] != '%'
    {
      assert Content(fmt)[k] == fmt[k];
    }
    RenderPlain(fmt, 0, args);
    PrintfAgreesWithRender(buf, d, e, fmt, args);
    var k := Min(StrLen(fmt), e - d);
    assert fmt[0 .. StrLen(fmt)][..k] == fmt[..k];
  }
}
