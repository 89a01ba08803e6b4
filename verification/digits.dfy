/** Radix conversion as the formatter's digit routine performs it: digits are
    produced most significant first, by dividing by descending powers of the
    radix, so the digit count has to be known up front. */
module Digits {

  /** The integer power used for each digit position. */
  function Pow(b: nat, e: nat): (r: nat)
    ensures b > 0 ==> r > 0
  {
    if e == 0 then 1 else b * Pow(b, e - 1)
  }

  /** The radixes the formatter uses (2, 10 and 16) all lie in this range. */
  predicate IsRadix(radix: nat)
  {
    2 <= radix <= 16
  }

  /** The digit character for digit value `d`: values from 10 on map to
      'a', 'b', ..., and the result is truncated to a byte as the
      assignment to `char` does. */
  function DigitChar(d: nat): (c: char)
    ensures d < 16 ==> DigitValue(c) == d && (('0' <= c <= '9') || ('a' <= c <= 'f'))
    ensures d < 16 ==> (d < 10 <==> '0' <= c <= '9')
  {
    if d >= 10 then ((d - 10 + 'a' as int) % 256) as char
    else ((d + '0' as int) % 256) as char
  }

  /** The value a digit character stands for: the inverse of DigitChar. */
  function DigitValue(c: char): nat
  {
    if '0' <= c <= '9' then c as int - '0' as int
    else if 'a' <= c <= 'f' then c as int - 'a' as int + 10
    else 0
  }

  /** `c` is a digit of the given radix. */
  predicate IsDigit(c: char, radix: nat)
  {
    (('0' <= c <= '9') || ('a' <= c <= 'f')) && DigitValue(c) < radix
  }

  /** The value of a most-significant-first digit string in positional
      notation. */
  function FromDigits(s: seq<char>, radix: nat): nat
  {
    if |s| == 0 then 0
    else DigitValue(s[0]) * Pow(radix, |s| - 1) + FromDigits(s[1..], radix)
  }

  /** The largest k with radix^k <= val when val >= 1, and 0 when val == 0.
      This is the integer counterpart of the digit count the routine takes
      from floor(log(val) / log(radix)). */
  function MaxPower(val: nat, radix: nat): (k: nat)
    requires 2 <= radix
    ensures Pow(radix, k) <= val || (val == 0 && k == 0)
    ensures val < Pow(radix, k + 1)
    decreases val
  {
    if val < radix then
      assert Pow(radix, 1) == radix * Pow(radix, 0);
      0
    else
      QuotientRange(val, radix);
      var k := MaxPower(val / radix, radix);
      PowerBounds(val, radix, k);
      1 + k
  }

  /** The digit routine's loop, run without a bound: `n` digits of `val`
      for the powers radix^(n-1) down to radix^0. */
  function PowerDigits(val: nat, radix: nat, n: nat): (s: seq<char>)
    requires 2 <= radix
    ensures |s| == n
  {
    if n == 0 then []
    else
      var p := Pow(radix, n - 1);
      [DigitChar(val / p)] + PowerDigits(val % p, radix, n - 1)
  }

  /** The digits the routine writes for `val` when nothing stops it. */
  function ToDigits(val: nat, radix: nat): (s: seq<char>)
    requires 2 <= radix
    ensures |s| == MaxPower(val, radix) + 1
  {
    PowerDigits(val, radix, MaxPower(val, radix) + 1)
  }

  // ---------------------------------------------------------------------
  // Arithmetic helpers

  lemma MulLeftMono(a: nat, b: nat, c: nat)
    requires a <= b
    ensures c * a <= c * b
  {
  }

  lemma MulAddOne(c: nat, q: nat)
    ensures c * (q + 1) == c * q + c
  {
  }

  /** radix^(k+1) <= val < radix^(k+2) follows from the same bounds one
      power lower on val / radix. */
  lemma PowerBounds(val: nat, radix: nat, k: nat)
    requires 2 <= radix <= val
    requires Pow(radix, k) <= val / radix < Pow(radix, k + 1)
    ensures Pow(radix, k + 1) <= val < Pow(radix, k + 2)
  {
    var q, t := val / radix, val % radix;
    var pk, pk1 := Pow(radix, k), Pow(radix, k + 1);
    assert val == radix * q + t;
    assert pk1 == radix * pk;
    assert Pow(radix, k + 2) == radix * pk1;
    MulLeftMono(pk, q, radix);
    MulLeftMono(q + 1, pk1, radix);
    MulAddOne(radix, q);
  }

  /** Dividing by the radix makes a value of at least one radix smaller,
      but leaves it positive. */
  lemma QuotientRange(val: nat, radix: nat)
    requires 2 <= radix <= val
    ensures 1 <= val / radix < val
  {
    var q, t := val / radix, val % radix;
    assert val == radix * q + t && t < radix;
    if q == 0 {
      assert false;
    }
    MulLeftMono(2, radix, q);
    assert q * 2 <= q * radix;
  }

  /** A value below r * m has quotient below r when divided by m. */
  lemma QuotientBelow(v: nat, m: nat, r: nat)
    requires m > 0 && v < r * m
    ensures v / m < r
  {
    var q := v / m;
    assert v == q * m + v % m;
    if q >= r {
      MulLeftMono(r, q, m);
      assert false;
    }
  }

  /** Division by m is determined by any split v == q * m + t with t < m. */
  lemma DivModUnique(v: nat, m: nat, q: nat, t: nat)
    requires m > 0 && t < m && v == q * m + t
    ensures v / m == q && v % m == t
  {
    var q', t' := v / m, v % m;
    assert v == q' * m + t';
    if q' < q {
      MulLeftMono(q' + 1, q, m);
      MulAddOne(m, q');
      assert false;
    } else if q < q' {
      MulLeftMono(q + 1, q', m);
      MulAddOne(m, q);
      assert false;
    }
  }

  lemma PowStrictlyIncreasing(radix: nat, a: nat, b: nat)
    requires 2 <= radix && a < b
    ensures Pow(radix, a) < Pow(radix, b)
    decreases b
  {
    if a + 1 < b {
      PowStrictlyIncreasing(radix, a, b - 1);
    }
  }

  // ---------------------------------------------------------------------
  // Properties of the representation

  lemma {:induction false} DigitCharValue(d: nat, radix: nat)
    requires d < radix <= 16
    ensures IsDigit(DigitChar(d), radix)
    ensures DigitValue(DigitChar(d)) == d
  {
  }

  /** Every value below radix^n has an n-digit representation: PowerDigits
      produces n digits of the radix that denote `val`. */
  lemma {:induction false} PowerDigitsDenote(val: nat, radix: nat, n: nat)
    requires IsRadix(radix)
    requires val < Pow(radix, n)
    ensures |PowerDigits(val, radix, n)| == n
    ensures forall k :: 0 <= k < n ==> IsDigit(PowerDigits(val, radix, n)[k], radix)
    ensures FromDigits(PowerDigits(val, radix, n), radix) == val
  {
    if n > 0 {
      var p := Pow(radix, n - 1);
      var q, t := DivMod(val, p);
      PowBelow(val, radix, n, p);
      QuotientBelow(val, p, radix);
      DigitCharValue(q, radix);
      PowerDigitsDenote(t, radix, n - 1);
      var s := PowerDigits(val, radix, n);
      assert s == [DigitChar(q)] + PowerDigits(t, radix, n - 1);
      FromDigitsHead(s, radix, q, p);
    }
  }

  lemma PowBelow(val: nat, radix: nat, n: nat, p: nat)
    requires n > 0 && p == Pow(radix, n - 1) && val < Pow(radix, n)
    ensures val < radix * p
  {
  }

  lemma DivMod(v: nat, m: nat) returns (q: nat, t: nat)
    requires m > 0
    ensures q == v / m && t == v % m && v == q * m + t && t < m
  {
    q, t := v / m, v % m;
  }

  lemma FromDigitsHead(s: seq<char>, radix: nat, q: nat, p: nat)
    requires |s| > 0 && DigitValue(s[0]) == q && p == Pow(radix, |s| - 1)
    ensures FromDigits(s, radix) == q * p + FromDigits(s[1..], radix)
  {
  }

  /** The digits of `val` denote `val`, use only digits of the radix,
      number MaxPower(val, radix) + 1, and have no leading zero: "0" is
      the only representation that starts with '0'. */
  lemma ToDigitsCanonical(val: nat, radix: nat)
    requires IsRadix(radix)
    ensures FromDigits(ToDigits(val, radix), radix) == val
    ensures |ToDigits(val, radix)| == MaxPower(val, radix) + 1
    ensures forall k :: 0 <= k < |ToDigits(val, radix)| ==> IsDigit(ToDigits(val, radix)[k], radix)
    ensures ToDigits(val, radix)[0] == '0' <==> val == 0
  {
    PowerDigitsDenote(val, radix, MaxPower(val, radix) + 1);
    ToDigitsLeading(val, radix);
  }

  /** The leading digit is the quotient by radix^MaxPower, which is 0 only
      for val == 0. */
  lemma ToDigitsLeading(val: nat, radix: nat)
    requires IsRadix(radix)
    ensures ToDigits(val, radix)[0] == '0' <==> val == 0
  {
    var k := MaxPower(val, radix);
    var p := Pow(radix, k);
    var q, t := DivMod(val, p);
    PowerDigitsHead(val, radix, k + 1, p, q, t);
    assert ToDigits(val, radix)[0] == DigitChar(q);
    if val > 0 {
      assert Pow(radix, k + 1) == radix * p;
      QuotientBelow(val, p, radix);
      DigitCharValue(q, radix);
      assert DigitValue('0') == 0;
    } else {
      assert q == 0;
    }
  }

  /** A digit string denotes a value below radix^|s|, and at least
      radix^(|s|-1) when it has no leading zero. */
  lemma {:induction false} FromDigitsBounds(s: seq<char>, radix: nat)
    requires IsRadix(radix)
    requires forall k :: 0 <= k < |s| ==> IsDigit(s[k], radix)
    ensures FromDigits(s, radix) < Pow(radix, |s|)
    ensures |s| > 0 && s[0] != '0' ==> Pow(radix, |s| - 1) <= FromDigits(s, radix)
  {
    if |s| > 0 {
      var p := Pow(radix, |s| - 1);
      var d := DigitValue(s[0]);
      FromDigitsBounds(s[1..], radix);
      FromDigitsHead(s, radix, d, p);
      DigitStepBounds(d, radix, p, FromDigits(s[1..], radix));
      assert Pow(radix, |s|) == radix * p;
    }
  }

  /** One leading digit d < r in front of a tail below p keeps the value
      below r * p, and at least p when d > 0. */
  lemma DigitStepBounds(d: nat, r: nat, p: nat, rest: nat)
    requires d < r && rest < p
    ensures d * p + rest < r * p
    ensures d > 0 ==> p <= d * p + rest
  {
    MulLeftMono(d + 1, r, p);
    MulLeftMono(1, d + 1, p);
    MulAddOne(p, d);
    if d > 0 {
      MulLeftMono(1, d, p);
    }
  }

  /** Reading a digit string back through PowerDigits gives the string. */
  lemma {:induction false} PowerDigitsOfValue(s: seq<char>, radix: nat)
    requires IsRadix(radix)
    requires forall k :: 0 <= k < |s| ==> IsDigit(s[k], radix)
    ensures PowerDigits(FromDigits(s, radix), radix, |s|) == s
  {
    if |s| > 0 {
      var p := Pow(radix, |s| - 1);
      var d := DigitValue(s[0]);
      var t := FromDigits(s[1..], radix);
      var v := FromDigits(s, radix);
      FromDigitsBounds(s[1..], radix);
      FromDigitsHead(s, radix, d, p);
      DivModUnique(v, p, d, t);
      PowerDigitsOfValue(s[1..], radix);
      DigitValueChar(s[0], radix);
      PowerDigitsHead(v, radix, |s|, p, d, t);
      assert s == [s[0]] + s[1..];
    }
  }

  lemma PowerDigitsHead(val: nat, radix: nat, n: nat, p: nat, q: nat, t: nat)
    requires 2 <= radix && n > 0 && p == Pow(radix, n - 1)
    requires q == val / p && t == val % p
    ensures PowerDigits(val, radix, n) == [DigitChar(q)] + PowerDigits(t, radix, n - 1)
  {
  }

  lemma DigitValueChar(c: char, radix: nat)
    requires IsDigit(c, radix)
    ensures DigitChar(DigitValue(c)) == c
  {
  }

  /** MaxPower is the unique k with radix^k <= val < radix^(k+1). */
  lemma MaxPowerUnique(val: nat, radix: nat, k: nat)
    requires 2 <= radix
    requires Pow(radix, k) <= val < Pow(radix, k + 1)
    ensures MaxPower(val, radix) == k
  {
    var m := MaxPower(val, radix);
    if m < k {
      PowStrictlyIncreasing(radix, m + 1, k + 1);
      if m + 1 < k { PowStrictlyIncreasing(radix, m + 1, k); }
    } else if k < m {
      PowStrictlyIncreasing(radix, k + 1, m + 1);
      if k + 1 < m { PowStrictlyIncreasing(radix, k + 1, m); }
    }
  }

  /** The other direction of the round trip: a digit string without a
      leading zero (or "0" itself) is exactly the representation of the
      value it denotes. */
  lemma DigitsRoundTrip(s: seq<char>, radix: nat)
    requires IsRadix(radix)
    requires |s| > 0 && (s[0] != '0' || s == "0")
    requires forall k :: 0 <= k < |s| ==> IsDigit(s[k], radix)
    ensures ToDigits(FromDigits(s, radix), radix) == s
  {
    var v := FromDigits(s, radix);
    FromDigitsBounds(s, radix);
    if s[0] != '0' {
      MaxPowerUnique(v, radix, |s| - 1);
    }
    PowerDigitsOfValue(s, radix);
  }
}
