/**
 * JavaScript's `Number(string)` on the strings that spell a decimal integer:
 * surrounding white space is ignored, an empty or blank string is 0, an
 * optional sign may precede the digits, and anything else is NaN.
 */
module JsNumber {

  datatype NumValue = NaN | Num(n: int)

  /** The white space and line terminators that `Number` trims. */
  predicate IsJsSpace(c: char)
  {
    var k := c as int;
    k == 0x09 || k == 0x0A || k == 0x0B || k == 0x0C || k == 0x0D || k == 0x20
    || k == 0xA0 || k == 0x1680 || (0x2000 <= k <= 0x200A) || k == 0x2028 || k == 0x2029
    || k == 0x202F || k == 0x205F || k == 0x3000 || k == 0xFEFF
  }

  predicate IsDigit(c: char)
  {
    '0' <= c <= '9'
  }

  predicate AllDigits(s: string)
  {
    forall i :: 0 <= i < |s| ==> IsDigit(s[i])
  }

  function TrimStart(s: string): (r: string)
  {
    if s != [] && IsJsSpace(s[0]) then TrimStart(s[1..]) else s
  }

  function TrimEnd(s: string): (r: string)
  {
    if s != [] && IsJsSpace(s[|s| - 1]) then TrimEnd(s[..|s| - 1]) else s
  }

  function Trim(s: string): string
  {
    TrimEnd(TrimStart(s))
  }

  /** Trimming removes exactly the leading white space and keeps the rest. */
  lemma {:induction false} TrimStartSpec(s: string)
    ensures |TrimStart(s)| <= |s| && TrimStart(s) == s[|s| - |TrimStart(s)|..]
    ensures TrimStart(s) != [] ==> !IsJsSpace(TrimStart(s)[0])
    ensures forall i :: 0 <= i < |s| - |TrimStart(s)| ==> IsJsSpace(s[i])
  {
    if s != [] && IsJsSpace(s[0]) {
      TrimStartSpec(s[1..]);
      assert s[1..][|s[1..]| - |TrimStart(s)|..] == s[|s| - |TrimStart(s)|..];
      forall i | 1 <= i < |s| - |TrimStart(s)| ensures IsJsSpace(s[i]) {
        assert s[i] == s[1..][i - 1];
      }
    }
  }

  /** Trimming removes exactly the trailing white space and keeps the rest. */
  lemma {:induction false} TrimEndSpec(s: string)
    ensures |TrimEnd(s)| <= |s| && TrimEnd(s) == s[..|TrimEnd(s)|]
    ensures TrimEnd(s) != [] ==> !IsJsSpace(TrimEnd(s)[|TrimEnd(s)| - 1])
    ensures forall i :: |TrimEnd(s)| <= i < |s| ==> IsJsSpace(s[i])
  {
    if s != [] && IsJsSpace(s[|s| - 1]) {
      var p := s[..|s| - 1];
      TrimEndSpec(p);
      assert p[..|TrimEnd(s)|] == s[..|TrimEnd(s)|];
      forall i | |TrimEnd(s)| <= i < |s| - 1 ensures IsJsSpace(s[i]) {
        assert s[i] == p[i];
      }
    }
  }

  function DigitValue(c: char): (d: int)
    requires IsDigit(c)
    ensures 0 <= d <= 9
  {
    c as int - '0' as int
  }

  /** The value of a string of decimal digits, most significant first. */
  function DigitsValue(s: string): (v: nat)
    requires AllDigits(s)
  {
    if s == [] then 0 else DigitsValue(s[..|s| - 1]) * 10 + DigitValue(s[|s| - 1])
  }

  /** The number spelled by a string that has no surrounding white space. */
  function ParseTrimmed(t: string): (r: NumValue)
  {
    if t == [] then Num(0)
    else if t[0] == '-' && |t| > 1 && AllDigits(t[1..]) then Num(-(DigitsValue(t[1..]) as int))
    else if t[0] == '+' && |t| > 1 && AllDigits(t[1..]) then Num(DigitsValue(t[1..]))
    else if AllDigits(t) then Num(DigitsValue(t))
    else NaN
  }

  function ToNumber(s: string): (r: NumValue)
  {
    ParseTrimmed(Trim(s))
  }

  /** The decimal spelling of a natural number, without leading zeros. */
  function Decimal(n: nat): (s: string)
    ensures |s| >= 1 && AllDigits(s)
  {
    var c := ('0' as int + n % 10) as char;
    if n < 10 then [c] else Decimal(n / 10) + [c]
  }

  lemma {:induction false} DecimalValue(n: nat)
    ensures DigitsValue(Decimal(n)) == n
  {
    var s := Decimal(n);
    if n >= 10 {
      DecimalValue(n / 10);
      assert s[..|s| - 1] == Decimal(n / 10);
    }
  }

  /** A string that neither starts nor ends with white space is its own trim. */
  lemma TrimUnspaced(s: string)
    requires s != [] && !IsJsSpace(s[0]) && !IsJsSpace(s[|s| - 1])
    ensures Trim(s) == s
  {
    assert TrimStart(s) == s;
  }

  /** An unsigned or signed run of digits reads as its value. */
  lemma ToNumberOfDigits(s: string, sign: char)
    requires s != [] && AllDigits(s)
    requires sign == '-' || sign == '+'
    ensures ToNumber(s) == Num(DigitsValue(s))
    ensures sign == '-' ==> ToNumber([sign] + s) == Num(-(DigitsValue(s) as int))
    ensures sign == '+' ==> ToNumber([sign] + s) == Num(DigitsValue(s))
  {
    assert IsDigit(s[0]) && IsDigit(s[|s| - 1]);
    TrimUnspaced(s);
    var m := [sign] + s;
    assert m[1..] == s && m[0] == sign && m[|m| - 1] == s[|s| - 1];
    assert !IsJsSpace(m[0]) && !IsJsSpace(m[|m| - 1]);
    TrimUnspaced(m);
    assert !AllDigits(m) by { assert !IsDigit(m[0]); }
  }

  /** Decimal spellings, signed or not, read back as the number they spell. */
  lemma {:induction false} ToNumberOfDecimal(n: nat, sign: char)
    requires sign == '-' || sign == '+'
    ensures ToNumber(Decimal(n)) == Num(n)
    ensures sign == '-' ==> ToNumber([sign] + Decimal(n)) == Num(-(n as int))
    ensures sign == '+' ==> ToNumber([sign] + Decimal(n)) == Num(n)
  {
    var s := Decimal(n);
    DecimalValue(n);
    assert DigitsValue(s) == n;
    ToNumberOfDigits(s, sign);
  }

  /** Every character of the string is white space. */
  predicate Blank(s: string)
  {
    forall i :: 0 <= i < |s| ==> IsJsSpace(s[i])
  }

  /** Leading white space does not change the start trim. */
  lemma {:induction false} TrimStartBlank(p: string, x: string)
    requires Blank(p)
    ensures TrimStart(p + x) == TrimStart(x)
  {
    if p != [] {
      assert (p + x)[0] == p[0];
      assert (p + x)[1..] == p[1..] + x;
      TrimStartBlank(p[1..], x);
    } else {
      assert p + x == x;
    }
  }

  /** Trailing white space does not change the end trim. */
  lemma {:induction false} TrimEndBlank(x: string, q: string)
    requires Blank(q)
    ensures TrimEnd(x + q) == TrimEnd(x)
  {
    if q != [] {
      var xq := x + q;
      assert xq[|xq| - 1] == q[|q| - 1];
      assert xq[..|xq| - 1] == x + q[..|q| - 1];
      TrimEndBlank(x, q[..|q| - 1]);
    } else {
      assert x + q == x;
    }
  }

  /** White space on both sides of a string that neither starts nor ends with it is trimmed away. */
  lemma TrimAround(p: string, t: string, q: string)
    requires Blank(p) && Blank(q)
    requires t != [] && !IsJsSpace(t[0]) && !IsJsSpace(t[|t| - 1])
    ensures Trim(p + t + q) == t
  {
    assert p + t + q == p + (t + q);
    TrimStartBlank(p, t + q);
    assert TrimStart(t + q) == t + q by { assert (t + q)[0] == t[0]; }
    TrimEndBlank(t, q);
    TrimUnspaced(t);
  }

  /** An empty or blank string is 0. */
  lemma ToNumberOfBlank(s: string)
    requires Blank(s)
    ensures ToNumber(s) == Num(0)
  {
    TrimStartSpec(s);
  }

  /** White space around a run of digits is ignored. */
  lemma ToNumberOfSpacedDigits(p: string, d: string, q: string)
    requires Blank(p) && Blank(q)
    requires d != [] && AllDigits(d)
    ensures ToNumber(p + d + q) == Num(DigitsValue(d))
  {
    assert IsDigit(d[0]) && IsDigit(d[|d| - 1]);
    TrimAround(p, d, q);
  }

  /** A sign with no digits after it, blank or not around it, is NaN. */
  lemma ToNumberOfLoneSign(p: string, sign: char, q: string)
    requires Blank(p) && Blank(q)
    requires sign == '-' || sign == '+'
    ensures ToNumber(p + [sign] + q) == NaN
  {
    TrimAround(p, [sign], q);
    assert !IsDigit([sign][0]);
  }

  /**
   * Digits followed by a character that is neither a digit nor white space
   * are NaN, whatever comes after.
   */
  lemma ToNumberOfGarbage(d: string, c: char, rest: string)
    requires d != [] && AllDigits(d)
    requires !IsDigit(c) && !IsJsSpace(c)
    ensures ToNumber(d + [c] + rest) == NaN
  {
    var x := d + [c] + rest;
    assert x[0] == d[0] && IsDigit(d[0]);
    assert TrimStart(x) == x;
    TrimEndSpec(x);
    var t := TrimEnd(x);
    assert x[|d|] == c;
    assert |t| > |d|;
    assert t[0] == d[0];
    assert t[|d|] == c;
    assert !AllDigits(t);
    assert !AllDigits(t[1..]) by { assert t[1..][|d| - 1] == c; }
  }
}
