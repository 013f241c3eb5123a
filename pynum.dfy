/** Python's `float(str)` and `int(str)` on ASCII text, as CPython implements
    them: optional whitespace around the literal, an optional sign, decimal
    digits with single underscores allowed between two digits, and for `float`
    a fraction, an exponent, or one of the words `inf`, `infinity`, `nan` in
    any case. Magnitudes are exact reals: the rounding to an IEEE double is not
    modelled. */
module PyNum {

  datatype Option<T> = None | Some(value: T)

  /** A value of Python's `float` type. */
  datatype Float = Finite(value: real) | Infinity(negative: bool) | NaN

  /** CPython's `Py_ISSPACE`: space, tab, line feed, vertical tab, form feed, carriage return. */
  predicate IsSpace(c: char) {
    c == ' ' || '\t' <= c <= '\r'
  }

  predicate IsDigit(c: char) {
    '0' <= c <= '9'
  }

  predicate AllDigits(s: string) {
    forall k :: 0 <= k < |s| ==> IsDigit(s[k])
  }

  predicate AllSpace(s: string) {
    forall k :: 0 <= k < |s| ==> IsSpace(s[k])
  }

  function DigitOf(c: char): (d: nat)
    requires IsDigit(c)
    ensures d < 10
  {
    c as int - '0' as int
  }

  function DigitChar(d: nat): (c: char)
    requires d < 10
    ensures IsDigit(c) && DigitOf(c) == d
  {
    ('0' as int + d) as char
  }

  function Pow10(n: nat): (p: nat)
    ensures p >= 1
  {
    if n == 0 then 1 else 10 * Pow10(n - 1)
  }

  /** `10 ** e` for a signed exponent. */
  function Scale10(e: int): (r: real)
    ensures r > 0.0
  {
    if e >= 0 then Pow10(e) as real else 1.0 / Pow10(-e) as real
  }

  /** The number a run of decimal digits denotes, most significant digit first. */
  function DigitsValue(ds: string): (v: nat)
    requires AllDigits(ds)
  {
    if ds == [] then 0 else 10 * DigitsValue(ds[..|ds| - 1]) + DigitOf(ds[|ds| - 1])
  }

  /** Length of the run of digits at the head of `s`. */
  function DigitRun(s: string): (n: nat)
    ensures n <= |s| && AllDigits(s[..n])
    ensures n < |s| ==> !IsDigit(s[n])
  {
    if s != [] && IsDigit(s[0]) then 1 + DigitRun(s[1..]) else 0
  }

  /** `s.lstrip()` for the characters of `IsSpace`. */
  function StripLeft(s: string): (t: string)
    ensures |t| <= |s| && t == s[|s| - |t|..]
    ensures AllSpace(s[..|s| - |t|])
    ensures t == [] || !IsSpace(t[0])
  {
    if s != [] && IsSpace(s[0]) then
      var t := StripLeft(s[1..]);
      assert s[..|s| - |t|] == [s[0]] + s[1..][..|s| - 1 - |t|];
      assert s[1..][|s| - 1 - |t|..] == s[|s| - |t|..];
      t
    else s
  }

  /** `s.rstrip()` for the characters of `IsSpace`. */
  function StripRight(s: string): (t: string)
    ensures |t| <= |s| && t == s[..|t|]
    ensures AllSpace(s[|t|..])
    ensures t == [] || !IsSpace(t[|t| - 1])
  {
    if s != [] && IsSpace(s[|s| - 1]) then
      var t := StripRight(s[..|s| - 1]);
      assert s[|t|..] == s[..|s| - 1][|t|..] + [s[|s| - 1]];
      assert s[..|s| - 1][..|t|] == s[..|t|];
      t
    else s
  }

  function Strip(s: string): string {
    StripRight(StripLeft(s))
  }

  /** Stripping keeps a contiguous piece of the text, starting at this offset. */
  function StripOffset(s: string): nat {
    |s| - |StripLeft(s)|
  }

  lemma StripInside(s: string)
    ensures StripOffset(s) + |Strip(s)| <= |s|
    ensures Strip(s) == s[StripOffset(s)..StripOffset(s) + |Strip(s)|]
  {
  }

  lemma StripAllSpace(s: string)
    requires AllSpace(s)
    ensures Strip(s) == []
  {
  }

  /** Every underscore stands between two digits (CPython rejects any other). */
  predicate UnderscoresBetweenDigits(s: string) {
    forall k :: 0 <= k < |s| && s[k] == '_' ==>
      0 < k < |s| - 1 && IsDigit(s[k - 1]) && IsDigit(s[k + 1])
  }

  function WithoutUnderscores(s: string): (t: string)
    ensures |t| <= |s|
    ensures forall k :: 0 <= k < |t| ==> t[k] != '_'
    ensures (forall k :: 0 <= k < |s| ==> s[k] != '_') ==> t == s
    ensures (forall k :: 0 <= k < |s| ==> IsDigit(s[k]) || s[k] == '_') ==> AllDigits(t)
  {
    if s == [] then []
    else (if s[0] == '_' then [] else [s[0]]) + WithoutUnderscores(s[1..])
  }

  /** An optional leading `+` or `-`: whether it was `-`, and the rest. */
  function SplitSign(s: string): (r: (bool, string))
    ensures |s| - 1 <= |r.1| <= |s| && r.1 == s[|s| - |r.1|..]
    ensures |r.1| < |s| <==> s != [] && (s[0] == '+' || s[0] == '-')
    ensures r.0 <==> |r.1| < |s| && s[0] == '-'
  {
    if s != [] && (s[0] == '+' || s[0] == '-') then (s[0] == '-', s[1..]) else (false, s)
  }

  function Lower(c: char): char {
    if 'A' <= c <= 'Z' then (c as int + 32) as char else c
  }

  function LowerAll(s: string): (t: string)
    ensures |t| == |s| && forall k :: 0 <= k < |s| ==> t[k] == Lower(s[k])
  {
    seq(|s|, k requires 0 <= k < |s| => Lower(s[k]))
  }

  /** The exponent after `e`/`E`: an optional sign and at least one digit, nothing more. */
  function ParseExponent(s: string): (r: Option<int>)
  {
    var (negative, digits) := SplitSign(s);
    if digits != [] && AllDigits(digits) then
      var v: int := DigitsValue(digits);
      Some(if negative then -v else v)
    else None
  }

  /** `n / d` as a real number. */
  function Ratio(n: int, d: nat): real
    requires d > 0
  {
    n as real / d as real
  }

  /** The value of `intDigits.fracDigits`: all its digits read as one number, over `10^|fracDigits|`. */
  function DecimalValue(intDigits: string, fracDigits: string): real
    requires AllDigits(intDigits) && AllDigits(fracDigits)
  {
    Ratio(DigitsValue(intDigits + fracDigits), Pow10(|fracDigits|))
  }

  /** `digits [. digits] [e exponent]` or `. digits [e exponent]`, nothing more. */
  function ParseUnsignedDecimal(s: string): (r: Option<real>)
  {
    var a := DigitRun(s);
    ParseAfterDigits(s[..a], s[a..])
  }

  /** The rest of an unsigned literal once its integer digits are read: an
      optional point followed by the fraction digits, then the tail. */
  function ParseAfterDigits(intDigits: string, rest: string): (r: Option<real>)
    requires AllDigits(intDigits)
  {
    if rest != [] && rest[0] == '.' then
      var f := DigitRun(rest[1..]);
      ParseMantissaTail(intDigits, rest[1..][..f], rest[1..][f..])
    else ParseMantissaTail(intDigits, [], rest)
  }

  /** At least one digit in all, then nothing or an exponent. */
  function ParseMantissaTail(intDigits: string, fracDigits: string, tail: string): (r: Option<real>)
    requires AllDigits(intDigits) && AllDigits(fracDigits)
  {
    if |intDigits| + |fracDigits| == 0 then None
    else
      var mantissa := DecimalValue(intDigits, fracDigits);
      if tail == [] then Some(mantissa)
      else if tail[0] == 'e' || tail[0] == 'E' then
        match ParseExponent(tail[1..])
        case None => None
        case Some(e) => Some(mantissa * Scale10(e))
      else None
  }

  function Signed(negative: bool, x: real): real {
    if negative then -x else x
  }

  /** What `PyOS_string_to_double` accepts when it must consume the whole text. */
  function ParseFloatLiteral(s: string): (r: Option<Float>)
  {
    var (negative, body) := SplitSign(s);
    var word := LowerAll(body);
    if word == "inf" || word == "infinity" then Some(Infinity(negative))
    else if word == "nan" then Some(NaN)
    else
      match ParseUnsignedDecimal(body)
      case None => None
      case Some(x) => Some(Finite(Signed(negative, x)))
  }

  /** `float(s)`: None where Python raises `ValueError`. */
  function ParseFloat(s: string): (r: Option<Float>)
    ensures r.Some? ==> !AllSpace(s)
  {
    if !UnderscoresBetweenDigits(s) then None
    else
      var t := Strip(WithoutUnderscores(s));
      if t == [] then None else
      assert !AllSpace(s) by {
        if AllSpace(s) { StripAllSpace(WithoutUnderscores(s)); }
      }
      ParseFloatLiteral(t)
  }

  /** A character no `float` literal can start with, once spaces are stripped. */
  predicate CannotStartFloat(c: char) {
    !IsSpace(c) && !IsDigit(c) && c !in "+-._iInN"
  }

  /** `float` rejects a text whose first character cannot start a literal. */
  lemma ParseFloatBadStart(s: string)
    requires s != [] && CannotStartFloat(s[0])
    ensures ParseFloat(s) == None
  {
    if UnderscoresBetweenDigits(s) {
      var u := WithoutUnderscores(s);
      assert u == [s[0]] + WithoutUnderscores(s[1..]);
      assert StripLeft(u) == u;
      var t := StripRight(u);
      if t != [] {
        assert t[0] == s[0];
        LiteralBadStart(t);
      }
    }
  }

  lemma LiteralBadStart(t: string)
    requires t != [] && CannotStartFloat(t[0])
    ensures ParseFloatLiteral(t) == None
  {
    assert SplitSign(t).1 == t;
    assert LowerAll(t)[0] == Lower(t[0]);
    assert DigitRun(t) == 0 && t[..0] == [] && t[0..] == t;
    assert ParseAfterDigits([], t) == ParseMantissaTail([], [], t) == None;
  }

  /** Digits with single underscores between them: what `int` accepts after the sign. */
  predicate IsDigitGroups(s: string) {
    && s != []
    && (forall k :: 0 <= k < |s| ==> IsDigit(s[k]) || s[k] == '_')
    && UnderscoresBetweenDigits(s)
  }

  /** `int(s)` in base 10: None where Python raises `ValueError`. */
  function ParseInt(s: string): (r: Option<int>)
    ensures r.Some? ==> exists k :: 0 <= k < |s| && IsDigit(s[k])
  {
    var (negative, body) := SplitSign(Strip(s));
    if IsDigitGroups(body) then
      IntHasDigit(s);
      var v: int := DigitsValue(WithoutUnderscores(body));
      Some(if negative then -v else v)
    else None
  }

  lemma IntHasDigit(s: string)
    requires IsDigitGroups(SplitSign(Strip(s)).1)
    ensures exists k :: 0 <= k < |s| && IsDigit(s[k])
  {
    var t := Strip(s);
    var body := SplitSign(t).1;
    assert IsDigit(body[0]);
    StripInside(s);
    assert body[0] == t[|t| - |body|];
    assert body[0] == s[StripOffset(s) + |t| - |body|];
  }

  // ---------------------------------------------------------------------------
  // Printing numbers, and the round trips through `int` and `float`.

  /** `str(n)` for a natural number: its decimal digits without leading zeros. */
  function ShowNat(n: nat): (s: string)
    ensures s != [] && AllDigits(s)
  {
    if n < 10 then [DigitChar(n)] else ShowNat(n / 10) + [DigitChar(n % 10)]
  }

  lemma {:induction false} ShowNatValue(n: nat)
    ensures DigitsValue(ShowNat(n)) == n
  {
    if n >= 10 {
      ShowNatValue(n / 10);
      var s := ShowNat(n);
      assert s[..|s| - 1] == ShowNat(n / 10);
    }
  }

  /** `str(n)`. */
  function ShowInt(n: int): (s: string)
    ensures s != [] && IsDigit(s[|s| - 1])
    ensures n < 0 <==> s[0] == '-'
  {
    if n < 0 then "-" + ShowNat(-n) else ShowNat(n)
  }

  /** `str(n)` holds only digits and a minus sign. */
  lemma ShowIntChars(n: int)
    ensures forall k :: 0 <= k < |ShowInt(n)| ==> IsDigit(ShowInt(n)[k]) || ShowInt(n)[k] == '-'
  {
  }

  lemma {:induction false} StripLeftPadded(pre: string, u: string)
    requires AllSpace(pre) && (u == [] || !IsSpace(u[0]))
    ensures StripLeft(pre + u) == u
  {
    if pre != [] {
      assert (pre + u)[1..] == pre[1..] + u;
      StripLeftPadded(pre[1..], u);
    }
  }

  lemma {:induction false} StripRightPadded(u: string, post: string)
    requires AllSpace(post) && (u == [] || !IsSpace(u[|u| - 1]))
    ensures StripRight(u + post) == u
  {
    if post != [] {
      assert (u + post)[..|u + post| - 1] == u + post[..|post| - 1];
      StripRightPadded(u, post[..|post| - 1]);
    }
  }

  /** Whitespace around a literal is exactly what stripping removes. */
  lemma StripPadded(pre: string, t: string, post: string)
    requires AllSpace(pre) && AllSpace(post)
    requires t != [] && !IsSpace(t[0]) && !IsSpace(t[|t| - 1])
    ensures Strip(pre + t + post) == t
  {
    assert pre + t + post == pre + (t + post);
    StripLeftPadded(pre, t + post);
    StripRightPadded(t, post);
  }

  lemma NoUnderscores(s: string)
    requires forall k :: 0 <= k < |s| ==> s[k] != '_'
    ensures UnderscoresBetweenDigits(s) && WithoutUnderscores(s) == s
  {
  }

  /** Round trip: `int` reads back what `str` prints, whatever whitespace surrounds it. */
  lemma ParseIntShow(n: int, pre: string, post: string)
    requires AllSpace(pre) && AllSpace(post)
    ensures ParseInt(pre + ShowInt(n) + post) == Some(n)
  {
    var t := ShowInt(n);
    StripPadded(pre, t, post);
    var m: nat := if n < 0 then -n else n;
    var d := ShowNat(m);
    assert SplitSign(t) == (n < 0, d);
    NoUnderscores(d);
    assert IsDigitGroups(d);
    ShowNatValue(m);
    var v: int := DigitsValue(WithoutUnderscores(d));
    assert v == m;
  }

  function Zeros(k: nat): (z: string)
    ensures |z| == k && AllDigits(z)
  {
    if k == 0 then [] else "0" + Zeros(k - 1)
  }

  /** A leading zero does not change the value of a digit run. */
  lemma {:induction false} LeadingZero(ds: string)
    requires AllDigits(ds)
    ensures DigitsValue("0" + ds) == DigitsValue(ds)
    decreases |ds|
  {
    if ds != [] {
      var init := ds[..|ds| - 1];
      assert ("0" + ds)[..|ds|] == "0" + init;
      LeadingZero(init);
    }
  }

  lemma {:induction false} LeadingZeros(k: nat, ds: string)
    requires AllDigits(ds)
    ensures DigitsValue(Zeros(k) + ds) == DigitsValue(ds)
  {
    if k > 0 {
      var rest := Zeros(k - 1) + ds;
      assert Zeros(k) + ds == "0" + rest;
      LeadingZeros(k - 1, ds);
      LeadingZero(rest);
      assert DigitsValue(Zeros(k) + ds) == DigitsValue("0" + rest);
    } else {
      assert Zeros(k) + ds == ds;
    }
  }

  /** `n` written with at least `width` digits, padded with leading zeros. */
  function ZeroPadded(n: nat, width: nat): (s: string)
    ensures AllDigits(s) && |s| >= width && |s| >= 1
  {
    var d := ShowNat(n);
    if |d| >= width then d else Zeros(width - |d|) + d
  }

  lemma ZeroPaddedValue(n: nat, width: nat)
    ensures DigitsValue(ZeroPadded(n, width)) == n
  {
    var d := ShowNat(n);
    ShowNatValue(n);
    if |d| < width {
      var z := Zeros(width - |d|);
      assert ZeroPadded(n, width) == z + d;
      LeadingZeros(width - |d|, d);
    } else {
      assert ZeroPadded(n, width) == d;
    }
  }

  /** The digits `d` with a point before the last `scale` of them. */
  function Pointed(d: string, scale: nat): (s: string)
    requires scale < |d|
    requires AllDigits(d)
    ensures |s| == |d| + 1 && IsDigit(s[0])
    ensures forall k :: 0 <= k < |s| ==> IsDigit(s[k]) || s[k] == '.'
  {
    d[..|d| - scale] + "." + d[|d| - scale..]
  }

  /** The text of `m / 10^scale` (negated if `negative`) with exactly `scale`
      digits after the point, as a device would print a reading. */
  function DecimalText(negative: bool, m: nat, scale: nat): (s: string)
    ensures s != [] && !IsSpace(s[0]) && !IsSpace(s[|s| - 1])
    ensures forall k :: 0 <= k < |s| ==> s[k] != '_'
    ensures forall k :: 0 <= k < |s| ==> IsDigit(s[k]) || s[k] == '.' || s[k] == '-'
  {
    (if negative then "-" else "") + Pointed(ZeroPadded(m, scale + 1), scale)
  }

  lemma {:induction false} DigitRunPrefix(ds: string, rest: string)
    requires AllDigits(ds) && (rest == [] || !IsDigit(rest[0]))
    ensures DigitRun(ds + rest) == |ds|
  {
    if ds != [] {
      assert (ds + rest)[1..] == ds[1..] + rest;
      DigitRunPrefix(ds[1..], rest);
    }
  }

  /** `float` reads `i.f` (digit runs `i`, `f`, with `i` non-empty) as `i` + `f` / 10^|f|. */
  lemma ParsePointDecimal(i: string, f: string)
    requires AllDigits(i) && AllDigits(f) && i != []
    ensures ParseUnsignedDecimal(i + "." + f) == Some(DecimalValue(i, f))
  {
    var s := i + "." + f;
    var rest := "." + f;
    assert s == i + rest;
    DigitRunPrefix(i, rest);
    assert s[..|i|] == i && s[|i|..] == rest;
    ParseFraction(i, f);
  }

  lemma ParseFraction(i: string, f: string)
    requires AllDigits(i) && AllDigits(f) && i != []
    ensures ParseAfterDigits(i, "." + f) == Some(DecimalValue(i, f))
  {
    var rest := "." + f;
    assert rest[1..] == f;
    DigitRunPrefix(f, []);
    assert f + [] == f;
    assert f[..|f|] == f && f[|f|..] == [];
    assert ParseMantissaTail(i, f, []) == Some(DecimalValue(i, f));
  }

  /** Surrounding whitespace is ignored by `float`, for a literal without underscores. */
  lemma ParseFloatPadded(pre: string, t: string, post: string)
    requires AllSpace(pre) && AllSpace(post)
    requires t != [] && !IsSpace(t[0]) && !IsSpace(t[|t| - 1])
    requires forall k :: 0 <= k < |t| ==> t[k] != '_'
    ensures ParseFloat(pre + t + post) == ParseFloatLiteral(t)
  {
    var s := pre + t + post;
    forall k | 0 <= k < |s| ensures s[k] != '_' {
      if k < |pre| {
        assert s[k] == pre[k];
      } else if k < |pre| + |t| {
        assert s[k] == t[k - |pre|];
      } else {
        assert s[k] == post[k - |pre| - |t|];
      }
    }
    NoUnderscores(s);
    StripPadded(pre, t, post);
  }

  /** A signed literal that starts with a digit is a decimal, never a special word. */
  lemma SignedDecimalLiteral(negative: bool, body: string, x: real)
    requires body != [] && IsDigit(body[0]) && ParseUnsignedDecimal(body) == Some(x)
    ensures ParseFloatLiteral((if negative then "-" else "") + body) == Some(Finite(Signed(negative, x)))
  {
    var t := (if negative then "-" else "") + body;
    assert SplitSign(t).1 == body;
    var word := LowerAll(body);
    assert word[0] == body[0];
    assert word != "inf" && word != "infinity" && word != "nan" by {
      assert "inf"[0] == 'i' && "infinity"[0] == 'i' && "nan"[0] == 'n';
    }
  }

  lemma PointValue(d: string, p: nat)
    requires AllDigits(d) && p <= |d|
    ensures DecimalValue(d[..p], d[p..]) == Ratio(DigitsValue(d), Pow10(|d| - p))
  {
    assert d[..p] + d[p..] == d;
  }

  /** The unsigned part of a printed decimal reads back as `m / 10^scale`. */
  lemma PointedValue(m: nat, scale: nat)
    ensures ParseUnsignedDecimal(Pointed(ZeroPadded(m, scale + 1), scale)) == Some(Ratio(m, Pow10(scale)))
  {
    var d := ZeroPadded(m, scale + 1);
    var p := |d| - scale;
    assert Pointed(d, scale) == d[..p] + "." + d[p..];
    ParsePointDecimal(d[..p], d[p..]);
    PointValue(d, p);
    ZeroPaddedValue(m, scale + 1);
    assert DigitsValue(d) == m;
    assert |d| - p == scale;
  }

  lemma DecimalLiteral(negative: bool, m: nat, scale: nat)
    ensures ParseFloatLiteral(DecimalText(negative, m, scale)) == Some(Finite(Signed(negative, Ratio(m, Pow10(scale)))))
  {
    var body := Pointed(ZeroPadded(m, scale + 1), scale);
    PointedValue(m, scale);
    assert IsDigit(body[0]);
    assert DecimalText(negative, m, scale) == (if negative then "-" else "") + body;
    SignedDecimalLiteral(negative, body, Ratio(m, Pow10(scale)));
  }

  lemma DecimalTextPadded(negative: bool, m: nat, scale: nat, pre: string, post: string)
    requires AllSpace(pre) && AllSpace(post)
    ensures ParseFloat(pre + DecimalText(negative, m, scale) + post)
      == ParseFloatLiteral(DecimalText(negative, m, scale))
  {
    var t := DecimalText(negative, m, scale);
    assert t != [] && !IsSpace(t[0]) && !IsSpace(t[|t| - 1]);
    assert forall k :: 0 <= k < |t| ==> t[k] != '_';
    ParseFloatPadded(pre, t, post);
  }

  /** Round trip: `float` reads back a printed decimal, whatever whitespace surrounds it. */
  lemma ParseFloatDecimal(negative: bool, m: nat, scale: nat, pre: string, post: string)
    requires AllSpace(pre) && AllSpace(post)
    ensures ParseFloat(pre + DecimalText(negative, m, scale) + post)
      == Some(Finite(Signed(negative, Ratio(m, Pow10(scale)))))
  {
    DecimalLiteral(negative, m, scale);
    DecimalTextPadded(negative, m, scale, pre, post);
  }

  /** `ParseFloatDecimal` with nothing after the literal. */
  lemma ParseFloatDecimalPadLeft(negative: bool, m: nat, scale: nat, pre: string)
    requires AllSpace(pre)
    ensures ParseFloat(pre + DecimalText(negative, m, scale))
      == Some(Finite(Signed(negative, Ratio(m, Pow10(scale)))))
  {
    var t := pre + DecimalText(negative, m, scale);
    ParseFloatDecimal(negative, m, scale, pre, []);
    assert t + [] == t;
  }
}
