/**
 * Python's built-in `int(x)` on a decoded JSON value, as the handlers apply it to a
 * timestamp field: None, lists and dicts raise TypeError; booleans are 0 and 1; integers
 * are themselves; floats are truncated towards zero; strings are parsed in base 10 and
 * raise ValueError when they are not a decimal integer literal.
 */
module PyInt {
  import opened Wrappers
  import opened JsonValues
  import opened DecimalDigits

  /** The two exceptions `int()` raises on these inputs. */
  datatype PyError = ValueError | TypeError

  /** What `int(x)` returns or raises. */
  function IntOf(j: Json): (r: Result<int, PyError>)
    ensures r == Failure(TypeError) <==> j.JNull? || j.JArray? || j.JObject?
    ensures r == Failure(ValueError) ==> j.JString?
    ensures j.JBool? ==> r == Success(if j.b then 1 else 0)
    ensures j.JInt? ==> r == Success(j.i)
    ensures j.JDecimal? || j.JBool? || j.JInt? ==> r.Success?
  {
    match j
    case JNull => Failure(TypeError)
    case JBool(b) => Success(if b then 1 else 0)
    case JInt(i) => Success(i)
    case JDecimal(h) => Success(TruncDiv(h, 100))
    case JString(s) => ParseInt(s)
    case JArray(_) => Failure(TypeError)
    case JObject(_) => Failure(TypeError)
  }

  /** `int()` of a decimal counted in hundredths keeps its integer part, truncated towards zero. */
  lemma IntOfDecimal(h: int)
    ensures IntOf(JDecimal(h)).Success?
    ensures h >= 0 ==> 0 <= IntOf(JDecimal(h)).value && IntOf(JDecimal(h)).value * 100 <= h < IntOf(JDecimal(h)).value * 100 + 100
    ensures h < 0 ==> IntOf(JDecimal(h)).value <= 0 && IntOf(JDecimal(h)).value * 100 - 100 < h <= IntOf(JDecimal(h)).value * 100
  {
  }

  /** White space that `int()` strips from both ends of a string: ' ', '\t' to '\r', and the
      characters beyond ASCII that str.isspace() accepts. The ASCII separators U+001C to U+001F
      are not among them. */
  predicate IsSpace(c: char) {
    || c == ' ' || '\t' <= c <= '\r' || c == '\U{85}' || c == '\U{a0}'
    || c == '\U{1680}' || '\U{2000}' <= c <= '\U{200a}' || c == '\U{2028}' || c == '\U{2029}'
    || c == '\U{202f}' || c == '\U{205f}' || c == '\U{3000}'
  }

  function TrimStart(s: string): (r: string)
    ensures |r| <= |s| && r == s[|s| - |r|..]
    ensures forall i :: 0 <= i < |s| - |r| ==> IsSpace(s[i])
    ensures r == [] || !IsSpace(r[0])
  {
    if s != [] && IsSpace(s[0]) then TrimStart(s[1..]) else s
  }

  function TrimEnd(s: string): (r: string)
    ensures |r| <= |s| && r == s[..|r|]
    ensures forall i :: |r| <= i < |s| ==> IsSpace(s[i])
    ensures r == [] || !IsSpace(r[|r| - 1])
  {
    if s != [] && IsSpace(s[|s| - 1]) then TrimEnd(s[..|s| - 1]) else s
  }

  /** `str.strip()`. */
  function Strip(s: string): string {
    TrimEnd(TrimStart(s))
  }

  /** Decimal digits with single underscores between them (Python's integer literal grammar). */
  predicate DigitGroups(b: string) {
    && |b| > 0 && IsDigit(b[0])
    && (forall i :: 0 <= i < |b| ==> IsDigit(b[i]) || b[i] == '_')
    && (forall i :: 0 <= i < |b| && b[i] == '_' ==> i + 1 < |b| && IsDigit(b[i + 1]))
  }

  function WithoutUnderscores(b: string): (r: string)
    ensures forall i :: 0 <= i < |r| ==> r[i] != '_' && r[i] in b
  {
    if b == [] then []
    else WithoutUnderscores(b[..|b| - 1]) + (if b[|b| - 1] == '_' then [] else [b[|b| - 1]])
  }

  /** The number a string of decimal digits denotes. */
  function DigitsValue(ds: string): int {
    if ds == [] then 0 else DigitsValue(ds[..|ds| - 1]) * 10 + DigitValue(ds[|ds| - 1])
  }

  /** `int(s)` for a string s. */
  function ParseInt(s: string): (r: Result<int, PyError>)
    ensures r.Failure? ==> r.error == ValueError
    ensures r.Success? ==> LiteralShaped(Strip(s)) && (r.value < 0 ==> Strip(s)[0] == '-')
  {
    ParseLiteral(Strip(s))
  }

  /** Only digits and underscores, save a sign in front, and a digit at the end. */
  predicate LiteralShaped(t: string) {
    && |t| > 0 && IsDigit(t[|t| - 1])
    && forall i :: 0 <= i < |t| ==> IsDigit(t[i]) || t[i] == '_' || (i == 0 && (t[i] == '+' || t[i] == '-'))
  }

  /** An optionally signed literal, once the white space around it is gone. */
  function ParseLiteral(t: string): (r: Result<int, PyError>)
    ensures r.Failure? ==> r.error == ValueError
    ensures r.Success? ==> LiteralShaped(t) && (r.value < 0 ==> t[0] == '-')
  {
    var signed := |t| > 0 && (t[0] == '-' || t[0] == '+');
    var body := if signed then t[1..] else t;
    if DigitGroups(body) then
      var v := DigitsValue(WithoutUnderscores(body));
      DigitGroupsShape(t, body, signed);
      Success(if signed && t[0] == '-' then -v else v)
    else
      Failure(ValueError)
  }

  /** A literal body makes its literal well shaped, and denotes a natural number. */
  lemma DigitGroupsShape(t: string, body: string, signed: bool)
    requires DigitGroups(body)
    requires signed ==> |t| > 0 && (t[0] == '-' || t[0] == '+') && body == t[1..]
    requires !signed ==> body == t
    ensures LiteralShaped(t) && DigitsValue(WithoutUnderscores(body)) >= 0
  {
    assert body[|body| - 1] != '_';
    var ds := WithoutUnderscores(body);
    forall i | 0 <= i < |ds|
      ensures IsDigit(ds[i])
    {
      assert ds[i] != '_' && ds[i] in body;
    }
    DigitsValueNonNegative(ds);
    if signed {
      forall i | 1 <= i < |t|
        ensures IsDigit(t[i]) || t[i] == '_'
      {
        assert t[i] == body[i - 1];
      }
    }
  }

  lemma {:induction false} DigitsValueNonNegative(ds: string)
    requires forall i :: 0 <= i < |ds| ==> IsDigit(ds[i])
    ensures DigitsValue(ds) >= 0
  {
    if ds != [] {
      DigitsValueNonNegative(ds[..|ds| - 1]);
    }
  }

  // ---------------------------------------------------------------------------------------
  // A reference printer, and the round trips through int()

  /** The decimal digits of a natural number, most significant first (no leading zero). */
  function Digits(n: nat): (ds: string)
    ensures |ds| > 0 && IsDigit(ds[0]) && (forall i :: 0 <= i < |ds| ==> IsDigit(ds[i]))
  {
    if n < 10 then [DigitChar(n)] else Digits(n / 10) + [DigitChar(n % 10)]
  }

  /** `str(n)` for an integer n. */
  function Str(n: int): string {
    if n < 0 then "-" + Digits(-n) else Digits(n)
  }

  lemma {:induction false} DigitsValueOfDigits(n: nat)
    ensures DigitsValue(Digits(n)) == n
  {
    if n >= 10 {
      DigitsValueOfDigits(n / 10);
      var ds := Digits(n);
      assert ds[..|ds| - 1] == Digits(n / 10);
    }
  }

  lemma {:induction false} WithoutUnderscoresOfDigits(ds: string)
    requires forall i :: 0 <= i < |ds| ==> IsDigit(ds[i])
    ensures WithoutUnderscores(ds) == ds
  {
    if ds != [] {
      WithoutUnderscoresOfDigits(ds[..|ds| - 1]);
    }
  }

  lemma {:induction false} TrimStartOfPadded(p: string, u: string)
    requires forall i :: 0 <= i < |p| ==> IsSpace(p[i])
    requires |u| > 0 && !IsSpace(u[0])
    ensures TrimStart(p + u) == u
  {
    if p != [] {
      assert (p + u)[1..] == p[1..] + u;
      TrimStartOfPadded(p[1..], u);
    }
  }

  lemma {:induction false} TrimEndOfPadded(u: string, q: string)
    requires forall i :: 0 <= i < |q| ==> IsSpace(q[i])
    requires |u| > 0 && !IsSpace(u[|u| - 1])
    ensures TrimEnd(u + q) == u
  {
    if q != [] {
      assert (u + q)[..|u + q| - 1] == u + q[..|q| - 1];
      TrimEndOfPadded(u, q[..|q| - 1]);
    }
  }

  lemma TrimOfPadded(p: string, t: string, q: string)
    requires forall i :: 0 <= i < |p| ==> IsSpace(p[i])
    requires forall i :: 0 <= i < |q| ==> IsSpace(q[i])
    requires |t| > 0 && !IsSpace(t[0]) && !IsSpace(t[|t| - 1])
    ensures Strip(p + t + q) == t
  {
    assert p + t + q == p + (t + q);
    TrimStartOfPadded(p, t + q);
    TrimEndOfPadded(t, q);
  }

  /** The digits of m are a literal body denoting m. */
  lemma DigitsLiteral(m: nat)
    ensures DigitGroups(Digits(m)) && DigitsValue(WithoutUnderscores(Digits(m))) == m
  {
    WithoutUnderscoresOfDigits(Digits(m));
    DigitsValueOfDigits(m);
  }

  lemma ParseLiteralOfDigits(m: nat)
    ensures ParseLiteral(Digits(m)) == Success(m as int)
  {
    var ds := Digits(m);
    assert ds[0] != '-' && ds[0] != '+';
    DigitsLiteral(m);
  }

  lemma ParseLiteralOfNegativeDigits(m: nat)
    ensures ParseLiteral("-" + Digits(m)) == Success(-(m as int))
  {
    var ds := Digits(m);
    var t := "-" + ds;
    assert t[0] == '-' && t[1..] == ds;
    DigitsLiteral(m);
  }

  /** int(str(n)) == n, also with white space around the digits. */
  lemma ParseIntOfStr(n: int, p: string, q: string)
    requires forall i :: 0 <= i < |p| ==> IsSpace(p[i])
    requires forall i :: 0 <= i < |q| ==> IsSpace(q[i])
    ensures ParseInt(p + Str(n) + q) == Success(n)
  {
    var m: nat := if n < 0 then -n else n;
    var ds := Digits(m);
    assert IsDigit(ds[0]) && IsDigit(ds[|ds| - 1]);
    assert Str(n)[|Str(n)| - 1] == ds[|ds| - 1];
    TrimOfPadded(p, Str(n), q);
    if n < 0 {
      ParseLiteralOfNegativeDigits(m);
    } else {
      ParseLiteralOfDigits(m);
    }
  }

  /** A string holding anything but digits, signs, underscores and white space is rejected. */
  lemma ParseIntRejects(s: string, k: int)
    requires 0 <= k < |s|
    requires !IsDigit(s[k]) && !IsSpace(s[k]) && s[k] != '+' && s[k] != '-' && s[k] != '_'
    ensures ParseInt(s) == Failure(ValueError)
  {
    var t0 := TrimStart(s);
    var j := k - (|s| - |t0|);
    TrimStartKeeps(s, k);
    assert 0 <= j < |t0| && t0[j] == s[k];
    TrimEndKeeps(t0, j);
    var t := TrimEnd(t0);
    assert 0 <= j < |t| && t[j] == s[k];
    LiteralRejects(t, j);
    assert ParseInt(s) == ParseLiteral(t);
  }

  /** The ASCII separators U+001C to U+001F are not white space to `int()`: a timestamp
      led by one is rejected, although str.isspace() would call it white space. */
  lemma ParseIntRejectsSeparator(c: char, n: int)
    requires '\U{1c}' <= c <= '\U{1f}'
    ensures ParseInt([c] + Str(n)) == Failure(ValueError)
  {
    ParseIntRejects([c] + Str(n), 0);
  }

  /** A character that is not white space survives `lstrip()`, shifted by what was stripped. */
  lemma TrimStartKeeps(s: string, k: int)
    requires 0 <= k < |s| && !IsSpace(s[k])
    ensures |s| - |TrimStart(s)| <= k && TrimStart(s)[k - (|s| - |TrimStart(s)|)] == s[k]
  {
    var t0 := TrimStart(s);
    var lo := |s| - |t0|;
    assert k >= lo;
    assert t0[k - lo] == s[lo..][k - lo];
  }

  /** A character that is not white space survives `rstrip()` in place. */
  lemma TrimEndKeeps(t: string, k: int)
    requires 0 <= k < |t| && !IsSpace(t[k])
    ensures k < |TrimEnd(t)| && TrimEnd(t)[k] == t[k]
  {
    var r := TrimEnd(t);
    assert k < |r|;
    assert r[k] == t[..|r|][k];
  }

  lemma LiteralRejects(t: string, k: int)
    requires 0 <= k < |t|
    requires !IsDigit(t[k]) && t[k] != '+' && t[k] != '-' && t[k] != '_'
    ensures ParseLiteral(t) == Failure(ValueError)
  {
    var signed := |t| > 0 && (t[0] == '-' || t[0] == '+');
    var body := if signed then t[1..] else t;
    var j := if signed then k - 1 else k;
    assert 0 <= j < |body| && body[j] == t[k];
    assert !IsDigit(body[j]) && body[j] != '_';
  }
}
