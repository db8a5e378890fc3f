/** Python's `float(value)` on the values a price field can hold, and the
    `_safe_float` helper built on it (src/streaming_processor.py:42-52 and its
    identical copy src/processor.py:24-34).

    String conversion follows the finite decimal grammar of `float(str)`:
    surrounding ASCII whitespace, an optional sign, digits with an optional
    decimal point (at least one digit in all) and an optional exponent. */
module FloatParse {
  import opened Common

  /** The whitespace `float()` strips from both ends of a string. */
  predicate IsSpace(c: char) {
    c == ' ' || c == '\t' || c == '\n' || c == '\r' || c == '\U{0B}' || c == '\U{0C}'
  }

  predicate IsDigit(c: char) {
    '0' <= c <= '9'
  }

  predicate AllDigits(s: string) {
    forall i :: 0 <= i < |s| ==> IsDigit(s[i])
  }

  function DigitValue(c: char): nat
    requires IsDigit(c)
  {
    (c as int) - ('0' as int)
  }

  /** The number a string of decimal digits denotes, most significant first. */
  function DigitsValue(s: string): nat
    requires AllDigits(s)
    decreases |s|
  {
    if s == [] then 0 else DigitsValue(s[..|s| - 1]) * 10 + DigitValue(s[|s| - 1])
  }

  function Pow10(k: nat): (r: nat)
    ensures r >= 1
  {
    if k == 0 then 1 else 10 * Pow10(k - 1)
  }

  function StripLeft(s: string): string
    decreases |s|
  {
    if s != [] && IsSpace(s[0]) then StripLeft(s[1..]) else s
  }

  function StripRight(s: string): string
    decreases |s|
  {
    if s != [] && IsSpace(s[|s| - 1]) then StripRight(s[..|s| - 1]) else s
  }

  function Strip(s: string): string {
    StripRight(StripLeft(s))
  }

  /** Index of the first occurrence of `a` or `b` in `s`, or `|s|` when neither occurs. */
  function Find(s: string, a: char, b: char): (r: nat)
    ensures r <= |s|
    ensures forall j :: 0 <= j < r ==> s[j] != a && s[j] != b
    ensures r < |s| ==> s[r] == a || s[r] == b
    decreases |s|
  {
    if s == [] then 0
    else if s[0] == a || s[0] == b then 0
    else 1 + Find(s[1..], a, b)
  }

  /** `x * 10^e` for a possibly negative exponent. */
  function Scale(x: real, e: int): real {
    if e >= 0 then x * Pow10(e) as real else x / Pow10(-e) as real
  }

  /** The value of `whole.frac`. */
  function PointValue(whole: string, frac: string): real
    requires AllDigits(whole) && AllDigits(frac)
  {
    DigitsValue(whole) as real + DigitsValue(frac) as real / Pow10(|frac|) as real
  }

  /** Digits with an optional decimal point, e.g. `12`, `12.5`, `.5`, `12.`. */
  function ParseMantissa(m: string): Option<real> {
    var dot := Find(m, '.', '.');
    var whole := m[..dot];
    var frac := if dot < |m| then m[dot + 1..] else [];
    if AllDigits(whole) && AllDigits(frac) && |whole| + |frac| > 0 then
      Some(PointValue(whole, frac))
    else
      None
  }

  /** An exponent after `e`/`E`: optional sign and at least one digit. */
  function ParseExponent(e: string): Option<int> {
    var negative := e != [] && e[0] == '-';
    var digits := if e != [] && (e[0] == '+' || e[0] == '-') then e[1..] else e;
    if digits != [] && AllDigits(digits) then
      Some(if negative then -(DigitsValue(digits) as int) else DigitsValue(digits))
    else
      None
  }

  /** An unsigned decimal number with an optional exponent. */
  function ParseUnsigned(u: string): Option<real> {
    var ePos := Find(u, 'e', 'E');
    var mantissa := ParseMantissa(u[..ePos]);
    if mantissa.None? then None
    else if ePos == |u| then mantissa
    else
      var exponent := ParseExponent(u[ePos + 1..]);
      if exponent.None? then None else Some(Scale(mantissa.value, exponent.value))
  }

  /** `float(s)` for a string `s`; `None` where Python raises `ValueError`. */
  function ParseDecimal(s: string): Option<real> {
    var t := Strip(s);
    if t != [] && (t[0] == '+' || t[0] == '-') then
      var u := ParseUnsigned(t[1..]);
      if u.None? then None else Some(if t[0] == '-' then -u.value else u.value)
    else
      ParseUnsigned(t)
  }

  /** `float(value)` for a decoded JSON value; `None` where Python raises
      `ValueError` or `TypeError` (null, lists, objects, malformed strings). */
  function ToFloat(v: Json): (r: Option<real>)
    ensures v.JNum? ==> r == Some(v.n)
    ensures v.JNull? || v.JArray? || v.JObject? ==> r.None?
  {
    match v
    case JNull => None
    case JBool(b) => Some(if b then 1.0 else 0.0)
    case JNum(n) => Some(n)
    case JStr(s) => ParseDecimal(s)
    case JArray(_) => None
    case JObject(_) => None
  }

  /** `_safe_float(obj, key)`: the number under `key` of a price object, or
      `None` when the object is missing, the key is missing or null, or the
      value does not convert. */
  function SafeFloat(obj: Option<Object>, key: string): (r: Option<real>)
    ensures r.None? <==>
              || obj.None?
              || key !in obj.value
              || obj.value[key] == JNull
              || ToFloat(obj.value[key]).None?
    ensures r.Some? ==> r == ToFloat(obj.value[key])
  {
    if obj.None? then None
    else
      var v := Get(obj.value, key);
      if v.None? || v.value == JNull then None else ToFloat(v.value)
  }

  // ---------------------------------------------------------------------
  // Only text holding a digit converts

  /** A string `float()` accepts contains at least one decimal digit: blank,
      sign-only, point-only and exponent-only text is rejected. */
  lemma ConvertibleHasDigit(s: string)
    requires ParseDecimal(s).Some?
    ensures exists i :: 0 <= i < |s| && IsDigit(s[i])
  {
    var t := Strip(s);
    if t != [] && (t[0] == '+' || t[0] == '-') {
      DigitOfTail(t, ParseUnsigned(t[1..]));
    } else {
      DigitOfWhole(t);
    }
    var i :| 0 <= i < |t| && IsDigit(t[i]);
    StripIsSlice(s);
    var a, b :| 0 <= a <= b <= |s| && t == s[a..b];
    assert s[a + i] == t[i];
  }

  // Helpers for ConvertibleHasDigit

  lemma StripLeftIsSuffix(s: string)
    ensures exists k :: 0 <= k <= |s| && StripLeft(s) == s[k..]
    decreases |s|
  {
    if s != [] && IsSpace(s[0]) {
      StripLeftIsSuffix(s[1..]);
      var k :| 0 <= k <= |s[1..]| && StripLeft(s[1..]) == s[1..][k..];
      assert s[1..][k..] == s[k + 1..];
    } else {
      assert s == s[0..];
    }
  }

  lemma StripRightIsPrefix(s: string)
    ensures exists k :: 0 <= k <= |s| && StripRight(s) == s[..k]
    decreases |s|
  {
    if s != [] && IsSpace(s[|s| - 1]) {
      StripRightIsPrefix(s[..|s| - 1]);
      var k :| 0 <= k <= |s[..|s| - 1]| && StripRight(s[..|s| - 1]) == s[..|s| - 1][..k];
      assert s[..|s| - 1][..k] == s[..k];
    } else {
      assert s == s[..|s|];
    }
  }

  /** `Strip(s)` is a slice of `s`. */
  lemma StripIsSlice(s: string)
    ensures exists a, b :: 0 <= a <= b <= |s| && Strip(s) == s[a..b]
  {
    StripLeftIsSuffix(s);
    var a :| 0 <= a <= |s| && StripLeft(s) == s[a..];
    StripRightIsPrefix(StripLeft(s));
    var k :| 0 <= k <= |StripLeft(s)| && StripRight(StripLeft(s)) == StripLeft(s)[..k];
    assert s[a..][..k] == s[a..a + k];
  }

  lemma MantissaHasDigit(m: string)
    requires ParseMantissa(m).Some?
    ensures exists i :: 0 <= i < |m| && IsDigit(m[i])
  {
    var dot := Find(m, '.', '.');
    if dot > 0 {
      assert IsDigit(m[..dot][0]);
      assert m[0] == m[..dot][0];
    } else {
      var frac := m[dot + 1..];
      assert IsDigit(frac[0]);
      assert m[dot + 1] == frac[0];
    }
  }

  lemma UnsignedHasDigit(u: string)
    requires ParseUnsigned(u).Some?
    ensures exists i :: 0 <= i < |u| && IsDigit(u[i])
  {
    var ePos := Find(u, 'e', 'E');
    MantissaHasDigit(u[..ePos]);
    var i :| 0 <= i < |u[..ePos]| && IsDigit(u[..ePos][i]);
    assert u[i] == u[..ePos][i];
  }

  lemma DigitOfTail(t: string, u: Option<real>)
    requires t != [] && u == ParseUnsigned(t[1..])
    ensures u.Some? ==> exists i :: 0 <= i < |t| && IsDigit(t[i])
  {
    if u.Some? {
      UnsignedHasDigit(t[1..]);
      var i :| 0 <= i < |t[1..]| && IsDigit(t[1..][i]);
      assert t[i + 1] == t[1..][i];
    }
  }

  lemma DigitOfWhole(t: string)
    ensures ParseUnsigned(t).Some? ==> exists i :: 0 <= i < |t| && IsDigit(t[i])
  {
    if ParseUnsigned(t).Some? {
      UnsignedHasDigit(t);
    }
  }

  // ---------------------------------------------------------------------
  // Round trips: the decimal text of a number converts back to that number

  function DigitChar(d: nat): (c: char)
    requires d < 10
    ensures IsDigit(c) && DigitValue(c) == d
  {
    (('0' as int) + d) as char
  }

  /** The canonical decimal text of a natural number (Python's `str(n)`). */
  function NatString(n: nat): (s: string)
    ensures s != [] && AllDigits(s)
  {
    if n < 10 then [DigitChar(n)] else NatString(n / 10) + [DigitChar(n % 10)]
  }

  lemma {:induction false} DigitsOfNatString(n: nat)
    ensures DigitsValue(NatString(n)) == n
  {
    var s := NatString(n);
    if n < 10 {
      assert s[..|s| - 1] == [];
    } else {
      assert s[..|s| - 1] == NatString(n / 10);
      DigitsOfNatString(n / 10);
    }
  }

  lemma StripOfDigits(s: string)
    requires s != [] && AllDigits(s)
    ensures Strip(s) == s
  {
    assert !IsSpace(s[0]) && !IsSpace(s[|s| - 1]);
  }

  /** A digit string with no point and no exponent reads as its digit value. */
  lemma UnsignedOfDigits(s: string)
    requires s != [] && AllDigits(s)
    ensures ParseUnsigned(s) == Some(DigitsValue(s) as real)
  {
    FindAt(s, 'e', 'E', |s|);
    FindAt(s, '.', '.', |s|);
    assert s[..|s|] == s;
    assert PointValue(s, []) == DigitsValue(s) as real;
  }

  /** `float(str(n)) == n` for every natural number `n`. */
  lemma ParseNatString(n: nat)
    ensures ParseDecimal(NatString(n)) == Some(n as real)
  {
    var s := NatString(n);
    StripOfDigits(s);
    DigitsOfNatString(n);
    UnsignedOfDigits(s);
    assert IsDigit(s[0]);
  }

  /** `Find` stops at the first marker. */
  lemma FindAt(s: string, a: char, b: char, k: nat)
    requires k <= |s|
    requires forall j :: 0 <= j < k ==> s[j] != a && s[j] != b
    requires k < |s| ==> s[k] == a || s[k] == b
    ensures Find(s, a, b) == k
  {
  }

  /** Reading `a.b` where `a` and `b` are digit strings. */
  lemma MantissaOfFraction(sa: string, sb: string)
    requires AllDigits(sa) && AllDigits(sb) && sb != []
    ensures ParseMantissa(sa + "." + sb) == Some(PointValue(sa, sb))
  {
    var m := sa + "." + sb;
    forall j | 0 <= j < |sa|
      ensures m[j] != '.'
    {
      assert m[j] == sa[j];
    }
    assert m[|sa|] == '.';
    FindAt(m, '.', '.', |sa|);
    assert m[..|sa|] == sa;
    assert m[|sa| + 1..] == sb;
  }

  /** `float("-" + whole + "." + frac)` for digit strings `whole` and `frac`
      is minus `whole` plus `frac` scaled by its number of digits: sign,
      point and both digit runs are read back. */
  lemma ParseNegativeFraction(whole: string, frac: string)
    requires AllDigits(whole) && AllDigits(frac) && frac != []
    ensures ParseDecimal("-" + (whole + "." + frac)) == Some(-PointValue(whole, frac))
  {
    UnsignedOfFraction(whole, frac);
    LastOfFraction(whole, frac);
    NegativeOf(whole + "." + frac, PointValue(whole, frac));
  }

  lemma LastOfFraction(sa: string, sb: string)
    requires AllDigits(sb) && sb != []
    ensures var u := sa + "." + sb; u != [] && !IsSpace(u[|u| - 1])
  {
    var u := sa + "." + sb;
    assert u[|u| - 1] == sb[|sb| - 1];
  }

  /** `-u`, with `u` ending in a non-space, reads as minus the reading of `u`. */
  lemma NegativeOf(u: string, v: real)
    requires u != [] && !IsSpace(u[|u| - 1])
    requires ParseUnsigned(u) == Some(v)
    ensures ParseDecimal("-" + u) == Some(-v)
  {
    var s := "-" + u;
    assert s[1..] == u;
    assert Strip(s) == s;
  }

  /** `a.b` with no exponent reads as its point value. */
  lemma UnsignedOfFraction(sa: string, sb: string)
    requires AllDigits(sa) && AllDigits(sb) && sb != []
    ensures ParseUnsigned(sa + "." + sb) == Some(PointValue(sa, sb))
  {
    var u := sa + "." + sb;
    forall j | 0 <= j < |u|
      ensures u[j] != 'e' && u[j] != 'E'
    {
      if j < |sa| { assert u[j] == sa[j]; }
      else if j > |sa| { assert u[j] == sb[j - |sa| - 1]; }
    }
    FindAt(u, 'e', 'E', |u|);
    assert u[..|u|] == u;
    MantissaOfFraction(sa, sb);
  }

  /** `float(whole + "." + frac)` for digit strings `whole` and `frac`, as a
      price such as `12.50` or `.5` is written: the point value. */
  lemma ParsePointFraction(whole: string, frac: string)
    requires AllDigits(whole) && AllDigits(frac) && frac != []
    ensures ParseDecimal(whole + "." + frac) == Some(PointValue(whole, frac))
  {
    var u := whole + "." + frac;
    UnsignedOfFraction(whole, frac);
    LastOfFraction(whole, frac);
    assert u[0] == (if whole != [] then whole[0] else '.');
    assert !IsSpace(u[0]) && u[0] != '+' && u[0] != '-';
    assert Strip(u) == u;
  }

  /** A non-empty digit string after `e` reads as its value. */
  lemma ExponentOfDigits(exp: string)
    requires exp != [] && AllDigits(exp)
    ensures ParseExponent(exp) == Some(DigitsValue(exp) as int)
  {
    assert IsDigit(exp[0]);
  }

  /** A digit string with no point reads as its digit value. */
  lemma MantissaOfDigits(digits: string)
    requires digits != [] && AllDigits(digits)
    ensures ParseMantissa(digits) == Some(DigitsValue(digits) as real)
  {
    FindAt(digits, '.', '.', |digits|);
    assert digits[..|digits|] == digits;
    assert PointValue(digits, []) == DigitsValue(digits) as real;
  }

  /** `digits e exp`, without sign, reads as the scaled digit value. */
  lemma UnsignedScientific(digits: string, exp: string)
    requires digits != [] && AllDigits(digits)
    requires exp != [] && AllDigits(exp)
    ensures ParseUnsigned(digits + "e" + exp)
            == Some(Scale(DigitsValue(digits) as real, DigitsValue(exp)))
  {
    var u := digits + "e" + exp;
    forall j | 0 <= j < |digits|
      ensures u[j] != 'e' && u[j] != 'E'
    {
      assert u[j] == digits[j];
    }
    assert u[|digits|] == 'e';
    FindAt(u, 'e', 'E', |digits|);
    assert u[..|digits|] == digits;
    assert u[|digits| + 1..] == exp;
    MantissaOfDigits(digits);
    ExponentOfDigits(exp);
  }

  /** `float(digits + "e" + exp)` for digit strings `digits` and `exp`:
      the digit value scaled by ten to the power of the exponent's value. */
  lemma ParseScientific(digits: string, exp: string)
    requires digits != [] && AllDigits(digits)
    requires exp != [] && AllDigits(exp)
    ensures ParseDecimal(digits + "e" + exp)
            == Some(Scale(DigitsValue(digits) as real, DigitsValue(exp)))
  {
    var u := digits + "e" + exp;
    UnsignedScientific(digits, exp);
    assert u[0] == digits[0] && u[|u| - 1] == exp[|exp| - 1];
    assert !IsSpace(u[0]) && u[0] != '+' && u[0] != '-' && !IsSpace(u[|u| - 1]);
    assert Strip(u) == u;
  }
}
