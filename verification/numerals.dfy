/**
  Python's `int()` and `float()` applied to text, as a decimal grammar over
  exact integers and reals.
 */
module Numerals {
  import opened Values
  import opened Strings

  predicate IsDigit(c: char) {
    '0' <= c <= '9'
  }

  predicate AllDigits(s: string) {
    forall i :: 0 <= i < |s| ==> IsDigit(s[i])
  }

  /** The number a run of decimal digits denotes ("" denotes 0). */
  function DigitsValue(s: string): nat
    requires AllDigits(s)
  {
    if |s| == 0 then 0
    else DigitsValue(s[..|s| - 1]) * 10 + (s[|s| - 1] as int - '0' as int)
  }

  function Pow10(n: nat): (p: nat)
    ensures p >= 1
  {
    if n == 0 then 1 else 10 * Pow10(n - 1)
  }

  /** The value of the decimal `w.f`. */
  function DecimalValue(w: string, f: string): (r: real)
    requires AllDigits(w) && AllDigits(f)
    ensures r >= 0.0
  {
    var frac := DigitsValue(f) as real / Pow10(|f|) as real;
    assert frac >= 0.0;
    DigitsValue(w) as real + frac
  }

  /** `magnitude` with the sign of `t`'s leading character applied. */
  function Signed(t: string, magnitude: real): real {
    if SignOf(t) < 0 then -magnitude else magnitude
  }

  /** The sign an optional leading '+' or '-' gives. */
  function SignOf(t: string): int {
    if |t| > 0 && t[0] == '-' then -1 else 1
  }

  /** The text after an optional leading '+' or '-'. */
  function Unsigned(t: string): string {
    if |t| > 0 && (t[0] == '+' || t[0] == '-') then t[1..] else t
  }

  /** `int(s)` on text: optional white space, an optional sign, one or more
      decimal digits, optional white space. Anything else is None (Python
      raises ValueError). */
  function ParseInt(s: string): (r: Option<int>)
    ensures '-' !in s && r.Some? ==> r.value >= 0
    ensures r.Some? ==> exists i :: 0 <= i < |s| && IsDigit(s[i])
  {
    var t := Strip(s);
    var body := Unsigned(t);
    StripKeeps(s);
    if |body| > 0 && AllDigits(body) then
      assert t[|t| - 1] == body[|body| - 1];
      Some(SignOf(t) * DigitsValue(body))
    else None
  }

  /** `float(s)` on text: optional white space, an optional sign, digits
      with at most one decimal point and at least one digit, optional white
      space. Exponents, "inf" and "nan" are not part of this grammar. */
  function ParseFloat(s: string): (r: Option<real>)
    ensures '-' !in s && r.Some? ==> r.value >= 0.0
  {
    var t := Strip(s);
    var body := Unsigned(t);
    StripKeeps(s);
    assert '-' !in s ==> SignOf(t) == 1;
    if '.' in body then
      var i := IndexOf(body, '.');
      var w := body[..i];
      var f := body[i + 1..];
      if AllDigits(w) && AllDigits(f) && |w| + |f| > 0 then
        Some(Signed(t, DecimalValue(w, f)))
      else None
    else if |body| > 0 && AllDigits(body) then
      Some(Signed(t, DigitsValue(body) as real))
    else None
  }

  /** Stripping only removes characters. */
  lemma StripKeeps(s: string)
    ensures forall c :: c in Strip(s) ==> c in s
  {
    var lead :| StrippedAt(s, Strip(s), lead);
  }

  /** A run of digits is its own stripped, unsigned body. */
  lemma DigitsUnpadded(s: string)
    requires |s| > 0 && AllDigits(s)
    ensures Strip(s) == s && Unsigned(s) == s && SignOf(s) == 1
  {
    assert IsDigit(s[0]) && IsDigit(s[|s| - 1]);
    StripUnpadded(s);
  }

  /** A run of digits is read by `int()` as the number it denotes. */
  lemma ParseIntDigits(s: string)
    requires |s| > 0 && AllDigits(s)
    ensures ParseInt(s) == Some(DigitsValue(s))
  {
    DigitsUnpadded(s);
  }

  /** A run of digits is read by `float()` as the number it denotes. */
  lemma ParseFloatDigits(s: string)
    requires |s| > 0 && AllDigits(s)
    ensures ParseFloat(s) == Some(DigitsValue(s) as real)
  {
    DigitsUnpadded(s);
    assert forall i :: 0 <= i < |s| ==> s[i] != '.';
  }

  /** `w.f` with `w` non-empty is read by `float()` as its decimal value. */
  lemma ParseFloatDecimal(w: string, f: string)
    requires |w| > 0 && AllDigits(w) && AllDigits(f)
    ensures ParseFloat(w + "." + f) == Some(DecimalValue(w, f))
  {
    var s := w + "." + f;
    DecimalUnpadded(w, f);
    assert s[|w|] == '.';
    assert s[..|w|] == w;
    DigitsExclude(w);
    assert IndexOf(s, '.') == |w|;
    assert s[|w| + 1..] == f;
  }

  /** A decimal w.f with `w` non-empty is its own stripped, unsigned body. */
  lemma DecimalUnpadded(w: string, f: string)
    requires |w| > 0 && AllDigits(w) && AllDigits(f)
    ensures Strip(w + "." + f) == w + "." + f
    ensures Unsigned(w + "." + f) == w + "." + f && SignOf(w + "." + f) == 1
    ensures '.' in w + "." + f
  {
    var s := w + "." + f;
    assert s[0] == w[0] && IsDigit(w[0]);
    assert s[|w|] == '.';
    if |f| > 0 {
      assert s[|s| - 1] == f[|f| - 1];
    }
    StripUnpadded(s);
  }

  /** A single character is an integer literal exactly when it is a digit. */
  lemma ParseIntOneChar(c: char)
    ensures ParseInt([c]).Some? <==> IsDigit(c)
    ensures IsDigit(c) ==> ParseInt([c]) == Some(c as int - '0' as int)
  {
    if IsDigit(c) {
      ParseIntDigits([c]);
      assert [c][..0] == [];
    } else if !IsSpace(c) {
      StripUnpadded([c]);
    } else {
      assert StripStart([c]) == [];
    }
  }

  /** Digits never include the sign characters or the decimal point. */
  lemma DigitsExclude(s: string)
    requires AllDigits(s)
    ensures '-' !in s && '+' !in s && '.' !in s
  {
    assert forall i :: 0 <= i < |s| ==> s[i] != '-' && s[i] != '+' && s[i] != '.';
  }

  /** The value of a two-digit run. */
  lemma TwoDigitsValue(s: string)
    requires |s| == 2 && AllDigits(s)
    ensures DigitsValue(s) == (s[0] as int - '0' as int) * 10 + (s[1] as int - '0' as int)
  {
    assert s[..1][..0] == [];
    assert DigitsValue(s[..1]) == s[0] as int - '0' as int;
  }

  /** The value of a three-digit run. */
  lemma ThreeDigitsValue(s: string)
    requires |s| == 3 && AllDigits(s)
    ensures DigitsValue(s) == (s[0] as int - '0' as int) * 100 + (s[1] as int - '0' as int) * 10
                              + (s[2] as int - '0' as int)
  {
    TwoDigitsValue(s[..2]);
  }
}
