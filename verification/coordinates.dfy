/**
  Conversion of a DMS coordinate ("40-26-46N") to signed decimal degrees.
  The callers pass 180 as the maximum degree for longitude and 90 for
  latitude.
 */
module Coordinates {
  import opened Values
  import opened Errors
  import opened Strings
  import opened Numerals

  const Hemispheres: seq<char> := ['N', 'S', 'W', 'E']

  /** The hemispheres whose coordinates are negative. */
  const NegativeSign: seq<char> := ['S', 'W']

  /** The fields of a DMS coordinate as read from its text. */
  datatype Dms = Dms(degrees: int, minutes: int, seconds: real, hemisphere: char)

  /** Reads the hemisphere letter (the last character) and the three
      hyphen-separated fields before it: integer degrees, integer minutes,
      numeric seconds. None when any of them is malformed. */
  function ReadDms(coord: string): (r: Option<Dms>)
    requires |coord| >= 1
    ensures r.Some? ==> r.value.hemisphere == coord[|coord| - 1] && r.value.hemisphere in Hemispheres
    ensures r.Some? ==> r.value.degrees >= 0 && r.value.minutes >= 0 && r.value.seconds >= 0.0
    ensures r.Some? ==> multiset(coord[..|coord| - 1])['-'] == 2
  {
    var h := coord[|coord| - 1];
    if h !in Hemispheres then None
    else
      var parts := Split(coord[..|coord| - 1], '-');
      if |parts| != 3 then None
      else
        match (ParseInt(parts[0]), ParseInt(parts[1]), ParseFloat(parts[2]))
        case (Some(d), Some(m), Some(s)) => Some(Dms(d, m, s, h))
        case _ => None
  }

  /** The range checks: degrees up to the maximum, minutes and seconds below
      60, and nothing past the maximum degree itself. */
  predicate InRange(x: Dms, maxDegree: int) {
    && 0 <= x.degrees <= maxDegree
    && 0 <= x.minutes < 60
    && 0.0 <= x.seconds < 60.0
    && (x.degrees == maxDegree ==> x.minutes == 0 && x.seconds == 0.0)
  }

  /** The unsigned decimal-degree value d + m/60 + s/3600. */
  function Magnitude(x: Dms): real {
    x.degrees as real + x.minutes as real / 60.0 + x.seconds / 3600.0
  }

  /** The decimal-degree value with the hemisphere's sign. */
  function SignedDegrees(x: Dms): real {
    if x.hemisphere in NegativeSign then -Magnitude(x) else Magnitude(x)
  }

  /** An in-range coordinate lies within [-maxDegree, maxDegree]. */
  lemma InRangeBounded(x: Dms, maxDegree: int)
    requires InRange(x, maxDegree)
    ensures 0.0 <= Magnitude(x) <= maxDegree as real
  {
    if x.degrees < maxDegree {
      assert x.minutes as real / 60.0 <= 59.0 / 60.0;
      assert x.seconds / 3600.0 < 1.0 / 60.0;
    }
  }

  /** `dms_to_dd`: a CoordinateError for a bad hemisphere, a malformed field
      or a value out of range; otherwise the signed decimal degrees. */
  function DmsToDd(coord: string, maxDegree: int): (r: Result<real>)
    requires |coord| >= 1
    ensures r.Err? ==> r.error == CoordinateError(None)
    ensures coord[|coord| - 1] !in Hemispheres ==> r.Err?
    ensures r.Ok? ==> multiset(coord[..|coord| - 1])['-'] == 2
    ensures r.Ok? ==> ReadDms(coord).Some? && InRange(ReadDms(coord).value, maxDegree)
    ensures r.Ok? ==> -maxDegree as real <= r.value <= maxDegree as real
    ensures r.Ok? ==> var x := ReadDms(coord).value;
                      && (r.value == Magnitude(x) || r.value == -Magnitude(x))
                      && (r.value < 0.0 ==> x.hemisphere in NegativeSign)
                      && (r.value > 0.0 ==> x.hemisphere !in NegativeSign)
  {
    match ReadDms(coord)
    case None => Err(CoordinateError(None))
    case Some(x) =>
      if !InRange(x, maxDegree) then Err(CoordinateError(None))
      else
        InRangeBounded(x, maxDegree);
        Ok(SignedDegrees(x))
  }

  /** Three hyphen-free fields joined by hyphens split back into themselves. */
  lemma SplitThree(dText: string, mText: string, sText: string)
    requires '-' !in dText && '-' !in mText && '-' !in sText
    ensures Split(dText + "-" + mText + "-" + sText, '-') == [dText, mText, sText]
  {
    var tail := mText + ['-'] + sText;
    JoinedThree(dText, mText, sText);
    SplitTwo(mText, sText);
    SplitAfterPiece(dText, tail, '-');
  }

  lemma JoinedThree(a: string, b: string, c: string)
    ensures a + "-" + b + "-" + c == a + ['-'] + (b + ['-'] + c)
  {
  }

  lemma SplitTwo(a: string, b: string)
    requires '-' !in a && '-' !in b
    ensures Split(a + ['-'] + b, '-') == [a, b]
  {
    SplitAfterPiece(a, b, '-');
    assert Split(b, '-') == [b];
  }

  /** `ReadDms` on "D-M-SH" with hyphen-free fields reads exactly D, M, S, H. */
  lemma ReadDmsFields(dText: string, mText: string, sText: string, h: char)
    requires '-' !in dText && '-' !in mText && '-' !in sText
    ensures var d, m, s := ParseInt(dText), ParseInt(mText), ParseFloat(sText);
            ReadDms(dText + "-" + mText + "-" + sText + [h])
              == if h in Hemispheres && d.Some? && m.Some? && s.Some?
                 then Some(Dms(d.value, m.value, s.value, h)) else None
  {
    var body := dText + "-" + mText + "-" + sText;
    var coord := body + [h];
    assert coord[|coord| - 1] == h;
    assert coord[..|coord| - 1] == body;
    SplitThree(dText, mText, sText);
  }

  /** Acceptance in terms of the text's own fields: "D-M-SH" with no hyphen
      inside a field converts exactly when the hemisphere is one of N, S, W,
      E, D and M are integer literals, S is a decimal literal and the values
      are in range; the result is then D + M/60 + S/3600, negated for S and W. */
  lemma DmsFromFields(dText: string, mText: string, sText: string, h: char, maxDegree: int)
    requires '-' !in dText && '-' !in mText && '-' !in sText
    ensures var r := DmsToDd(dText + "-" + mText + "-" + sText + [h], maxDegree);
            var d, m, s := ParseInt(dText), ParseInt(mText), ParseFloat(sText);
            && (r.Ok? <==> (&& h in Hemispheres && d.Some? && m.Some? && s.Some?
                            && InRange(Dms(d.value, m.value, s.value, h), maxDegree)))
            && (r.Ok? ==> r.value == SignedDegrees(Dms(d.value, m.value, s.value, h)))
  {
    var coord := dText + "-" + mText + "-" + sText + [h];
    ReadDmsFields(dText, mText, sText, h);
    DmsToDdOfRead(coord, maxDegree);
  }

  /** `dms_to_dd` in terms of what `ReadDms` reads. */
  lemma DmsToDdOfRead(coord: string, maxDegree: int)
    requires |coord| >= 1
    ensures DmsToDd(coord, maxDegree)
              == if ReadDms(coord).Some? && InRange(ReadDms(coord).value, maxDegree)
                 then Ok(SignedDegrees(ReadDms(coord).value)) else Err(CoordinateError(None))
  {
  }

  /** The reference formula on digit fields: rendering whole degrees,
      minutes and seconds as digits joined by hyphens, plus a hemisphere
      letter, converts to d + m/60 + s/3600 with the hemisphere's sign, or
      fails exactly when the letter or a range check fails. */
  lemma DmsFromDigits(dText: string, mText: string, sText: string, h: char, maxDegree: int)
    requires |dText| > 0 && |mText| > 0 && |sText| > 0
    requires AllDigits(dText) && AllDigits(mText) && AllDigits(sText)
    ensures var x := Dms(DigitsValue(dText), DigitsValue(mText), DigitsValue(sText) as real, h);
            DmsToDd(dText + "-" + mText + "-" + sText + [h], maxDegree)
              == if h in Hemispheres && InRange(x, maxDegree) then Ok(SignedDegrees(x))
                 else Err(CoordinateError(None))
  {
    DigitsExclude(dText);
    DigitsExclude(mText);
    DigitsExclude(sText);
    ParseIntDigits(dText);
    ParseIntDigits(mText);
    ParseFloatDigits(sText);
    DmsFromFields(dText, mText, sText, h, maxDegree);
  }

  /** The same with fractional seconds written `w.f`. */
  lemma DmsFromDecimalSeconds(dText: string, mText: string, sWhole: string, sFrac: string, h: char, maxDegree: int)
    requires |dText| > 0 && |mText| > 0 && |sWhole| > 0
    requires AllDigits(dText) && AllDigits(mText) && AllDigits(sWhole) && AllDigits(sFrac)
    ensures var x := Dms(DigitsValue(dText), DigitsValue(mText), DecimalValue(sWhole, sFrac), h);
            DmsToDd(dText + "-" + mText + "-" + (sWhole + "." + sFrac) + [h], maxDegree)
              == if h in Hemispheres && InRange(x, maxDegree) then Ok(SignedDegrees(x))
                 else Err(CoordinateError(None))
  {
    DigitsExclude(dText);
    DigitsExclude(mText);
    DigitsExclude(sWhole);
    DigitsExclude(sFrac);
    assert '-' !in sWhole + "." + sFrac;
    ParseIntDigits(dText);
    ParseIntDigits(mText);
    ParseFloatDecimal(sWhole, sFrac);
    DmsFromFields(dText, mText, sWhole + "." + sFrac, h, maxDegree);
  }

  /** At the maximum degree only zero minutes and seconds pass. */
  lemma {:induction false} AtMaximumDegree(dText: string, mText: string, sText: string, h: char, maxDegree: int)
    requires '-' !in dText && '-' !in mText && '-' !in sText
    requires h in Hemispheres && ParseInt(dText) == Some(maxDegree) && maxDegree >= 0
    requires ParseInt(mText).Some? && ParseFloat(sText).Some?
    ensures var r := DmsToDd(dText + "-" + mText + "-" + sText + [h], maxDegree);
            && (r.Ok? <==> ParseInt(mText) == Some(0) && ParseFloat(sText) == Some(0.0))
            && (r.Ok? ==> r.value == if h in NegativeSign then -maxDegree as real else maxDegree as real)
  {
    DmsFromFields(dText, mText, sText, h, maxDegree);
  }

  /** "180-00-00W" is -180. */
  lemma DmsToDdAtMaximum()
    ensures DmsToDd("180-00-00W", 180) == Ok(-180.0)
  {
    ZeroAtMaximumWitness("180-00-00W", "180", "00");
  }

  /** "180-00-01W" is rejected: one second past the maximum. */
  lemma DmsToDdPastMaximum()
    ensures DmsToDd("180-00-01W", 180) == Err(CoordinateError(None))
  {
    PastMaximumWitness("180-00-01W", "180", "00", "01");
  }

  /** The reference conversion: "40-26-46N" is 40 + 26/60 + 46/3600
      (about 40.446111) degrees north. */
  lemma DmsToDdReference()
    ensures DmsToDd("40-26-46N", 90) == Ok(145606.0 / 3600.0)
  {
    ReferenceWitness("40-26-46N", "40", "26", "46");
  }

  /** Fractional seconds are read as a decimal: "77-01-30.5W" is
      -(77 + 1/60 + 30.5/3600). */
  lemma DmsToDdFractionalSeconds()
    ensures DmsToDd("77-01-30.5W", 180) == Ok(-(77.0 + 1.0 / 60.0 + 30.5 / 3600.0))
  {
    FractionWitness("77-01-30.5W", "77", "01", "30", "5");
  }

  /** The hemisphere letter is not checked against the maximum: a latitude
      letter converts under the longitude maximum of 180. */
  lemma HemisphereNotCrossChecked()
    ensures DmsToDd("100-00-00N", 180) == Ok(100.0)
  {
    LatitudeLetterWitness("100-00-00N", "100", "00");
  }

  /** ... and a longitude letter past 90 is refused only because of the
      maximum passed in. */
  lemma MaximumDecidesRange()
    ensures DmsToDd("100-00-00E", 90) == Err(CoordinateError(None))
  {
    LongitudeLetterWitness("100-00-00E", "100", "00");
  }

  /** A letter other than N, S, W, E in last place is rejected even when the
      fields before it are valid. */
  lemma DmsToDdBadHemisphere()
    ensures DmsToDd("40-26-46X", 90) == Err(CoordinateError(None))
  {
    BadHemisphereWitness("40-26-46X");
  }

  // The concrete conversions above are proved through the witnesses below.
  // Each takes the coordinate text and its fields as parameters and
  // requires them character by character, so the verifier reasons about the
  // fields symbolically instead of unfolding the literal strings.

  lemma ZeroAtMaximumWitness(coord: string, d: string, z: string)
    requires |d| == 3 && d[0] == '1' && d[1] == '8' && d[2] == '0'
    requires |z| == 2 && z[0] == '0' && z[1] == '0'
    requires coord == d + "-" + z + "-" + z + ['W']
    ensures DmsToDd(coord, 180) == Ok(-180.0)
  {
    ThreeDigitsValue(d);
    TwoDigitsValue(z);
    DmsFromDigits(d, z, z, 'W', 180);
  }

  lemma PastMaximumWitness(coord: string, d: string, z: string, s: string)
    requires |d| == 3 && d[0] == '1' && d[1] == '8' && d[2] == '0'
    requires |z| == 2 && z[0] == '0' && z[1] == '0'
    requires |s| == 2 && s[0] == '0' && s[1] == '1'
    requires coord == d + "-" + z + "-" + s + ['W']
    ensures DmsToDd(coord, 180) == Err(CoordinateError(None))
  {
    ThreeDigitsValue(d);
    TwoDigitsValue(z);
    TwoDigitsValue(s);
    DmsFromDigits(d, z, s, 'W', 180);
  }

  lemma ReferenceWitness(coord: string, d: string, m: string, s: string)
    requires |d| == 2 && d[0] == '4' && d[1] == '0'
    requires |m| == 2 && m[0] == '2' && m[1] == '6'
    requires |s| == 2 && s[0] == '4' && s[1] == '6'
    requires coord == d + "-" + m + "-" + s + ['N']
    ensures DmsToDd(coord, 90) == Ok(145606.0 / 3600.0)
  {
    TwoDigitsValue(d);
    TwoDigitsValue(m);
    TwoDigitsValue(s);
    ReferenceArithmetic();
    DmsFromDigits(d, m, s, 'N', 90);
  }

  lemma ReferenceArithmetic()
    ensures InRange(Dms(40, 26, 46.0, 'N'), 90)
    ensures SignedDegrees(Dms(40, 26, 46.0, 'N')) == 145606.0 / 3600.0
  {
  }

  lemma FractionWitness(coord: string, d: string, m: string, w: string, f: string)
    requires |d| == 2 && d[0] == '7' && d[1] == '7'
    requires |m| == 2 && m[0] == '0' && m[1] == '1'
    requires |w| == 2 && w[0] == '3' && w[1] == '0'
    requires |f| == 1 && f[0] == '5'
    requires coord == d + "-" + m + "-" + (w + "." + f) + ['W']
    ensures DmsToDd(coord, 180) == Ok(-(77.0 + 1.0 / 60.0 + 30.5 / 3600.0))
  {
    TwoDigitsValue(d);
    TwoDigitsValue(m);
    TwoDigitsValue(w);
    assert f[..0] == [];
    assert DigitsValue(f) == 5;
    assert Pow10(|f|) == 10;
    assert DecimalValue(w, f) == 30.5;
    DmsFromDecimalSeconds(d, m, w, f, 'W', 180);
  }

  lemma LatitudeLetterWitness(coord: string, d: string, z: string)
    requires |d| == 3 && d[0] == '1' && d[1] == '0' && d[2] == '0'
    requires |z| == 2 && z[0] == '0' && z[1] == '0'
    requires coord == d + "-" + z + "-" + z + ['N']
    ensures DmsToDd(coord, 180) == Ok(100.0)
  {
    ThreeDigitsValue(d);
    TwoDigitsValue(z);
    assert SignedDegrees(Dms(100, 0, 0.0, 'N')) == 100.0;
    DmsFromDigits(d, z, z, 'N', 180);
  }

  lemma LongitudeLetterWitness(coord: string, d: string, z: string)
    requires |d| == 3 && d[0] == '1' && d[1] == '0' && d[2] == '0'
    requires |z| == 2 && z[0] == '0' && z[1] == '0'
    requires coord == d + "-" + z + "-" + z + ['E']
    ensures DmsToDd(coord, 90) == Err(CoordinateError(None))
  {
    ThreeDigitsValue(d);
    TwoDigitsValue(z);
    DmsFromDigits(d, z, z, 'E', 90);
  }

  lemma BadHemisphereWitness(coord: string)
    requires |coord| == 9 && coord[8] == 'X'
    ensures DmsToDd(coord, 90) == Err(CoordinateError(None))
  {
  }
}
