/** shorten of src/OpenLocationCode.php: remove the first four, six or
    eight characters of a full code when the reference location is close
    enough to the code's center that the removed pairs can be recovered
    from it. */
module Shortener {
  import opened Results
  import opened Alphabet
  import opened Validator
  import opened Normalizer
  import opened CodeAreas
  import opened Decoder
  import opened Extent

  /** The size in degrees of the cell of one to five pairs. */
  const PairResolutions: seq<real> := [20.0, 1.0, 0.05, 0.0025, 0.000125]

  function AbsReal(x: real): real
  {
    if x < 0.0 then -x else x
  }

  /** How far a reference point is from the center of an area: the larger
      of the latitude and the longitude distance, in degrees. */
  function CodeRange(area: CodeArea, latitude: real, longitude: real): (d: real)
    ensures d >= AbsReal(area.LatitudeCenter() - latitude)
    ensures d >= AbsReal(area.LongitudeCenter() - longitude)
    ensures d == AbsReal(area.LatitudeCenter() - latitude) || d == AbsReal(area.LongitudeCenter() - longitude)
  {
    MaxReal(AbsReal(area.LatitudeCenter() - latitude), AbsReal(area.LongitudeCenter() - longitude))
  }

  /** How many leading characters shorten removes at a given range: the
      most pairs (two, three or four) whose cell size, times 0.3, still
      exceeds the range, or none. */
  function TrimmedCount(range: real): (k: nat)
    ensures k == 0 || k == 4 || k == 6 || k == 8
    ensures k == 0 <==> range >= PairResolutions[1] * 0.3
    ensures k > 0 ==> range < PairResolutions[k / 2 - 1] * 0.3
    ensures 0 < k < 8 ==> range >= PairResolutions[k / 2] * 0.3
  {
    if range < PairResolutions[3] * 0.3 then 8
    else if range < PairResolutions[2] * 0.3 then 6
    else if range < PairResolutions[1] * 0.3 then 4
    else 0
  }

  /** shorten, as a function: the errors for a code that is not full or
      is padded (and for too few digits, which a full unpadded code never
      has), otherwise the upper-cased code without its first
      TrimmedCount(range) characters. */
  function ShortenedCode(code: string, latitude: real, longitude: real): Result<string>
  {
    if !IsFull(code) then Failure(InvalidCode)
    else if IndexOf(code, PaddingCharacter) != -1 then Failure(PaddedCode)
    else
      var upper := ToUpper(code);
      match DecodedArea(upper)
      case Failure(e) => Failure(e)
      case Success(area) =>
        if area.codeLength < MinTrimmableCodeLen then Failure(TooShort)
        else
          var range := CodeRange(area, ClipLatitude(latitude), NormalLongitude(longitude));
          Success(upper[TrimmedCount(range)..])
  }

  /** shorten as the PHP code runs it: the checks, decode, and the loop
      from the fourth pair resolution down to the second. */
  method Shorten(code: string, latitude: real, longitude: real) returns (r: Result<string>)
    ensures r == ShortenedCode(code, latitude, longitude)
  {
    if !IsFull(code) {
      return Failure(InvalidCode);
    }
    if IndexOf(code, PaddingCharacter) != -1 {
      return Failure(PaddedCode);
    }
    var upper := ToUpper(code);
    var decoded := Decode(upper);
    if decoded.Failure? {
      return Failure(decoded.error);
    }
    var area := decoded.value;
    if area.codeLength < MinTrimmableCodeLen {
      return Failure(TooShort);
    }
    var lat := ClipLatitude(latitude);
    var lng := NormalizeLongitude(longitude);
    var range := MaxReal(AbsReal(area.LatitudeCenter() - lat), AbsReal(area.LongitudeCenter() - lng));
    r := TrimPairs(upper, range);
  }

  /** The loop of shorten: from the fourth pair resolution down to the
      second, the first whose 0.3 fraction exceeds the range decides how
      many pairs go. */
  method TrimPairs(upper: string, range: real) returns (r: Result<string>)
    requires |upper| >= SeparatorPosition
    ensures r == Success(upper[TrimmedCount(range)..])
  {
    var i := |PairResolutions| - 2;
    while i > 0
      invariant 0 <= i <= |PairResolutions| - 2
      invariant forall j :: i < j <= |PairResolutions| - 2 ==> range >= PairResolutions[j] * 0.3
    {
      if range < PairResolutions[i] * 0.3 {
        return Success(upper[(i + 1) * 2..]);
      }
      i := i - 1;
    }
    return Success(upper);
  }

  // ---------------------------------------------------------------------
  // What shorten accepts and what it returns.

  /** A full code without padding has its separator at 8 and digits
      everywhere else. */
  lemma UnpaddedFull(code: string)
    requires IsFull(code) && IndexOf(code, PaddingCharacter) == -1
    ensures UnpaddedAt(code, SeparatorPosition)
  {
    FullShape(code);
  }

  /** Upper-casing keeps a full unpadded code full and unpadded. */
  lemma UpperUnpaddedFull(code: string)
    requires IsFull(code) && IndexOf(code, PaddingCharacter) == -1
    ensures IsFull(ToUpper(code)) && IndexOf(ToUpper(code), PaddingCharacter) == -1
    ensures UnpaddedAt(ToUpper(code), SeparatorPosition)
  {
    ShortFullUpper(code);
    UnpaddedFull(code);
    UpperUnpadded(code, SeparatorPosition);
    forall j | 0 <= j < |code|
      ensures ToUpper(code)[j] != PaddingCharacter
    {
      UpperCharKeeps(code[j]);
    }
  }

  /** A full unpadded code has at least eight significant digits. */
  lemma UnpaddedLength(code: string)
    requires UnpaddedAt(code, SeparatorPosition)
    ensures |Significant(code)| >= SeparatorPosition
  {
    UnpaddedStrip(code);
  }

  /** shorten fails exactly for a code that is not full (InvalidCode) and
      for a full code with padding (PaddedCode); the too-short error is
      never raised. */
  lemma ShortenErrors(code: string, latitude: real, longitude: real)
    ensures ShortenedCode(code, latitude, longitude).Failure? <==>
      !IsFull(code) || IndexOf(code, PaddingCharacter) != -1
    ensures ShortenedCode(code, latitude, longitude) == Failure(InvalidCode) <==> !IsFull(code)
    ensures ShortenedCode(code, latitude, longitude) == Failure(PaddedCode) <==>
      IsFull(code) && IndexOf(code, PaddingCharacter) != -1
  {
    if IsFull(code) && IndexOf(code, PaddingCharacter) == -1 {
      UpperUnpaddedFull(code);
      UnpaddedLength(ToUpper(code));
    }
  }

  /** On success shorten removes none or the first two, three or four
      pairs of the upper-cased code, and nothing else; the result still
      holds the separator and every character after it. */
  lemma ShortenTrimsPairs(code: string, latitude: real, longitude: real)
    ensures ShortenedCode(code, latitude, longitude).Success? ==>
      var s := ShortenedCode(code, latitude, longitude).value;
      var k := |code| - |s|;
      (k == 0 || k == 4 || k == 6 || k == 8) &&
      s == ToUpper(code)[k..] &&
      s[SeparatorPosition - k] == Separator &&
      s[SeparatorPosition - k + 1..] == ToUpper(code)[SeparatorPosition + 1..]
  {
    if ShortenedCode(code, latitude, longitude).Success? {
      UpperUnpaddedFull(code);
    }
  }

  /** A reference at least 0.3 degrees from the center leaves the code
      whole; one closer than 0.3 degrees always removes something. */
  lemma ShortenNearOrFar(code: string, latitude: real, longitude: real)
    requires IsFull(code) && IndexOf(code, PaddingCharacter) == -1
    ensures IsFull(ToUpper(code))
    ensures var area := DecodedArea(ToUpper(code)).value;
      var range := CodeRange(area, ClipLatitude(latitude), NormalLongitude(longitude));
      ShortenedCode(code, latitude, longitude).Success? &&
      (range >= 0.3 <==> ShortenedCode(code, latitude, longitude).value == ToUpper(code))
  {
    ShortenErrors(code, latitude, longitude);
    UpperUnpaddedFull(code);
  }

  /** Removing k of the leading digits of a full unpadded code leaves a
      short code, as long as some digit is left. */
  lemma TrimmedIsShort(upper: string, k: nat)
    requires UnpaddedAt(upper, SeparatorPosition)
    requires k == 4 || k == 6 || k == 8
    requires k < |upper| - 1
    ensures IsShort(upper[k..])
  {
    var s := upper[k..];
    var p := SeparatorPosition - k;
    assert UnpaddedAt(s, p);
    WellFormedIsValid(s);
    DigitsAreNotMarks(s);
    assert IndexOf(s, Separator) == p;
  }

  /** shorten returns the full code itself, or a short code as long as the
      full code has more than eight digits. */
  lemma ShortenIsShort(code: string, latitude: real, longitude: real)
    requires |code| > SeparatorPosition + 1
    ensures ShortenedCode(code, latitude, longitude).Success? ==>
      var s := ShortenedCode(code, latitude, longitude).value;
      (s == ToUpper(code) && IsFull(s)) || IsShort(s)
  {
    var r := ShortenedCode(code, latitude, longitude);
    if r.Success? {
      UpperUnpaddedFull(code);
      ShortenTrimsPairs(code, latitude, longitude);
      var k := |code| - |r.value|;
      if k > 0 {
        TrimmedIsShort(ToUpper(code), k);
      }
    }
  }

  // ---------------------------------------------------------------------
  // A code of exactly eight digits.

  /** The center of a full unpadded code's area is a point of the domain:
      clipping and normalizing leave it where it is. */
  lemma CenterIsNormal(code: string)
    requires IsFull(code) && IndexOf(code, PaddingCharacter) == -1
    ensures var c := DecodedArea(code).value.GetLatLng();
      ClipLatitude(c.0) == c.0 && NormalLongitude(c.1) == c.1
  {
    assert code[1] != PaddingCharacter;
    DecodedInDomain(code);
    var area := DecodedArea(code).value;
    CenterInside(area);
  }

  /** With the reference at the center of a code's area, shorten removes
      all four leading pairs. */
  lemma ShortenAtCenter(code: string)
    requires IsFull(code) && IndexOf(code, PaddingCharacter) == -1
    ensures IsFull(ToUpper(code))
    ensures var c := DecodedArea(ToUpper(code)).value.GetLatLng();
      ShortenedCode(code, c.0, c.1) == Success(ToUpper(code)[SeparatorPosition..])
  {
    var upper := ToUpper(code);
    UpperUnpaddedFull(code);
    var c := DecodedArea(upper).value.GetLatLng();
    ShortenUnpadded(code, c.0, c.1);
    CenterRangeZero(upper);
  }

  /** As written, shorten of a full code with exactly eight digits, with
      the reference at the code's center, removes all eight digits and
      returns the separator alone, which is not a valid code. */
  lemma ShortenEightDigitsAtCenter(code: string)
    requires IsFull(code) && IndexOf(code, PaddingCharacter) == -1
    requires |code| == SeparatorPosition + 1
    ensures IsFull(ToUpper(code))
    ensures var c := DecodedArea(ToUpper(code)).value.GetLatLng();
      ShortenedCode(code, c.0, c.1) == Success([Separator])
    ensures !ValidCode([Separator])
  {
    ShortenAtCenter(code);
    SeparatorOnly(code);
    SeparatorAloneInvalid();
  }

  /** The last character of a full code of eight digits is the separator. */
  lemma SeparatorOnly(code: string)
    requires IsFull(code) && |code| == SeparatorPosition + 1
    ensures ToUpper(code)[SeparatorPosition..] == [Separator]
  {
  }

  /** The reference at the center of the area is at range 0. */
  lemma CenterRangeZero(code: string)
    requires IsFull(code) && IndexOf(code, PaddingCharacter) == -1
    ensures var area := DecodedArea(code).value;
      var c := area.GetLatLng();
      CodeRange(area, ClipLatitude(c.0), NormalLongitude(c.1)) == 0.0
  {
    CenterIsNormal(code);
  }

  /** The separator alone is not a code. */
  lemma SeparatorAloneInvalid()
    ensures !ValidCode([Separator])
  {
  }

  /** For a full unpadded code, shorten succeeds and removes
      TrimmedCount(range) characters of the upper-cased code. */
  lemma ShortenUnpadded(code: string, latitude: real, longitude: real)
    requires IsFull(code) && IndexOf(code, PaddingCharacter) == -1
    ensures IsFull(ToUpper(code))
    ensures var area := DecodedArea(ToUpper(code)).value;
      var range := CodeRange(area, ClipLatitude(latitude), NormalLongitude(longitude));
      ShortenedCode(code, latitude, longitude) == Success(ToUpper(code)[TrimmedCount(range)..])
  {
    UpperUnpaddedFull(code);
    UnpaddedLength(ToUpper(code));
  }

  /** An eight-digit code of the kind ShortenEightDigitsAtCenter is about:
      a full code with nothing after the separator. */
  lemma EightDigitExample()
    ensures IsFull(ExampleCode) && IndexOf(ExampleCode, PaddingCharacter) == -1
  {
    ExampleValid();
    ExampleLeading();
  }

  const ExampleCode: string := "8FVC9G8F+"

  lemma ExampleValid()
    ensures ValidCode(ExampleCode) && IndexOf(ExampleCode, Separator) == SeparatorPosition
    ensures IndexOf(ExampleCode, PaddingCharacter) == -1
  {
    var code := ExampleCode;
    assert UnpaddedAt(code, SeparatorPosition);
    WellFormedIsValid(code);
    DigitsAreNotMarks(code);
  }

  lemma ExampleLeading()
    ensures LeadingValue(ExampleCode[0]) == 6 && LeadingValue(ExampleCode[1]) == 9
  {
    assert ExampleCode[0] == CodeAlphabet[6];
    assert ExampleCode[1] == CodeAlphabet[9];
    DigitValueOf(6);
    DigitValueOf(9);
  }

  /** How many leading characters to remove when no digit may be lost
      entirely: a removal is made only if at least one digit is left. */
  function CorrectedCount(range: real, digits: nat): (k: nat)
    ensures k == 0 || k == 4 || k == 6 || k == 8
    ensures k < digits || k == 0
    ensures k <= TrimmedCount(range)
    ensures k > 0 ==> range < PairResolutions[k / 2 - 1] * 0.3
  {
    if range < PairResolutions[3] * 0.3 && 8 < digits then 8
    else if range < PairResolutions[2] * 0.3 && 6 < digits then 6
    else if range < PairResolutions[1] * 0.3 && 4 < digits then 4
    else 0
  }

  /** shorten with the removal capped so that a digit always remains. */
  function ShortenCorrected(code: string, latitude: real, longitude: real): Result<string>
  {
    if !IsFull(code) then Failure(InvalidCode)
    else if IndexOf(code, PaddingCharacter) != -1 then Failure(PaddedCode)
    else
      var upper := ToUpper(code);
      match DecodedArea(upper)
      case Failure(e) => Failure(e)
      case Success(area) =>
        if area.codeLength < MinTrimmableCodeLen then Failure(TooShort)
        else
          var range := CodeRange(area, ClipLatitude(latitude), NormalLongitude(longitude));
          Success(upper[CorrectedCount(range, |upper| - 1)..])
  }

  /** The corrected shorten always returns the full code itself or a
      short code, and it agrees with shorten on every code of more than
      eight digits. */
  lemma ShortenCorrectedIsShort(code: string, latitude: real, longitude: real)
    ensures ShortenCorrected(code, latitude, longitude).Success? ==>
      var s := ShortenCorrected(code, latitude, longitude).value;
      (s == ToUpper(code) && IsFull(s)) || IsShort(s)
    ensures |code| > SeparatorPosition + 1 ==>
      ShortenCorrected(code, latitude, longitude) == ShortenedCode(code, latitude, longitude)
  {
    var r := ShortenCorrected(code, latitude, longitude);
    if r.Success? {
      UpperUnpaddedFull(code);
      var upper := ToUpper(code);
      var range := CodeRange(DecodedArea(upper).value, ClipLatitude(latitude), NormalLongitude(longitude));
      var k := CorrectedCount(range, |upper| - 1);
      if k > 0 {
        TrimmedIsShort(upper, k);
      } else {
        ShortFullUpper(code);
      }
    }
  }
}
