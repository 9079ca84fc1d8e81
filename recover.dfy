/** recoverNearest and computeLatitudePrecision of src/OpenLocationCode.php.
    A short code is completed with the leading digits of the reference
    location's own code, decoded, moved by one cell of the recovered digits
    north, south, east or west when that brings it closer to the reference,
    and encoded again at the same length. */
module Recovery {
  import opened Results
  import opened Alphabet
  import opened Numerals
  import opened Validator
  import opened Normalizer
  import opened CodeAreas
  import opened Encoder
  import opened Decoder
  import opened RoundTrip

  /** 20 raised to an integer power, as PHP's `**` computes it: an
      integer for a non-negative exponent, a fraction otherwise. */
  function PowerOf20(e: int): (r: real)
    ensures r > 0.0
  {
    if e >= 0 then Pow(EncodingBase, e) as real else 1.0 / Pow(EncodingBase, -e) as real
  }

  /** The height and width in degrees of the cell fixed by the digits that
      padding supplies: 20 ** (2 - paddingLength / 2). */
  function PaddingResolution(paddingLength: int): real
  {
    PowerOf20(2 - paddingLength / 2)
  }

  /** The first adjustment of recoverNearest: move the area one resolution
      south when its center is more than half a resolution north of the
      reference, or north in the opposite case, unless the move would take
      the center past a pole. */
  function LatitudeShifted(area: CodeArea, latitude: real, resolution: real): CodeArea
  {
    var half := resolution / 2.0;
    if latitude + half < area.LatitudeCenter() && area.LatitudeCenter() - resolution >= -(LatitudeMax as real) then
      CodeArea(area.latitudeLo - resolution, area.longitudeLo,
               area.latitudeHi - resolution, area.longitudeHi, area.codeLength)
    else if latitude - half > area.LatitudeCenter() && area.LatitudeCenter() + resolution <= LatitudeMax as real then
      CodeArea(area.latitudeLo + resolution, area.longitudeLo,
               area.latitudeHi + resolution, area.longitudeHi, area.codeLength)
    else area
  }

  /** The second adjustment: the same east or west, with no limit. */
  function LongitudeShifted(area: CodeArea, longitude: real, resolution: real): CodeArea
  {
    var half := resolution / 2.0;
    if longitude + half < area.LongitudeCenter() then
      CodeArea(area.latitudeLo, area.longitudeLo - resolution,
               area.latitudeHi, area.longitudeHi - resolution, area.codeLength)
    else if longitude - half > area.LongitudeCenter() then
      CodeArea(area.latitudeLo, area.longitudeLo + resolution,
               area.latitudeHi, area.longitudeHi + resolution, area.codeLength)
    else area
  }

  /** The full code recoverNearest builds from a short code: the first
      paddingLength characters of the reference's ten-digit code, then the
      short code. */
  function PaddedShort(upper: string, latitude: real, longitude: real): (padded: string)
    requires IsShort(upper)
    ensures |padded| == SeparatorPosition + |upper| - IndexOf(upper, Separator)
  {
    var paddingLength := SeparatorPosition - IndexOf(upper, Separator);
    ReferenceLength(latitude, longitude);
    Encode(latitude, longitude, PairCodeLength).value[..paddingLength] + upper
  }

  /** Both adjustments, latitude first. */
  function Adjusted(area: CodeArea, latitude: real, longitude: real, resolution: real): (moved: CodeArea)
    ensures moved.codeLength == area.codeLength
  {
    LongitudeShifted(LatitudeShifted(area, latitude, resolution), longitude, resolution)
  }

  /** The short-code branch of recoverNearest, for an upper-cased short
      code and a clipped, normalized reference. */
  function NearestFromShort(upper: string, latitude: real, longitude: real): Result<string>
    requires IsShort(upper)
  {
    var resolution := PaddingResolution(SeparatorPosition - IndexOf(upper, Separator));
    match DecodedArea(PaddedShort(upper, latitude, longitude))
    case Failure(e) => Failure(e)
    case Success(area) =>
      var moved := Adjusted(area, latitude, longitude, resolution);
      Encode(moved.LatitudeCenter(), moved.LongitudeCenter(), moved.codeLength)
  }

  /** recoverNearest, as a function: a full code comes back upper-cased,
      anything that is neither full nor short is rejected, and a short code
      is padded from the reference, decoded, adjusted and encoded again. */
  function NearestFull(code: string, referenceLatitude: real, referenceLongitude: real): Result<string>
  {
    if IsFull(code) then Success(ToUpper(code))
    else if !IsShort(code) then Failure(InvalidCode)
    else
      ShortFullUpper(code);
      NearestFromShort(ToUpper(code), ClipLatitude(referenceLatitude), NormalLongitude(referenceLongitude))
  }

  /** The midpoint of an area's longitudes, not capped at the
      antimeridian. */
  function MidLongitude(area: CodeArea): (c: real)
    ensures area.longitudeLo + area.longitudeHi == 2.0 * c
  {
    area.longitudeLo + (area.longitudeHi - area.longitudeLo) / 2.0
  }

  /** The short-code branch with the longitude of the moved area encoded
      where it lies: a midpoint east of 180 wraps around the globe in
      encode instead of being capped at 180. */
  function NearestFromShortCorrected(upper: string, latitude: real, longitude: real): Result<string>
    requires IsShort(upper)
  {
    var resolution := PaddingResolution(SeparatorPosition - IndexOf(upper, Separator));
    match DecodedArea(PaddedShort(upper, latitude, longitude))
    case Failure(e) => Failure(e)
    case Success(area) =>
      var moved := Adjusted(area, latitude, longitude, resolution);
      Encode(moved.LatitudeCenter(), MidLongitude(moved), moved.codeLength)
  }

  /** recoverNearest with the corrected short-code branch. */
  function NearestFullCorrected(code: string, referenceLatitude: real, referenceLongitude: real): Result<string>
  {
    if IsFull(code) then Success(ToUpper(code))
    else if !IsShort(code) then Failure(InvalidCode)
    else
      ShortFullUpper(code);
      NearestFromShortCorrected(ToUpper(code), ClipLatitude(referenceLatitude), NormalLongitude(referenceLongitude))
  }

  /** recoverNearest as the PHP code runs it, rebinding the code area at
      each adjustment. */
  method RecoverNearest(code: string, referenceLatitude: real, referenceLongitude: real)
    returns (r: Result<string>)
    ensures r == NearestFull(code, referenceLatitude, referenceLongitude)
  {
    if IsFull(code) {
      return Success(ToUpper(code));
    }
    if !IsShort(code) {
      return Failure(InvalidCode);
    }
    var latitude := ClipLatitude(referenceLatitude);
    var longitude := NormalizeLongitude(referenceLongitude);
    ShortFullUpper(code);
    r := RecoverShort(ToUpper(code), latitude, longitude);
  }

  /** The short-code part of RecoverNearest. */
  method RecoverShort(upper: string, latitude: real, longitude: real) returns (r: Result<string>)
    requires IsShort(upper)
    ensures r == NearestFromShort(upper, latitude, longitude)
  {
    var paddingLength := SeparatorPosition - IndexOf(upper, Separator);
    var resolution := PaddingResolution(paddingLength);
    ReferenceLength(latitude, longitude);
    var reference := Encode(latitude, longitude, PairCodeLength);
    var decoded := Decode(reference.value[..paddingLength] + upper);
    assert reference.value[..paddingLength] + upper == PaddedShort(upper, latitude, longitude);
    if decoded.Failure? {
      return Failure(decoded.error);
    }
    var codeArea := AdjustArea(decoded.value, latitude, longitude, resolution);
    r := Encode(codeArea.LatitudeCenter(), codeArea.LongitudeCenter(), codeArea.codeLength);
  }

  /** The two adjustments of recoverNearest, as it makes them: the code
      area is rebound once for latitude and once for longitude. */
  method AdjustArea(area: CodeArea, latitude: real, longitude: real, resolution: real)
    returns (codeArea: CodeArea)
    ensures codeArea == Adjusted(area, latitude, longitude, resolution)
  {
    codeArea := area;
    var half := resolution / 2.0;
    if latitude + half < codeArea.LatitudeCenter() && codeArea.LatitudeCenter() - resolution >= -(LatitudeMax as real) {
      codeArea := CodeArea(codeArea.latitudeLo - resolution, codeArea.longitudeLo,
                           codeArea.latitudeHi - resolution, codeArea.longitudeHi, codeArea.codeLength);
    } else if latitude - half > codeArea.LatitudeCenter() && codeArea.LatitudeCenter() + resolution <= LatitudeMax as real {
      codeArea := CodeArea(codeArea.latitudeLo + resolution, codeArea.longitudeLo,
                           codeArea.latitudeHi + resolution, codeArea.longitudeHi, codeArea.codeLength);
    }
    assert codeArea == LatitudeShifted(area, latitude, resolution);
    if longitude + half < codeArea.LongitudeCenter() {
      codeArea := CodeArea(codeArea.latitudeLo, codeArea.longitudeLo - resolution,
                           codeArea.latitudeHi, codeArea.longitudeHi - resolution, codeArea.codeLength);
    } else if longitude - half > codeArea.LongitudeCenter() {
      codeArea := CodeArea(codeArea.latitudeLo, codeArea.longitudeLo + resolution,
                           codeArea.latitudeHi, codeArea.longitudeHi + resolution, codeArea.codeLength);
    }
  }

  // ---------------------------------------------------------------------
  // The padded code is a full code.

  /** The ten-digit code of the reference has eleven characters. */
  lemma ReferenceLength(latitude: real, longitude: real)
    ensures Encode(latitude, longitude, PairCodeLength).Success?
    ensures |Encode(latitude, longitude, PairCodeLength).value| == PairCodeLength + 1
  {
    IntegerCodeShape(LatitudeToInteger(latitude), LongitudeToInteger(longitude), PairCodeLength);
  }

  /** Its first eight are the characters of the reference's leading
      digits. */
  lemma ReferenceDigits(latitude: real, longitude: real, p: int)
    requires 0 <= p <= SeparatorPosition
    ensures Encode(latitude, longitude, PairCodeLength).Success?
    ensures |Encode(latitude, longitude, PairCodeLength).value| == PairCodeLength + 1
    ensures forall i :: 0 <= i < p ==> (Encode(latitude, longitude, PairCodeLength).value[i] ==
      CodeAlphabet[CodeDigits(LatitudeToInteger(latitude), LongitudeToInteger(longitude))[i]])
  {
    IntegerCodeShape(LatitudeToInteger(latitude), LongitudeToInteger(longitude), PairCodeLength);
  }

  /** A short code is unpadded, with its separator at an even index before
      8, so that recoverNearest pads it with 2, 4, 6 or 8 digits. */
  lemma ShortShape(code: string)
    requires IsShort(code)
    ensures UnpaddedAt(code, IndexOf(code, Separator))
    ensures SeparatorPosition - IndexOf(code, Separator) in {2, 4, 6, 8}
  {
    var p := IndexOf(code, Separator);
    OccurrencesOnce(code, Separator, p);
    assert IndexOf(code, PaddingCharacter) == -1;
    forall i | 0 <= i < |code| && i != p
      ensures IsCodeDigit(code[i])
    {
      assert IsLegalChar(code[i]);
    }
  }

  /** Alphabet characters in front of a short code, filling it up to the
      separator position, make an unpadded code with the separator at 8. */
  lemma PaddedUnpadded(prefix: string, upper: string)
    requires IsShort(upper) && |prefix| == SeparatorPosition - IndexOf(upper, Separator)
    requires forall i :: 0 <= i < |prefix| ==> prefix[i] in CodeAlphabet
    ensures UnpaddedAt(prefix + upper, SeparatorPosition)
  {
    var code := prefix + upper;
    var p := IndexOf(upper, Separator);
    ShortShape(upper);
    forall i | 0 <= i < |code| && i != SeparatorPosition
      ensures IsCodeDigit(code[i])
    {
      if i < |prefix| {
        AlphabetChar(prefix[i]);
      } else {
        assert code[i] == upper[i - |prefix|];
      }
    }
  }

  /** The characters of a first digit below 9 and a second below 18 pass
      the range check of isFull. */
  lemma LeadingInRange(code: string, d0: nat, d1: nat)
    requires |code| >= 2 && d0 < 9 && d1 < 18
    requires code[0] == CodeAlphabet[d0] && code[1] == CodeAlphabet[d1]
    ensures LeadingValue(code[0]) * EncodingBase < LatitudeMax * 2
    ensures LeadingValue(code[1]) * EncodingBase < LongitudeMax * 2
  {
    AlphabetChar(code[0]);
    AlphabetChar(code[1]);
    DigitValueOf(d0);
    DigitValueOf(d1);
  }

  /** Alphabet characters for digits below (9, 18) in front of a short
      code with room for them make a full, unpadded code. */
  lemma PaddedIsFull(prefix: string, upper: string, ds: seq<nat>)
    requires IsShort(upper) && |prefix| == SeparatorPosition - IndexOf(upper, Separator)
    requires |ds| >= |prefix| && DigitsBelow(ds, EncodingBase) && ds[0] < 9 && ds[1] < 18
    requires forall i :: 0 <= i < |prefix| ==> prefix[i] == CodeAlphabet[ds[i]]
    ensures UnpaddedAt(prefix + upper, SeparatorPosition)
    ensures IsFull(prefix + upper)
  {
    var code := prefix + upper;
    PaddedUnpadded(prefix, upper);
    LeadingInRange(code, ds[0], ds[1]);
    FullAtSeparator(code);
  }

  /** The padded code of a short code is full, and it has eight digits
      before the separator and the short code's digits after it. */
  lemma PaddedShortIsFull(upper: string, latitude: real, longitude: real)
    requires IsShort(upper)
    ensures IsFull(PaddedShort(upper, latitude, longitude))
    ensures |Significant(PaddedShort(upper, latitude, longitude))| ==
      MinInt(SeparatorPosition + |upper| - IndexOf(upper, Separator) - 1, MaxDigitCount)
    ensures !InvalidCodeLength(|Significant(PaddedShort(upper, latitude, longitude))|)
  {
    var p := SeparatorPosition - IndexOf(upper, Separator);
    ReferenceDigits(latitude, longitude, p);
    var latVal, lngVal := LatitudeToInteger(latitude), LongitudeToInteger(longitude);
    var ds := CodeDigits(latVal, lngVal);
    LeadingDigits(latVal, lngVal);
    var prefix := Encode(latitude, longitude, PairCodeLength).value[..p];
    PaddedIsFull(prefix, upper, ds);
    PaddedLength(prefix, upper);
  }

  /** Eight digits before the separator and the short code's digits after
      it, at most fifteen in all: a length decode accepts. */
  lemma PaddedLength(prefix: string, upper: string)
    requires IsShort(upper) && |prefix| == SeparatorPosition - IndexOf(upper, Separator)
    requires UnpaddedAt(prefix + upper, SeparatorPosition)
    ensures |Significant(prefix + upper)| == MinInt(SeparatorPosition + |upper| - IndexOf(upper, Separator) - 1, MaxDigitCount)
    ensures !InvalidCodeLength(|Significant(prefix + upper)|)
  {
    ShortShape(upper);
    UnpaddedStrip(prefix + upper);
  }

  // ---------------------------------------------------------------------
  // What recoverNearest returns.

  /** The short-code branch always succeeds, with a full code of eight
      digits plus as many as the short code has after its separator, at
      most fifteen in all. */
  lemma ShortRecovered(upper: string, latitude: real, longitude: real)
    requires IsShort(upper)
    ensures NearestFromShort(upper, latitude, longitude).Success?
    ensures IsFull(NearestFromShort(upper, latitude, longitude).value)
    ensures |NearestFromShort(upper, latitude, longitude).value| ==
      MinInt(SeparatorPosition + |upper| - IndexOf(upper, Separator) - 1, MaxDigitCount) + 1
  {
    PaddedShortIsFull(upper, latitude, longitude);
    var area := DecodedArea(PaddedShort(upper, latitude, longitude)).value;
    var resolution := PaddingResolution(SeparatorPosition - IndexOf(upper, Separator));
    var moved := Adjusted(area, latitude, longitude, resolution);
    var latVal, lngVal := LatitudeToInteger(moved.LatitudeCenter()), LongitudeToInteger(moved.LongitudeCenter());
    EncodedIsFull(latVal, lngVal, moved.codeLength);
    IntegerCodeShape(latVal, lngVal, moved.codeLength);
  }

  /** recoverNearest fails exactly for a code that is neither full nor
      short, and then with InvalidCode. */
  lemma RecoverErrors(code: string, referenceLatitude: real, referenceLongitude: real)
    ensures NearestFull(code, referenceLatitude, referenceLongitude).Failure? <==>
      !IsFull(code) && !IsShort(code)
    ensures NearestFull(code, referenceLatitude, referenceLongitude).Failure? ==>
      NearestFull(code, referenceLatitude, referenceLongitude).error == InvalidCode
  {
    if !IsFull(code) && IsShort(code) {
      ShortFullUpper(code);
      ShortRecovered(ToUpper(code), ClipLatitude(referenceLatitude), NormalLongitude(referenceLongitude));
    }
  }

  /** recoverNearest returns a full code: a full code comes back
      upper-cased, and a short code always yields one. */
  lemma RecoverIsFull(code: string, referenceLatitude: real, referenceLongitude: real)
    ensures IsShort(code) ==> NearestFull(code, referenceLatitude, referenceLongitude).Success?
    ensures NearestFull(code, referenceLatitude, referenceLongitude).Success? ==>
      IsFull(NearestFull(code, referenceLatitude, referenceLongitude).value)
    ensures IsFull(code) ==> NearestFull(code, referenceLatitude, referenceLongitude) == Success(ToUpper(code))
  {
    ShortFullUpper(code);
    if !IsFull(code) && IsShort(code) {
      ShortRecovered(ToUpper(code), ClipLatitude(referenceLatitude), NormalLongitude(referenceLongitude));
    }
  }

  /** The code recovered from a short code has eight digits plus as many
      as the short code has after its separator, at most fifteen in all. */
  lemma RecoverLength(code: string, referenceLatitude: real, referenceLongitude: real)
    requires IsShort(code)
    ensures NearestFull(code, referenceLatitude, referenceLongitude).Success?
    ensures |NearestFull(code, referenceLatitude, referenceLongitude).value| ==
      MinInt(SeparatorPosition + |code| - IndexOf(code, Separator) - 1, MaxDigitCount) + 1
  {
    ShortFullUpper(code);
    UpperSeparatorIndex(code);
    ShortRecovered(ToUpper(code), ClipLatitude(referenceLatitude), NormalLongitude(referenceLongitude));
  }

  // ---------------------------------------------------------------------
  // Resolutions and precisions.

  /** The resolution of 2, 4, 6 or 8 padding digits is the size of the
      cell of that many digits, in latitude and in longitude. */
  lemma PaddingResolutionIsCell(paddingLength: int)
    requires paddingLength == 2 || paddingLength == 4 || paddingLength == 6 || paddingLength == 8
    ensures PaddingResolution(paddingLength) == LatCell(paddingLength) as real / FinalLatPrecision as real
    ensures PaddingResolution(paddingLength) == LngCell(paddingLength) as real / FinalLngPrecision as real
  {
    assert Pow(EncodingBase, 1) == 20;
    assert Pow(EncodingBase, 2) == 400;
    assert Pow(EncodingBase, 3) == 8000;
    assert Pow(EncodingBase, 4) == 160000;
  }

  /** computeLatitudePrecision: 20 ** (floor(n / -2) + 2) up to ten
      digits, 20 ** -3 / 5 ** (n - 10) beyond. PHP's floor of a division
      by -2 is the negated ceiling of n / 2. */
  function LatitudePrecision(codeLength: int): (r: real)
    ensures r > 0.0
    ensures codeLength <= PairCodeLength && codeLength % 2 == 0 ==> r == PaddingResolution(codeLength)
  {
    if codeLength <= PairCodeLength then PowerOf20(-((codeLength + 1) / 2) + 2)
    else PowerOf20(-3) / Pow(GridRows, codeLength - PairCodeLength) as real
  }

  /** The latitude precision of a decodable length is the height in
      degrees of the area decode returns for that many digits. */
  lemma LatitudePrecisionIsHeight(codeLength: int)
    requires codeLength >= 0 && DecodableLength(codeLength)
    ensures LatitudePrecision(codeLength) == LatCell(codeLength) as real / FinalLatPrecision as real
  {
    assert Pow(EncodingBase, 1) == 20;
    assert Pow(EncodingBase, 2) == 400;
    assert Pow(EncodingBase, 3) == 8000;
    assert Pow(EncodingBase, 4) == 160000;
    assert Pow(GridRows, 1) == 5;
    assert Pow(GridRows, 2) == 25;
    assert Pow(GridRows, 3) == 125;
    assert Pow(GridRows, 4) == 625;
    assert Pow(GridRows, 5) == 3125;
  }
}
