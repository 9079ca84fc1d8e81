/** A short code whose nearest match lies across the antimeridian: the
    input on which recoverNearest, as written, does not return a code
    that matches the short code. */
module Antimeridian {
  import opened Results
  import opened Alphabet
  import opened Numerals
  import opened Validator
  import opened Normalizer
  import opened CodeAreas
  import opened Encoder
  import opened Decoder
  import opened RoundTrip
  import opened Recovery
  import opened Nearness
  import opened Matching

  // ---------------------------------------------------------------------
  // The short code "252222+" and the reference (0, 179.9).

  lemma ExampleIsShort()
    ensures IsShort("252222+")
  {
  }

  lemma ExampleSeparator()
    ensures IndexOf("252222+", Separator) == 6
  {
  }

  lemma ExampleUpper()
    ensures ToUpper("252222+") == "252222+"
  {
  }

  /** The reference on the lattice. */
  lemma ExampleReferenceLattice()
    ensures LatitudeToInteger(0.0) == 2250000000
    ensures LongitudeToInteger(179.9) == 2948300800
  {
  }

  /** Its first pair is (4, 17), "6V". */
  lemma ExampleReferenceDigits()
    ensures CodeDigits(2250000000, 2948300800)[0] == 4
    ensures CodeDigits(2250000000, 2948300800)[1] == 17
  {
    CodeDigitAt(2250000000, 2948300800, 0);
    CodeDigitAt(2250000000, 2948300800, 1);
  }

  lemma ExampleReferencePair()
    ensures Encode(0.0, 179.9, PairCodeLength).value[..2] == "6V"
  {
    ExampleReferenceLattice();
    ExampleReferenceDigits();
    var code := Encode(0.0, 179.9, PairCodeLength).value;
    assert code[0] == '6';
    assert code[1] == 'V';
  }

  /** A short code with six digits before the separator is padded with
      the reference's first pair. */
  lemma ExamplePadded(upper: string)
    requires IsShort(upper) && IndexOf(upper, Separator) == 6
    ensures PaddedShort(upper, 0.0, 179.9) == "6V" + upper
  {
    ExampleReferencePair();
  }

  /** The significant characters of eight alphabet digits and the
      separator are the digits. */
  lemma SignificantOfEight(digits: string)
    requires |digits| == SeparatorPosition && AllInAlphabet(digits)
    ensures Significant(digits + [Separator]) == digits
  {
    AlphabetNotMarks(digits);
    StripKept(digits, [Separator]);
    StripDrops([Separator]);
    UpperAlphabet(digits);
  }

  /** The padded code "6V252222+" has its west edge 3 + 17 * 20 degrees
      east of -180, one pair cell wide. */
  lemma ExampleColumn()
    ensures LngLo([4, 17, 0, 3, 0, 0, 0, 0]) == 2809856000
    ensures LngCell(8) == 20480
  {
    var ds: seq<nat> := [4, 17, 0, 3, 0, 0, 0, 0];
    assert Odds(PairPart(ds)) == [17, 3, 0, 0];
    assert ValueOf([17, 3, 0, 0], EncodingBase) == 137200;
    assert LngPairSum(ds) == 2744000;
    assert GridPart(ds) == [];
    assert LngGridSum(ds) == 0;
  }

  lemma ExampleLongitudes()
    ensures AreaOf([4, 17, 0, 3, 0, 0, 0, 0]).longitudeLo == 163.0
    ensures AreaOf([4, 17, 0, 3, 0, 0, 0, 0]).longitudeHi == 163.0025
  {
    ExampleColumn();
  }

  /** Its middle, 163.00125, is more than ten degrees west of 179.9, so
      the area moves one padding cell of 20 degrees east; the middle of
      the moved area, 183.00125, is capped at 180. */
  lemma ExampleCappedShift(area: CodeArea, latitude: real)
    requires area.longitudeLo == 163.0 && area.longitudeHi == 163.0025
    ensures MidLongitude(Adjusted(area, latitude, 179.9, 20.0)) == 183.00125
    ensures Adjusted(area, latitude, 179.9, 20.0).LongitudeCenter() == LongitudeMax as real
  {
  }

  /** Encoding a longitude of 180 gives the lattice column 0, the column
      of -180: its second longitude digit is the alphabet's first. */
  lemma EastEdgeColumn(latitude: real)
    ensures Encode(latitude, LongitudeMax as real, SeparatorPosition).Success?
    ensures Encode(latitude, LongitudeMax as real, SeparatorPosition).value[3] == CodeAlphabet[0]
  {
    assert LongitudeToInteger(LongitudeMax as real) == 0;
    var v := LatitudeToInteger(latitude);
    CodeDigitAt(v, 0, 3);
    FormatChar(Chars(CodeDigits(v, 0)), SeparatorPosition, 3);
  }

  /** recoverNearest of an upper-case short code and a reference inside
      the domain, given the area of its padded code. */
  lemma ShortNearest(code: string, latitude: real, longitude: real, area: CodeArea, r: real)
    requires IsShort(code) && ToUpper(code) == code
    requires -(LatitudeMax as real) <= latitude <= LatitudeMax as real
    requires -(LongitudeMax as real) <= longitude < LongitudeMax as real
    requires DecodedArea(PaddedShort(code, latitude, longitude)) == Success(area)
    requires r == PaddingResolution(SeparatorPosition - IndexOf(code, Separator))
    ensures NearestFull(code, latitude, longitude) ==
      Encode(Adjusted(area, latitude, longitude, r).LatitudeCenter(), Adjusted(area, latitude, longitude, r).LongitudeCenter(), area.codeLength)
  {
    ShortBranch(code, latitude, longitude);
  }

  lemma ExampleDigitsSpelling()
    ensures "252222+" == Chars([0, 3, 0, 0, 0, 0]) + [Separator]
  {
  }

  lemma ExamplePaddedJoin()
    ensures Chars([4, 17]) + (Chars([0, 3, 0, 0, 0, 0]) + [Separator]) == Chars([4, 17, 0, 3, 0, 0, 0, 0]) + [Separator]
  {
  }

  lemma ExampleReferenceChars()
    ensures "6V" == Chars([4, 17])
  {
  }

  /** The area of a padded code of eight digits. */
  lemma PaddedArea(code: string, latitude: real, longitude: real, digits: string)
    requires IsShort(code)
    requires -(LatitudeMax as real) <= latitude <= LatitudeMax as real
    requires -(LongitudeMax as real) <= longitude < LongitudeMax as real
    requires |digits| == SeparatorPosition && AllInAlphabet(digits)
    requires PaddedShort(code, latitude, longitude) == digits + [Separator]
    ensures DecodedArea(PaddedShort(code, latitude, longitude)) == Success(AreaOf(Values(digits)))
  {
    PaddedCodeFacts(code, latitude, longitude);
    SignificantOfEight(digits);
  }

  lemma ExampleDigits()
    ensures |Chars([4, 17, 0, 3, 0, 0, 0, 0])| == SeparatorPosition
    ensures AllInAlphabet(Chars([4, 17, 0, 3, 0, 0, 0, 0]))
    ensures Values(Chars([4, 17, 0, 3, 0, 0, 0, 0])) == [4, 17, 0, 3, 0, 0, 0, 0]
  {
    ValuesOfChars([4, 17, 0, 3, 0, 0, 0, 0]);
  }

  lemma ExampleArea(code: string)
    requires IsShort(code) && IndexOf(code, Separator) == 6
    requires code == Chars([0, 3, 0, 0, 0, 0]) + [Separator]
    ensures DecodedArea(PaddedShort(code, 0.0, 179.9)) == Success(AreaOf([4, 17, 0, 3, 0, 0, 0, 0]))
  {
    ExamplePadded(code);
    ExampleReferenceChars();
    ExamplePaddedJoin();
    ExampleDigits();
    PaddedArea(code, 0.0, 179.9, Chars([4, 17, 0, 3, 0, 0, 0, 0]));
  }

  lemma ExampleDecodable()
    ensures DecodableLength(|[4, 17, 0, 3, 0, 0, 0, 0]|) && DigitsBelow([4, 17, 0, 3, 0, 0, 0, 0], EncodingBase)
  {
  }

  /** As written, recoverNearest encodes the moved area's latitude center
      with the capped longitude 180. */
  lemma ExampleAsWritten()
    ensures NearestFull("252222+", 0.0, 179.9) ==
      Encode(Adjusted(AreaOf([4, 17, 0, 3, 0, 0, 0, 0]), 0.0, 179.9, 20.0).LatitudeCenter(), LongitudeMax as real, SeparatorPosition)
  {
    ExampleDecodable();
    ExampleIsShort();
    ExampleSeparator();
    ExampleUpper();
    ExampleDigitsSpelling();
    ExampleArea("252222+");
    assert PaddingResolution(2) == 20.0;
    ShortNearest("252222+", 0.0, 179.9, AreaOf([4, 17, 0, 3, 0, 0, 0, 0]), 20.0);
    ExampleLongitudes();
    ExampleCappedShift(AreaOf([4, 17, 0, 3, 0, 0, 0, 0]), 0.0);
  }

  /** So the fourth character of its result is '2' (longitude digit 0)
      where the short code has '5'. */
  lemma ExampleAsWrittenColumn()
    ensures NearestFull("252222+", 0.0, 179.9).Success?
    ensures |NearestFull("252222+", 0.0, 179.9).value| == SeparatorPosition + 1
    ensures NearestFull("252222+", 0.0, 179.9).value[3] == CodeAlphabet[0]
  {
    ExampleDecodable();
    ExampleAsWritten();
    EastEdgeColumn(Adjusted(AreaOf([4, 17, 0, 3, 0, 0, 0, 0]), 0.0, 179.9, 20.0).LatitudeCenter());
  }

  /** A nine-character result that differs from a six-digit short code
      at the short code's second digit does not complete it. */
  lemma DiffersAtFour(r: Result<string>, short: string)
    requires r.Success? && |r.value| == SeparatorPosition + 1 && |short| == 7
    requires r.value[3] != short[1]
    ensures !Completes(r, short, 2)
  {
    assert r.value[2..][1] != short[..|r.value| - 2][1];
  }

  /** The corrected version completes the short code (CorrectedMatches). */
  lemma ExampleCorrected()
    ensures Completes(NearestFullCorrected("252222+", 0.0, 179.9), "252222+", 2)
  {
    ExampleIsShort();
    ExampleSeparator();
    ExampleUpper();
    CorrectedMatches("252222+", 0.0, 179.9);
  }

  /** recoverNearest as written does not complete "252222+" for the
      reference (0, 179.9): its result ("62222222+") has '2' where the
      short code has '5', while the corrected version returns a code
      ending in "252222+" ("62252222+"). */
  lemma RecoverMissesAcrossAntimeridian()
    ensures !Completes(NearestFull("252222+", 0.0, 179.9), "252222+", 2)
    ensures Completes(NearestFullCorrected("252222+", 0.0, 179.9), "252222+", 2)
  {
    ExampleAsWrittenColumn();
    DiffersAtFour(NearestFull("252222+", 0.0, 179.9), "252222+");
    ExampleCorrected();
  }
}
