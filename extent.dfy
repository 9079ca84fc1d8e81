/** Where a decoded area can lie. isFull of src/OpenLocationCode.php
    bounds the first latitude digit below 9 and the first longitude digit
    below 18, which keeps the decoded area inside [-90, 90] x [-180, 180]
    whenever those two digits are the first two characters of the code.
    With padding from index 1 the check reads the padding character instead
    of the longitude digit, and the area can lie east of the antimeridian. */
module Extent {
  import opened Results
  import opened Alphabet
  import opened Numerals
  import opened Validator
  import opened CodeAreas
  import opened Encoder
  import opened Decoder
  import opened RoundTrip

  /** v + 1 below (d + 1) place values of size `high`, with d below
      `lead`, scaled by `low`, stays below lead * high * low. */
  lemma ScaleBelow(v: nat, d: nat, lead: nat, high: nat, low: nat)
    requires v + 1 <= (d + 1) * high && d < lead
    ensures (v + 1) * low <= lead * (high * low)
  {
    MulMono(high, d + 1, lead);
    MulMono(low, v + 1, lead * high);
    MulAssoc(lead, high, low);
  }

  /** A leading pair digit below `lead` keeps all the pair digits,
      rounded up to the next place value, below lead * 20^4. */
  lemma {:induction false} LeadingPairs(e: seq<nat>, lead: nat)
    requires 1 <= |e| <= PairCodeLength / 2 && DigitsBelow(e, EncodingBase) && e[0] < lead
    ensures (ValueOf(e, EncodingBase) + 1) * Pow(EncodingBase, PairCodeLength / 2 - |e|) <=
      lead * Pow(EncodingBase, PairCodeLength / 2 - 1)
  {
    var m := |e|;
    var high, low := Pow(EncodingBase, m - 1), Pow(EncodingBase, PairCodeLength / 2 - m);
    ValueOfLeading(e, EncodingBase);
    ScaleBelow(ValueOf(e, EncodingBase), e[0], lead, high, low);
    PowAdd(EncodingBase, m - 1, PairCodeLength / 2 - m);
  }

  /** Digits with their place values, plus one step of the last place
      value, stay within base^top. */
  lemma {:induction false} GridRest(ds: seq<nat>, base: nat, top: nat)
    requires base >= 2 && |ds| <= top && DigitsBelow(ds, base)
    ensures ValueOf(ds, base) * Pow(base, top - |ds|) + Pow(base, top - |ds|) <= Pow(base, top)
  {
    var v, high, low := ValueOf(ds, base), Pow(base, |ds|), Pow(base, top - |ds|);
    ValueOfBound(ds, base);
    ScaleBelow(v, 0, 1, high, low);
    PowAdd(base, |ds|, top - |ds|);
    PlusOneTimes(v, low);
  }

  lemma PlusOneTimes(v: nat, low: nat)
    ensures (v + 1) * low == v * low + low
  {
  }

  /** Scaling a bound on (v + 1) * low by the lattice steps. */
  lemma ScaleSteps(v: nat, low: nat, bound: nat, steps: nat)
    requires (v + 1) * low <= bound
    ensures v * low * steps + low * steps <= bound * steps
  {
    MulMono(steps, (v + 1) * low, bound);
  }

  /** The latitude pair digits, rounded up to their last place value,
      are bounded by the first digit. */
  lemma {:induction false} LatPairsBound(ds: seq<nat>)
    requires DecodableLength(|ds|) && DigitsBelow(ds, EncodingBase)
    ensures (ValueOf(Evens(PairPart(ds)), EncodingBase) + 1) *
      Pow(EncodingBase, PairCodeLength / 2 - |PairPart(ds)| / 2) <= (ds[0] + 1) * Pow(EncodingBase, 4)
  {
    var e := Evens(PairPart(ds));
    assert DigitsBelow(e, EncodingBase) by {
      forall k | 0 <= k < |e|
        ensures e[k] < EncodingBase
      {
        assert e[k] == ds[2 * k];
      }
    }
    LeadingPairs(e, ds[0] + 1);
  }

  lemma {:induction false} LngPairsBound(ds: seq<nat>)
    requires DecodableLength(|ds|) && DigitsBelow(ds, EncodingBase)
    ensures (ValueOf(Odds(PairPart(ds)), EncodingBase) + 1) *
      Pow(EncodingBase, PairCodeLength / 2 - |PairPart(ds)| / 2) <= (ds[1] + 1) * Pow(EncodingBase, 4)
  {
    var e := Odds(PairPart(ds));
    assert DigitsBelow(e, EncodingBase) by {
      forall k | 0 <= k < |e|
        ensures e[k] < EncodingBase
      {
        assert e[k] == ds[2 * k + 1];
      }
    }
    LeadingPairs(e, ds[1] + 1);
  }

  /** The north edge of a decoded area, in lattice steps, is bounded by
      its first digit. */
  lemma {:induction false} LatExtent(ds: seq<nat>)
    requires DecodableLength(|ds|) && DigitsBelow(ds, EncodingBase)
    ensures LatLo(ds) + LatCell(|ds|) <= (ds[0] + 1) * Pow(EncodingBase, 4) * LatGridSteps
  {
    LatPairsBound(ds);
    var v := ValueOf(Evens(PairPart(ds)), EncodingBase);
    var low := Pow(EncodingBase, PairCodeLength / 2 - |PairPart(ds)| / 2);
    var bound := (ds[0] + 1) * Pow(EncodingBase, 4);
    if |ds| > PairCodeLength {
      var rows := Rows(GridPart(ds));
      assert DigitsBelow(rows, GridRows);
      GridRest(rows, GridRows, GridCodeLength);
      GridStepsArePowers();
      assert low == 1;
      MulMono(LatGridSteps, v + 1, bound);
    } else {
      assert LatGridSum(ds) == 0;
      ScaleSteps(v, low, bound, LatGridSteps);
    }
  }

  /** The east edge of a decoded area, in lattice steps, is bounded by
      its second digit. */
  lemma {:induction false} LngExtent(ds: seq<nat>)
    requires DecodableLength(|ds|) && DigitsBelow(ds, EncodingBase)
    ensures LngLo(ds) + LngCell(|ds|) <= (ds[1] + 1) * Pow(EncodingBase, 4) * LngGridSteps
  {
    LngPairsBound(ds);
    var v := ValueOf(Odds(PairPart(ds)), EncodingBase);
    var low := Pow(EncodingBase, PairCodeLength / 2 - |PairPart(ds)| / 2);
    var bound := (ds[1] + 1) * Pow(EncodingBase, 4);
    if |ds| > PairCodeLength {
      var cols := Cols(GridPart(ds));
      assert DigitsBelow(cols, GridColumns);
      GridRest(cols, GridColumns, GridCodeLength);
      GridStepsArePowers();
      assert low == 1;
      MulMono(LngGridSteps, v + 1, bound);
    } else {
      assert LngGridSum(ds) == 0;
      ScaleSteps(v, low, bound, LngGridSteps);
    }
  }

  /** The first two significant digits of a full code are its first two
      characters when the second is not padding, and isFull bounds them. */
  lemma {:induction false} FullLeading(code: string)
    requires IsFull(code) && code[1] != PaddingCharacter
    ensures InAlphabet(Significant(code)) && DecodableLength(|Significant(code)|)
    ensures Values(Significant(code))[0] < 9 && Values(Significant(code))[1] < 18
  {
    FullDigits(code);
    FullLeadingDigits(code);
    LeadingChars(code);
    var s := Significant(code);
    assert LeadingValue(code[0]) == Values(s)[0];
    assert LeadingValue(code[1]) == Values(s)[1];
  }

  /** A full code whose second character is not padding starts with two
      code digits. */
  lemma FullLeadingDigits(code: string)
    requires IsFull(code) && code[1] != PaddingCharacter
    ensures IsCodeDigit(code[0]) && IsCodeDigit(code[1])
  {
    FullDigits(code);
    assert code[0] != PaddingCharacter;
  }

  /** The first two significant characters of a code that starts with two
      code digits are those digits, upper-cased. */
  lemma {:induction false} LeadingChars(code: string)
    requires |code| >= 2 && IsCodeDigit(code[0]) && IsCodeDigit(code[1])
    ensures 2 <= |Significant(code)|
    ensures Significant(code)[0] == UpperChar(code[0]) && Significant(code)[1] == UpperChar(code[1])
  {
    assert Strip(code)[..2] == [code[0], code[1]] by {
      assert code == code[..2] + code[2..];
      StripKept(code[..2], code[2..]);
    }
  }

  /** Every full code whose second character is not padding decodes to an
      area inside [-90, 90] x [-180, 180]. */
  lemma DecodedInDomain(code: string)
    requires IsFull(code) && code[1] != PaddingCharacter
    ensures DecodedArea(code).Success?
    ensures -(LatitudeMax as real) <= DecodedArea(code).value.latitudeLo
    ensures DecodedArea(code).value.latitudeHi <= LatitudeMax as real
    ensures -(LongitudeMax as real) <= DecodedArea(code).value.longitudeLo
    ensures DecodedArea(code).value.longitudeHi <= LongitudeMax as real
  {
    FullLeading(code);
    AreaInDomain(Values(Significant(code)));
  }

  /** Digits whose first pair is below (9, 18) decode inside the domain. */
  lemma {:induction false} AreaInDomain(ds: seq<nat>)
    requires DecodableLength(|ds|) && DigitsBelow(ds, EncodingBase)
    requires ds[0] < 9 && ds[1] < 18
    ensures -(LatitudeMax as real) <= AreaOf(ds).latitudeLo
    ensures AreaOf(ds).latitudeHi <= LatitudeMax as real
    ensures -(LongitudeMax as real) <= AreaOf(ds).longitudeLo
    ensures AreaOf(ds).longitudeHi <= LongitudeMax as real
  {
    LatExtent(ds);
    LngExtent(ds);
    assert Pow(EncodingBase, 4) == 160000;
    MulMono(Pow(EncodingBase, 4) * LatGridSteps, ds[0] + 1, 9);
    MulMono(Pow(EncodingBase, 4) * LngGridSteps, ds[1] + 1, 18);
    assert LatLo(ds) + LatCell(|ds|) <= LatLatticeSize;
    assert LngLo(ds) + LngCell(|ds|) <= LngLatticeSize;
  }

  /** isFull reads the padding character where the first longitude digit
      should be when the padding starts at index 1, and counts it as 0:
      "2000000X+" is full, yet its longitude digit X puts the area at
      200 degrees east, past the antimeridian. */
  lemma PaddedLongitudePastAntimeridian()
    ensures IsFull(QuirkCode)
    ensures DecodedArea(QuirkCode).value.longitudeLo > LongitudeMax as real
  {
    QuirkCodeIsFull();
    QuirkCodeDigits();
    QuirkArea();
  }

  /** The digits 2 and X: latitude digit 0, longitude digit 19. */
  lemma QuirkArea()
    ensures AreaOf([0, 19]).longitudeLo == 200.0
  {
    var ds: seq<nat> := [0, 19];
    assert Odds(PairPart(ds)) == [19];
    assert ValueOf([19], EncodingBase) == 19;
    assert Pow(EncodingBase, 4) == 160000;
    assert LngLo(ds) == 19 * 160000 * LngGridSteps;
  }

  const QuirkCode: string := "2000000X+"

  lemma QuirkCodeIsFull()
    ensures IsFull(QuirkCode)
  {
    var code := QuirkCode;
    assert PaddedAt(code, 1, 6);
    PaddedIsValid(code, 1, 6);
    assert IndexOf(code, Separator) == SeparatorPosition;
    PaddingNotInAlphabet();
    assert UpperChar(code[1]) == PaddingCharacter;
    assert LeadingValue(code[1]) == 0;
  }

  /** '0' sorts below '2', the smallest digit of the alphabet. */
  lemma PaddingNotInAlphabet()
    ensures IndexOf(CodeAlphabet, PaddingCharacter) == -1
  {
    var r := IndexOf(CodeAlphabet, PaddingCharacter);
    if r > 0 {
      AlphabetIncreasing(0, r);
    }
  }

  /** Removing the separator and the padding leaves "2X". */
  lemma QuirkStrip()
    ensures Strip(QuirkCode) == "2X"
  {
    assert Strip("+") == "";
    assert Strip("X+") == "X";
    assert Strip("0X+") == "X";
    assert Strip("00X+") == "X";
    assert Strip("000X+") == "X";
    assert Strip("0000X+") == "X";
    assert Strip("00000X+") == "X";
    assert Strip("000000X+") == "X";
  }

  lemma QuirkCodeDigits()
    ensures InAlphabet(Significant(QuirkCode)) && Values(Significant(QuirkCode)) == [0, 19]
  {
    var code := QuirkCode;
    QuirkStrip();
    assert Significant(code) == [CodeAlphabet[0], CodeAlphabet[19]];
    DigitValueOf(0);
    DigitValueOf(19);
  }

  /** A code padded after six digits is full and decodes to an area of
      code length 6. */
  lemma SixDigitCodeLength()
    ensures IsFull(SixDigitCode)
    ensures DecodedArea(SixDigitCode).Success? && DecodedArea(SixDigitCode).value.codeLength == 6
  {
    SixDigitSpelling();
    PaddedOfDigits([5, 9, 10, 2, 7, 15], 2);
    PaddedStrip(SixDigitCode, 6, 2);
  }

  /** A code of ten digits with the separator after the eighth is full. */
  lemma TenDigitCodeFull()
    ensures IsFull(TenDigitCode)
  {
    TenDigitSpelling();
    UnpaddedOfDigits([6, 9, 17, 8, 7, 10, 6, 9], [4, 19]);
  }

  lemma TenDigitSpelling()
    ensures Chars([6, 9, 17, 8, 7, 10, 6, 9]) + [Separator] + Chars([4, 19]) == TenDigitCode
  {
  }

  /** A code of eleven digits, one grid digit past the pairs, is full. */
  lemma ElevenDigitCodeFull()
    ensures IsFull(ElevenDigitCode)
  {
    ElevenDigitSpelling();
    UnpaddedOfDigits([6, 9, 17, 8, 7, 10, 6, 9], [4, 19, 15]);
  }

  lemma ElevenDigitSpelling()
    ensures Chars([6, 9, 17, 8, 7, 10, 6, 9]) + [Separator] + Chars([4, 19, 15]) == ElevenDigitCode
  {
  }

  lemma SixDigitSpelling()
    ensures Chars([5, 9, 10, 2, 7, 15]) + Zeros(2) + [Separator] == SixDigitCode
  {
  }

  /** The characters of digits are code digits. */
  lemma CharsAreDigits(ds: seq<nat>)
    requires DigitsBelow(ds, EncodingBase)
    ensures forall i :: 0 <= i < |ds| ==> IsCodeDigit(Chars(ds)[i])
  {
    forall i | 0 <= i < |ds|
      ensures IsCodeDigit(Chars(ds)[i])
    {
      AlphabetChar(Chars(ds)[i]);
    }
  }

  /** A first digit below 9 and a second below 18 pass the range check of
      isFull. */
  lemma LeadingOfDigits(code: string, ds: seq<nat>)
    requires 2 <= |code| && 2 <= |ds| && ds[0] < 9 && ds[1] < 18
    requires code[0] == CodeAlphabet[ds[0]] && code[1] == CodeAlphabet[ds[1]]
    ensures LeadingValue(code[0]) * EncodingBase < LatitudeMax * 2
    ensures LeadingValue(code[1]) * EncodingBase < LongitudeMax * 2
  {
    AlphabetChar(code[0]);
    AlphabetChar(code[1]);
    DigitValueOf(ds[0]);
    DigitValueOf(ds[1]);
  }

  /** Eight digits, the separator and a tail of digits other than one
      make a full code when the first two digits are in range. */
  lemma UnpaddedOfDigits(ds: seq<nat>, tail: seq<nat>)
    requires |ds| == SeparatorPosition && DigitsBelow(ds, EncodingBase) && ds[0] < 9 && ds[1] < 18
    requires |tail| != 1 && DigitsBelow(tail, EncodingBase)
    ensures IsFull(Chars(ds) + [Separator] + Chars(tail))
  {
    CharsAreDigits(ds);
    CharsAreDigits(tail);
    var head := Chars(ds);
    var code := head + [Separator] + Chars(tail);
    assert forall i :: 0 <= i < |code| && i != SeparatorPosition ==>
      code[i] == if i < SeparatorPosition then head[i] else Chars(tail)[i - SeparatorPosition - 1];
    assert UnpaddedAt(code, SeparatorPosition);
    LeadingOfDigits(code, ds);
    FullAtSeparator(code);
  }

  /** Digits, n padding characters and the separator, nine characters in
      all, make a full padded code when the first two digits are in range. */
  lemma PaddedOfDigits(ds: seq<nat>, n: nat)
    requires 2 <= |ds| && |ds| + n == SeparatorPosition && 2 <= n && n % 2 == 0
    requires DigitsBelow(ds, EncodingBase) && ds[0] < 9 && ds[1] < 18
    ensures PaddedAt(Chars(ds) + Zeros(n) + [Separator], |ds|, n)
    ensures IsFull(Chars(ds) + Zeros(n) + [Separator])
  {
    CharsAreDigits(ds);
    var head := Chars(ds);
    var code := head + Zeros(n) + [Separator];
    assert forall i :: 0 <= i < SeparatorPosition ==>
      code[i] == if i < |head| then head[i] else PaddingCharacter;
    assert PaddedAt(code, |head|, n);
    PaddedIsValid(code, |head|, n);
    assert IndexOf(code, Separator) == SeparatorPosition by {
      DigitsAreNotMarks(head);
    }
    LeadingOfDigits(code, ds);
  }

  const SixDigitCode: string := "7FG49Q00+"
  const TenDigitCode: string := "8FVC9G8F+6X"
  const ElevenDigitCode: string := "8FVC9G8F+6XQ"
}
