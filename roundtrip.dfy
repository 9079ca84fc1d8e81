/** The encode/decode round trip. A code that encodeIntegers makes for a
    lattice point is a full code, and decode turns it into the lattice
    cell of the code's length that holds the point: its south-west corner
    is the point rounded down to a multiple of the cell size, and its
    codeLength is the code length asked for (capped at fifteen). For a
    location in degrees, the decoded area of its code contains it. */
module RoundTrip {
  import opened Results
  import opened Alphabet
  import opened Numerals
  import opened Normalizer
  import opened Validator
  import opened CodeAreas
  import opened Encoder
  import opened Decoder

  // ---------------------------------------------------------------------
  // Characters of the encoder's output.

  /** An alphabet character is its own upper case and is neither the
      separator nor the padding character. */
  lemma AlphabetChar(ch: char)
    requires ch in CodeAlphabet
    ensures UpperChar(ch) == ch && IsCodeDigit(ch)
    ensures ch != Separator && ch != PaddingCharacter
  {
  }

  predicate AllInAlphabet(s: string)
  {
    forall i :: 0 <= i < |s| ==> s[i] in CodeAlphabet
  }

  /** Upper-casing alphabet characters changes nothing. */
  lemma UpperAlphabet(s: string)
    requires AllInAlphabet(s)
    ensures ToUpper(s) == s
  {
    forall i | 0 <= i < |s|
      ensures ToUpper(s)[i] == s[i]
    {
      AlphabetChar(s[i]);
    }
  }

  lemma AlphabetNotMarks(s: string)
    requires AllInAlphabet(s)
    ensures forall i :: 0 <= i < |s| ==> s[i] != Separator && s[i] != PaddingCharacter
  {
    forall i | 0 <= i < |s|
      ensures s[i] != Separator && s[i] != PaddingCharacter
    {
      AlphabetChar(s[i]);
    }
  }

  /** Strip takes the separator and the padding back out of a formatted
      code, leaving its digits. */
  lemma {:induction false} StripFormat(digits: string, len: nat)
    requires AllInAlphabet(digits)
    requires MinDigitCount <= len <= |digits| && len <= MaxDigitCount
    ensures Strip(FormatCode(digits, len)) == digits[..len]
  {
    AlphabetNotMarks(digits[..len]);
    if len >= SeparatorPosition {
      var head, tail := digits[..SeparatorPosition], digits[SeparatorPosition..len];
      AlphabetNotMarks(head);
      AlphabetNotMarks(tail);
      assert FormatCode(digits, len) == head + ([Separator] + tail);
      StripKept(head, [Separator] + tail);
      StripDropped([Separator], tail);
      StripKeeps(tail);
      assert head + tail == digits[..len];
    } else {
      var head, marks := digits[..len], Zeros(SeparatorPosition - len) + [Separator];
      assert FormatCode(digits, len) == head + marks;
      StripKept(head, marks);
      assert marks == marks + [];
      StripDropped(marks, []);
      assert head + [] == head;
    }
  }

  /** The significant characters of the encoder's output are the first
      min(L, 15) digit characters of the point. */
  lemma EncodedSignificant(latVal: int, lngVal: int, codeLength: int)
    requires 0 <= latVal < LatLatticeSize && 0 <= lngVal < LngLatticeSize
    requires !InvalidCodeLength(codeLength)
    ensures var len := MinInt(codeLength, MaxDigitCount);
      Significant(IntegerCode(latVal, lngVal, codeLength).value) == Chars(CodeDigits(latVal, lngVal)[..len])
  {
    var len := MinInt(codeLength, MaxDigitCount);
    var ds := CodeDigits(latVal, lngVal);
    var digits := Chars(ds);
    assert AllInAlphabet(digits);
    StripFormat(digits, len);
    assert AllInAlphabet(digits[..len]);
    UpperAlphabet(digits[..len]);
    assert digits[..len] == Chars(ds[..len]);
  }

  // ---------------------------------------------------------------------
  // The encoder's output is a full code.

  /** The leading latitude digit of a lattice point is below 9 and the
      leading longitude digit below 18. */
  lemma LeadingDigits(latVal: int, lngVal: int)
    requires 0 <= latVal < LatLatticeSize && 0 <= lngVal < LngLatticeSize
    ensures CodeDigits(latVal, lngVal)[0] < 9 && CodeDigits(latVal, lngVal)[1] < 18
  {
    var x, y := latVal / LatGridSteps, lngVal / LngGridSteps;
    var a, b := Digits(x, EncodingBase, 5), Digits(y, EncodingBase, 5);
    InterleaveAt(a, b, 0);
    assert CodeDigits(latVal, lngVal)[..2] == Interleave(a, b)[..2];
    DigitsAt(x, EncodingBase, 5, 0);
    DigitsAt(y, EncodingBase, 5, 0);
    DropDigitsIsDiv(x, EncodingBase, 4);
    DropDigitsIsDiv(y, EncodingBase, 4);
    assert Pow(EncodingBase, 4) == 160000;
  }

  /** A formatted code of alphabet digits has the shape of a full code:
      unpadded with the separator at 8 from eight digits on, padded below. */
  lemma FormattedShape(digits: string, len: nat)
    requires AllInAlphabet(digits) && !InvalidCodeLength(len)
    requires len <= |digits| && len <= MaxDigitCount
    ensures len >= SeparatorPosition ==> UnpaddedAt(FormatCode(digits, len), SeparatorPosition)
    ensures len < SeparatorPosition ==> PaddedAt(FormatCode(digits, len), len, SeparatorPosition - len)
  {
    forall i | 0 <= i < |digits|
      ensures IsCodeDigit(digits[i])
    {
      AlphabetChar(digits[i]);
    }
  }

  /** A formatted code of alphabet digits is valid and has its separator
      first at index 8. */
  lemma FormattedValid(digits: string, len: nat)
    requires AllInAlphabet(digits) && !InvalidCodeLength(len)
    requires len <= |digits| && len <= MaxDigitCount
    ensures ValidCode(FormatCode(digits, len))
    ensures IndexOf(FormatCode(digits, len), Separator) == SeparatorPosition
  {
    var code := FormatCode(digits, len);
    FormattedShape(digits, len);
    WellFormedIsValid(code);
    AlphabetNotMarks(digits);
    assert forall i :: 0 <= i < SeparatorPosition ==> code[i] != Separator;
  }

  /** The output of the encoder for in-range lattice values is a full
      code: valid, not short, and with leading digits inside the domain. */
  lemma EncodedIsFull(latVal: int, lngVal: int, codeLength: int)
    requires 0 <= latVal < LatLatticeSize && 0 <= lngVal < LngLatticeSize
    requires !InvalidCodeLength(codeLength)
    ensures IsFull(IntegerCode(latVal, lngVal, codeLength).value)
  {
    var len := MinInt(codeLength, MaxDigitCount);
    var ds := CodeDigits(latVal, lngVal);
    var digits := Chars(ds);
    var code := IntegerCode(latVal, lngVal, codeLength).value;
    assert code == FormatCode(digits, len);
    assert AllInAlphabet(digits);
    FormattedValid(digits, len);
    LeadingDigits(latVal, lngVal);
    DigitValueOf(ds[0]);
    DigitValueOf(ds[1]);
    AlphabetChar(digits[0]);
    AlphabetChar(digits[1]);
    assert code[0] == digits[0] && code[1] == digits[1];
  }

  // ---------------------------------------------------------------------
  // Place-value arithmetic of the decoded cell.

  /** The first j of the count digits of x denote x with its last
      count - j digits dropped, modulo base^j. */
  lemma PrefixValue(x: nat, base: nat, count: nat, j: nat)
    requires base >= 2 && j <= count
    ensures ValueOf(Digits(x, base, count)[..j], base) == (x / Pow(base, count - j)) % Pow(base, j)
  {
    DigitsPrefix(x, base, count, j);
    ValueOfDigits(x / Pow(base, count - j), base, j);
  }

  lemma DivBelow(x: nat, a: nat, b: nat)
    requires a > 0 && x < a * b
    ensures x / a < b
  {
    if x / a >= b {
      MulMono(a, b, x / a);
    }
  }

  /** The j leading pair digits of v (in units of `steps`) at their place
      values, scaled back by `steps`, are v rounded down to a multiple of
      the j-pair cell 20^(5 - j) * steps. */
  lemma PairCell(v: nat, steps: nat, j: nat)
    requires steps > 0 && j <= 5 && v / steps < Pow(EncodingBase, 5)
    ensures ValueOf(Digits(v / steps, EncodingBase, 5)[..j], EncodingBase) * Pow(EncodingBase, 5 - j) * steps ==
      (v / (Pow(EncodingBase, 5 - j) * steps)) * (Pow(EncodingBase, 5 - j) * steps)
  {
    var x, p := v / steps, Pow(EncodingBase, 5 - j);
    PrefixValue(x, EncodingBase, 5, j);
    PowAdd(EncodingBase, 5 - j, j);
    DivBelow(x, p, Pow(EncodingBase, j));
    DivModUnique(x / p, Pow(EncodingBase, j), 0, x / p);
    DivModNested(v, steps, p);
    MulAssoc(x / p, p, steps);
    assert steps * p == p * steps;
  }

  /** Rounding v down to a multiple of base^5 and adding the g leading
      grid digits at their place values rounds v down to a multiple of
      base^(5 - g). */
  lemma GridCell(v: nat, base: nat, g: nat)
    requires base >= 2 && g <= 5
    ensures (v / Pow(base, 5)) * Pow(base, 5) + ValueOf(Digits(v, base, 5)[..g], base) * Pow(base, 5 - g) ==
      (v / Pow(base, 5 - g)) * Pow(base, 5 - g)
  {
    var q, c := Pow(base, 5 - g), Pow(base, g);
    var r := v / q;
    PrefixValue(v, base, 5, g);
    PowAdd(base, 5 - g, g);
    assert Pow(base, 5) == q * c;
    DivModNested(v, q, c);
    SplitQuotient(r, c, q);
  }

  /** Splitting a multiple r * q at a coarser step c * q. */
  lemma SplitQuotient(r: nat, c: nat, q: nat)
    requires c > 0
    ensures r * q == (r / c) * (q * c) + (r % c) * q
  {
    var a, b := r / c, r % c;
    assert r == c * a + b;
    calc {
      r * q;
      (c * a + b) * q;
      (c * a) * q + b * q;
      { MulAssoc(a, c, q); }
      a * (c * q) + b * q;
    }
  }

  // ---------------------------------------------------------------------
  // The digits decode reads back from the encoder's digits.

  /** The even and odd positions of a prefix of interleaved digits are
      prefixes of the two interleaved sequences. */
  lemma SplitPrefix(a: seq<nat>, b: seq<nat>, j: nat)
    requires |a| == |b| && j <= |a|
    ensures Evens(Interleave(a, b)[..2 * j]) == a[..j]
    ensures Odds(Interleave(a, b)[..2 * j]) == b[..j]
  {
    forall k | 0 <= k < j
      ensures Evens(Interleave(a, b)[..2 * j])[k] == a[k] && Odds(Interleave(a, b)[..2 * j])[k] == b[k]
    {
      InterleaveAt(a, b, k);
    }
  }

  /** The rows and columns of a prefix of combined grid digits are the
      prefixes of the row and column digits. */
  lemma GridSplitPrefix(rows: seq<nat>, cols: seq<nat>, g: nat)
    requires |rows| == |cols| && DigitsBelow(rows, GridRows) && DigitsBelow(cols, GridColumns)
    requires g <= |rows|
    ensures Rows(GridCombine(rows, cols)[..g]) == rows[..g]
    ensures Cols(GridCombine(rows, cols)[..g]) == cols[..g]
  {
    forall k | 0 <= k < g
      ensures Rows(GridCombine(rows, cols)[..g])[k] == rows[k]
      ensures Cols(GridCombine(rows, cols)[..g])[k] == cols[k]
    {
      DivModUnique(rows[k] * GridColumns + cols[k], GridColumns, rows[k], cols[k]);
    }
  }

  /** The pair digits decode reads from the first n encoder digits are
      the leading pair digits of latitude and longitude. */
  lemma CodePairs(latVal: nat, lngVal: nat, n: nat)
    requires DecodableLength(n)
    ensures Evens(PairPart(CodeDigits(latVal, lngVal)[..n])) ==
      Digits(latVal / LatGridSteps, EncodingBase, 5)[..|PairPart(CodeDigits(latVal, lngVal)[..n])| / 2]
    ensures Odds(PairPart(CodeDigits(latVal, lngVal)[..n])) ==
      Digits(lngVal / LngGridSteps, EncodingBase, 5)[..|PairPart(CodeDigits(latVal, lngVal)[..n])| / 2]
  {
    var a := Digits(latVal / LatGridSteps, EncodingBase, 5);
    var b := Digits(lngVal / LngGridSteps, EncodingBase, 5);
    var ds := CodeDigits(latVal, lngVal)[..n];
    var j := |PairPart(ds)| / 2;
    assert PairPart(ds) == Interleave(a, b)[..2 * j];
    SplitPrefix(a, b, j);
  }

  /** The grid digits decode reads from the first n > 10 encoder digits
      are the leading grid rows and columns. */
  lemma CodeGrid(latVal: nat, lngVal: nat, n: nat)
    requires DecodableLength(n) && n > PairCodeLength
    ensures Rows(GridPart(CodeDigits(latVal, lngVal)[..n])) == Digits(latVal, GridRows, 5)[..n - PairCodeLength]
    ensures Cols(GridPart(CodeDigits(latVal, lngVal)[..n])) == Digits(lngVal, GridColumns, 5)[..n - PairCodeLength]
  {
    var rows, cols := Digits(latVal, GridRows, 5), Digits(lngVal, GridColumns, 5);
    var ds := CodeDigits(latVal, lngVal)[..n];
    assert GridPart(ds) == GridCombine(rows, cols)[..n - PairCodeLength];
    GridSplitPrefix(rows, cols, n - PairCodeLength);
  }

  /** The decoded south-west corner is the point rounded down to the
      cell size of the code length, in latitude ... */
  lemma LatCorner(latVal: nat, lngVal: nat, n: nat)
    requires latVal < LatLatticeSize && DecodableLength(n)
    ensures LatLo(CodeDigits(latVal, lngVal)[..n]) == (latVal / LatCell(n)) * LatCell(n)
  {
    var ds := CodeDigits(latVal, lngVal)[..n];
    var j := |PairPart(ds)| / 2;
    var pairs := ValueOf(Digits(latVal / LatGridSteps, EncodingBase, 5)[..j], EncodingBase);
    CodePairs(latVal, lngVal, n);
    assert LatPairSum(ds) == pairs * Pow(EncodingBase, 5 - j);
    assert Pow(EncodingBase, 5) == 3200000;
    PairCell(latVal, LatGridSteps, j);
    if n > PairCodeLength {
      CodeGrid(latVal, lngVal, n);
      GridStepsArePowers();
      GridCorner(latVal, pairs, n, GridRows, LatPairSum(ds), LatGridSum(ds));
    } else {
      assert GridPart(ds) == [];
    }
  }

  /** ... and in longitude. */
  lemma LngCorner(latVal: nat, lngVal: nat, n: nat)
    requires lngVal < LngLatticeSize && DecodableLength(n)
    ensures LngLo(CodeDigits(latVal, lngVal)[..n]) == (lngVal / LngCell(n)) * LngCell(n)
  {
    var ds := CodeDigits(latVal, lngVal)[..n];
    var j := |PairPart(ds)| / 2;
    var pairs := ValueOf(Digits(lngVal / LngGridSteps, EncodingBase, 5)[..j], EncodingBase);
    CodePairs(latVal, lngVal, n);
    assert LngPairSum(ds) == pairs * Pow(EncodingBase, 5 - j);
    assert Pow(EncodingBase, 5) == 3200000;
    PairCell(lngVal, LngGridSteps, j);
    if n > PairCodeLength {
      CodeGrid(latVal, lngVal, n);
      GridStepsArePowers();
      GridCorner(lngVal, pairs, n, GridColumns, LngPairSum(ds), LngGridSum(ds));
    } else {
      assert GridPart(ds) == [];
    }
  }

  /** With all five pairs read, the pair sum is v in whole grid cells and
      the grid digits refine it to the cell of the code length. */
  lemma GridCorner(v: nat, pairs: nat, n: nat, base: nat, pairSum: nat, gridSum: nat)
    requires base >= 2 && PairCodeLength < n <= MaxDigitCount
    requires pairSum == pairs * Pow(EncodingBase, 0)
    requires pairs * Pow(EncodingBase, 0) * Pow(base, 5) ==
      (v / (Pow(EncodingBase, 0) * Pow(base, 5))) * (Pow(EncodingBase, 0) * Pow(base, 5))
    requires gridSum == ValueOf(Digits(v, base, 5)[..n - PairCodeLength], base) * Pow(base, 5 - (n - PairCodeLength))
    ensures pairSum * Pow(base, 5) + gridSum == (v / Pow(base, MaxDigitCount - n)) * Pow(base, MaxDigitCount - n)
  {
    GridCell(v, base, n - PairCodeLength);
  }

  // ---------------------------------------------------------------------
  // The round trip.

  /** The cell of n digits that holds a lattice point, in degrees: the
      point rounded down to a multiple of the cell size in each axis. */
  function PointCell(latVal: nat, lngVal: nat, n: nat): (area: CodeArea)
    requires DecodableLength(n)
    ensures area.codeLength == n
  {
    var latLo := (latVal / LatCell(n)) * LatCell(n);
    var lngLo := (lngVal / LngCell(n)) * LngCell(n);
    CodeArea(LatDegrees(latLo), LngDegrees(lngLo), LatDegrees(latLo + LatCell(n)), LngDegrees(lngLo + LngCell(n)), n)
  }

  /** decode of the encoder's output for a lattice point: a full code
      whose area is the cell of min(L, 15) digits holding the point. */
  lemma DecodeEncoded(latVal: int, lngVal: int, codeLength: int)
    requires 0 <= latVal < LatLatticeSize && 0 <= lngVal < LngLatticeSize
    requires !InvalidCodeLength(codeLength)
    ensures DecodableLength(MinInt(codeLength, MaxDigitCount))
    ensures IsFull(IntegerCode(latVal, lngVal, codeLength).value)
    ensures DecodedArea(IntegerCode(latVal, lngVal, codeLength).value) ==
      Success(PointCell(latVal, lngVal, MinInt(codeLength, MaxDigitCount)))
  {
    var code := IntegerCode(latVal, lngVal, codeLength).value;
    var n := MinInt(codeLength, MaxDigitCount);
    EncodedIsFull(latVal, lngVal, codeLength);
    EncodedSignificant(latVal, lngVal, codeLength);
    DecodedCell(code, latVal, lngVal, n);
  }

  /** A full code whose significant characters are the first n digit
      characters of a lattice point decodes to the point's cell. */
  lemma DecodedCell(code: string, latVal: nat, lngVal: nat, n: nat)
    requires latVal < LatLatticeSize && lngVal < LngLatticeSize && DecodableLength(n)
    requires IsFull(code) && Significant(code) == Chars(CodeDigits(latVal, lngVal)[..n])
    ensures DecodedArea(code) == Success(PointCell(latVal, lngVal, n))
  {
    var ds := CodeDigits(latVal, lngVal)[..n];
    assert DigitsBelow(ds, EncodingBase);
    DecodedDigits(code, ds);
    CellOfDigits(latVal, lngVal, n);
  }

  /** The area of the first n digits of a lattice point is its cell. */
  lemma CellOfDigits(latVal: nat, lngVal: nat, n: nat)
    requires latVal < LatLatticeSize && lngVal < LngLatticeSize && DecodableLength(n)
    ensures AreaOf(CodeDigits(latVal, lngVal)[..n]) == PointCell(latVal, lngVal, n)
  {
    LatCorner(latVal, lngVal, n);
    LngCorner(latVal, lngVal, n);
  }

  /** A full code whose significant characters are the characters of ds
      decodes to the area of ds. */
  lemma DecodedDigits(code: string, ds: seq<nat>)
    requires IsFull(code) && DecodableLength(|ds|) && DigitsBelow(ds, EncodingBase)
    requires Significant(code) == Chars(ds)
    ensures DecodedArea(code) == Success(AreaOf(ds))
  {
    ValuesOfChars(ds);
  }

  /** The decoded area holds the whole lattice square of the point. */
  lemma DecodedContainsPoint(latVal: int, lngVal: int, codeLength: int)
    requires 0 <= latVal < LatLatticeSize && 0 <= lngVal < LngLatticeSize
    requires !InvalidCodeLength(codeLength)
    ensures var r := DecodedArea(IntegerCode(latVal, lngVal, codeLength).value);
      r.Success? && r.value.codeLength == MinInt(codeLength, MaxDigitCount) &&
      r.value.latitudeLo <= LatDegrees(latVal) && LatDegrees(latVal + 1) <= r.value.latitudeHi &&
      r.value.longitudeLo <= LngDegrees(lngVal) && LngDegrees(lngVal + 1) <= r.value.longitudeHi
  {
    var n := MinInt(codeLength, MaxDigitCount);
    DecodeEncoded(latVal, lngVal, codeLength);
    RoundDown(latVal, LatCell(n));
    RoundDown(lngVal, LngCell(n));
    DegreesMonotone((latVal / LatCell(n)) * LatCell(n), latVal);
    DegreesMonotone(latVal + 1, (latVal / LatCell(n)) * LatCell(n) + LatCell(n));
    DegreesMonotone((lngVal / LngCell(n)) * LngCell(n), lngVal);
    DegreesMonotone(lngVal + 1, (lngVal / LngCell(n)) * LngCell(n) + LngCell(n));
  }

  lemma DegreesMonotone(a: int, b: int)
    requires a <= b
    ensures LatDegrees(a) <= LatDegrees(b) && LngDegrees(a) <= LngDegrees(b)
  {
  }

  /** encode and then decode: the area contains the location, with the
      latitude clipped to the poles and the longitude wrapped into
      [-180, 180). A location at or above the north pole is clipped to 90,
      which lies on the closed northern edge of the top row. */
  lemma EncodeDecode(latitude: real, longitude: real, codeLength: int)
    requires !InvalidCodeLength(codeLength)
    ensures var r := DecodedArea(Encode(latitude, longitude, codeLength).value);
      r.Success? && r.value.codeLength == MinInt(codeLength, MaxDigitCount) &&
      r.value.latitudeLo <= ClipLatitude(latitude) <= r.value.latitudeHi &&
      (latitude < LatitudeMax as real ==> ClipLatitude(latitude) < r.value.latitudeHi) &&
      r.value.longitudeLo <= NormalLongitude(longitude) < r.value.longitudeHi
  {
    var lat, lng := ClipLatitude(latitude), NormalLongitude(longitude);
    var latVal, lngVal := LatitudeToInteger(latitude), LongitudeToInteger(longitude);
    LatitudeToIntegerClipped(latitude);
    LongitudeToIntegerNormalized(longitude);
    assert latVal == LatitudeToInteger(lat) && lngVal == LongitudeToInteger(lng);
    DecodedContainsPoint(latVal, lngVal, codeLength);
    if latitude < LatitudeMax as real {
      LatticeSquare(lat, latVal, lng, lngVal);
    } else {
      assert latVal == LatLatticeSize - 1 && lat == LatitudeMax as real;
      assert LatDegrees(latVal + 1) == lat;
      LatticeSquare(LatDegrees(latVal), latVal, lng, lngVal);
    }
  }

  /** A location lies in the lattice square it is floored to. */
  lemma LatticeSquare(lat: real, latVal: int, lng: real, lngVal: int)
    requires latVal as real <= (lat + 90.0) * FinalLatPrecision as real < latVal as real + 1.0
    requires lngVal as real <= (lng + 180.0) * FinalLngPrecision as real < lngVal as real + 1.0
    ensures LatDegrees(latVal) <= lat < LatDegrees(latVal + 1)
    ensures LngDegrees(lngVal) <= lng < LngDegrees(lngVal + 1)
  {
  }
}
