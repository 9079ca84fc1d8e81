/** decode of src/OpenLocationCode.php. The significant digits of a full
    code (separator and padding removed, upper-cased, at most fifteen) are
    read as up to five latitude/longitude pairs with place values 20^4 down
    to 20^0 at pair precision, then up to five grid digits, each a row of 5
    and a column of 4. In lattice steps (see Normalizer) the area is a cell
    whose south-west corner is the place-value sum of the digits and whose
    size is the place value of the last digit read. */
module Decoder {
  import opened Results
  import opened Alphabet
  import opened Numerals
  import opened Validator
  import opened CodeAreas
  import opened Encoder

  /** The characters decode reads: str_replace of the separator and the
      padding, strtoupper, and substr to fifteen characters. */
  function Significant(code: string): (s: string)
    ensures |s| <= MaxDigitCount
  {
    var u := ToUpper(Strip(code));
    u[..MinInt(|u|, MaxDigitCount)]
  }

  predicate InAlphabet(s: string)
  {
    forall i :: 0 <= i < |s| ==> s[i] in CodeAlphabet
  }

  /** The digit counts a full code can have: two to fifteen, even up to
      the end of the pair section. */
  predicate DecodableLength(n: nat)
  {
    MinDigitCount <= n <= MaxDigitCount && (n <= PairCodeLength ==> n % 2 == 0)
  }

  /** The value of each character: strpos in the alphabet. */
  function Values(s: string): (ds: seq<nat>)
    requires InAlphabet(s)
    ensures |ds| == |s| && DigitsBelow(ds, EncodingBase)
    ensures forall i :: 0 <= i < |s| ==> CodeAlphabet[ds[i]] == s[i]
  {
    seq(|s|, i requires 0 <= i < |s| => DigitValue(s[i]) as nat)
  }

  /** Reading the characters of digit values gives the values back. */
  lemma ValuesOfChars(ds: seq<nat>)
    requires DigitsBelow(ds, EncodingBase)
    ensures InAlphabet(Chars(ds)) && Values(Chars(ds)) == ds
  {
    forall i | 0 <= i < |ds|
      ensures Values(Chars(ds))[i] == ds[i]
    {
      DigitValueOf(ds[i]);
    }
  }

  /** The latitude digits of a run of pairs: every other digit from 0. */
  function Evens(ds: seq<nat>): (r: seq<nat>)
    requires |ds| % 2 == 0
    ensures |r| == |ds| / 2 && forall k :: 0 <= k < |r| ==> r[k] == ds[2 * k]
  {
    seq(|ds| / 2, k requires 0 <= k < |ds| / 2 => ds[2 * k])
  }

  /** The longitude digits of a run of pairs: every other digit from 1. */
  function Odds(ds: seq<nat>): (r: seq<nat>)
    requires |ds| % 2 == 0
    ensures |r| == |ds| / 2 && forall k :: 0 <= k < |r| ==> r[k] == ds[2 * k + 1]
  {
    seq(|ds| / 2, k requires 0 <= k < |ds| / 2 => ds[2 * k + 1])
  }

  /** Splitting pairs undoes interleaving. */
  lemma SplitInterleaved(a: seq<nat>, b: seq<nat>)
    requires |a| == |b|
    ensures Evens(Interleave(a, b)) == a && Odds(Interleave(a, b)) == b
  {
    forall k | 0 <= k < |a|
      ensures Evens(Interleave(a, b))[k] == a[k] && Odds(Interleave(a, b))[k] == b[k]
    {
      InterleaveAt(a, b, k);
    }
  }

  /** Interleaving the split pairs gives the pairs back. */
  lemma InterleaveSplit(ds: seq<nat>)
    requires |ds| % 2 == 0
    ensures Interleave(Evens(ds), Odds(ds)) == ds
  {
    var r := Interleave(Evens(ds), Odds(ds));
    forall i | 0 <= i < |ds|
      ensures r[i] == ds[i]
    {
      InterleaveAt(Evens(ds), Odds(ds), i / 2);
    }
  }

  /** The row (latitude) part of grid digits. */
  function Rows(g: seq<nat>): (r: seq<nat>)
    ensures |r| == |g| && forall k :: 0 <= k < |g| ==> r[k] == g[k] / GridColumns
  {
    seq(|g|, k requires 0 <= k < |g| => g[k] / GridColumns)
  }

  /** The column (longitude) part of grid digits. */
  function Cols(g: seq<nat>): (r: seq<nat>)
    ensures |r| == |g| && forall k :: 0 <= k < |g| ==> r[k] == g[k] % GridColumns
  {
    seq(|g|, k requires 0 <= k < |g| => g[k] % GridColumns)
  }

  /** The pair digits decode reads: the first min(n, 10). */
  function PairPart(ds: seq<nat>): (r: seq<nat>)
    requires DecodableLength(|ds|)
    ensures |r| == MinInt(|ds|, PairCodeLength) && |r| % 2 == 0 && r == ds[..|r|]
  {
    ds[..MinInt(|ds|, PairCodeLength)]
  }

  /** The grid digits decode reads: those after the tenth. */
  function GridPart(ds: seq<nat>): (r: seq<nat>)
    requires DecodableLength(|ds|)
    ensures |r| <= GridCodeLength
    ensures |ds| > PairCodeLength ==> r == ds[PairCodeLength..]
    ensures |ds| <= PairCodeLength ==> r == []
  {
    if |ds| > PairCodeLength then ds[PairCodeLength..] else []
  }

  /** The latitude size of the area of an n-digit code, in lattice steps:
      the place value of its last latitude digit. */
  function LatCell(n: nat): (c: nat)
    requires DecodableLength(n)
    ensures c > 0
  {
    if n > PairCodeLength then Pow(GridRows, MaxDigitCount - n)
    else Pow(EncodingBase, PairCodeLength / 2 - n / 2) * LatGridSteps
  }

  function LngCell(n: nat): (c: nat)
    requires DecodableLength(n)
    ensures c > 0
  {
    if n > PairCodeLength then Pow(GridColumns, MaxDigitCount - n)
    else Pow(EncodingBase, PairCodeLength / 2 - n / 2) * LngGridSteps
  }

  /** The pair digits at their place values, 20^4 for the first pair
      down to 20^0 for the fifth, in units of pair precision. */
  function LatPairSum(ds: seq<nat>): nat
    requires DecodableLength(|ds|)
  {
    ValueOf(Evens(PairPart(ds)), EncodingBase) * Pow(EncodingBase, PairCodeLength / 2 - |PairPart(ds)| / 2)
  }

  function LngPairSum(ds: seq<nat>): nat
    requires DecodableLength(|ds|)
  {
    ValueOf(Odds(PairPart(ds)), EncodingBase) * Pow(EncodingBase, PairCodeLength / 2 - |PairPart(ds)| / 2)
  }

  /** The grid rows at their place values, 5^4 for the first grid digit
      down to 5^0 for the fifth, in lattice steps. */
  function LatGridSum(ds: seq<nat>): nat
    requires DecodableLength(|ds|)
  {
    ValueOf(Rows(GridPart(ds)), GridRows) * Pow(GridRows, GridCodeLength - |GridPart(ds)|)
  }

  /** The grid columns at their place values, 4^4 down to 4^0. */
  function LngGridSum(ds: seq<nat>): nat
    requires DecodableLength(|ds|)
  {
    ValueOf(Cols(GridPart(ds)), GridColumns) * Pow(GridColumns, GridCodeLength - |GridPart(ds)|)
  }

  /** The south-west corner in lattice steps: the pair sum scaled to the
      lattice plus the grid sum. */
  function LatLo(ds: seq<nat>): nat
    requires DecodableLength(|ds|)
  {
    LatPairSum(ds) * LatGridSteps + LatGridSum(ds)
  }

  function LngLo(ds: seq<nat>): nat
    requires DecodableLength(|ds|)
  {
    LngPairSum(ds) * LngGridSteps + LngGridSum(ds)
  }

  /** Lattice steps to degrees. */
  function LatDegrees(v: int): real
  {
    v as real / FinalLatPrecision as real - LatitudeMax as real
  }

  function LngDegrees(v: int): real
  {
    v as real / FinalLngPrecision as real - LongitudeMax as real
  }

  /** The area of decodable digits: the cell at its south-west corner, as
      long and as wide as the place value of its last digit. */
  function AreaOf(ds: seq<nat>): (area: CodeArea)
    requires DecodableLength(|ds|) && DigitsBelow(ds, EncodingBase)
    ensures area.codeLength == |ds|
    ensures area.latitudeLo < area.latitudeHi && area.longitudeLo < area.longitudeHi
    ensures area.latitudeHi - area.latitudeLo == LatCell(|ds|) as real / FinalLatPrecision as real
    ensures area.longitudeHi - area.longitudeLo == LngCell(|ds|) as real / FinalLngPrecision as real
  {
    CodeArea(LatDegrees(LatLo(ds)), LngDegrees(LngLo(ds)),
             LatDegrees(LatLo(ds) + LatCell(|ds|)), LngDegrees(LngLo(ds) + LngCell(|ds|)),
             |ds|)
  }

  /** Upper-casing code digits gives alphabet characters. */
  lemma UpperDigits(s: string)
    requires forall i :: 0 <= i < |s| ==> IsCodeDigit(s[i])
    ensures InAlphabet(ToUpper(s))
  {
  }

  /** A full code has between two and fifteen significant digits, an even
      number up to ten, all in the alphabet. */
  lemma FullDigits(code: string)
    requires IsFull(code)
    ensures InAlphabet(Significant(code)) && DecodableLength(|Significant(code)|)
  {
    FullShape(code);
    if UnpaddedAt(code, SeparatorPosition) {
      UnpaddedDigits(code);
    } else {
      var a, n :| PaddedAt(code, a, n);
      PaddedDigits(code, a, n);
    }
  }

  /** A full code is unpadded with the separator at 8, or padded. */
  lemma FullShape(code: string)
    requires IsFull(code)
    ensures UnpaddedAt(code, SeparatorPosition) || exists a, n :: PaddedAt(code, a, n)
  {
    ValidIsWellFormed(code);
    if p :| UnpaddedAt(code, p) {
      assert IndexOf(code, Separator) == SeparatorPosition;
      assert p == SeparatorPosition;
    }
  }

  lemma UnpaddedDigits(code: string)
    requires UnpaddedAt(code, SeparatorPosition)
    ensures InAlphabet(Significant(code)) && DecodableLength(|Significant(code)|)
  {
    var head, tail := code[..SeparatorPosition], code[SeparatorPosition + 1..];
    forall i | 0 <= i < |head|
      ensures IsCodeDigit(head[i])
    {
      assert head[i] == code[i];
    }
    forall i | 0 <= i < |tail|
      ensures IsCodeDigit(tail[i])
    {
      assert tail[i] == code[SeparatorPosition + 1 + i];
    }
    UnpaddedStrip(code);
    DigitsJoin(head, tail);
    SignificantOf(code, head + tail);
  }

  /** Two runs of code digits make one. */
  lemma DigitsJoin(head: string, tail: string)
    requires forall i :: 0 <= i < |head| ==> IsCodeDigit(head[i])
    requires forall i :: 0 <= i < |tail| ==> IsCodeDigit(tail[i])
    ensures forall i :: 0 <= i < |head + tail| ==> IsCodeDigit((head + tail)[i])
  {
  }

  lemma PaddedDigits(code: string, a: int, n: int)
    requires PaddedAt(code, a, n)
    ensures InAlphabet(Significant(code)) && DecodableLength(|Significant(code)|)
  {
    PaddedStrip(code, a, n);
    var stripped := code[..a] + code[a + n..SeparatorPosition];
    forall i | 0 <= i < |stripped|
      ensures IsCodeDigit(stripped[i])
    {
      if i < a {
        assert stripped[i] == code[i];
      } else {
        assert stripped[i] == code[i + n];
      }
    }
    SignificantOf(code, stripped);
  }

  lemma SignificantOf(code: string, stripped: string)
    requires Strip(code) == stripped
    requires forall i :: 0 <= i < |stripped| ==> IsCodeDigit(stripped[i])
    requires DecodableLength(MinInt(|stripped|, MaxDigitCount))
    ensures InAlphabet(Significant(code)) && DecodableLength(|Significant(code)|)
  {
    UpperDigits(stripped);
  }

  lemma {:induction false} UnpaddedStrip(code: string)
    requires UnpaddedAt(code, SeparatorPosition)
    ensures Strip(code) == code[..SeparatorPosition] + code[SeparatorPosition + 1..]
  {
    var head, tail := code[..SeparatorPosition], code[SeparatorPosition + 1..];
    forall i | 0 <= i < |head|
      ensures head[i] != Separator && head[i] != PaddingCharacter
    {
      CodeDigitNotSeparatorOrPadding(code[i]);
    }
    forall i | 0 <= i < |tail|
      ensures tail[i] != Separator && tail[i] != PaddingCharacter
    {
      CodeDigitNotSeparatorOrPadding(code[SeparatorPosition + 1 + i]);
    }
    assert code == head + ([Separator] + tail);
    StripKept(head, [Separator] + tail);
    StripDropped([Separator], tail);
    StripKeeps(tail);
  }

  lemma {:induction false} PaddedStrip(code: string, a: int, n: int)
    requires PaddedAt(code, a, n)
    ensures Strip(code) == code[..a] + code[a + n..SeparatorPosition]
  {
    var head, pads, rest := code[..a], code[a..a + n], code[a + n..SeparatorPosition];
    assert code == head + pads + rest + [Separator];
    StripConcat(head + pads + rest, [Separator]);
    assert Strip([Separator]) == [];
    forall i | 0 <= i < |head|
      ensures head[i] != Separator && head[i] != PaddingCharacter
    {
      CodeDigitNotSeparatorOrPadding(code[i]);
    }
    forall i | 0 <= i < |rest|
      ensures rest[i] != Separator && rest[i] != PaddingCharacter
    {
      CodeDigitNotSeparatorOrPadding(code[a + n + i]);
    }
    StripRun(head, pads, rest);
  }

  /** Strip removes a run of padding between characters it keeps. */
  lemma {:induction false} StripRun(head: string, pads: string, rest: string)
    requires forall i :: 0 <= i < |head| ==> head[i] != Separator && head[i] != PaddingCharacter
    requires forall i :: 0 <= i < |pads| ==> pads[i] == PaddingCharacter
    requires forall i :: 0 <= i < |rest| ==> rest[i] != Separator && rest[i] != PaddingCharacter
    ensures Strip(head + pads + rest) == head + rest
  {
    assert head + pads + rest == head + (pads + rest);
    StripKept(head, pads + rest);
    StripDropped(pads, rest);
    StripKeeps(rest);
  }

  lemma {:induction false} StripKept(a: string, b: string)
    requires forall i :: 0 <= i < |a| ==> a[i] != Separator && a[i] != PaddingCharacter
    ensures Strip(a + b) == a + Strip(b)
  {
    StripConcat(a, b);
    StripKeeps(a);
  }

  lemma {:induction false} StripDropped(a: string, b: string)
    requires forall i :: 0 <= i < |a| ==> a[i] == Separator || a[i] == PaddingCharacter
    ensures Strip(a + b) == Strip(b)
  {
    StripConcat(a, b);
    StripDrops(a);
  }

  /** decode, as a function of the code: Failure for anything that is not
      a full code, otherwise the area of its significant digits. */
  function DecodedArea(code: string): (r: Result<CodeArea>)
    ensures r.Failure? <==> !IsFull(code)
    ensures r.Failure? ==> r.error == InvalidCode
    ensures r.Success? ==> r.value.codeLength == |Significant(code)|
  {
    if !IsFull(code) then Failure(InvalidCode)
    else
      FullDigits(code);
      Success(AreaOf(Values(Significant(code))))
  }

  /** decode: reject a code that is not full, read the significant
      characters, accumulate the pairs and then the grid digits with
      falling place values, and convert to degrees. */
  method Decode(code: string) returns (r: Result<CodeArea>)
    ensures r == DecodedArea(code)
  {
    if !IsFull(code) {
      return Failure(InvalidCode);
    }
    FullDigits(code);
    var c := Strip(code);
    c := ToUpper(c);
    c := c[..MinInt(|c|, MaxDigitCount)];
    assert c == Significant(code);
    var area := DecodeDigits(c);
    r := Success(area);
  }

  /** The part of decode after the significant characters are known: the
      pair loop, the grid loop when there are more than ten characters,
      and the conversion to degrees. */
  method DecodeDigits(c: string) returns (area: CodeArea)
    requires InAlphabet(c) && DecodableLength(|c|)
    ensures area == AreaOf(Values(c))
  {
    // the position in the alphabet of each character, which the loops
    // look up one character at a time
    var values := Values(c);

    var digits := MinInt(|c|, PairCodeLength);
    var normalLat, normalLng, pv := DecodePairs(values, digits);
    var gridLat, gridLng := 0, 0;
    var latPrecision := pv as real / PairPrecision as real;
    var lngPrecision := pv as real / PairPrecision as real;
    if |c| > PairCodeLength {
      var rowpv, colpv;
      gridLat, gridLng, rowpv, colpv := DecodeGrid(values, MinInt(|c|, MaxDigitCount));
      latPrecision := rowpv as real / FinalLatPrecision as real;
      lngPrecision := colpv as real / FinalLngPrecision as real;
      WithGrid(values, rowpv, colpv);
    } else {
      assert digits == |values|;
      WithoutGrid(values, pv);
    }
    var lat := normalLat as real / PairPrecision as real + gridLat as real / FinalLatPrecision as real;
    var lng := normalLng as real / PairPrecision as real + gridLng as real / FinalLngPrecision as real;
    AreaFromSums(values, normalLat, normalLng, gridLat, gridLng, latPrecision, lngPrecision);
    area := CodeArea(lat, lng, lat + latPrecision, lng + lngPrecision, MinInt(|c|, MaxDigitCount));
  }

  /** With grid digits, the last place values are the cell sizes and the
      grid loop read all of them. */
  lemma WithGrid(values: seq<nat>, rowpv: nat, colpv: nat)
    requires DecodableLength(|values|) && |values| > PairCodeLength
    requires rowpv == Pow(GridRows, MaxDigitCount - |values|) && colpv == Pow(GridColumns, MaxDigitCount - |values|)
    ensures rowpv as real / FinalLatPrecision as real == LatCell(|values|) as real / FinalLatPrecision as real
    ensures colpv as real / FinalLngPrecision as real == LngCell(|values|) as real / FinalLngPrecision as real
  {
  }

  /** Without grid digits, the grid sums are zero and the last pair place
      value, scaled to the lattice, is the cell size. */
  lemma WithoutGrid(values: seq<nat>, pv: nat)
    requires DecodableLength(|values|) && |values| <= PairCodeLength
    requires pv == Pow(EncodingBase, PairCodeLength / 2 - |values| / 2)
    ensures LatGridSum(values) == 0 && LngGridSum(values) == 0
    ensures pv as real / PairPrecision as real == LatCell(|values|) as real / FinalLatPrecision as real
    ensures pv as real / PairPrecision as real == LngCell(|values|) as real / FinalLngPrecision as real
  {
    assert Rows(GridPart(values)) == [] && Cols(GridPart(values)) == [];
  }

  /** The sums and last place values the loops leave, converted to
      degrees as decode does, are the area of the digits. */
  lemma AreaFromSums(ds: seq<nat>, normalLat: int, normalLng: int, gridLat: nat, gridLng: nat,
                     latPrecision: real, lngPrecision: real)
    requires DecodableLength(|ds|) && DigitsBelow(ds, EncodingBase)
    requires normalLat + LatitudeMax * PairPrecision == LatPairSum(ds)
    requires normalLng + LongitudeMax * PairPrecision == LngPairSum(ds)
    requires gridLat == LatGridSum(ds) && gridLng == LngGridSum(ds)
    requires latPrecision == LatCell(|ds|) as real / FinalLatPrecision as real
    requires lngPrecision == LngCell(|ds|) as real / FinalLngPrecision as real
    ensures var lat := normalLat as real / PairPrecision as real + gridLat as real / FinalLatPrecision as real;
      var lng := normalLng as real / PairPrecision as real + gridLng as real / FinalLngPrecision as real;
      AreaOf(ds) == CodeArea(lat, lng, lat + latPrecision, lng + lngPrecision, |ds|)
  {
    var latLo := (normalLat + LatitudeMax * PairPrecision) * LatGridSteps + gridLat;
    var lngLo := (normalLng + LongitudeMax * PairPrecision) * LngGridSteps + gridLng;
    DegreesShift(latLo, LatCell(|ds|), lngLo, LngCell(|ds|));
    assert LatDegrees(latLo) == normalLat as real / PairPrecision as real + gridLat as real / FinalLatPrecision as real;
    assert LngDegrees(lngLo) == normalLng as real / PairPrecision as real + gridLng as real / FinalLngPrecision as real;
  }

  /** Moving by a number of lattice steps moves by that many steps in
      degrees. */
  lemma DegreesShift(latLo: int, latCell: int, lngLo: int, lngCell: int)
    ensures LatDegrees(latLo + latCell) == LatDegrees(latLo) + latCell as real / FinalLatPrecision as real
    ensures LngDegrees(lngLo + lngCell) == LngDegrees(lngLo) + lngCell as real / FinalLngPrecision as real
  {
  }

  /** The pair loop of decode over the values of the first `digits`
      characters. */
  method DecodePairs(values: seq<nat>, digits: nat) returns (normalLat: int, normalLng: int, pv: nat)
    requires DecodableLength(|values|) && digits == MinInt(|values|, PairCodeLength)
    ensures normalLat + LatitudeMax * PairPrecision == LatPairSum(values)
    ensures normalLng + LongitudeMax * PairPrecision == LngPairSum(values)
    ensures pv == Pow(EncodingBase, PairCodeLength / 2 - digits / 2)
  {
    ghost var lats := Evens(values[..digits]);
    ghost var lngs := Odds(values[..digits]);
    normalLat := -(LatitudeMax * PairPrecision);
    normalLng := -(LongitudeMax * PairPrecision);
    pv := PairFirstPlaceValue;
    assert pv == Pow(EncodingBase, 4);
    var i := 0;
    ghost var k := 0;
    while i < digits
      invariant 0 <= k <= |lats| && i == 2 * k
      invariant Reading(lats, EncodingBase, 4, k, normalLat, LatitudeMax * PairPrecision)
      invariant Reading(lngs, EncodingBase, 4, k, normalLng, LongitudeMax * PairPrecision)
      invariant pv == PlaceValue(EncodingBase, 4, k, |lats|)
    {
      ReadDigit(lats, EncodingBase, 4, k, normalLat, LatitudeMax * PairPrecision, pv, values[i], i < digits - 2);
      ReadDigit(lngs, EncodingBase, 4, k, normalLng, LongitudeMax * PairPrecision, pv, values[i + 1], i < digits - 2);
      normalLat := normalLat + values[i] * pv;
      normalLng := normalLng + values[i + 1] * pv;
      if i < digits - 2 {
        pv := pv / EncodingBase;
      }
      i := i + 2;
      k := k + 1;
    }
    assert lats[..k] == lats && lngs[..k] == lngs;
    assert values[..digits] == PairPart(values);
  }

  /** A place-value loop over the digits ds, the first at base^top, after
      reading k of them: sum (plus a fixed offset) holds those k digits at
      their place values. */
  ghost predicate Reading(ds: seq<nat>, base: nat, top: nat, k: nat, sum: int, offset: int)
  {
    k <= |ds| && k <= top + 1 && sum + offset == ValueOf(ds[..k], base) * Pow(base, top + 1 - k)
  }

  /** The place value of digit k of n, first at base^top; once all n are
      read it stays at the last one. */
  function PlaceValue(base: nat, top: nat, k: nat, n: nat): nat
    requires k <= top + 1 && n <= top + 1
  {
    if k < n then Pow(base, top - k) else Pow(base, top + 1 - n)
  }

  /** One step of a place-value loop: adding digit k at its place value
      keeps the sum, and dividing the place value by the base gives the
      next one. */
  lemma ReadDigit(ds: seq<nat>, base: nat, top: nat, k: nat, sum: int, offset: int, pv: nat,
                  d: nat, more: bool)
    requires base >= 2 && k < |ds| <= top + 1 && d == ds[k] && more == (k + 1 < |ds|)
    requires Reading(ds, base, top, k, sum, offset) && pv == PlaceValue(base, top, k, |ds|)
    ensures Reading(ds, base, top, k + 1, sum + d * pv, offset)
    ensures PlaceValue(base, top, k + 1, |ds|) == if more then pv / base else pv
  {
    PlaceStep(ds, k, base, top - k);
    if k + 1 < |ds| {
      DivModUnique(Pow(base, top - k), base, Pow(base, top - k - 1), 0);
    }
  }

  /** The grid loop of decode over the values of characters 10 to
      `digits`: each splits into a row and a column. */
  method DecodeGrid(values: seq<nat>, digits: nat) returns (gridLat: nat, gridLng: nat, rowpv: nat, colpv: nat)
    requires DecodableLength(|values|) && PairCodeLength < |values| && digits == MinInt(|values|, MaxDigitCount)
    ensures gridLat == LatGridSum(values) && gridLng == LngGridSum(values)
    ensures rowpv == Pow(GridRows, MaxDigitCount - |values|) && colpv == Pow(GridColumns, MaxDigitCount - |values|)
  {
    ghost var rows := Rows(values[PairCodeLength..digits]);
    ghost var cols := Cols(values[PairCodeLength..digits]);
    gridLat, gridLng := 0, 0;
    rowpv, colpv := GridLatFirstPlaceValue, GridLngFirstPlaceValue;
    assert rowpv == Pow(GridRows, 4) && colpv == Pow(GridColumns, 4);
    var i := PairCodeLength;
    ghost var k := 0;
    while i < digits
      invariant 0 <= k <= |rows| && i == PairCodeLength + k
      invariant Reading(rows, GridRows, 4, k, gridLat, 0)
      invariant Reading(cols, GridColumns, 4, k, gridLng, 0)
      invariant rowpv == PlaceValue(GridRows, 4, k, |rows|)
      invariant colpv == PlaceValue(GridColumns, 4, k, |cols|)
    {
      var row := values[i] / GridColumns;
      var col := values[i] % GridColumns;
      ReadDigit(rows, GridRows, 4, k, gridLat, 0, rowpv, row, i < digits - 1);
      ReadDigit(cols, GridColumns, 4, k, gridLng, 0, colpv, col, i < digits - 1);
      gridLat := gridLat + row * rowpv;
      gridLng := gridLng + col * colpv;
      if i < digits - 1 {
        rowpv := rowpv / GridRows;
        colpv := colpv / GridColumns;
      }
      i := i + 1;
      k := k + 1;
    }
    assert rows[..k] == rows && cols[..k] == cols;
    assert values[PairCodeLength..digits] == GridPart(values);
  }
}
