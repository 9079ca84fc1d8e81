/** Why recoverNearest finds the nearest code. The padded code shares its
    first paddingLength digits with the reference's own code, so its area
    lies in the reference's cell of that many digits, one resolution high
    and wide. Both the area's center and the reference are in that cell,
    at most one resolution apart in each axis, and one move by a
    resolution brings the center within half a resolution of the
    reference: always in longitude, and in latitude unless the move would
    take the center past a pole. */
module Nearness {
  import opened Results
  import opened Alphabet
  import opened Numerals
  import opened Validator
  import opened Normalizer
  import opened CodeAreas
  import opened Encoder
  import opened Decoder
  import opened RoundTrip
  import opened Extent
  import opened Shortener
  import opened Recovery

  // ---------------------------------------------------------------------
  // A decoded area lies in the cell of its leading digits.

  /** In lattice steps: pair digits e (the last at place value
      20^(5 - |e|)), then a remainder g and a size `last` that fit in one
      such place, lie in the span of the first k pair digits. */
  lemma PrefixCellSteps(e: seq<nat>, k: nat, g: nat, last: nat, steps: nat)
    requires DigitsBelow(e, EncodingBase) && k <= |e| <= PairCodeLength / 2
    requires g + last <= Pow(EncodingBase, PairCodeLength / 2 - |e|) * steps
    ensures ValueOf(e[..k], EncodingBase) * Pow(EncodingBase, PairCodeLength / 2 - k) * steps <=
      ValueOf(e, EncodingBase) * Pow(EncodingBase, PairCodeLength / 2 - |e|) * steps + g
    ensures ValueOf(e, EncodingBase) * Pow(EncodingBase, PairCodeLength / 2 - |e|) * steps + g + last <=
      ValueOf(e[..k], EncodingBase) * Pow(EncodingBase, PairCodeLength / 2 - k) * steps +
      Pow(EncodingBase, PairCodeLength / 2 - k) * steps
  {
    PrefixPlaces(e, k, EncodingBase, PairCodeLength / 2);
    StepsBound(ValueOf(e, EncodingBase), ValueOf(e[..k], EncodingBase),
               Pow(EncodingBase, PairCodeLength / 2 - |e|), Pow(EncodingBase, PairCodeLength / 2 - k),
               g, last, steps);
  }

  /** The bounds of PrefixPlaces scaled to lattice steps. */
  lemma StepsBound(v: nat, vk: nat, pe: nat, pk: nat, g: nat, last: nat, steps: nat)
    requires vk * pk <= v * pe && (v + 1) * pe <= (vk + 1) * pk && g + last <= pe * steps
    ensures vk * pk * steps <= v * pe * steps + g
    ensures v * pe * steps + g + last <= vk * pk * steps + pk * steps
  {
    MulMono(steps, vk * pk, v * pe);
    MulMono(steps, (v + 1) * pe, (vk + 1) * pk);
    assert (v + 1) * pe * steps == v * pe * steps + pe * steps;
    assert (vk + 1) * pk * steps == vk * pk * steps + pk * steps;
  }

  /** The pair digits of the first p digits are the first p / 2 pair
      digits of the whole, and there are no grid digits among them. */
  lemma PairPrefix(ds: seq<nat>, p: nat)
    requires DecodableLength(|ds|) && p % 2 == 0 && MinDigitCount <= p <= MinInt(|ds|, PairCodeLength)
    ensures DecodableLength(p)
    ensures Evens(PairPart(ds[..p])) == Evens(PairPart(ds))[..p / 2]
    ensures Odds(PairPart(ds[..p])) == Odds(PairPart(ds))[..p / 2]
    ensures LatGridSum(ds[..p]) == 0 && LngGridSum(ds[..p]) == 0
  {
    assert PairPart(ds[..p]) == ds[..p];
    assert GridPart(ds[..p]) == [];
  }

  /** The latitude span of a decoded area lies in the span of its first p
      digits. */
  lemma {:induction false} LatPrefixCell(ds: seq<nat>, p: nat)
    requires DecodableLength(|ds|) && DigitsBelow(ds, EncodingBase)
    requires p % 2 == 0 && MinDigitCount <= p <= MinInt(|ds|, PairCodeLength)
    ensures DecodableLength(p)
    ensures LatLo(ds[..p]) <= LatLo(ds)
    ensures LatLo(ds) + LatCell(|ds|) <= LatLo(ds[..p]) + LatCell(p)
  {
    PairPrefix(ds, p);
    var e := Evens(PairPart(ds));
    assert DigitsBelow(e, EncodingBase) by {
      forall k | 0 <= k < |e|
        ensures e[k] < EncodingBase
      {
        assert e[k] == ds[2 * k];
      }
    }
    if |ds| > PairCodeLength {
      var rows := Rows(GridPart(ds));
      assert DigitsBelow(rows, GridRows);
      GridRest(rows, GridRows, GridCodeLength);
      GridStepsArePowers();
      PrefixCellSteps(e, p / 2, LatGridSum(ds), LatCell(|ds|), LatGridSteps);
    } else {
      PrefixCellSteps(e, p / 2, 0, LatCell(|ds|), LatGridSteps);
    }
  }

  /** The same for the longitude span. */
  lemma {:induction false} LngPrefixCell(ds: seq<nat>, p: nat)
    requires DecodableLength(|ds|) && DigitsBelow(ds, EncodingBase)
    requires p % 2 == 0 && MinDigitCount <= p <= MinInt(|ds|, PairCodeLength)
    ensures DecodableLength(p)
    ensures LngLo(ds[..p]) <= LngLo(ds)
    ensures LngLo(ds) + LngCell(|ds|) <= LngLo(ds[..p]) + LngCell(p)
  {
    PairPrefix(ds, p);
    var e := Odds(PairPart(ds));
    assert DigitsBelow(e, EncodingBase) by {
      forall k | 0 <= k < |e|
        ensures e[k] < EncodingBase
      {
        assert e[k] == ds[2 * k + 1];
      }
    }
    if |ds| > PairCodeLength {
      var cols := Cols(GridPart(ds));
      assert DigitsBelow(cols, GridColumns);
      GridRest(cols, GridColumns, GridCodeLength);
      GridStepsArePowers();
      PrefixCellSteps(e, p / 2, LngGridSum(ds), LngCell(|ds|), LngGridSteps);
    } else {
      PrefixCellSteps(e, p / 2, 0, LngCell(|ds|), LngGridSteps);
    }
  }

  // ---------------------------------------------------------------------
  // The reference lies in its own cell.

  /** A clipped latitude lies in the cell of n digits of its lattice row
      (on the cell's north edge when it is the pole itself). */
  lemma ReferenceInLatCell(latitude: real, n: nat)
    requires -(LatitudeMax as real) <= latitude <= LatitudeMax as real && DecodableLength(n)
    ensures var v := LatitudeToInteger(latitude);
      var lo := (v / LatCell(n)) * LatCell(n);
      LatDegrees(lo) <= latitude <= LatDegrees(lo + LatCell(n))
  {
    var v := LatitudeToInteger(latitude);
    RoundDown(v, LatCell(n));
    DegreesMonotone((v / LatCell(n)) * LatCell(n), v);
    DegreesMonotone(v + 1, (v / LatCell(n)) * LatCell(n) + LatCell(n));
  }

  /** A normalized longitude lies in the cell of n digits of its lattice
      column. */
  lemma ReferenceInLngCell(longitude: real, n: nat)
    requires -(LongitudeMax as real) <= longitude < LongitudeMax as real && DecodableLength(n)
    ensures var v := LongitudeToInteger(longitude);
      var lo := (v / LngCell(n)) * LngCell(n);
      LngDegrees(lo) <= longitude <= LngDegrees(lo + LngCell(n))
  {
    var v := LongitudeToInteger(longitude);
    RoundDown(v, LngCell(n));
    DegreesMonotone((v / LngCell(n)) * LngCell(n), v);
    DegreesMonotone(v + 1, (v / LngCell(n)) * LngCell(n) + LngCell(n));
  }

  // ---------------------------------------------------------------------
  // The padded code shares the reference's leading digits.

  /** The first p digits of the reference's ten-digit code are the
      characters of its first p digit values. */
  lemma ReferencePrefix(latitude: real, longitude: real, p: nat)
    requires p <= SeparatorPosition
    ensures Encode(latitude, longitude, PairCodeLength).Success?
    ensures |Encode(latitude, longitude, PairCodeLength).value| == PairCodeLength + 1
    ensures Encode(latitude, longitude, PairCodeLength).value[..p] ==
      Chars(CodeDigits(LatitudeToInteger(latitude), LongitudeToInteger(longitude))[..p])
  {
    ReferenceDigits(latitude, longitude, p);
  }

  /** Alphabet characters in front of a code with its separator at 8 are
      the first significant characters of the result. */
  lemma {:induction false} SignificantPrefix(prefix: string, rest: string)
    requires UnpaddedAt(prefix + rest, SeparatorPosition) && |prefix| <= SeparatorPosition
    requires AllInAlphabet(prefix)
    ensures |prefix| <= |Significant(prefix + rest)|
    ensures Significant(prefix + rest)[..|prefix|] == prefix
  {
    var code := prefix + rest;
    UnpaddedStrip(code);
    assert Strip(code)[..|prefix|] == prefix;
    UpperAlphabet(prefix);
  }

  /** Characters of digit values read back as those values. */
  lemma {:induction false} ValuesPrefix(s: string, ds: seq<nat>, p: nat)
    requires InAlphabet(s) && p <= |s| && p <= |ds|
    requires forall i :: 0 <= i < p ==> ds[i] < EncodingBase && s[i] == CodeAlphabet[ds[i]]
    ensures Values(s)[..p] == ds[..p]
  {
    var vs := Values(s);
    forall i | 0 <= i < p
      ensures vs[i] == ds[i]
    {
      DigitValueOf(ds[i]);
    }
  }

  /** A full code with its separator at 8 that begins with the characters
      of some digit values has those values as its first significant
      digits. */
  lemma PrefixValues(prefix: string, rest: string, ds: seq<nat>)
    requires IsFull(prefix + rest) && UnpaddedAt(prefix + rest, SeparatorPosition)
    requires |prefix| <= SeparatorPosition && |prefix| <= |ds| && DigitsBelow(ds, EncodingBase)
    requires prefix == Chars(ds[..|prefix|])
    ensures InAlphabet(Significant(prefix + rest)) && DecodableLength(|Significant(prefix + rest)|)
    ensures |prefix| <= |Significant(prefix + rest)|
    ensures Values(Significant(prefix + rest))[..|prefix|] == ds[..|prefix|]
  {
    var code, p := prefix + rest, |prefix|;
    assert AllInAlphabet(prefix);
    FullDigits(code);
    SignificantPrefix(prefix, rest);
    forall i | 0 <= i < p
      ensures ds[i] < EncodingBase && Significant(code)[i] == CodeAlphabet[ds[i]]
    {
      assert Significant(code)[i] == Significant(code)[..p][i] == prefix[i];
    }
    ValuesPrefix(Significant(code), ds, p);
  }

  /** The padded code is full, unpadded, and its first paddingLength
      significant digits are the reference's. */
  lemma PaddedPrefixDigits(upper: string, latitude: real, longitude: real)
    requires IsShort(upper)
    ensures IsFull(PaddedShort(upper, latitude, longitude))
    ensures UnpaddedAt(PaddedShort(upper, latitude, longitude), SeparatorPosition)
    ensures InAlphabet(Significant(PaddedShort(upper, latitude, longitude)))
    ensures DecodableLength(|Significant(PaddedShort(upper, latitude, longitude))|)
    ensures SeparatorPosition - IndexOf(upper, Separator) <= |Significant(PaddedShort(upper, latitude, longitude))|
    ensures Values(Significant(PaddedShort(upper, latitude, longitude)))[..SeparatorPosition - IndexOf(upper, Separator)] ==
      CodeDigits(LatitudeToInteger(latitude), LongitudeToInteger(longitude))[..SeparatorPosition - IndexOf(upper, Separator)]
  {
    var p := SeparatorPosition - IndexOf(upper, Separator);
    ShortShape(upper);
    ReferencePrefix(latitude, longitude, p);
    var prefix := Encode(latitude, longitude, PairCodeLength).value[..p];
    assert AllInAlphabet(prefix);
    assert PaddedShort(upper, latitude, longitude) == prefix + upper;
    PaddedUnpadded(prefix, upper);
    PaddedShortIsFull(upper, latitude, longitude);
    PrefixValues(prefix, upper, CodeDigits(LatitudeToInteger(latitude), LongitudeToInteger(longitude)));
  }

  /** Digits that begin with the first p digits of a lattice point decode
      to an area inside the point's cell of p digits. */
  lemma DigitsInReferenceCell(ds: seq<nat>, p: nat, latVal: nat, lngVal: nat)
    requires DecodableLength(|ds|) && DigitsBelow(ds, EncodingBase)
    requires p % 2 == 0 && MinDigitCount <= p <= MinInt(|ds|, PairCodeLength)
    requires latVal < LatLatticeSize && lngVal < LngLatticeSize
    requires ds[..p] == CodeDigits(latVal, lngVal)[..p]
    ensures DecodableLength(p)
    ensures LatDegrees((latVal / LatCell(p)) * LatCell(p)) <= AreaOf(ds).latitudeLo
    ensures AreaOf(ds).latitudeHi <= LatDegrees((latVal / LatCell(p)) * LatCell(p) + LatCell(p))
    ensures LngDegrees((lngVal / LngCell(p)) * LngCell(p)) <= AreaOf(ds).longitudeLo
    ensures AreaOf(ds).longitudeHi <= LngDegrees((lngVal / LngCell(p)) * LngCell(p) + LngCell(p))
  {
    LatPrefixCell(ds, p);
    LngPrefixCell(ds, p);
    LatCorner(latVal, lngVal, p);
    LngCorner(latVal, lngVal, p);
    DegreesMonotone(LatLo(ds[..p]), LatLo(ds));
    DegreesMonotone(LatLo(ds) + LatCell(|ds|), LatLo(ds[..p]) + LatCell(p));
    DegreesMonotone(LngLo(ds[..p]), LngLo(ds));
    DegreesMonotone(LngLo(ds) + LngCell(|ds|), LngLo(ds[..p]) + LngCell(p));
  }

  /** An area in the domain and a point, both inside the same square of
      side r, have the area's center within r of the point. */
  lemma CellNear(area: CodeArea, latLo: real, lngLo: real, r: real, latitude: real, longitude: real)
    requires latLo <= area.latitudeLo <= area.latitudeHi <= latLo + r
    requires lngLo <= area.longitudeLo <= area.longitudeHi <= lngLo + r
    requires area.latitudeHi <= LatitudeMax as real && area.longitudeHi <= LongitudeMax as real
    requires latLo <= latitude <= latLo + r && lngLo <= longitude <= lngLo + r
    ensures AbsReal(area.LatitudeCenter() - latitude) <= r
    ensures AbsReal(area.LongitudeCenter() - longitude) <= r
  {
  }

  /** Digits that begin with the first p digits of a reference in the
      domain, p being a padding length, and whose first pair keeps them in
      the domain. */
  predicate ReferencePrefixed(ds: seq<nat>, p: nat, latitude: real, longitude: real)
  {
    DecodableLength(|ds|) && DigitsBelow(ds, EncodingBase) && ds[0] < 9 && ds[1] < 18 &&
    (p == 2 || p == 4 || p == 6 || p == 8) && p <= |ds| &&
    -(LatitudeMax as real) <= latitude <= LatitudeMax as real &&
    -(LongitudeMax as real) <= longitude < LongitudeMax as real &&
    ds[..p] == CodeDigits(LatitudeToInteger(latitude), LongitudeToInteger(longitude))[..p]
  }

  /** An area in the domain whose center is at most r from the reference
      in each axis. */
  predicate WithinResolution(area: CodeArea, latitude: real, longitude: real, r: real)
  {
    area.latitudeLo <= area.latitudeHi <= LatitudeMax as real &&
    area.longitudeLo <= area.longitudeHi <= LongitudeMax as real &&
    AbsReal(area.LatitudeCenter() - latitude) <= r &&
    AbsReal(area.LongitudeCenter() - longitude) <= r
  }

  /** Digits prefixed by the reference decode to an area whose center is
      at most one resolution of p padding digits from the reference. */
  lemma DigitsNear(ds: seq<nat>, p: nat, latitude: real, longitude: real)
    requires ReferencePrefixed(ds, p, latitude, longitude)
    ensures WithinResolution(AreaOf(ds), latitude, longitude, PaddingResolution(p))
  {
    var area := AreaOf(ds);
    AreaInDomain(ds);
    var latVal, lngVal := LatitudeToInteger(latitude), LongitudeToInteger(longitude);
    DigitsInReferenceCell(ds, p, latVal, lngVal);
    ReferenceInLatCell(latitude, p);
    ReferenceInLngCell(longitude, p);
    PaddingResolutionIsCell(p);
    CellNear(area, LatDegrees((latVal / LatCell(p)) * LatCell(p)), LngDegrees((lngVal / LngCell(p)) * LngCell(p)),
             PaddingResolution(p), latitude, longitude);
  }

  /** The padded code decodes to the area of digits prefixed by the
      reference. */
  lemma PaddedReferenceDigits(upper: string, latitude: real, longitude: real)
    requires IsShort(upper)
    requires -(LatitudeMax as real) <= latitude <= LatitudeMax as real
    requires -(LongitudeMax as real) <= longitude < LongitudeMax as real
    ensures IsFull(PaddedShort(upper, latitude, longitude))
    ensures var code := PaddedShort(upper, latitude, longitude);
      InAlphabet(Significant(code)) && DecodableLength(|Significant(code)|) &&
      DecodedArea(code) == Success(AreaOf(Values(Significant(code)))) &&
      ReferencePrefixed(Values(Significant(code)), SeparatorPosition - IndexOf(upper, Separator), latitude, longitude)
  {
    var code := PaddedShort(upper, latitude, longitude);
    ShortShape(upper);
    PaddedPrefixDigits(upper, latitude, longitude);
    CodeDigitNotSeparatorOrPadding(code[1]);
    FullLeading(code);
  }

  /** The center of the padded code's area is at most one resolution from
      the reference in each axis, and the area lies in the domain. */
  lemma PaddedAreaNear(upper: string, latitude: real, longitude: real)
    requires IsShort(upper)
    requires -(LatitudeMax as real) <= latitude <= LatitudeMax as real
    requires -(LongitudeMax as real) <= longitude < LongitudeMax as real
    ensures DecodedArea(PaddedShort(upper, latitude, longitude)).Success?
    ensures WithinResolution(DecodedArea(PaddedShort(upper, latitude, longitude)).value, latitude, longitude,
                             PaddingResolution(SeparatorPosition - IndexOf(upper, Separator)))
  {
    PaddedReferenceDigits(upper, latitude, longitude);
    var code := PaddedShort(upper, latitude, longitude);
    DigitsNear(Values(Significant(code)), SeparatorPosition - IndexOf(upper, Separator), latitude, longitude);
  }

  // ---------------------------------------------------------------------
  // One move by a resolution.

  /** The latitude adjustment leaves the center within half a resolution
      of the reference, or a pole lies within one resolution on the side
      the reference is on. The longitudes stay as they are. */
  lemma LatitudeShiftNear(area: CodeArea, latitude: real, r: real)
    requires r > 0.0 && area.latitudeLo <= area.latitudeHi <= LatitudeMax as real
    requires AbsReal(area.LatitudeCenter() - latitude) <= r
    ensures var c := LatitudeShifted(area, latitude, r).LatitudeCenter();
      AbsReal(c - latitude) <= r / 2.0 ||
      (c > latitude + r / 2.0 && c - r < -(LatitudeMax as real)) ||
      (c < latitude - r / 2.0 && c + r > LatitudeMax as real)
    ensures LatitudeShifted(area, latitude, r).longitudeLo == area.longitudeLo
    ensures LatitudeShifted(area, latitude, r).longitudeHi == area.longitudeHi
  {
  }

  /** The longitude adjustment always leaves the center within half a
      resolution of the reference. */
  lemma LongitudeShiftNear(area: CodeArea, longitude: real, r: real)
    requires r > 0.0 && area.longitudeLo <= area.longitudeHi <= LongitudeMax as real
    requires longitude <= LongitudeMax as real
    requires AbsReal(area.LongitudeCenter() - longitude) <= r
    ensures AbsReal(LongitudeShifted(area, longitude, r).LongitudeCenter() - longitude) <= r / 2.0
    ensures LongitudeShifted(area, longitude, r).LatitudeCenter() == area.LatitudeCenter()
  {
  }

  // ---------------------------------------------------------------------
  // The result.

  /** An adjusted area is near the reference: its center is within half
      a resolution in longitude always, and in latitude unless a move
      toward the reference would cross a pole. */
  predicate NearReference(moved: CodeArea, latitude: real, longitude: real, r: real)
  {
    var c := moved.LatitudeCenter();
    AbsReal(moved.LongitudeCenter() - longitude) <= r / 2.0 &&
    (AbsReal(c - latitude) <= r / 2.0 ||
     (c > latitude + r / 2.0 && c - r < -(LatitudeMax as real)) ||
     (c < latitude - r / 2.0 && c + r > LatitudeMax as real))
  }

  /** Both adjustments of an area in the domain whose center is within a
      resolution of the reference leave it near the reference. */
  lemma AdjustedNear(area: CodeArea, latitude: real, longitude: real, r: real)
    requires r > 0.0 && longitude <= LongitudeMax as real
    requires WithinResolution(area, latitude, longitude, r)
    ensures NearReference(Adjusted(area, latitude, longitude, r), latitude, longitude, r)
  {
    LatitudeShiftNear(area, latitude, r);
    LongitudeShiftNear(LatitudeShifted(area, latitude, r), longitude, r);
  }

  /** The area recoverNearest adjusts, for a short code and a reference in
      the domain, is the padded code's area, and the adjusted area is near
      the reference. */
  lemma RecoveredNearReference(upper: string, latitude: real, longitude: real)
    requires IsShort(upper)
    requires -(LatitudeMax as real) <= latitude <= LatitudeMax as real
    requires -(LongitudeMax as real) <= longitude < LongitudeMax as real
    ensures DecodedArea(PaddedShort(upper, latitude, longitude)).Success?
    ensures NearReference(Adjusted(DecodedArea(PaddedShort(upper, latitude, longitude)).value, latitude, longitude,
                                   PaddingResolution(SeparatorPosition - IndexOf(upper, Separator))),
                          latitude, longitude, PaddingResolution(SeparatorPosition - IndexOf(upper, Separator)))
  {
    PaddedAreaNear(upper, latitude, longitude);
    var area := DecodedArea(PaddedShort(upper, latitude, longitude)).value;
    var r := PaddingResolution(SeparatorPosition - IndexOf(upper, Separator));
    AdjustedNear(area, latitude, longitude, r);
  }

  /** recoverNearest takes the short-code branch for a short code. */
  lemma ShortBranch(code: string, referenceLatitude: real, referenceLongitude: real)
    requires IsShort(code)
    ensures IsShort(ToUpper(code))
    ensures NearestFull(code, referenceLatitude, referenceLongitude) ==
      NearestFromShort(ToUpper(code), ClipLatitude(referenceLatitude), NormalLongitude(referenceLongitude))
  {
    ShortFullUpper(code);
  }

  /** Upper-casing keeps a code short and its separator in place. */
  lemma ShortUpper(code: string)
    requires IsShort(code)
    ensures IsShort(ToUpper(code)) && IndexOf(ToUpper(code), Separator) == IndexOf(code, Separator)
  {
    ShortFullUpper(code);
    UpperSeparatorIndex(code);
  }

  /** recoverNearest of a short code, in the terms of the caller: the
      padded code of the upper-cased code decodes, and the area whose
      center the short-code branch encodes is near the clipped and
      normalized reference. */
  lemma RecoverNearby(code: string, referenceLatitude: real, referenceLongitude: real)
    requires IsShort(code)
    ensures IsShort(ToUpper(code))
    ensures DecodedArea(PaddedShort(ToUpper(code), ClipLatitude(referenceLatitude), NormalLongitude(referenceLongitude))).Success?
    ensures NearReference(
      Adjusted(DecodedArea(PaddedShort(ToUpper(code), ClipLatitude(referenceLatitude), NormalLongitude(referenceLongitude))).value,
               ClipLatitude(referenceLatitude), NormalLongitude(referenceLongitude),
               PaddingResolution(SeparatorPosition - IndexOf(code, Separator))),
      ClipLatitude(referenceLatitude), NormalLongitude(referenceLongitude),
      PaddingResolution(SeparatorPosition - IndexOf(code, Separator)))
  {
    ShortUpper(code);
    var upper := ToUpper(code);
    assert PaddingResolution(SeparatorPosition - IndexOf(code, Separator)) ==
           PaddingResolution(SeparatorPosition - IndexOf(upper, Separator));
    RecoveredNearReference(upper, ClipLatitude(referenceLatitude), NormalLongitude(referenceLongitude));
  }
}
