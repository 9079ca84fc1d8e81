/** Coordinates: clipLatitude, normalizeLongitude and locationToIntegers of
    src/OpenLocationCode.php. Degrees are exact reals; the lattice is the
    integer grid of the finest code (1/25000000 degree of latitude,
    1/8192000 degree of longitude), counted from the south-west corner of
    the world. */
module Normalizer {
  import opened Alphabet
  import opened Numerals

  function MinReal(a: real, b: real): real { if a <= b then a else b }
  function MaxReal(a: real, b: real): real { if a >= b then a else b }

  /** clipLatitude: min(90, max(-90, latitude)). */
  function ClipLatitude(latitude: real): (r: real)
    ensures -90.0 <= r <= 90.0
    ensures -90.0 <= latitude <= 90.0 ==> r == latitude
    ensures latitude < -90.0 ==> r == -90.0
    ensures latitude > 90.0 ==> r == 90.0
  {
    MinReal(LatitudeMax as real, MaxReal(-(LatitudeMax as real), latitude))
  }

  /** The longitude in [-180, 180) that differs from `longitude` by a whole
      number of turns. */
  function NormalLongitude(longitude: real): (r: real)
    ensures -180.0 <= r < 180.0
    ensures -180.0 <= longitude < 180.0 ==> r == longitude
  {
    longitude - 360.0 * ((longitude + 180.0) / 360.0).Floor as real
  }

  /** Only one longitude in [-180, 180) is a whole number of turns away. */
  lemma NormalLongitudeUnique(longitude: real, r: real, turns: int)
    requires r == longitude + 360.0 * turns as real
    requires -180.0 <= r < 180.0
    ensures r == NormalLongitude(longitude)
  {
    var x := (longitude + 180.0) / 360.0;
    assert (r + 180.0) / 360.0 == x + turns as real;
    assert x.Floor == -turns;
  }

  /** normalizeLongitude: add or subtract whole turns until the longitude
      lies in [-180, 180). */
  method NormalizeLongitude(longitude: real) returns (r: real)
    ensures r == NormalLongitude(longitude)
  {
    r := longitude;
    ghost var turns: int := 0;
    while r < -180.0
      invariant r == longitude + 360.0 * turns as real
      decreases (-180.0 - r).Floor
    {
      r := r + 360.0;
      turns := turns + 1;
    }
    while r >= 180.0
      invariant r >= -180.0
      invariant r == longitude + 360.0 * turns as real
      decreases (r - 180.0).Floor
    {
      r := r - 360.0;
      turns := turns - 1;
    }
    NormalLongitudeUnique(longitude, r, turns);
  }

  /** Adding an integer to a real adds it to the floor. */
  lemma FloorShift(x: real, n: int)
    ensures (x + n as real).Floor == x.Floor + n
  {
  }

  /** The latitude lattice row of a latitude: the number of whole lattice
      steps from the south pole, kept within the lattice (the pole itself
      falls into the top row). */
  function LatitudeToInteger(latitude: real): (v: int)
    ensures 0 <= v < LatLatticeSize
    ensures -90.0 <= latitude < 90.0 ==>
      v as real <= (latitude + 90.0) * FinalLatPrecision as real < v as real + 1.0
    ensures latitude >= 90.0 ==> v == LatLatticeSize - 1
    ensures latitude < -90.0 ==> v == 0
  {
    var steps := ((latitude + LatitudeMax as real) * FinalLatPrecision as real).Floor;
    if steps < 0 then 0 else if steps > LatLatticeSize - 1 then LatLatticeSize - 1 else steps
  }

  /** The longitude lattice column: whole lattice steps east of the
      antimeridian, taken modulo one turn. */
  function LongitudeToInteger(longitude: real): (v: int)
    ensures 0 <= v < LngLatticeSize
    ensures -180.0 <= longitude < 180.0 ==>
      v as real <= (longitude + 180.0) * FinalLngPrecision as real < v as real + 1.0
  {
    ((longitude + LongitudeMax as real) * FinalLngPrecision as real).Floor % LngLatticeSize
  }

  /** PHP's `%`, which truncates: the remainder takes the sign of a. */
  function TruncMod(a: int, m: int): (r: int)
    requires m > 0
    ensures -m < r < m
    ensures a >= 0 ==> r >= 0
    ensures a < 0 ==> r <= 0
  {
    if a >= 0 then a % m else -((-a) % m)
  }

  /** Adding m to a negative truncated remainder gives the Euclidean one. */
  lemma TruncModCorrected(a: int, m: int)
    requires m > 0 && a < 0
    ensures (if TruncMod(a, m) < 0 then TruncMod(a, m) + m else TruncMod(a, m)) == a % m
  {
    var t := (-a) % m;
    var q := (-a) / m;
    if t == 0 {
      DivModUnique(a, m, -q, 0);
    } else {
      DivModUnique(a, m, -q - 1, m - t);
    }
  }

  /** locationToIntegers: floor to the lattice, shift by the domain
      maximum, clamp the latitude, wrap the longitude with PHP's `%` and a
      correction of negative remainders. */
  method LocationToIntegers(latitude: real, longitude: real) returns (latVal: int, lngVal: int)
    ensures latVal == LatitudeToInteger(latitude)
    ensures lngVal == LongitudeToInteger(longitude)
  {
    latVal := (latitude * FinalLatPrecision as real).Floor;
    latVal := latVal + LatitudeMax * FinalLatPrecision;
    FloorShift(latitude * FinalLatPrecision as real, LatitudeMax * FinalLatPrecision);
    if latVal < 0 {
      latVal := 0;
    } else if latVal >= LatLatticeSize {
      latVal := LatLatticeSize - 1;
    }

    lngVal := (longitude * FinalLngPrecision as real).Floor;
    lngVal := lngVal + LongitudeMax * FinalLngPrecision;
    FloorShift(longitude * FinalLngPrecision as real, LongitudeMax * FinalLngPrecision);
    ghost var unwrapped := lngVal;
    if lngVal < 0 {
      TruncModCorrected(lngVal, LngLatticeSize);
      lngVal := TruncMod(lngVal, LngLatticeSize);
      if lngVal < 0 {
        lngVal := lngVal + LngLatticeSize;
      }
    } else if lngVal >= LngLatticeSize {
      lngVal := TruncMod(lngVal, LngLatticeSize);
    }
    assert lngVal == unwrapped % LngLatticeSize;
  }

  /** Encoding clips the latitude itself: clipping first changes nothing. */
  lemma LatitudeToIntegerClipped(latitude: real)
    ensures LatitudeToInteger(ClipLatitude(latitude)) == LatitudeToInteger(latitude)
  {
  }

  /** Encoding wraps the longitude itself: normalizing first changes
      nothing. */
  lemma LongitudeToIntegerNormalized(longitude: real)
    ensures LongitudeToInteger(NormalLongitude(longitude)) == LongitudeToInteger(longitude)
  {
    var k := ((longitude + 180.0) / 360.0).Floor;
    var x := (longitude + LongitudeMax as real) * FinalLngPrecision as real;
    var shift := k * LngLatticeSize;
    assert (NormalLongitude(longitude) + LongitudeMax as real) * FinalLngPrecision as real == x - shift as real;
    FloorShift(x, -shift);
    DivModUnique(x.Floor - shift, LngLatticeSize, x.Floor / LngLatticeSize - k, x.Floor % LngLatticeSize);
  }
}
