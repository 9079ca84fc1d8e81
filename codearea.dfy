/** The readonly value src/CodeArea.php: the south-west and north-east
    corners of a decoded area, the number of digits it was decoded from,
    and its center, capped at the north pole and at the antimeridian. */
module CodeAreas {
  import opened Alphabet

  /** The constructor of the PHP class stores its five arguments unchanged;
      the two centers it computes are the member functions below, so they
      cannot disagree with the corners. */
  datatype CodeArea = CodeArea(
    latitudeLo: real,
    longitudeLo: real,
    latitudeHi: real,
    longitudeHi: real,
    codeLength: int)
  {
    /** min(latitudeLo + (latitudeHi - latitudeLo) / 2, 90). */
    function LatitudeCenter(): (c: real)
      ensures c <= LatitudeMax as real
      ensures c == latitudeLo + (latitudeHi - latitudeLo) / 2.0 || c == LatitudeMax as real
      ensures latitudeLo + (latitudeHi - latitudeLo) / 2.0 <= LatitudeMax as real ==>
        c == (latitudeLo + latitudeHi) / 2.0
      ensures latitudeLo <= latitudeHi && latitudeLo <= LatitudeMax as real ==>
        latitudeLo <= c <= latitudeHi
    {
      var mid := latitudeLo + (latitudeHi - latitudeLo) / 2.0;
      if mid <= LatitudeMax as real then mid else LatitudeMax as real
    }

    /** min(longitudeLo + (longitudeHi - longitudeLo) / 2, 180). */
    function LongitudeCenter(): (c: real)
      ensures c <= LongitudeMax as real
      ensures c == longitudeLo + (longitudeHi - longitudeLo) / 2.0 || c == LongitudeMax as real
      ensures longitudeLo + (longitudeHi - longitudeLo) / 2.0 <= LongitudeMax as real ==>
        c == (longitudeLo + longitudeHi) / 2.0
      ensures longitudeLo <= longitudeHi && longitudeLo <= LongitudeMax as real ==>
        longitudeLo <= c <= longitudeHi
    {
      var mid := longitudeLo + (longitudeHi - longitudeLo) / 2.0;
      if mid <= LongitudeMax as real then mid else LongitudeMax as real
    }

    /** getLatLng: the center as a (latitude, longitude) pair. */
    function GetLatLng(): (ll: (real, real))
      ensures ll.0 <= LatitudeMax as real && ll.1 <= LongitudeMax as real
      ensures ll == (LatitudeCenter(), LongitudeCenter())
    {
      (LatitudeCenter(), LongitudeCenter())
    }
  }

  /** An area whose corners lie in the domain has its center in the domain
      and inside the area. */
  lemma CenterInside(a: CodeArea)
    requires -(LatitudeMax as real) <= a.latitudeLo <= a.latitudeHi
    requires -(LongitudeMax as real) <= a.longitudeLo <= a.longitudeHi
    requires a.latitudeLo <= LatitudeMax as real && a.longitudeLo <= LongitudeMax as real
    ensures -(LatitudeMax as real) <= a.GetLatLng().0 <= LatitudeMax as real
    ensures -(LongitudeMax as real) <= a.GetLatLng().1 <= LongitudeMax as real
    ensures a.latitudeLo <= a.GetLatLng().0 <= a.latitudeHi
    ensures a.longitudeLo <= a.GetLatLng().1 <= a.longitudeHi
  {
  }
}
