/** encode and encodeIntegers of src/OpenLocationCode.php. A lattice point
    (see Normalizer) has fifteen code digits: five pairs of base-20 digits
    of latitude and longitude at pair precision (1/8000 degree), then five
    grid digits, each a row (base 5) and a column (base 4) of the
    remaining precision. A code of length L shows the first L of them. */
module Encoder {
  import opened Results
  import opened Alphabet
  import opened Numerals
  import opened Normalizer

  /** The lattice steps per pair-precision step: 5^5 rows of latitude,
      4^5 columns of longitude. */
  const LatGridSteps: nat := 3125
  const LngGridSteps: nat := 1024

  lemma GridStepsArePowers()
    ensures LatGridSteps == Pow(GridRows, GridCodeLength)
    ensures LngGridSteps == Pow(GridColumns, GridCodeLength)
  {
  }

  /** a[0], b[0], a[1], b[1], ... */
  function Interleave(a: seq<nat>, b: seq<nat>): (r: seq<nat>)
    requires |a| == |b|
    ensures |r| == 2 * |a|
    ensures DigitsBelow(a, EncodingBase) && DigitsBelow(b, EncodingBase) ==> DigitsBelow(r, EncodingBase)
  {
    if a == [] then [] else [a[0], b[0]] + Interleave(a[1..], b[1..])
  }

  /** Interleaving puts a[k] at 2k and b[k] at 2k + 1. */
  lemma {:induction false} InterleaveAt(a: seq<nat>, b: seq<nat>, k: nat)
    requires |a| == |b| && k < |a|
    ensures Interleave(a, b)[2 * k] == a[k] && Interleave(a, b)[2 * k + 1] == b[k]
  {
    if k > 0 {
      InterleaveAt(a[1..], b[1..], k - 1);
    }
  }

  /** Each grid digit: the row digit times the number of columns plus the
      column digit. */
  function GridCombine(rows: seq<nat>, cols: seq<nat>): (g: seq<nat>)
    requires |rows| == |cols| && DigitsBelow(rows, GridRows) && DigitsBelow(cols, GridColumns)
    ensures |g| == |rows|
    ensures forall i :: 0 <= i < |g| ==> g[i] == rows[i] * GridColumns + cols[i] && g[i] < EncodingBase
  {
    if rows == [] then [] else [rows[0] * GridColumns + cols[0]] + GridCombine(rows[1..], cols[1..])
  }

  /** The five grid digits of a lattice point. */
  function GridDigits(latVal: nat, lngVal: nat): (g: seq<nat>)
    ensures |g| == GridCodeLength && DigitsBelow(g, EncodingBase)
  {
    GridCombine(Digits(latVal, GridRows, GridCodeLength), Digits(lngVal, GridColumns, GridCodeLength))
  }

  /** The fifteen digit values of a lattice point. */
  function CodeDigits(latVal: nat, lngVal: nat): (ds: seq<nat>)
    ensures |ds| == MaxDigitCount && DigitsBelow(ds, EncodingBase)
  {
    Interleave(Digits(latVal / LatGridSteps, EncodingBase, PairCodeLength / 2),
               Digits(lngVal / LngGridSteps, EncodingBase, PairCodeLength / 2))
    + GridDigits(latVal, lngVal)
  }

  /** The first len digits laid out as a code: the separator after eight
      digits; a shorter code is padded with '0' up to the separator. */
  function FormatCode(digits: string, len: nat): (code: string)
    requires MinDigitCount <= len <= |digits| && len <= MaxDigitCount
    ensures len >= SeparatorPosition ==> |code| == len + 1
    ensures len < SeparatorPosition ==> |code| == SeparatorPosition + 1
    ensures code[SeparatorPosition] == Separator
    ensures forall i :: 0 <= i < len && i < SeparatorPosition ==> code[i] == digits[i]
    ensures forall i :: SeparatorPosition <= i < len ==> code[i + 1] == digits[i]
    ensures forall i :: len <= i < SeparatorPosition ==> code[i] == PaddingCharacter
  {
    if len >= SeparatorPosition then digits[..SeparatorPosition] + [Separator] + digits[SeparatorPosition..len]
    else digits[..len] + Zeros(SeparatorPosition - len) + [Separator]
  }

  /** The lengths encodeIntegers refuses: below two digits, or odd below
      the full pair section. */
  predicate InvalidCodeLength(codeLength: int)
  {
    codeLength < MinDigitCount || (codeLength < PairCodeLength && codeLength % 2 == 1)
  }

  function MinInt(a: int, b: int): int { if a <= b then a else b }

  /** The code of a lattice point at a code length. */
  function IntegerCode(latVal: int, lngVal: int, codeLength: int): (r: Result<string>)
    requires 0 <= latVal < LatLatticeSize && 0 <= lngVal < LngLatticeSize
    ensures r.Failure? <==> InvalidCodeLength(codeLength)
    ensures r.Failure? ==> r.error == InvalidLength
  {
    if InvalidCodeLength(codeLength) then Failure(InvalidLength)
    else Success(FormatCode(Chars(CodeDigits(latVal, lngVal)), MinInt(codeLength, MaxDigitCount)))
  }

  /** The shape of every code the encoder produces: the separator at index
      8, min(L, 15) + 1 characters from length 8 on, otherwise L digits,
      8 - L padding characters and the separator. */
  lemma IntegerCodeShape(latVal: int, lngVal: int, codeLength: int)
    requires 0 <= latVal < LatLatticeSize && 0 <= lngVal < LngLatticeSize
    requires !InvalidCodeLength(codeLength)
    ensures var code := IntegerCode(latVal, lngVal, codeLength).value;
      var len := MinInt(codeLength, MaxDigitCount);
      code[SeparatorPosition] == Separator &&
      (len >= SeparatorPosition ==> |code| == len + 1) &&
      (len < SeparatorPosition ==>
        |code| == SeparatorPosition + 1 &&
        (forall i :: 0 <= i < len ==> code[i] in CodeAlphabet) &&
        code[len..SeparatorPosition] == Zeros(SeparatorPosition - len))
  {
    var code := IntegerCode(latVal, lngVal, codeLength).value;
    var len := MinInt(codeLength, MaxDigitCount);
    var ds := CodeDigits(latVal, lngVal);
    var digits := Chars(ds);
    assert forall i :: 0 <= i < |digits| ==> digits[i] in CodeAlphabet;
  }

  /** encodeIntegers: the grid digits, then the pairs, each prepended to
      the code while the lattice values are divided down; then the
      separator is inserted and the code truncated or padded. */
  method EncodeIntegers(latVal0: int, lngVal0: int, codeLength0: int) returns (r: Result<string>)
    requires 0 <= latVal0 < LatLatticeSize && 0 <= lngVal0 < LngLatticeSize
    ensures r == IntegerCode(latVal0, lngVal0, codeLength0)
  {
    if codeLength0 < MinDigitCount || (codeLength0 < PairCodeLength && codeLength0 % 2 == 1) {
      return Failure(InvalidLength);
    }
    var codeLength := MinInt(codeLength0, MaxDigitCount);
    var code: string := "";
    var latVal: nat := latVal0;
    var lngVal: nat := lngVal0;
    GridStepsArePowers();
    if codeLength > PairCodeLength {
      code, latVal, lngVal := GridSection(latVal0, lngVal0);
    } else {
      latVal := latVal / Pow(GridRows, GridCodeLength);
      lngVal := lngVal / Pow(GridColumns, GridCodeLength);
    }
    ghost var tail := code;
    code := PairSection(latVal, lngVal, code);
    ghost var all := Chars(CodeDigits(latVal0, lngVal0));
    DigitsAssembled(latVal0, lngVal0, tail, codeLength > PairCodeLength);
    ghost var n := |code|;

    code := code[..SeparatorPosition] + [Separator] + code[SeparatorPosition..];

    if codeLength >= SeparatorPosition {
      r := Success(code[..codeLength + 1]);
    } else {
      r := Success(code[..codeLength] + Zeros(SeparatorPosition - codeLength) + [Separator]);
    }
    FormatFromPrefix(all, n, codeLength);
  }

  /** The grid loop of encodeIntegers: five times, prepend the digit of
      the remainders modulo 5 and 4, then divide by 5 and 4. */
  method GridSection(latVal0: nat, lngVal0: nat) returns (code: string, latVal: nat, lngVal: nat)
    ensures code == Chars(GridDigits(latVal0, lngVal0))
    ensures latVal == latVal0 / LatGridSteps && lngVal == lngVal0 / LngGridSteps
  {
    code := "";
    latVal, lngVal := latVal0, lngVal0;
    ghost var grid := GridDigits(latVal0, lngVal0);
    var i := 0;
    while i < MaxDigitCount - PairCodeLength
      invariant 0 <= i <= GridCodeLength
      invariant latVal == DropDigits(latVal0, GridRows, i)
      invariant lngVal == DropDigits(lngVal0, GridColumns, i)
      invariant code == Chars(grid[GridCodeLength - i..])
    {
      var latDigit := latVal % GridRows;
      var lngDigit := lngVal % GridColumns;
      var ndx := latDigit * GridColumns + lngDigit;
      GridStep(latVal0, lngVal0, i);
      code := [CodeAlphabet[ndx]] + code;
      latVal := latVal / GridRows;
      lngVal := lngVal / GridColumns;
      i := i + 1;
    }
    assert grid[0..] == grid;
    GridQuotients(latVal0, lngVal0);
  }

  /** One step of the grid loop: the remainders of the values with i
      digits dropped form grid digit 4 - i. */
  lemma GridStep(latVal0: nat, lngVal0: nat, i: nat)
    requires i < GridCodeLength
    ensures var grid := GridDigits(latVal0, lngVal0);
      var x := DropDigits(latVal0, GridRows, i);
      var y := DropDigits(lngVal0, GridColumns, i);
      (x % GridRows) * GridColumns + y % GridColumns == grid[GridCodeLength - 1 - i] &&
      Chars(grid[GridCodeLength - 1 - i..]) ==
        [CodeAlphabet[grid[GridCodeLength - 1 - i]]] + Chars(grid[GridCodeLength - i..])
  {
    var grid := GridDigits(latVal0, lngVal0);
    DigitsAt(latVal0, GridRows, GridCodeLength, GridCodeLength - 1 - i);
    DigitsAt(lngVal0, GridColumns, GridCodeLength, GridCodeLength - 1 - i);
    CharsCons(grid, GridCodeLength - 1 - i);
  }

  lemma CharsCons(ds: seq<nat>, j: nat)
    requires j < |ds| && DigitsBelow(ds, EncodingBase)
    ensures Chars(ds[j..]) == [CodeAlphabet[ds[j]]] + Chars(ds[j + 1..])
  {
  }

  lemma GridQuotients(latVal0: nat, lngVal0: nat)
    ensures DropDigits(latVal0, GridRows, GridCodeLength) == latVal0 / LatGridSteps
    ensures DropDigits(lngVal0, GridColumns, GridCodeLength) == lngVal0 / LngGridSteps
  {
    DropDigitsIsDiv(latVal0, GridRows, GridCodeLength);
    DropDigitsIsDiv(lngVal0, GridColumns, GridCodeLength);
    GridStepsArePowers();
  }

  /** The pair loop of encodeIntegers: five times, prepend the longitude
      and then the latitude digit modulo 20, then divide both by 20. */
  method PairSection(latVal0: nat, lngVal0: nat, tail: string) returns (code: string)
    ensures code == Chars(Interleave(Digits(latVal0, EncodingBase, PairCodeLength / 2),
                                     Digits(lngVal0, EncodingBase, PairCodeLength / 2))) + tail
  {
    code := tail;
    var latVal: nat, lngVal: nat := latVal0, lngVal0;
    ghost var latDone: seq<nat> := [];
    ghost var lngDone: seq<nat> := [];
    var i := 0;
    while i < PairCodeLength / 2
      invariant 0 <= i <= PairCodeLength / 2 && |latDone| == |lngDone| == i
      invariant Digits(latVal0, EncodingBase, PairCodeLength / 2) ==
        Digits(latVal, EncodingBase, PairCodeLength / 2 - i) + latDone
      invariant Digits(lngVal0, EncodingBase, PairCodeLength / 2) ==
        Digits(lngVal, EncodingBase, PairCodeLength / 2 - i) + lngDone
      invariant DigitsBelow(latDone, EncodingBase) && DigitsBelow(lngDone, EncodingBase)
      invariant code == Chars(Interleave(latDone, lngDone)) + tail
    {
      PairPrepend(latVal % EncodingBase, lngVal % EncodingBase, latDone, lngDone, tail);
      code := [CodeAlphabet[lngVal % EncodingBase]] + code;
      code := [CodeAlphabet[latVal % EncodingBase]] + code;
      DigitsPrepend(latVal, EncodingBase, PairCodeLength / 2 - i, latDone);
      DigitsPrepend(lngVal, EncodingBase, PairCodeLength / 2 - i, lngDone);
      latDone := [latVal % EncodingBase] + latDone;
      lngDone := [lngVal % EncodingBase] + lngDone;
      latVal := latVal / EncodingBase;
      lngVal := lngVal / EncodingBase;
      i := i + 1;
    }
    assert latDone == Digits(latVal0, EncodingBase, PairCodeLength / 2);
    assert lngDone == Digits(lngVal0, EncodingBase, PairCodeLength / 2);
  }

  /** One loop step: the remainder becomes the new leading digit. */
  lemma DigitsPrepend(x: nat, base: nat, count: nat, done: seq<nat>)
    requires base >= 2 && count > 0
    ensures Digits(x, base, count) + done == Digits(x / base, base, count - 1) + ([x % base] + done)
  {
  }

  /** One step of a loop that prepends x % base and divides x by base:
      the digits still to come lose their last digit. */
  lemma PairPrepend(a: nat, b: nat, lats: seq<nat>, lngs: seq<nat>, tail: string)
    requires a < EncodingBase && b < EncodingBase
    requires |lats| == |lngs| && DigitsBelow(lats, EncodingBase) && DigitsBelow(lngs, EncodingBase)
    ensures Chars(Interleave([a] + lats, [b] + lngs)) + tail ==
      [CodeAlphabet[a]] + ([CodeAlphabet[b]] + (Chars(Interleave(lats, lngs)) + tail))
  {
    InterleaveCons(a, b, lats, lngs);
    var rest := Interleave(lats, lngs);
    var x, y := CodeAlphabet[a], CodeAlphabet[b];
    CharsConcat([a, b], rest);
    assert Chars([a, b]) == [x, y];
    calc {
      Chars(Interleave([a] + lats, [b] + lngs)) + tail;
      Chars([a, b] + rest) + tail;
      ([x, y] + Chars(rest)) + tail;
      { SeqAssoc(x, y, Chars(rest), tail); }
      [x] + ([y] + (Chars(rest) + tail));
    }
  }

  lemma SeqAssoc<T>(x: T, y: T, c: seq<T>, d: seq<T>)
    ensures ([x, y] + c) + d == [x] + ([y] + (c + d))
  {
  }

  lemma InterleaveCons(a: nat, b: nat, lats: seq<nat>, lngs: seq<nat>)
    requires |lats| == |lngs|
    ensures Interleave([a] + lats, [b] + lngs) == [a, b] + Interleave(lats, lngs)
  {
    assert ([a] + lats)[1..] == lats && ([b] + lngs)[1..] == lngs;
  }

  lemma CharsConcat(a: seq<nat>, b: seq<nat>)
    requires DigitsBelow(a, EncodingBase) && DigitsBelow(b, EncodingBase)
    ensures Chars(a + b) == Chars(a) + Chars(b)
  {
  }

  /** After both loops the code holds the leading ten or all fifteen digit
      characters. */
  lemma DigitsAssembled(latVal0: nat, lngVal0: nat, tail: string, withGrid: bool)
    requires tail == if withGrid then Chars(GridDigits(latVal0, lngVal0)) else []
    ensures var code := Chars(Interleave(Digits(latVal0 / LatGridSteps, EncodingBase, PairCodeLength / 2),
                                         Digits(lngVal0 / LngGridSteps, EncodingBase, PairCodeLength / 2))) + tail;
      |code| == (if withGrid then MaxDigitCount else PairCodeLength) &&
      code == Chars(CodeDigits(latVal0, lngVal0))[..|code|]
  {
    var pairs := Interleave(Digits(latVal0 / LatGridSteps, EncodingBase, PairCodeLength / 2),
                            Digits(lngVal0 / LngGridSteps, EncodingBase, PairCodeLength / 2));
    CharsConcat(pairs, GridDigits(latVal0, lngVal0));
  }

  /** Inserting the separator into a prefix of the digits and then
      truncating or padding gives FormatCode of the digits. */
  lemma FormatFromPrefix(digits: string, n: nat, len: nat)
    requires MinDigitCount <= len <= n <= |digits| && len <= MaxDigitCount && n >= SeparatorPosition
    ensures var code := digits[..n][..SeparatorPosition] + [Separator] + digits[..n][SeparatorPosition..];
      (len >= SeparatorPosition ==> code[..len + 1] == FormatCode(digits, len)) &&
      (len < SeparatorPosition ==>
        code[..len] + Zeros(SeparatorPosition - len) + [Separator] == FormatCode(digits, len))
  {
  }

  /** encode: the code of the lattice point a location falls into, ten
      digits unless a length is given. */
  function Encode(latitude: real, longitude: real, codeLength: int := PairCodeLength): (r: Result<string>)
    ensures r.Failure? <==> InvalidCodeLength(codeLength)
  {
    IntegerCode(LatitudeToInteger(latitude), LongitudeToInteger(longitude), codeLength)
  }
}
