/** Why the code recoverNearest returns matches the short code: moving
    the padded code's area by whole cells of the padding digits changes
    only those digits, so encoding the moved area's center gives the
    short code behind a new prefix. That holds when the center is
    encoded where it lies. The PHP code instead caps a center east of the
    antimeridian at 180 (src/CodeArea.php), which encodes in the
    westernmost column; the corrected recovery below encodes the
    uncapped center, which encode wraps around the globe. */
module Matching {
  import opened Results
  import opened Alphabet
  import opened Numerals
  import opened Validator
  import opened Normalizer
  import opened CodeAreas
  import opened Encoder
  import opened Decoder
  import opened RoundTrip
  import opened Extent
  import opened Recovery
  import opened Nearness

  // ---------------------------------------------------------------------
  // Integer facts about digits.

  /** Adding whole multiples of d * b * q to x leaves the digit
      (x / d) % b as it is. */
  lemma DigitShift(x: int, d: int, b: int, q: int, m: int)
    requires d > 0 && b > 0
    ensures ((x + m * (d * b * q)) / d) % b == (x / d) % b
  {
    var y := x / d;
    assert m * (d * b * q) == d * (m * b * q) by {
      MulAssoc(m, d, b * q);
      MulAssoc(d, b, q);
      MulAssoc(d, m, b * q);
      MulAssoc(m, b, q);
    }
    assert x + m * (d * b * q) == d * (y + m * b * q) + x % d;
    DivModUnique(x + m * (d * b * q), d, y + m * b * q, x % d);
    assert y + m * b * q == b * (y / b + m * q) + y % b by {
      MulAssoc(m, b, q);
    }
    DivModUnique(y + m * b * q, b, y / b + m * q, y % b);
  }

  /** A multiple of c plus less than c, divided by a multiple of c, has
      the quotient of the multiple alone. */
  lemma DivOffset(a: int, c: int, e: int, t: int)
    requires c > 0 && e > 0 && 0 <= t < c
    ensures (c * a + t) / (c * e) == (c * a) / (c * e)
  {
    var d := c * e;
    var q, r := (c * a) / d, (c * a) % d;
    var m := a - e * q;
    assert r == c * m by {
      MulAssoc(c, e, q);
    }
    if m >= e {
      MulMono(c, e, m);
    }
    assert m <= e - 1;
    MulMono(c, m, e - 1);
    DivModUnique(c * a + t, d, q, r + t);
  }

  lemma MulCancel(x: int, y: int, k: int)
    requires k > 0 && x * k == y * k
    ensures x == y
  {
    if x < y {
      MulAtLeast(k, y - x);
    } else if y < x {
      MulAtLeast(k, x - y);
    }
  }

  /** A value splits into a leading digit and a rest below the place
      value in one way only. */
  lemma HeadSplit(m: int, a0: int, ra: int, b0: int, rb: int)
    requires m > 0 && 0 <= ra < m && 0 <= rb < m && a0 * m + ra == b0 * m + rb
    ensures a0 == b0 && ra == rb
  {
    DivModUnique(a0 * m + ra, m, a0, ra);
    DivModUnique(b0 * m + rb, m, b0, rb);
  }

  /** Equal values of equally many digits are equal digits. */
  lemma {:induction false} ValueOfInjective(a: seq<nat>, b: seq<nat>, base: nat)
    requires base >= 2 && |a| == |b| && DigitsBelow(a, base) && DigitsBelow(b, base)
    requires ValueOf(a, base) == ValueOf(b, base)
    ensures a == b
  {
    if a != [] {
      var ta, tb := a[1..], b[1..];
      assert DigitsBelow(ta, base) && DigitsBelow(tb, base);
      assert a[0] == b[0] && ValueOf(ta, base) == ValueOf(tb, base) by {
        ValueOfBound(ta, base);
        ValueOfBound(tb, base);
        HeadSplit(Pow(base, |ta|), a[0], ValueOf(ta, base), b[0], ValueOf(tb, base));
      }
      ValueOfInjective(ta, tb, base);
      assert a == [a[0]] + ta && b == [b[0]] + tb;
    }
  }

  // ---------------------------------------------------------------------
  // Digits of a lattice point, one at a time.

  /** The latitude place value of digit k in lattice steps: the height
      of the cell of the shortest code that shows digit k. */
  function LatPlace(k: nat): (v: nat)
    requires k < MaxDigitCount
    ensures v > 0
  {
    if k < PairCodeLength then LatCell(k / 2 * 2 + 2) else LatCell(k + 1)
  }

  function LngPlace(k: nat): (v: nat)
    requires k < MaxDigitCount
    ensures v > 0
  {
    if k < PairCodeLength then LngCell(k / 2 * 2 + 2) else LngCell(k + 1)
  }

  /** The base of the latitude and the longitude part of digit k. */
  function LatBase(k: nat): nat
  {
    if k < PairCodeLength then EncodingBase else GridRows
  }

  function LngBase(k: nat): nat
  {
    if k < PairCodeLength then EncodingBase else GridColumns
  }

  /** Digit k from its latitude part a and its longitude part b: a pair
      digit is one of them, a grid digit combines both. */
  function DigitOf(k: nat, a: nat, b: nat): nat
  {
    if k >= PairCodeLength then a * GridColumns + b else if k % 2 == 0 then a else b
  }

  /** Digit j of x in base b, counted from the most significant of
      count digits, is x at place value b^(count - 1 - j) modulo b. */
  lemma DigitPlace(x: nat, base: nat, count: nat, j: nat)
    requires base >= 2 && j < count
    ensures Digits(x, base, count)[j] == (x / Pow(base, count - 1 - j)) % base
  {
    DigitsAt(x, base, count, j);
    DropDigitsIsDiv(x, base, count - 1 - j);
  }

  /** The same for the pair digits, read in pair steps of a lattice. */
  lemma PairPlace(x: nat, steps: nat, j: nat)
    requires steps > 0 && j < PairCodeLength / 2
    ensures Digits(x / steps, EncodingBase, PairCodeLength / 2)[j] == (x / (Pow(EncodingBase, 4 - j) * steps)) % EncodingBase
  {
    DigitPlace(x / steps, EncodingBase, PairCodeLength / 2, j);
    DivModNested(x, steps, Pow(EncodingBase, 4 - j));
  }

  lemma PairDigitAt(v: nat, w: nat, k: nat)
    requires k < PairCodeLength
    ensures CodeDigits(v, w)[k] == DigitOf(k, (v / LatPlace(k)) % LatBase(k), (w / LngPlace(k)) % LngBase(k))
  {
    var j := k / 2;
    var a, b := Digits(v / LatGridSteps, EncodingBase, 5), Digits(w / LngGridSteps, EncodingBase, 5);
    assert CodeDigits(v, w)[k] == Interleave(a, b)[k];
    InterleaveAt(a, b, j);
    assert LatPlace(k) == Pow(EncodingBase, 4 - j) * LatGridSteps;
    assert LngPlace(k) == Pow(EncodingBase, 4 - j) * LngGridSteps;
    PairPlace(v, LatGridSteps, j);
    PairPlace(w, LngGridSteps, j);
  }

  lemma GridDigitAt(v: nat, w: nat, k: nat)
    requires PairCodeLength <= k < MaxDigitCount
    ensures CodeDigits(v, w)[k] == DigitOf(k, (v / LatPlace(k)) % LatBase(k), (w / LngPlace(k)) % LngBase(k))
  {
    var g := k - PairCodeLength;
    assert CodeDigits(v, w)[k] == GridDigits(v, w)[g];
    assert LatPlace(k) == Pow(GridRows, 4 - g) && LngPlace(k) == Pow(GridColumns, 4 - g);
    DigitPlace(v, GridRows, 5, g);
    DigitPlace(w, GridColumns, 5, g);
  }

  /** Digit k of a lattice point is read off its row and its column at
      the place values of digit k. */
  lemma CodeDigitAt(v: nat, w: nat, k: nat)
    requires k < MaxDigitCount
    ensures CodeDigits(v, w)[k] == DigitOf(k, (v / LatPlace(k)) % LatBase(k), (w / LngPlace(k)) % LngBase(k))
  {
    if k < PairCodeLength {
      PairDigitAt(v, w, k);
    } else {
      GridDigitAt(v, w, k);
    }
  }

  // ---------------------------------------------------------------------
  // Encoding the corner of a decoded cell gives its digits back.

  /** The grid part of a corner is less than one pair-precision step. */
  lemma GridSumBelow(ds: seq<nat>)
    requires DecodableLength(|ds|) && DigitsBelow(ds, EncodingBase)
    ensures LatGridSum(ds) < LatGridSteps && LngGridSum(ds) < LngGridSteps
  {
    if |ds| > PairCodeLength {
      var rows, cols := Rows(GridPart(ds)), Cols(GridPart(ds));
      assert DigitsBelow(rows, GridRows) && DigitsBelow(cols, GridColumns);
      GridRest(rows, GridRows, GridCodeLength);
      GridRest(cols, GridColumns, GridCodeLength);
      GridStepsArePowers();
    }
  }

  /** The latitude digits of equally long codes with the same southern
      edge are the same. */
  lemma LatInjective(a: seq<nat>, b: seq<nat>)
    requires |a| == |b| && DecodableLength(|a|) && DigitsBelow(a, EncodingBase) && DigitsBelow(b, EncodingBase)
    requires LatLo(a) == LatLo(b)
    ensures Evens(PairPart(a)) == Evens(PairPart(b))
    ensures Rows(GridPart(a)) == Rows(GridPart(b))
  {
    GridSumBelow(a);
    GridSumBelow(b);
    DivModUnique(LatLo(a), LatGridSteps, LatPairSum(a), LatGridSum(a));
    DivModUnique(LatLo(b), LatGridSteps, LatPairSum(b), LatGridSum(b));
    var ea, eb := Evens(PairPart(a)), Evens(PairPart(b));
    MulCancel(ValueOf(ea, EncodingBase), ValueOf(eb, EncodingBase),
              Pow(EncodingBase, PairCodeLength / 2 - |PairPart(a)| / 2));
    assert DigitsBelow(ea, EncodingBase) by {
      forall k | 0 <= k < |ea|
        ensures ea[k] < EncodingBase
      {
        assert ea[k] == a[2 * k];
      }
    }
    assert DigitsBelow(eb, EncodingBase) by {
      forall k | 0 <= k < |eb|
        ensures eb[k] < EncodingBase
      {
        assert eb[k] == b[2 * k];
      }
    }
    ValueOfInjective(ea, eb, EncodingBase);
    var ra, rb := Rows(GridPart(a)), Rows(GridPart(b));
    MulCancel(ValueOf(ra, GridRows), ValueOf(rb, GridRows), Pow(GridRows, GridCodeLength - |GridPart(a)|));
    ValueOfInjective(ra, rb, GridRows);
  }

  /** The same for the longitude digits and the western edge. */
  lemma LngInjective(a: seq<nat>, b: seq<nat>)
    requires |a| == |b| && DecodableLength(|a|) && DigitsBelow(a, EncodingBase) && DigitsBelow(b, EncodingBase)
    requires LngLo(a) == LngLo(b)
    ensures Odds(PairPart(a)) == Odds(PairPart(b))
    ensures Cols(GridPart(a)) == Cols(GridPart(b))
  {
    GridSumBelow(a);
    GridSumBelow(b);
    DivModUnique(LngLo(a), LngGridSteps, LngPairSum(a), LngGridSum(a));
    DivModUnique(LngLo(b), LngGridSteps, LngPairSum(b), LngGridSum(b));
    var oa, ob := Odds(PairPart(a)), Odds(PairPart(b));
    MulCancel(ValueOf(oa, EncodingBase), ValueOf(ob, EncodingBase),
              Pow(EncodingBase, PairCodeLength / 2 - |PairPart(a)| / 2));
    assert DigitsBelow(oa, EncodingBase) by {
      forall k | 0 <= k < |oa|
        ensures oa[k] < EncodingBase
      {
        assert oa[k] == a[2 * k + 1];
      }
    }
    assert DigitsBelow(ob, EncodingBase) by {
      forall k | 0 <= k < |ob|
        ensures ob[k] < EncodingBase
      {
        assert ob[k] == b[2 * k + 1];
      }
    }
    ValueOfInjective(oa, ob, EncodingBase);
    var ca, cb := Cols(GridPart(a)), Cols(GridPart(b));
    MulCancel(ValueOf(ca, GridColumns), ValueOf(cb, GridColumns), Pow(GridColumns, GridCodeLength - |GridPart(a)|));
    ValueOfInjective(ca, cb, GridColumns);
  }

  /** Equally long codes with the same south-west corner have the same
      digits. */
  lemma CornerInjective(a: seq<nat>, b: seq<nat>)
    requires |a| == |b| && DecodableLength(|a|) && DigitsBelow(a, EncodingBase) && DigitsBelow(b, EncodingBase)
    requires LatLo(a) == LatLo(b) && LngLo(a) == LngLo(b)
    ensures a == b
  {
    LatInjective(a, b);
    LngInjective(a, b);
    InterleaveSplit(PairPart(a));
    InterleaveSplit(PairPart(b));
    if |a| > PairCodeLength {
      var ga, gb := GridPart(a), GridPart(b);
      forall i | 0 <= i < |ga|
        ensures ga[i] == gb[i]
      {
        assert Rows(ga)[i] == Rows(gb)[i] && Cols(ga)[i] == Cols(gb)[i];
      }
      assert a == PairPart(a) + ga && b == PairPart(b) + gb;
    } else {
      assert a == PairPart(a) && b == PairPart(b);
    }
  }

  /** A pair corner is its value in cells of the pair length. */
  lemma PairScaled(e: int, high: int, steps: int)
    ensures (e * high) * steps + 0 == (high * steps) * e
  {
    MulAssoc(e, high, steps);
    MulAssoc(high, steps, e);
  }

  /** A grid corner is its value in cells of the grid length. */
  lemma GridScaled(e: int, pg: int, lr: int, r: int)
    ensures (e * 1) * (pg * lr) + r * lr == lr * (e * pg + r)
  {
    MulAssoc(e, pg, lr);
  }

  /** The corner of a cell is a whole number of cells from the origin. */
  lemma LatAligned(ds: seq<nat>)
    requires DecodableLength(|ds|)
    ensures LatLo(ds) == LatCell(|ds|) * (LatLo(ds) / LatCell(|ds|))
  {
    var n := |ds|;
    var e := ValueOf(Evens(PairPart(ds)), EncodingBase);
    var q: int;
    if n <= PairCodeLength {
      q := e;
      assert LatLo(ds) == LatCell(n) * q by {
        assert LatGridSum(ds) == 0;
        PairScaled(e, Pow(EncodingBase, PairCodeLength / 2 - n / 2), LatGridSteps);
      }
    } else {
      var g := n - PairCodeLength;
      var r := ValueOf(Rows(GridPart(ds)), GridRows);
      q := e * Pow(GridRows, g) + r;
      assert LatLo(ds) == LatCell(n) * q by {
        assert LatGridSteps == Pow(GridRows, g) * Pow(GridRows, MaxDigitCount - n) by {
          PowAdd(GridRows, g, MaxDigitCount - n);
          GridStepsArePowers();
        }
        GridScaled(e, Pow(GridRows, g), Pow(GridRows, MaxDigitCount - n), r);
      }
    }
    DivModUnique(LatLo(ds), LatCell(n), q, 0);
  }

  lemma LngAligned(ds: seq<nat>)
    requires DecodableLength(|ds|)
    ensures LngLo(ds) == LngCell(|ds|) * (LngLo(ds) / LngCell(|ds|))
  {
    var n := |ds|;
    var o := ValueOf(Odds(PairPart(ds)), EncodingBase);
    var q: int;
    if n <= PairCodeLength {
      q := o;
      assert LngLo(ds) == LngCell(n) * q by {
        assert LngGridSum(ds) == 0;
        PairScaled(o, Pow(EncodingBase, PairCodeLength / 2 - n / 2), LngGridSteps);
      }
    } else {
      var g := n - PairCodeLength;
      var c := ValueOf(Cols(GridPart(ds)), GridColumns);
      q := o * Pow(GridColumns, g) + c;
      assert LngLo(ds) == LngCell(n) * q by {
        assert LngGridSteps == Pow(GridColumns, g) * Pow(GridColumns, MaxDigitCount - n) by {
          PowAdd(GridColumns, g, MaxDigitCount - n);
          GridStepsArePowers();
        }
        GridScaled(o, Pow(GridColumns, g), Pow(GridColumns, MaxDigitCount - n), c);
      }
    }
    DivModUnique(LngLo(ds), LngCell(n), q, 0);
  }

  /** decode and then encode: the corner of the area of full-code digits
      lies in the lattice, and its code at the digits' length is those
      digits. */
  lemma CornerDigits(ds: seq<nat>)
    requires DecodableLength(|ds|) && DigitsBelow(ds, EncodingBase) && ds[0] < 9 && ds[1] < 18
    ensures LatLo(ds) < LatLatticeSize && LngLo(ds) < LngLatticeSize
    ensures CodeDigits(LatLo(ds), LngLo(ds))[..|ds|] == ds
  {
    LatExtent(ds);
    LngExtent(ds);
    assert Pow(EncodingBase, 4) == 160000;
    MulMono(Pow(EncodingBase, 4) * LatGridSteps, ds[0] + 1, 9);
    MulMono(Pow(EncodingBase, 4) * LngGridSteps, ds[1] + 1, 18);
    var e := CodeDigits(LatLo(ds), LngLo(ds))[..|ds|];
    LatCorner(LatLo(ds), LngLo(ds), |ds|);
    LngCorner(LatLo(ds), LngLo(ds), |ds|);
    LatAligned(ds);
    LngAligned(ds);
    CornerInjective(e, ds);
  }

  // ---------------------------------------------------------------------
  // Moving by whole cells of the padding digits.

  lemma Rearrange(a: int, b: int, c: int)
    ensures (a * b) * c == (a * c) * b
  {
    MulAssoc(a, b, c);
    MulAssoc(a, c, b);
  }

  /** Between two pair lengths, cells differ by a power of 20. */
  lemma PairCellRatio(m: nat, n: nat)
    requires DecodableLength(m) && DecodableLength(n) && m <= n <= PairCodeLength
    ensures LatCell(m) == LatCell(n) * Pow(EncodingBase, n / 2 - m / 2)
    ensures LngCell(m) == LngCell(n) * Pow(EncodingBase, n / 2 - m / 2)
  {
    var high, ratio := Pow(EncodingBase, PairCodeLength / 2 - n / 2), Pow(EncodingBase, n / 2 - m / 2);
    PowAdd(EncodingBase, PairCodeLength / 2 - n / 2, n / 2 - m / 2);
    assert PairCodeLength / 2 - m / 2 == PairCodeLength / 2 - n / 2 + (n / 2 - m / 2);
    Rearrange(high, ratio, LatGridSteps);
    Rearrange(high, ratio, LngGridSteps);
  }

  /** From a pair length to a grid length, the pair cell is a power of 20
      times the grid rows or columns still to come. */
  lemma MixedCellRatio(m: nat, n: nat)
    requires DecodableLength(m) && DecodableLength(n) && m <= PairCodeLength < n
    ensures LatCell(m) == LatCell(n) * (Pow(EncodingBase, PairCodeLength / 2 - m / 2) * Pow(GridRows, n - PairCodeLength))
    ensures LngCell(m) == LngCell(n) * (Pow(EncodingBase, PairCodeLength / 2 - m / 2) * Pow(GridColumns, n - PairCodeLength))
  {
    var high := Pow(EncodingBase, PairCodeLength / 2 - m / 2);
    var lr, lc := Pow(GridRows, MaxDigitCount - n), Pow(GridColumns, MaxDigitCount - n);
    var rr, rc := Pow(GridRows, n - PairCodeLength), Pow(GridColumns, n - PairCodeLength);
    PowAdd(GridRows, MaxDigitCount - n, n - PairCodeLength);
    PowAdd(GridColumns, MaxDigitCount - n, n - PairCodeLength);
    GridStepsArePowers();
    assert LatGridSteps == lr * rr;
    assert LngGridSteps == lc * rc;
    MulAssoc(high, lr, rr);
    MulAssoc(high, lc, rc);
    Rearrange(lr, high, rr);
    Rearrange(lc, high, rc);
    MulAssoc(lr, high, rr);
    MulAssoc(lc, high, rc);
  }

  /** Between two grid lengths, cells differ by a power of 5 in rows and
      of 4 in columns. */
  lemma GridCellRatio(m: nat, n: nat)
    requires DecodableLength(m) && DecodableLength(n) && PairCodeLength < m <= n
    ensures LatCell(m) == LatCell(n) * Pow(GridRows, n - m)
    ensures LngCell(m) == LngCell(n) * Pow(GridColumns, n - m)
  {
    PowAdd(GridRows, MaxDigitCount - n, n - m);
    PowAdd(GridColumns, MaxDigitCount - n, n - m);
  }

  /** The cell of a longer code divides the cell of a shorter one. */
  lemma CellDivides(m: nat, n: nat)
    requires DecodableLength(m) && DecodableLength(n) && m <= n
    ensures LatCell(m) == LatCell(n) * (LatCell(m) / LatCell(n))
    ensures LngCell(m) == LngCell(n) * (LngCell(m) / LngCell(n))
  {
    if n <= PairCodeLength {
      var ratio := Pow(EncodingBase, n / 2 - m / 2);
      assert LatCell(m) == LatCell(n) * ratio && LngCell(m) == LngCell(n) * ratio by {
        PairCellRatio(m, n);
      }
      DivModUnique(LatCell(m), LatCell(n), ratio, 0);
      DivModUnique(LngCell(m), LngCell(n), ratio, 0);
    } else if m <= PairCodeLength {
      var high := Pow(EncodingBase, PairCodeLength / 2 - m / 2);
      var lat, lng := high * Pow(GridRows, n - PairCodeLength), high * Pow(GridColumns, n - PairCodeLength);
      assert LatCell(m) == LatCell(n) * lat && LngCell(m) == LngCell(n) * lng by {
        MixedCellRatio(m, n);
      }
      DivModUnique(LatCell(m), LatCell(n), lat, 0);
      DivModUnique(LngCell(m), LngCell(n), lng, 0);
    } else {
      var lat, lng := Pow(GridRows, n - m), Pow(GridColumns, n - m);
      assert LatCell(m) == LatCell(n) * lat && LngCell(m) == LngCell(n) * lng by {
        GridCellRatio(m, n);
      }
      DivModUnique(LatCell(m), LatCell(n), lat, 0);
      DivModUnique(LngCell(m), LngCell(n), lng, 0);
    }
  }

  /** The length of the code whose cell is one digit of k high: the place
      value of digit k times its base. */
  function SpanLength(k: nat): nat
  {
    if k < PairCodeLength then k / 2 * 2 else k
  }

  lemma PlaceTimesBase(k: nat)
    requires MinDigitCount <= k < MaxDigitCount
    ensures DecodableLength(SpanLength(k))
    ensures LatPlace(k) * LatBase(k) == LatCell(SpanLength(k))
    ensures LngPlace(k) * LngBase(k) == LngCell(SpanLength(k))
  {
    if k < PairCodeLength {
      var j := PairCodeLength / 2 - k / 2;
      assert Pow(EncodingBase, j) == EncodingBase * Pow(EncodingBase, j - 1);
    } else if k > PairCodeLength {
      assert Pow(GridRows, MaxDigitCount - k) == GridRows * Pow(GridRows, MaxDigitCount - k - 1);
      assert Pow(GridColumns, MaxDigitCount - k) == GridColumns * Pow(GridColumns, MaxDigitCount - k - 1);
    } else {
      GridStepsArePowers();
    }
  }

  /** Three windows of one cell each: at lo, one step below and one step
      above. */
  predicate InShiftedCell(v: int, lo: int, step: int, size: int)
  {
    (lo - step <= v < lo - step + size) || (lo <= v < lo + size) || (lo + step <= v < lo + step + size)
  }

  /** A value in a cell of size c at lo, or one step away, has the digit
      of lo at a place value that c divides and whose span divides the
      step. */
  lemma WindowDigit(v: int, lo: int, step: int, c: int, place: int, b: int, q: int)
    requires 0 < c <= step && place > 0 && b > 0
    requires lo == c * (lo / c) && step == c * (step / c) && place == c * (place / c)
    requires step == place * b * q
    requires InShiftedCell(v, lo, step, c)
    ensures (v / place) % b == (lo / place) % b
  {
    var a, st, e := lo / c, step / c, place / c;
    var s: int := if v < lo then -1 else if v < lo + c then 0 else 1;
    assert s * step == if s == -1 then -step else if s == 0 then 0 else step;
    assert lo + s * step <= v < lo + s * step + c;
    assert lo + s * step == c * (a + s * st) by {
      MulAssoc(s, c, st);
    }
    assert e > 0 by {
      if e <= 0 {
        MulMono(c, e, 0);
      }
    }
    DivOffset(a + s * st, c, e, v - (lo + s * step));
    DigitShift(lo, place, b, q, s);
  }

  /** The cell sizes a digit from p on is read against: the cell of n
      digits divides the padding cell and the place value, and the padding
      cell is a whole number of spans of the digit. */
  lemma LatCellsNest(n: nat, p: nat)
    requires DecodableLength(n) && DecodableLength(p) && p <= n
    ensures LatCell(n) <= LatCell(p) && LatCell(p) == LatCell(n) * (LatCell(p) / LatCell(n))
  {
    CellDivides(p, n);
    MulAtLeast(LatCell(n), LatCell(p) / LatCell(n));
  }

  lemma LatPlaceNests(n: nat, k: nat)
    requires DecodableLength(n) && k < n
    ensures LatPlace(k) == LatCell(n) * (LatPlace(k) / LatCell(n))
  {
    var m := if k < PairCodeLength then k / 2 * 2 + 2 else k + 1;
    assert DecodableLength(m) && m <= n && LatPlace(k) == LatCell(m);
    CellDivides(m, n);
  }

  lemma LatSpansNest(p: nat, k: nat)
    requires DecodableLength(p) && MinDigitCount <= p <= k < MaxDigitCount
    ensures DecodableLength(SpanLength(k))
    ensures LatCell(p) == LatPlace(k) * LatBase(k) * (LatCell(p) / LatCell(SpanLength(k)))
  {
    PlaceTimesBase(k);
    CellDivides(p, SpanLength(k));
  }

  lemma LngCellsNest(n: nat, p: nat)
    requires DecodableLength(n) && DecodableLength(p) && p <= n
    ensures LngCell(n) <= LngCell(p) && LngCell(p) == LngCell(n) * (LngCell(p) / LngCell(n))
  {
    CellDivides(p, n);
    MulAtLeast(LngCell(n), LngCell(p) / LngCell(n));
  }

  lemma LngPlaceNests(n: nat, k: nat)
    requires DecodableLength(n) && k < n
    ensures LngPlace(k) == LngCell(n) * (LngPlace(k) / LngCell(n))
  {
    var m := if k < PairCodeLength then k / 2 * 2 + 2 else k + 1;
    assert DecodableLength(m) && m <= n && LngPlace(k) == LngCell(m);
    CellDivides(m, n);
  }

  lemma LngSpansNest(p: nat, k: nat)
    requires DecodableLength(p) && MinDigitCount <= p <= k < MaxDigitCount
    ensures DecodableLength(SpanLength(k))
    ensures LngCell(p) == LngPlace(k) * LngBase(k) * (LngCell(p) / LngCell(SpanLength(k)))
  {
    PlaceTimesBase(k);
    CellDivides(p, SpanLength(k));
  }

  /** A lattice row in the cell of ds, or in the cell one step of p
      digits north or south, has the latitude part of every digit from p
      on of the cell's corner. */
  lemma LatPartSame(ds: seq<nat>, p: nat, v: nat, k: nat)
    requires DecodableLength(|ds|) && DecodableLength(p) && MinDigitCount <= p <= k < |ds|
    requires InShiftedCell(v, LatLo(ds), LatCell(p), LatCell(|ds|))
    ensures (v / LatPlace(k)) % LatBase(k) == (LatLo(ds) / LatPlace(k)) % LatBase(k)
  {
    var cn, cp := LatCell(|ds|), LatCell(p);
    LatAligned(ds);
    LatCellsNest(|ds|, p);
    LatPlaceNests(|ds|, k);
    LatSpansNest(p, k);
    WindowDigit(v, LatLo(ds), cp, cn, LatPlace(k), LatBase(k), cp / LatCell(SpanLength(k)));
  }

  /** The same for a lattice column, taken around the globe. */
  lemma LngPartSame(ds: seq<nat>, p: nat, x: int, k: nat)
    requires DecodableLength(|ds|) && DecodableLength(p) && MinDigitCount <= p <= k < |ds|
    requires InShiftedCell(x, LngLo(ds), LngCell(p), LngCell(|ds|))
    ensures ((x % LngLatticeSize) / LngPlace(k)) % LngBase(k) == (LngLo(ds) / LngPlace(k)) % LngBase(k)
  {
    var cn, cp := LngCell(|ds|), LngCell(p);
    LngAligned(ds);
    LngCellsNest(|ds|, p);
    LngPlaceNests(|ds|, k);
    LngSpansNest(p, k);
    WindowDigit(x, LngLo(ds), cp, cn, LngPlace(k), LngBase(k), cp / LngCell(SpanLength(k)));
    AroundTheGlobe(x, k);
  }

  /** Whole turns around the globe leave every longitude part from the
      second digit on as it is. */
  lemma AroundTheGlobe(x: int, k: nat)
    requires MinDigitCount <= k < MaxDigitCount
    ensures ((x % LngLatticeSize) / LngPlace(k)) % LngBase(k) == (x / LngPlace(k)) % LngBase(k)
  {
    PlaceTimesBase(k);
    var span := LngCell(SpanLength(k));
    CellDivides(MinDigitCount, SpanLength(k));
    assert LngLatticeSize == LngCell(MinDigitCount) * 18 by {
      assert Pow(EncodingBase, 4) == 160000;
    }
    var turns := LngCell(MinDigitCount) / span * 18;
    assert LngLatticeSize == LngPlace(k) * LngBase(k) * turns by {
      MulAssoc(span, LngCell(MinDigitCount) / span, 18);
    }
    assert x % LngLatticeSize == x + -(x / LngLatticeSize) * LngLatticeSize;
    DigitShift(x, LngPlace(k), LngBase(k), turns, -(x / LngLatticeSize));
  }

  /** A lattice point in the cell of full-code digits ds, or in a cell one
      step of p digits away in each direction (east and west around the
      globe), has the digits of ds from p on. */
  lemma ShiftedDigits(ds: seq<nat>, p: nat, v: nat, x: int)
    requires DecodableLength(|ds|) && DigitsBelow(ds, EncodingBase) && ds[0] < 9 && ds[1] < 18
    requires DecodableLength(p) && MinDigitCount <= p <= |ds|
    requires InShiftedCell(v, LatLo(ds), LatCell(p), LatCell(|ds|))
    requires InShiftedCell(x, LngLo(ds), LngCell(p), LngCell(|ds|))
    ensures CodeDigits(v, x % LngLatticeSize)[p..|ds|] == ds[p..|ds|]
  {
    CornerDigits(ds);
    var w := x % LngLatticeSize;
    forall k | p <= k < |ds|
      ensures CodeDigits(v, w)[k] == ds[k]
    {
      CodeDigitAt(v, w, k);
      CodeDigitAt(LatLo(ds), LngLo(ds), k);
      LatPartSame(ds, p, v, k);
      LngPartSame(ds, p, x, k);
      assert CodeDigits(LatLo(ds), LngLo(ds))[..|ds|][k] == ds[k];
    }
  }

  // ---------------------------------------------------------------------
  // Centers on the lattice.

  /** The middle of c rows from row b, when it lies in the domain, is in
      one of those rows; at the north pole it is the top row. */
  lemma LatCenterRow(b: int, c: int)
    requires c >= 1 && 0 <= 2 * b + c <= 2 * LatLatticeSize
    ensures b <= LatitudeToInteger((LatDegrees(b) + LatDegrees(b + c)) / 2.0) < b + c
  {
    var mid := (LatDegrees(b) + LatDegrees(b + c)) / 2.0;
    var h := c / 2;
    var frac := (c % 2) as real / 2.0;
    assert (mid + LatitudeMax as real) * FinalLatPrecision as real == frac + (b + h) as real;
    FloorShift(frac, b + h);
    assert frac.Floor == 0;
    assert 0 <= b + h <= LatLatticeSize;
    assert b + h == LatLatticeSize ==> c % 2 == 0 && b < LatLatticeSize;
  }

  /** The middle of c columns from column b is, around the globe, in one
      of those columns. */
  lemma LngCenterColumn(b: int, c: int) returns (x: int)
    requires c >= 1
    ensures b <= x < b + c
    ensures LongitudeToInteger((LngDegrees(b) + LngDegrees(b + c)) / 2.0) == x % LngLatticeSize
  {
    var mid := (LngDegrees(b) + LngDegrees(b + c)) / 2.0;
    var h := c / 2;
    var frac := (c % 2) as real / 2.0;
    x := b + h;
    assert (mid + LongitudeMax as real) * FinalLngPrecision as real == frac + x as real;
    FloorShift(frac, x);
    assert frac.Floor == 0;
  }

  // ---------------------------------------------------------------------
  // The adjustments move the area by whole padding cells.

  /** An area whose southern and northern edges are rows b and b + c. */
  predicate RowsAt(area: CodeArea, b: int, c: int)
  {
    area.latitudeLo == LatDegrees(b) && area.latitudeHi == LatDegrees(b + c)
  }

  /** An area whose western and eastern edges are columns b and b + c. */
  predicate ColumnsAt(area: CodeArea, b: int, c: int)
  {
    area.longitudeLo == LngDegrees(b) && area.longitudeHi == LngDegrees(b + c)
  }

  /** Digits of a full code whose first p digits were supplied as padding. */
  predicate Padded(ds: seq<nat>, p: nat)
  {
    DecodableLength(|ds|) && DigitsBelow(ds, EncodingBase) && ds[0] < 9 && ds[1] < 18 &&
    (p == 2 || p == 4 || p == 6 || p == 8) && p <= |ds|
  }

  /** The latitude adjustment moves an area in the domain by s
      resolutions, s between -1 and 1, and keeps its middle in the
      domain. */
  lemma LatitudeSteps(area: CodeArea, latitude: real, r: real) returns (s: int)
    requires r > 0.0 && -(LatitudeMax as real) <= area.latitudeLo <= area.latitudeHi <= LatitudeMax as real
    ensures -1 <= s <= 1
    ensures LatitudeShifted(area, latitude, r) ==
      CodeArea(area.latitudeLo + s as real * r, area.longitudeLo, area.latitudeHi + s as real * r, area.longitudeHi, area.codeLength)
    ensures -(LatitudeMax as real) <= (area.latitudeLo + area.latitudeHi) / 2.0 + s as real * r <= LatitudeMax as real
  {
    assert area.LatitudeCenter() == (area.latitudeLo + area.latitudeHi) / 2.0;
    var moved := LatitudeShifted(area, latitude, r);
    if moved.latitudeLo < area.latitudeLo {
      s := -1;
    } else if moved.latitudeLo > area.latitudeLo {
      s := 1;
    } else {
      s := 0;
    }
  }

  /** The longitude adjustment moves any area by s resolutions, s between
      -1 and 1. */
  lemma LongitudeSteps(area: CodeArea, longitude: real, r: real) returns (s: int)
    requires r > 0.0
    ensures -1 <= s <= 1
    ensures LongitudeShifted(area, longitude, r) ==
      CodeArea(area.latitudeLo, area.longitudeLo + s as real * r, area.latitudeHi, area.longitudeHi + s as real * r, area.codeLength)
  {
    var moved := LongitudeShifted(area, longitude, r);
    if moved.longitudeLo < area.longitudeLo {
      s := -1;
    } else if moved.longitudeLo > area.longitudeLo {
      s := 1;
    } else {
      s := 0;
    }
  }

  /** Moving rows by s cells of cp steps, in degrees. */
  lemma RowsMoved(lo: int, c: int, cp: int, s: int, r: real)
    requires -1 <= s <= 1 && r == cp as real / FinalLatPrecision as real
    ensures LatDegrees(lo) + s as real * r == LatDegrees(lo + s * cp)
    ensures LatDegrees(lo + c) + s as real * r == LatDegrees(lo + s * cp + c)
    ensures InShiftedCell(lo + s * cp, lo, cp, 1)
  {
    if s == -1 {
      assert s * cp == -cp;
    } else if s == 1 {
      assert s * cp == cp;
    } else {
      assert s * cp == 0;
    }
  }

  lemma ColumnsMoved(lo: int, c: int, cp: int, s: int, r: real)
    requires -1 <= s <= 1 && r == cp as real / FinalLngPrecision as real
    ensures LngDegrees(lo) + s as real * r == LngDegrees(lo + s * cp)
    ensures LngDegrees(lo + c) + s as real * r == LngDegrees(lo + s * cp + c)
    ensures InShiftedCell(lo + s * cp, lo, cp, 1)
  {
    if s == -1 {
      assert s * cp == -cp;
    } else if s == 1 {
      assert s * cp == cp;
    } else {
      assert s * cp == 0;
    }
  }

  /** The latitude adjustment moves the area of ds one padding cell
      south, not at all, or one north, and its middle stays in the
      domain. */
  lemma LatitudeMove(ds: seq<nat>, p: nat, latitude: real) returns (b: int)
    requires Padded(ds, p)
    ensures InShiftedCell(b, LatLo(ds), LatCell(p), 1)
    ensures 0 <= 2 * b + LatCell(|ds|) <= 2 * LatLatticeSize
    ensures RowsAt(LatitudeShifted(AreaOf(ds), latitude, PaddingResolution(p)), b, LatCell(|ds|))
    ensures ColumnsAt(LatitudeShifted(AreaOf(ds), latitude, PaddingResolution(p)), LngLo(ds), LngCell(|ds|))
    ensures LatitudeShifted(AreaOf(ds), latitude, PaddingResolution(p)).codeLength == |ds|
  {
    var area, r := AreaOf(ds), PaddingResolution(p);
    var lo: int, cn: int, cp: int := LatLo(ds), LatCell(|ds|), LatCell(p);
    PaddingResolutionIsCell(p);
    AreaInDomain(ds);
    var s := LatitudeSteps(area, latitude, r);
    RowsMoved(lo, cn, cp, s, r);
    b := lo + s * cp;
    assert (LatDegrees(b) + LatDegrees(b + cn)) / 2.0 == (area.latitudeLo + area.latitudeHi) / 2.0 + s as real * r;
  }

  /** The longitude adjustment moves an area of columns one padding cell
      west, not at all, or one east, and keeps its rows. */
  lemma LongitudeMove(area: CodeArea, ds: seq<nat>, p: nat, longitude: real) returns (b: int)
    requires Padded(ds, p) && ColumnsAt(area, LngLo(ds), LngCell(|ds|))
    ensures InShiftedCell(b, LngLo(ds), LngCell(p), 1)
    ensures ColumnsAt(LongitudeShifted(area, longitude, PaddingResolution(p)), b, LngCell(|ds|))
    ensures LongitudeShifted(area, longitude, PaddingResolution(p)).latitudeLo == area.latitudeLo
    ensures LongitudeShifted(area, longitude, PaddingResolution(p)).latitudeHi == area.latitudeHi
    ensures LongitudeShifted(area, longitude, PaddingResolution(p)).codeLength == area.codeLength
  {
    var r := PaddingResolution(p);
    var lo: int, cn: int, cp: int := LngLo(ds), LngCell(|ds|), LngCell(p);
    PaddingResolutionIsCell(p);
    var s := LongitudeSteps(area, longitude, r);
    ColumnsMoved(lo, cn, cp, s, r);
    b := lo + s * cp;
  }

  /** A point within c of a corner that is at most one step from lo lies
      in one of the three cells of size c. */
  lemma WidenCell(v: int, b: int, lo: int, step: int, c: int)
    requires InShiftedCell(b, lo, step, 1) && b <= v < b + c
    ensures InShiftedCell(v, lo, step, c)
  {
  }

  /** The area recoverNearest encodes for padded digits ds. */
  function Moved(ds: seq<nat>, p: nat, latitude: real, longitude: real): CodeArea
    requires Padded(ds, p)
  {
    Adjusted(AreaOf(ds), latitude, longitude, PaddingResolution(p))
  }

  /** The row of the moved area's middle is in the cell of ds or one
      padding cell north or south of it. */
  lemma MovedRow(ds: seq<nat>, p: nat, latitude: real, longitude: real) returns (v: nat)
    requires Padded(ds, p)
    ensures v == LatitudeToInteger(Moved(ds, p, latitude, longitude).LatitudeCenter())
    ensures InShiftedCell(v, LatLo(ds), LatCell(p), LatCell(|ds|))
  {
    var r := PaddingResolution(p);
    PaddingResolutionIsCell(p);
    var rows := LatitudeShifted(AreaOf(ds), latitude, r);
    var bl := LatitudeMove(ds, p, latitude);
    var s := LongitudeSteps(rows, longitude, r);
    var moved := Moved(ds, p, latitude, longitude);
    var cn := LatCell(|ds|);
    assert RowsAt(moved, bl, cn);
    assert moved.LatitudeCenter() == (LatDegrees(bl) + LatDegrees(bl + cn)) / 2.0;
    LatCenterRow(bl, cn);
    v := LatitudeToInteger(moved.LatitudeCenter());
    WidenCell(v, bl, LatLo(ds), LatCell(p), cn);
  }

  /** The column of the moved area's middle, before it is taken around
      the globe, is in the cell of ds or one padding cell east or west of
      it. */
  lemma MovedColumn(ds: seq<nat>, p: nat, latitude: real, longitude: real) returns (x: int)
    requires Padded(ds, p)
    ensures LongitudeToInteger(MidLongitude(Moved(ds, p, latitude, longitude))) == x % LngLatticeSize
    ensures InShiftedCell(x, LngLo(ds), LngCell(p), LngCell(|ds|))
  {
    var rows := LatitudeShifted(AreaOf(ds), latitude, PaddingResolution(p));
    var bl := LatitudeMove(ds, p, latitude);
    var bw := LongitudeMove(rows, ds, p, longitude);
    var moved := Moved(ds, p, latitude, longitude);
    var cn := LngCell(|ds|);
    assert ColumnsAt(moved, bw, cn);
    assert MidLongitude(moved) == (LngDegrees(bw) + LngDegrees(bw + cn)) / 2.0;
    x := LngCenterColumn(bw, cn);
    WidenCell(x, bw, LngLo(ds), LngCell(p), cn);
  }

  /** The lattice point of the moved area's middle, its longitude taken
      around the globe, has the digits of ds from the padding on. */
  lemma AdjustedDigits(ds: seq<nat>, p: nat, latitude: real, longitude: real)
    requires Padded(ds, p)
    ensures Moved(ds, p, latitude, longitude).codeLength == |ds|
    ensures CodeDigits(LatitudeToInteger(Moved(ds, p, latitude, longitude).LatitudeCenter()),
                       LongitudeToInteger(MidLongitude(Moved(ds, p, latitude, longitude))))[p..|ds|] == ds[p..|ds|]
  {
    var v := MovedRow(ds, p, latitude, longitude);
    var x := MovedColumn(ds, p, latitude, longitude);
    ShiftedDigits(ds, p, v, x);
  }

  // ---------------------------------------------------------------------
  // From digits to characters.

  /** An upper-case string: one that upper-casing leaves as it is. */
  predicate Uppercase(s: string)
  {
    forall j :: 0 <= j < |s| ==> UpperChar(s[j]) == s[j]
  }

  /** The significant characters of a code with its separator at 8: the
      characters around the separator, upper-cased, at most fifteen. */
  lemma SignificantAt(code: string, i: nat)
    requires UnpaddedAt(code, SeparatorPosition) && i < |Significant(code)|
    ensures SeparatorPosition <= |Significant(code)| == MinInt(|code| - 1, MaxDigitCount)
    ensures Significant(code)[i] == UpperChar(if i < SeparatorPosition then code[i] else code[i + 1])
  {
    UnpaddedStrip(code);
  }

  /** Encoding digits that agree with the significant digits of a code
      with its separator at 8 from index p on, at that code's length,
      gives the code's characters from p on, when those are upper-case. */
  lemma FormatTail(padded: string, e: seq<nat>, p: nat)
    requires UnpaddedAt(padded, SeparatorPosition) && p <= SeparatorPosition
    requires Uppercase(padded[p..])
    requires InAlphabet(Significant(padded)) && DecodableLength(|Significant(padded)|)
    requires |e| == MaxDigitCount && DigitsBelow(e, EncodingBase)
    requires forall i :: p <= i < |Significant(padded)| ==> e[i] == Values(Significant(padded))[i]
    ensures SeparatorPosition <= |Significant(padded)| < |padded|
    ensures FormatCode(Chars(e), |Significant(padded)|)[p..] == padded[p..|Significant(padded)| + 1]
  {
    var n := |Significant(padded)|;
    assert SeparatorPosition <= n < |padded| by {
      UnpaddedStrip(padded);
    }
    var code := FormatCode(Chars(e), n);
    forall j | p <= j <= n
      ensures code[j] == padded[j]
    {
      assert UpperChar(padded[p..][j - p]) == padded[p..][j - p];
      FormatTailAt(padded, e, p, j);
    }
  }

  /** One character of FormatTail. */
  lemma FormatTailAt(padded: string, e: seq<nat>, p: nat, j: nat)
    requires UnpaddedAt(padded, SeparatorPosition) && p <= SeparatorPosition && p <= j < |padded|
    requires UpperChar(padded[j]) == padded[j]
    requires InAlphabet(Significant(padded)) && SeparatorPosition <= |Significant(padded)| && j <= |Significant(padded)|
    requires |e| == MaxDigitCount && DigitsBelow(e, EncodingBase)
    requires forall i :: p <= i < |Significant(padded)| ==> e[i] == Values(Significant(padded))[i]
    ensures FormatCode(Chars(e), |Significant(padded)|)[j] == padded[j]
  {
    var sig := Significant(padded);
    var n := |sig|;
    FormatChar(Chars(e), n, j);
    if j < SeparatorPosition {
      DigitMatches(padded, e, p, j);
    } else if j > SeparatorPosition {
      DigitMatches(padded, e, p, j - 1);
    }
  }

  /** The character of digit k, from p on, is the significant character
      k of the code. */
  lemma DigitMatches(padded: string, e: seq<nat>, p: nat, k: nat)
    requires UnpaddedAt(padded, SeparatorPosition) && p <= k < |Significant(padded)| && k + 1 < |padded|
    requires InAlphabet(Significant(padded))
    requires |e| == MaxDigitCount && DigitsBelow(e, EncodingBase)
    requires forall i :: p <= i < |Significant(padded)| ==> e[i] == Values(Significant(padded))[i]
    ensures Chars(e)[k] == UpperChar(if k < SeparatorPosition then padded[k] else padded[k + 1])
  {
    var sig := Significant(padded);
    SignificantAt(padded, k);
    assert e[k] == Values(sig)[k];
  }

  /** Character j of a formatted code of at least eight digits. */
  lemma FormatChar(digits: string, n: nat, j: nat)
    requires SeparatorPosition <= n <= |digits| && n <= MaxDigitCount && j <= n
    ensures FormatCode(digits, n)[j] ==
      if j < SeparatorPosition then digits[j] else if j == SeparatorPosition then Separator else digits[j - 1]
  {
    if j > SeparatorPosition {
      assert FormatCode(digits, n)[(j - 1) + 1] == digits[j - 1];
    }
  }

  // ---------------------------------------------------------------------
  // The recovered code matches the short code.

  /** A result that completes a short code: a full code of the short
      code's digits plus p padding digits, at most fifteen, whose
      characters from p on are the short code's. */
  predicate Completes(r: Result<string>, short: string, p: nat)
  {
    r.Success? && IsFull(r.value) &&
    |r.value| == MinInt(p + |short| - 1, MaxDigitCount) + 1 &&
    p <= |r.value| && |r.value| - p <= |short| &&
    r.value[p..] == short[..|r.value| - p]
  }

  /** What recoverNearest knows of the code it pads a short code to: a
      full code with its separator at 8, decoding to the area of its
      digits, whose first p digits come from the reference and whose
      characters from p on are the short code. */
  predicate PaddedCode(padded: string, upper: string, p: nat)
  {
    UnpaddedAt(padded, SeparatorPosition) && IsFull(padded) &&
    InAlphabet(Significant(padded)) && DecodableLength(|Significant(padded)|) &&
    !InvalidCodeLength(|Significant(padded)|) &&
    |Significant(padded)| == MinInt(p + |upper| - 1, MaxDigitCount) &&
    DecodedArea(padded) == Success(AreaOf(Values(Significant(padded)))) &&
    Padded(Values(Significant(padded)), p) &&
    p <= |padded| && padded[p..] == upper
  }

  lemma PaddedCodeFacts(upper: string, latitude: real, longitude: real)
    requires IsShort(upper)
    requires -(LatitudeMax as real) <= latitude <= LatitudeMax as real
    requires -(LongitudeMax as real) <= longitude < LongitudeMax as real
    ensures PaddedCode(PaddedShort(upper, latitude, longitude), upper, SeparatorPosition - IndexOf(upper, Separator))
  {
    var p := SeparatorPosition - IndexOf(upper, Separator);
    ShortShape(upper);
    PaddedReferenceDigits(upper, latitude, longitude);
    PaddedPrefixDigits(upper, latitude, longitude);
    PaddedShortIsFull(upper, latitude, longitude);
    ReferenceLength(latitude, longitude);
    var prefix := Encode(latitude, longitude, PairCodeLength).value[..p];
    assert PaddedShort(upper, latitude, longitude) == prefix + upper;
    assert (prefix + upper)[p..] == upper;
  }

  /** Encoding the middle of the moved area gives a full code whose
      digits from p on are those of ds. */
  lemma MovedEncoding(ds: seq<nat>, p: nat, latitude: real, longitude: real) returns (e: seq<nat>)
    requires Padded(ds, p) && !InvalidCodeLength(|ds|)
    ensures |e| == MaxDigitCount && DigitsBelow(e, EncodingBase)
    ensures forall i :: p <= i < |ds| ==> e[i] == ds[i]
    ensures Encode(Moved(ds, p, latitude, longitude).LatitudeCenter(), MidLongitude(Moved(ds, p, latitude, longitude)), |ds|) ==
      Success(FormatCode(Chars(e), |ds|))
    ensures IsFull(FormatCode(Chars(e), |ds|))
  {
    AdjustedDigits(ds, p, latitude, longitude);
    var moved := Moved(ds, p, latitude, longitude);
    var v, w := LatitudeToInteger(moved.LatitudeCenter()), LongitudeToInteger(MidLongitude(moved));
    e := CodeDigits(v, w);
    EncodedIsFull(v, w, |ds|);
    SlicesAgree(e, ds, p, |ds|);
  }

  /** Equal slices agree element by element. */
  lemma SlicesAgree(e: seq<nat>, ds: seq<nat>, p: nat, n: nat)
    requires p <= n <= |e| && n <= |ds| && e[p..n] == ds[p..n]
    ensures forall i :: p <= i < n ==> e[i] == ds[i]
  {
    forall i | p <= i < n
      ensures e[i] == ds[i]
    {
      assert e[p..n][i - p] == ds[p..n][i - p];
    }
  }

  /** The characters of a code from p on, when they are the padded
      code's, are the short code's. */
  lemma TailCompletes(code: string, padded: string, upper: string, p: nat, m: nat)
    requires p <= m <= |padded| && p <= |code|
    requires code[p..] == padded[p..m] && padded[p..] == upper
    ensures |code| - p == m - p <= |upper| && code[p..] == upper[..m - p]
  {
    assert padded[p..m] == padded[p..][..m - p];
  }

  /** The corrected short-code branch encodes the middle of the moved
      area of the padded code's digits. */
  lemma CorrectedEncodesMoved(upper: string, latitude: real, longitude: real, padded: string, p: nat)
    requires IsShort(upper) && p == SeparatorPosition - IndexOf(upper, Separator)
    requires padded == PaddedShort(upper, latitude, longitude) && PaddedCode(padded, upper, p)
    ensures NearestFromShortCorrected(upper, latitude, longitude) ==
      Encode(Moved(Values(Significant(padded)), p, latitude, longitude).LatitudeCenter(),
             MidLongitude(Moved(Values(Significant(padded)), p, latitude, longitude)),
             |Significant(padded)|)
  {
    AdjustedDigits(Values(Significant(padded)), p, latitude, longitude);
  }

  /** The corrected short-code branch completes an upper-case short code
      for a reference in the domain. */
  lemma CorrectedFromShort(upper: string, latitude: real, longitude: real)
    requires IsShort(upper) && Uppercase(upper)
    requires -(LatitudeMax as real) <= latitude <= LatitudeMax as real
    requires -(LongitudeMax as real) <= longitude < LongitudeMax as real
    ensures Completes(NearestFromShortCorrected(upper, latitude, longitude), upper,
                      SeparatorPosition - IndexOf(upper, Separator))
  {
    var p := SeparatorPosition - IndexOf(upper, Separator);
    var padded := PaddedShort(upper, latitude, longitude);
    PaddedCodeFacts(upper, latitude, longitude);
    CorrectedEncodesMoved(upper, latitude, longitude, padded, p);
    var n := |Significant(padded)|;
    var e := MovedEncoding(Values(Significant(padded)), p, latitude, longitude);
    FormatTail(padded, e, p);
    TailCompletes(FormatCode(Chars(e), n), padded, upper, p, n + 1);
  }

  /** recoverNearest with the corrected short-code branch completes every
      short code: the result is a full code of the padded length whose
      characters from the padding length on are the upper-cased short
      code's. */
  lemma CorrectedMatches(code: string, referenceLatitude: real, referenceLongitude: real)
    requires IsShort(code)
    ensures Completes(NearestFullCorrected(code, referenceLatitude, referenceLongitude), ToUpper(code),
                      SeparatorPosition - IndexOf(code, Separator))
  {
    ShortUpper(code);
    ShortFullUpper(code);
    UpperIsUppercase(code);
    CorrectedFromShort(ToUpper(code), ClipLatitude(referenceLatitude), NormalLongitude(referenceLongitude));
  }

  /** Upper-casing gives an upper-case string. */
  lemma UpperIsUppercase(code: string)
    ensures Uppercase(ToUpper(code))
  {
    forall j | 0 <= j < |code|
      ensures UpperChar(ToUpper(code)[j]) == ToUpper(code)[j]
    {
      UpperCharKeeps(code[j]);
    }
  }

  /** A longitude adjustment of an area whose middle is not east of 180,
      for a reference at least half a resolution west of 180, leaves a
      middle that is not east of 180 either, so the capped center is the
      middle. */
  lemma ShiftedCenterUncapped(area: CodeArea, longitude: real, r: real)
    requires r > 0.0 && MidLongitude(area) <= LongitudeMax as real
    requires longitude + r / 2.0 <= LongitudeMax as real
    ensures LongitudeShifted(area, longitude, r).LongitudeCenter() == MidLongitude(LongitudeShifted(area, longitude, r))
  {
  }

  /** Both adjustments of an area inside the domain leave its capped
      longitude center at its middle, for a reference at least half a
      resolution west of 180. */
  lemma AdjustedUncapped(area: CodeArea, latitude: real, longitude: real, r: real)
    requires r > 0.0 && area.longitudeLo <= area.longitudeHi <= LongitudeMax as real
    requires longitude + r / 2.0 <= LongitudeMax as real
    ensures Adjusted(area, latitude, longitude, r).LongitudeCenter() == MidLongitude(Adjusted(area, latitude, longitude, r))
  {
    ShiftedCenterUncapped(LatitudeShifted(area, latitude, r), longitude, r);
  }

  /** The short-code branch as written agrees with the corrected one when
      no east move can take the middle past 180. */
  lemma AsWrittenFromShort(upper: string, latitude: real, longitude: real)
    requires IsShort(upper)
    requires -(LatitudeMax as real) <= latitude <= LatitudeMax as real
    requires -(LongitudeMax as real) <= longitude < LongitudeMax as real
    requires longitude + PaddingResolution(SeparatorPosition - IndexOf(upper, Separator)) / 2.0 <= LongitudeMax as real
    ensures NearestFromShort(upper, latitude, longitude) == NearestFromShortCorrected(upper, latitude, longitude)
  {
    var padded := PaddedShort(upper, latitude, longitude);
    PaddedCodeFacts(upper, latitude, longitude);
    var ds := Values(Significant(padded));
    AreaInDomain(ds);
    AdjustedUncapped(AreaOf(ds), latitude, longitude, PaddingResolution(SeparatorPosition - IndexOf(upper, Separator)));
  }

  /** recoverNearest as written completes a short code whenever the
      normalized reference is at least half a padding resolution west of
      180; there it agrees with the corrected version. */
  lemma RecoverMatches(code: string, referenceLatitude: real, referenceLongitude: real)
    requires IsShort(code)
    requires NormalLongitude(referenceLongitude) +
      PaddingResolution(SeparatorPosition - IndexOf(code, Separator)) / 2.0 <= LongitudeMax as real
    ensures NearestFull(code, referenceLatitude, referenceLongitude) ==
      NearestFullCorrected(code, referenceLatitude, referenceLongitude)
    ensures Completes(NearestFull(code, referenceLatitude, referenceLongitude), ToUpper(code),
                      SeparatorPosition - IndexOf(code, Separator))
  {
    ShortUpper(code);
    ShortFullUpper(code);
    AsWrittenFromShort(ToUpper(code), ClipLatitude(referenceLatitude), NormalLongitude(referenceLongitude));
    CorrectedMatches(code, referenceLatitude, referenceLongitude);
  }
}
