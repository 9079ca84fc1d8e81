/** Positional numerals over a fixed base: the digits that repeated div/mod
    peels off a non-negative integer, and the place-value sum that turns
    digits back into a number. The encoder and decoder of Open Location
    Code are instances of these two operations (base 20 for the pairs,
    bases 5 and 4 for the grid refinement). */
module Numerals {

  function Pow(base: nat, exp: nat): (r: nat)
    ensures base > 0 ==> r > 0
  {
    if exp == 0 then 1 else base * Pow(base, exp - 1)
  }

  lemma {:induction false} PowAdd(base: nat, e1: nat, e2: nat)
    ensures Pow(base, e1 + e2) == Pow(base, e1) * Pow(base, e2)
  {
    if e1 > 0 {
      PowAdd(base, e1 - 1, e2);
      assert Pow(base, e1 + e2) == base * Pow(base, e1 - 1 + e2);
      MulAssoc(base, Pow(base, e1 - 1), Pow(base, e2));
    }
  }

  lemma MulAssoc(a: int, b: int, c: int)
    ensures a * (b * c) == (a * b) * c
  {
  }

  /** Division with remainder is unique: any decomposition of x with a
      remainder in [0, d) is the one `/` and `%` compute. */
  lemma DivModUnique(x: int, d: int, q: int, r: int)
    requires d > 0 && 0 <= r < d && x == d * q + r
    ensures x / d == q && x % d == r
  {
    var q0, r0 := x / d, x % d;
    assert d * q - d * q0 == r0 - r;
    if q > q0 {
      MulAtLeast(d, q - q0);
    } else if q < q0 {
      MulAtLeast(d, q0 - q);
    }
  }

  lemma MulAtLeast(d: int, k: int)
    requires d > 0 && k >= 1
    ensures d * k >= d
  {
    assert d * k == d * (k - 1) + d;
  }

  lemma MulMono(a: int, b: int, c: int)
    requires a >= 0 && b <= c
    ensures a * b <= a * c
  {
    assert a * c - a * b == a * (c - b);
  }

  /** Dividing by m and then by b is dividing by m * b; the remainder
      modulo m * b splits into the low part (modulo m) and the next digit. */
  lemma DivModNested(x: nat, m: nat, b: nat)
    requires m > 0 && b > 0
    ensures x / m / b == x / (m * b)
    ensures ((x / m) % b) * m + x % m == x % (m * b)
  {
    var q, r := x / m, x % m;
    var q2, r2 := q / b, q % b;
    assert x == m * q + r;
    assert q == b * q2 + r2;
    assert x == (m * b) * q2 + (m * r2 + r) by {
      calc {
        x;
        m * (b * q2 + r2) + r;
        { MulAssoc(m, b, q2); }
        (m * b) * q2 + (m * r2 + r);
      }
    }
    assert m * r2 <= m * (b - 1);
    DivModUnique(x, m * b, q2, m * r2 + r);
  }

  /** The `count` lowest base-`base` digits of x, most significant first:
      what repeated `% base`, `/ base` produces when each remainder is
      prepended to the digits found before it. */
  function Digits(x: nat, base: nat, count: nat): (ds: seq<nat>)
    requires base >= 2
    ensures |ds| == count
    ensures forall i :: 0 <= i < count ==> ds[i] < base
  {
    if count == 0 then [] else Digits(x / base, base, count - 1) + [x % base]
  }

  /** x with its n lowest digits dropped, one division at a time. */
  function DropDigits(x: nat, base: nat, n: nat): nat
    requires base >= 2
  {
    if n == 0 then x else DropDigits(x, base, n - 1) / base
  }

  /** Digit j of the count digits of x is the last digit of x with its
      count - 1 - j lowest digits dropped. */
  lemma {:induction false} DigitsAt(x: nat, base: nat, count: nat, j: nat)
    requires base >= 2 && j < count
    ensures Digits(x, base, count)[j] == DropDigits(x, base, count - 1 - j) % base
  {
    var rest := Digits(x / base, base, count - 1);
    assert Digits(x, base, count) == rest + [x % base];
    if j < count - 1 {
      calc {
        Digits(x, base, count)[j];
        rest[j];
        { DigitsAt(x / base, base, count - 1, j); }
        DropDigits(x / base, base, count - 2 - j) % base;
        { DropDigitsShift(x, base, count - 2 - j); }
        DropDigits(x, base, count - 1 - j) % base;
      }
    } else {
      assert DropDigits(x, base, count - 1 - j) == x;
    }
  }

  /** Dropping k digits of x / base is dropping k + 1 digits of x. */
  lemma {:induction false} DropDigitsShift(x: nat, base: nat, k: nat)
    requires base >= 2
    ensures DropDigits(x / base, base, k) == DropDigits(x, base, k + 1)
  {
    if k > 0 {
      DropDigitsShift(x, base, k - 1);
    }
  }

  /** Dropping n digits one at a time is dividing by base^n. */
  lemma {:induction false} DropDigitsIsDiv(x: nat, base: nat, n: nat)
    requires base >= 2
    ensures DropDigits(x, base, n) == x / Pow(base, n)
  {
    if n > 0 {
      DropDigitsIsDiv(x, base, n - 1);
      DivPowStep(x, base, n - 1);
    }
  }

  /** Dividing by base^i and then by base is dividing by base^(i+1). */
  lemma DivPowStep(x: nat, base: nat, i: nat)
    requires base >= 2
    ensures x / Pow(base, i) / base == x / Pow(base, i + 1)
  {
    DivModNested(x, Pow(base, i), base);
    assert Pow(base, i + 1) == Pow(base, i) * base;
  }

  /** The number a digit sequence denotes, most significant digit first. */
  function ValueOf(ds: seq<nat>, base: nat): nat
  {
    if ds == [] then 0 else ds[0] * Pow(base, |ds| - 1) + ValueOf(ds[1..], base)
  }

  predicate DigitsBelow(ds: seq<nat>, base: nat)
  {
    forall i :: 0 <= i < |ds| ==> ds[i] < base
  }

  /** Reading back the digits of x gives x modulo base^count. */
  lemma {:induction false} ValueOfDigits(x: nat, base: nat, count: nat)
    requires base >= 2
    ensures ValueOf(Digits(x, base, count), base) == x % Pow(base, count)
  {
    if count > 0 {
      ValueOfDigits(x / base, base, count - 1);
      ValueOfSnoc(Digits(x / base, base, count - 1), x % base, base);
      DivModNested(x, base, Pow(base, count - 1));
    }
  }

  /** The leading j of the count digits of x are the j digits of
      x / base^(count - j). */
  lemma {:induction false} DigitsPrefix(x: nat, base: nat, count: nat, j: nat)
    requires base >= 2 && j <= count
    ensures Digits(x, base, count)[..j] == Digits(x / Pow(base, count - j), base, j)
  {
    if j == count {
      assert Digits(x, base, count)[..j] == Digits(x, base, count);
    } else {
      DigitsPrefix(x / base, base, count - 1, j);
      DivModNested(x, base, Pow(base, count - 1 - j));
      assert Pow(base, count - j) == base * Pow(base, count - 1 - j);
      assert Digits(x, base, count)[..j] == Digits(x / base, base, count - 1)[..j];
    }
  }

  /** A digit string of length n denotes a number below base^n. */
  lemma {:induction false} ValueOfBound(ds: seq<nat>, base: nat)
    requires base >= 2 && DigitsBelow(ds, base)
    ensures ValueOf(ds, base) < Pow(base, |ds|)
  {
    if ds != [] {
      ValueOfBound(ds[1..], base);
      var m := Pow(base, |ds| - 1);
      MulMono(m, ds[0], base - 1);
      assert m * (base - 1) + m == base * m;
    }
  }

  /** The leading digit fixes the number to within one place value. */
  lemma ValueOfLeading(ds: seq<nat>, base: nat)
    requires base >= 2 && DigitsBelow(ds, base) && ds != []
    ensures ds[0] * Pow(base, |ds| - 1) <= ValueOf(ds, base) < (ds[0] + 1) * Pow(base, |ds| - 1)
  {
    ValueOfBound(ds[1..], base);
  }

  /** Appending a digit shifts the number one place and adds the digit. */
  lemma {:induction false} ValueOfSnoc(ds: seq<nat>, d: nat, base: nat)
    ensures ValueOf(ds + [d], base) == ValueOf(ds, base) * base + d
  {
    if ds != [] {
      assert (ds + [d])[1..] == ds[1..] + [d];
      ValueOfSnoc(ds[1..], d, base);
      var m := Pow(base, |ds| - 1);
      assert Pow(base, |ds|) == base * m;
      calc {
        ValueOf(ds + [d], base);
        ds[0] * (base * m) + ValueOf(ds[1..], base) * base + d;
        { MulAssoc(ds[0], base, m); }
        (ds[0] * m + ValueOf(ds[1..], base)) * base + d;
      }
    }
  }

  /** Concatenated digits: the first part moves up by the length of the
      second. */
  lemma {:induction false} ValueOfConcat(a: seq<nat>, b: seq<nat>, base: nat)
    ensures ValueOf(a + b, base) == ValueOf(a, base) * Pow(base, |b|) + ValueOf(b, base)
  {
    if a == [] {
      assert a + b == b;
    } else {
      assert (a + b)[1..] == a[1..] + b;
      ValueOfConcat(a[1..], b, base);
      PowAdd(base, |a| - 1, |b|);
      ConcatStep(a[0], Pow(base, |a| - 1), Pow(base, |b|), ValueOf(a[1..], base), ValueOf(b, base));
    }
  }

  lemma ConcatStep(d: nat, pa: nat, pb: nat, tail: nat, vb: nat)
    ensures d * (pa * pb) + (tail * pb + vb) == (d * pa + tail) * pb + vb
  {
    MulAssoc(d, pa, pb);
  }

  /** Digits placed so that the last one has place value base^(top - |e|)
      lie in the span that their first k digits fix, which is one place
      value base^(top - k) wide. */
  lemma {:induction false} PrefixPlaces(e: seq<nat>, k: nat, base: nat, top: nat)
    requires base >= 2 && DigitsBelow(e, base) && k <= |e| <= top
    ensures ValueOf(e[..k], base) * Pow(base, top - k) <= ValueOf(e, base) * Pow(base, top - |e|)
    ensures (ValueOf(e, base) + 1) * Pow(base, top - |e|) <= (ValueOf(e[..k], base) + 1) * Pow(base, top - k)
  {
    var head, rest := e[..k], e[k..];
    assert e == head + rest;
    ValueOfConcat(head, rest, base);
    assert DigitsBelow(rest, base);
    ValueOfBound(rest, base);
    PowAdd(base, |rest|, top - |e|);
    SpanBound(ValueOf(e, base), ValueOf(head, base), ValueOf(rest, base), Pow(base, |rest|), Pow(base, top - |e|));
  }

  /** v = vk * pm + r with r < pm: scaled by lo, v lies within one step
      of pm * lo above vk * (pm * lo). */
  lemma SpanBound(v: nat, vk: nat, r: nat, pm: nat, lo: nat)
    requires v == vk * pm + r && r < pm
    ensures vk * (pm * lo) <= v * lo
    ensures (v + 1) * lo <= (vk + 1) * (pm * lo)
  {
    assert v * lo == vk * pm * lo + r * lo;
    MulAssoc(vk, pm, lo);
    MulMono(lo, r + 1, pm);
  }

  /** Reading one more digit at a place value p: the digits read so far
      move up one place and the new digit counts p times. */
  lemma PlaceStep(ds: seq<nat>, k: nat, base: nat, e: nat)
    requires k < |ds|
    ensures ValueOf(ds[..k + 1], base) * Pow(base, e) ==
      ValueOf(ds[..k], base) * Pow(base, e + 1) + ds[k] * Pow(base, e)
  {
    assert ds[..k + 1] == ds[..k] + [ds[k]];
    ValueOfSnoc(ds[..k], ds[k], base);
    var v, p := ValueOf(ds[..k], base), Pow(base, e);
    calc {
      (v * base + ds[k]) * p;
      v * base * p + ds[k] * p;
      { MulAssoc(v, base, p); }
      v * (base * p) + ds[k] * p;
    }
  }

  /** Rounding down to a multiple of c keeps x within one step of c. */
  lemma RoundDown(x: nat, c: nat)
    requires c > 0
    ensures (x / c) * c <= x < (x / c) * c + c
  {
  }
}
