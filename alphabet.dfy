/** The errors the codec reports. The PHP class throws
    InvalidArgumentException; the four situations it throws in are kept
    apart here. */
module Results {

  datatype OlcError =
    | InvalidCode    // not a valid (full / short) code where one is required
    | InvalidLength  // encode asked for a length below 2, or odd below 10
    | PaddedCode     // shorten given a code with padding
    | TooShort       // shorten given a code with fewer than 6 digits

  datatype Result<T> = Success(value: T) | Failure(error: OlcError)
}

/** The constants of the codec and the few PHP string primitives the
    codec is written with (strpos, strrpos, substr_count, strtoupper,
    str_replace). Strings are sequences of characters, one per byte. */
module Alphabet {

  const Separator: char := '+'
  const SeparatorPosition: nat := 8
  const PaddingCharacter: char := '0'
  const CodeAlphabet: string := "23456789CFGHJMPQRVWX"
  const EncodingBase: nat := 20
  const LatitudeMax: nat := 90
  const LongitudeMax: nat := 180
  const MinDigitCount: nat := 2
  const MaxDigitCount: nat := 15
  const PairCodeLength: nat := 10
  const PairFirstPlaceValue: nat := 160000
  const PairPrecision: nat := 8000
  const GridCodeLength: nat := 5
  const GridColumns: nat := 4
  const GridRows: nat := 5
  const GridLatFirstPlaceValue: nat := 625
  const GridLngFirstPlaceValue: nat := 256
  const FinalLatPrecision: nat := 25000000
  const FinalLngPrecision: nat := 8192000
  const MinTrimmableCodeLen: nat := 6

  /** The lattice sizes: a latitude or longitude in degrees becomes an
      integer in [0, LatLatticeSize) or [0, LngLatticeSize). */
  const LatLatticeSize: nat := 2 * LatitudeMax * FinalLatPrecision
  const LngLatticeSize: nat := 2 * LongitudeMax * FinalLngPrecision

  /** strpos with a one-character needle: the first index of c, or -1
      where PHP returns false. */
  function IndexOf(s: string, c: char): (r: int)
    ensures -1 <= r < |s|
    ensures r == -1 ==> forall j :: 0 <= j < |s| ==> s[j] != c
    ensures r != -1 ==> s[r] == c && forall j :: 0 <= j < r ==> s[j] != c
  {
    if s == [] then -1
    else if s[0] == c then 0
    else
      var k := IndexOf(s[1..], c);
      if k == -1 then -1 else k + 1
  }

  /** strrpos with a one-character needle: the last index of c, or -1. */
  function LastIndexOf(s: string, c: char): (r: int)
    ensures -1 <= r < |s|
    ensures r == -1 ==> forall j :: 0 <= j < |s| ==> s[j] != c
    ensures r != -1 ==> s[r] == c && forall j :: r < j < |s| ==> s[j] != c
  {
    if s == [] then -1
    else if s[|s| - 1] == c then |s| - 1
    else LastIndexOf(s[..|s| - 1], c)
  }

  /** substr_count with a one-character needle. */
  function Occurrences(s: string, c: char): (n: nat)
    ensures n <= |s|
  {
    if s == [] then 0
    else (if s[0] == c then 1 else 0) + Occurrences(s[1..], c)
  }

  lemma {:induction false} OccurrencesNone(s: string, c: char)
    ensures Occurrences(s, c) == 0 <==> c !in s
  {
    if s != [] {
      OccurrencesNone(s[1..], c);
      assert s == [s[0]] + s[1..];
    }
  }

  /** The count equals the length exactly when every character is c. */
  lemma {:induction false} OccurrencesAll(s: string, c: char)
    ensures Occurrences(s, c) == |s| <==> forall i :: 0 <= i < |s| ==> s[i] == c
  {
    if s != [] {
      OccurrencesAll(s[1..], c);
      assert forall i :: 1 <= i < |s| ==> s[1..][i - 1] == s[i];
    }
  }

  lemma {:induction false} OccurrencesConcat(a: string, b: string, c: char)
    ensures Occurrences(a + b, c) == Occurrences(a, c) + Occurrences(b, c)
  {
    if a != [] {
      assert (a + b)[1..] == a[1..] + b;
      OccurrencesConcat(a[1..], b, c);
    } else {
      assert a + b == b;
    }
  }

  /** A character found at p occurs at most once exactly when it occurs
      nowhere else. */
  lemma {:induction false} OccurrencesOnce(s: string, c: char, p: int)
    requires 0 <= p < |s| && s[p] == c
    ensures Occurrences(s, c) <= 1 <==> forall i :: 0 <= i < |s| && i != p ==> s[i] != c
  {
    if p > 0 {
      OccurrencesOnce(s[1..], c, p - 1);
      OccurrencesNone(s[1..], c);
      assert s[1..][p - 1] == c;
      assert forall i :: 1 <= i < |s| ==> s[1..][i - 1] == s[i];
    } else {
      OccurrencesNone(s[1..], c);
      assert forall i :: 1 <= i < |s| ==> s[1..][i - 1] == s[i];
    }
  }

  /** strtoupper on one byte: ASCII letters only (PHP 8 is locale-free). */
  function UpperChar(ch: char): (u: char)
  {
    if 'a' <= ch <= 'z' then (ch as int - 32) as char else ch
  }

  function ToUpper(s: string): (u: string)
    ensures |u| == |s|
    ensures forall i :: 0 <= i < |s| ==> u[i] == UpperChar(s[i])
  {
    seq(|s|, i requires 0 <= i < |s| => UpperChar(s[i]))
  }

  /** A code digit: a character of the alphabet, in either case. */
  predicate IsCodeDigit(ch: char)
  {
    UpperChar(ch) in CodeAlphabet
  }

  lemma CodeDigitNotSeparatorOrPadding(ch: char)
    ensures IsCodeDigit(ch) ==> ch != Separator && ch != PaddingCharacter
  {
  }

  /** The value of an upper-case digit: its index in the alphabet. */
  function DigitValue(ch: char): (v: int)
    ensures ch in CodeAlphabet ==> 0 <= v < EncodingBase && CodeAlphabet[v] == ch
  {
    IndexOf(CodeAlphabet, ch)
  }

  /** The alphabet has no repeated character, so a digit's value is its
      position. */
  lemma DigitValueOf(d: int)
    requires 0 <= d < EncodingBase
    ensures DigitValue(CodeAlphabet[d]) == d
  {
    var v := DigitValue(CodeAlphabet[d]);
    if v < d {
      AlphabetIncreasing(v, d);
    }
  }

  /** The alphabet is listed in increasing character order. */
  lemma {:induction false} AlphabetIncreasing(i: int, j: int)
    requires 0 <= i < j < |CodeAlphabet|
    ensures CodeAlphabet[i] < CodeAlphabet[j]
    decreases j - i
  {
    assert forall k :: 0 <= k < |CodeAlphabet| - 1 ==> CodeAlphabet[k] < CodeAlphabet[k + 1];
    if j > i + 1 {
      AlphabetIncreasing(i + 1, j);
    }
  }

  /** str_replace([SEPARATOR, PADDING_CHARACTER], '', s). */
  function Strip(s: string): (r: string)
    ensures |r| <= |s|
    ensures forall i :: 0 <= i < |r| ==> r[i] != Separator && r[i] != PaddingCharacter
  {
    if s == [] then []
    else if s[0] == Separator || s[0] == PaddingCharacter then Strip(s[1..])
    else [s[0]] + Strip(s[1..])
  }

  lemma {:induction false} StripConcat(a: string, b: string)
    ensures Strip(a + b) == Strip(a) + Strip(b)
  {
    if a != [] {
      assert (a + b)[1..] == a[1..] + b;
      StripConcat(a[1..], b);
    } else {
      assert a + b == b;
    }
  }

  lemma {:induction false} StripKeeps(s: string)
    requires forall i :: 0 <= i < |s| ==> s[i] != Separator && s[i] != PaddingCharacter
    ensures Strip(s) == s
  {
    if s != [] {
      StripKeeps(s[1..]);
    }
  }

  lemma {:induction false} StripDrops(s: string)
    requires forall i :: 0 <= i < |s| ==> s[i] == Separator || s[i] == PaddingCharacter
    ensures Strip(s) == []
  {
    if s != [] {
      StripDrops(s[1..]);
    }
  }

  /** The characters of the digits ds (each below 20). */
  function Chars(ds: seq<nat>): (s: string)
    requires forall i :: 0 <= i < |ds| ==> ds[i] < EncodingBase
    ensures |s| == |ds|
    ensures forall i :: 0 <= i < |ds| ==> s[i] == CodeAlphabet[ds[i]]
  {
    seq(|ds|, i requires 0 <= i < |ds| => CodeAlphabet[ds[i]])
  }

  /** n copies of the padding character (str_repeat). */
  function Zeros(n: nat): (s: string)
    ensures |s| == n && forall i :: 0 <= i < n ==> s[i] == PaddingCharacter
  {
    seq(n, i => PaddingCharacter)
  }
}
