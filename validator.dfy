/** The three predicates that classify a string: isValid, isShort and
    isFull of src/OpenLocationCode.php. `ValidCode` states isValid as
    the PHP code decides it, `IsValid` is the method with the character
    loop, and `WellFormed` is an independent description of the same set
    of strings by their shape. */
module Validator {
  import opened Alphabet

  /** What the character loop accepts: a code digit in either case, the
      separator or the padding character. */
  predicate IsLegalChar(ch: char)
  {
    IsCodeDigit(ch) || ch == Separator || ch == PaddingCharacter
  }

  /** The padding rules, applied when the code contains a '0': only full
      codes may be padded, not from index 0, the run from the first to the
      last '0' holds nothing but '0' and has even length, and the code then
      ends with the separator. */
  predicate PaddingAccepted(code: string, sepPos: int)
  {
    var padPos := IndexOf(code, PaddingCharacter);
    padPos == -1 ||
    (sepPos >= SeparatorPosition && padPos != 0 &&
     (var rpadPos := LastIndexOf(code, PaddingCharacter);
      var pads := code[padPos..rpadPos + 1];
      |pads| % 2 == 0 && Occurrences(pads, PaddingCharacter) == |pads|) &&
     code[|code| - 1] == Separator)
  }

  predicate AllLegal(code: string)
  {
    forall i :: 0 <= i < |code| ==> IsLegalChar(code[i])
  }

  lemma AllLegalExtend(code: string, i: int)
    requires 0 <= i < |code| && AllLegal(code[..i]) && IsLegalChar(code[i])
    ensures AllLegal(code[..i + 1])
  {
    assert forall j :: 0 <= j < i ==> code[..i + 1][j] == code[..i][j];
  }

  /** isValid, with the checks the PHP function makes, in its order: at
      most one separator, not the separator alone, the separator present at
      an even index up to 8, the padding rules, never exactly one character
      after the separator, and only legal characters. */
  predicate ValidCode(code: string)
  {
    var sepPos := IndexOf(code, Separator);
    Occurrences(code, Separator) <= 1 &&
    |code| != 1 &&
    sepPos != -1 && sepPos <= SeparatorPosition && sepPos % 2 == 0 &&
    PaddingAccepted(code, sepPos) &&
    |code| - sepPos - 1 != 1 &&
    AllLegal(code)
  }

  /** isValid as the PHP code runs it: the checks, then a loop over the
      characters. */
  method IsValid(code: string) returns (ok: bool)
    ensures ok == ValidCode(code)
  {
    var sepPos := IndexOf(code, Separator);
    if Occurrences(code, Separator) > 1 {
      return false;
    }
    if |code| == 1 {
      return false;
    }
    if sepPos == -1 || sepPos > SeparatorPosition || sepPos % 2 == 1 {
      return false;
    }
    var padPos := IndexOf(code, PaddingCharacter);
    if padPos != -1 {
      if sepPos < SeparatorPosition {
        return false;
      }
      if padPos == 0 {
        return false;
      }
      var rpadPos := LastIndexOf(code, PaddingCharacter);
      var pads := code[padPos..rpadPos + 1];
      if |pads| % 2 == 1 || Occurrences(pads, PaddingCharacter) != |pads| {
        return false;
      }
      if code[|code| - 1] != Separator {
        return false;
      }
    }
    assert PaddingAccepted(code, sepPos);
    if |code| - sepPos - 1 == 1 {
      return false;
    }
    var i := 0;
    while i < |code|
      invariant 0 <= i <= |code|
      invariant AllLegal(code[..i])
    {
      if !IsLegalChar(code[i]) {
        assert !AllLegal(code);
        return false;
      }
      AllLegalExtend(code, i);
      i := i + 1;
    }
    assert code[..i] == code;
    return true;
  }

  /** isShort: a valid code with fewer than eight characters before the
      separator. */
  predicate IsShort(code: string)
    ensures IsShort(code) ==> ValidCode(code) && IndexOf(code, PaddingCharacter) == -1
    ensures IsShort(code) ==> IndexOf(code, Separator) in {0, 2, 4, 6}
  {
    ValidCode(code) &&
    var sepPos := IndexOf(code, Separator);
    sepPos != -1 && sepPos < SeparatorPosition
  }

  /** strpos(CODE_ALPHABET, strtoupper($ch)) used as a number: PHP turns
      `false` into 0. */
  function LeadingValue(ch: char): (v: nat)
    ensures IsCodeDigit(ch) ==> v == DigitValue(UpperChar(ch))
  {
    var k := IndexOf(CodeAlphabet, UpperChar(ch));
    if k == -1 then 0 else k
  }

  /** isFull: a valid code that is not short and whose first latitude and
      longitude digits stay below 90 and 180 degrees. */
  predicate IsFull(code: string)
    ensures IsFull(code) ==> ValidCode(code) && !IsShort(code)
    ensures IsFull(code) ==> IndexOf(code, Separator) == SeparatorPosition
  {
    ValidCode(code) && !IsShort(code) &&
    LeadingValue(code[0]) * EncodingBase < LatitudeMax * 2 &&
    (|code| > 1 ==> LeadingValue(code[1]) * EncodingBase < LongitudeMax * 2)
  }

  // ---------------------------------------------------------------------
  // The same set of strings described by shape.

  /** An unpadded code: the separator at an even index p <= 8, code digits
      everywhere else, at least one digit, never exactly one digit after
      the separator. */
  predicate UnpaddedAt(code: string, p: int)
  {
    0 <= p <= SeparatorPosition && p % 2 == 0 && p < |code| && code[p] == Separator &&
    |code| >= 2 && |code| - p - 1 != 1 &&
    forall i :: 0 <= i < |code| && i != p ==> IsCodeDigit(code[i])
  }

  /** A padded code: nine characters ending in the separator; before it a
      run of n '0' (n even, at least 2) starting at index a >= 1, code
      digits in every other place. */
  predicate PaddedAt(code: string, a: int, n: int)
  {
    |code| == SeparatorPosition + 1 && code[SeparatorPosition] == Separator &&
    1 <= a && 2 <= n && n % 2 == 0 && a + n <= SeparatorPosition &&
    forall i :: 0 <= i < SeparatorPosition ==>
      if a <= i < a + n then code[i] == PaddingCharacter else IsCodeDigit(code[i])
  }

  ghost predicate WellFormed(code: string)
  {
    (exists p :: UnpaddedAt(code, p)) || (exists a, n :: PaddedAt(code, a, n))
  }

  lemma DigitsAreNotMarks(code: string)
    ensures forall i :: 0 <= i < |code| && IsCodeDigit(code[i]) ==>
      code[i] != Separator && code[i] != PaddingCharacter
  {
    forall i | 0 <= i < |code| && IsCodeDigit(code[i])
      ensures code[i] != Separator && code[i] != PaddingCharacter
    {
      CodeDigitNotSeparatorOrPadding(code[i]);
    }
  }

  lemma ValidIsWellFormed(code: string)
    requires ValidCode(code)
    ensures WellFormed(code)
  {
    var p := IndexOf(code, Separator);
    OccurrencesOnce(code, Separator, p);
    var padPos := IndexOf(code, PaddingCharacter);
    if padPos == -1 {
      assert UnpaddedAt(code, p);
    } else {
      var r := LastIndexOf(code, PaddingCharacter);
      var pads := code[padPos..r + 1];
      OccurrencesAll(pads, PaddingCharacter);
      PadRun(code, padPos, r, pads);
      PaddedShape(code, padPos, r);
    }
  }

  lemma PadRun(code: string, a: int, b: int, pads: string)
    requires 0 <= a <= b < |code| && pads == code[a..b + 1]
    requires forall k :: 0 <= k < |pads| ==> pads[k] == PaddingCharacter
    ensures forall i :: a <= i <= b ==> code[i] == PaddingCharacter
  {
    forall i | a <= i <= b
      ensures code[i] == PaddingCharacter
    {
      assert pads[i - a] == code[i];
    }
  }

  /** A legal code with the separator only at index 8 and last, whose '0's
      run without a gap from a >= 1 to b over an even length, is padded. */
  lemma PaddedShape(code: string, a: int, b: int)
    requires AllLegal(code) && |code| > SeparatorPosition
    requires code[SeparatorPosition] == Separator && code[|code| - 1] == Separator
    requires forall i :: 0 <= i < |code| && i != SeparatorPosition ==> code[i] != Separator
    requires 1 <= a <= b < |code| && (b - a + 1) % 2 == 0
    requires forall i :: a <= i <= b ==> code[i] == PaddingCharacter
    requires forall i :: 0 <= i < a ==> code[i] != PaddingCharacter
    requires forall i :: b < i < |code| ==> code[i] != PaddingCharacter
    ensures PaddedAt(code, a, b - a + 1)
  {
    assert |code| == SeparatorPosition + 1;
    assert b < SeparatorPosition;
    forall i | 0 <= i < SeparatorPosition
      ensures if a <= i < b + 1 then code[i] == PaddingCharacter else IsCodeDigit(code[i])
    {
      if !(a <= i < b + 1) {
        assert code[i] != PaddingCharacter && code[i] != Separator;
        assert IsLegalChar(code[i]);
      }
    }
  }

  lemma WellFormedIsValid(code: string)
    requires WellFormed(code)
    ensures ValidCode(code)
  {
    DigitsAreNotMarks(code);
    if p :| UnpaddedAt(code, p) {
      OccurrencesOnce(code, Separator, p);
      assert IndexOf(code, Separator) == p;
      assert IndexOf(code, PaddingCharacter) == -1;
    } else {
      var a, n :| PaddedAt(code, a, n);
      PaddedIsValid(code, a, n);
    }
  }

  lemma PaddedIsValid(code: string, a: int, n: int)
    requires PaddedAt(code, a, n)
    ensures ValidCode(code)
  {
    DigitsAreNotMarks(code);
    OccurrencesOnce(code, Separator, SeparatorPosition);
    assert IndexOf(code, Separator) == SeparatorPosition;
    assert code[a] == PaddingCharacter;
    assert IndexOf(code, PaddingCharacter) == a;
    assert code[a + n - 1] == PaddingCharacter;
    assert LastIndexOf(code, PaddingCharacter) == a + n - 1;
    var pads := code[a..a + n];
    assert forall k :: 0 <= k < |pads| ==> pads[k] == code[a + k];
    OccurrencesAll(pads, PaddingCharacter);
    assert PaddingAccepted(code, SeparatorPosition);
  }

  /** isValid accepts exactly the well-formed codes. */
  lemma ValidIffWellFormed(code: string)
    ensures ValidCode(code) <==> WellFormed(code)
  {
    if ValidCode(code) {
      ValidIsWellFormed(code);
    }
    if WellFormed(code) {
      WellFormedIsValid(code);
    }
  }

  // ---------------------------------------------------------------------
  // Upper-casing a code changes none of the three predicates.

  /** strtoupper touches neither the separator nor the padding character,
      and upper-casing twice is upper-casing once. */
  lemma UpperCharKeeps(ch: char)
    ensures UpperChar(UpperChar(ch)) == UpperChar(ch)
    ensures UpperChar(ch) == Separator <==> ch == Separator
    ensures UpperChar(ch) == PaddingCharacter <==> ch == PaddingCharacter
    ensures IsCodeDigit(UpperChar(ch)) == IsCodeDigit(ch)
    ensures LeadingValue(UpperChar(ch)) == LeadingValue(ch)
  {
  }

  lemma UpperUnpadded(code: string, p: int)
    ensures UnpaddedAt(ToUpper(code), p) <==> UnpaddedAt(code, p)
  {
    forall i | 0 <= i < |code|
      ensures UpperChar(code[i]) == Separator <==> code[i] == Separator
      ensures IsCodeDigit(UpperChar(code[i])) == IsCodeDigit(code[i])
    {
      UpperCharKeeps(code[i]);
    }
  }

  lemma UpperPadded(code: string, a: int, n: int)
    ensures PaddedAt(ToUpper(code), a, n) <==> PaddedAt(code, a, n)
  {
    forall i | 0 <= i < |code|
      ensures UpperChar(code[i]) == Separator <==> code[i] == Separator
      ensures UpperChar(code[i]) == PaddingCharacter <==> code[i] == PaddingCharacter
      ensures IsCodeDigit(UpperChar(code[i])) == IsCodeDigit(code[i])
    {
      UpperCharKeeps(code[i]);
    }
  }

  /** isValid does not depend on the case of the letters. */
  lemma ValidUpper(code: string)
    ensures ValidCode(ToUpper(code)) == ValidCode(code)
  {
    var upper := ToUpper(code);
    ValidIffWellFormed(code);
    ValidIffWellFormed(upper);
    if p :| UnpaddedAt(code, p) {
      UpperUnpadded(code, p);
    } else if a, n :| PaddedAt(code, a, n) {
      UpperPadded(code, a, n);
    } else if p :| UnpaddedAt(upper, p) {
      UpperUnpadded(code, p);
    } else if a, n :| PaddedAt(upper, a, n) {
      UpperPadded(code, a, n);
    }
  }

  /** Two strings with the character c in the same places find it at the
      same index. */
  lemma IndexOfSamePlaces(s: string, t: string, c: char)
    requires |s| == |t| && forall j :: 0 <= j < |s| ==> (s[j] == c <==> t[j] == c)
    ensures IndexOf(s, c) == IndexOf(t, c)
  {
  }

  lemma UpperSeparatorIndex(code: string)
    ensures IndexOf(ToUpper(code), Separator) == IndexOf(code, Separator)
  {
    forall j | 0 <= j < |code|
      ensures UpperChar(code[j]) == Separator <==> code[j] == Separator
    {
      UpperCharKeeps(code[j]);
    }
    IndexOfSamePlaces(ToUpper(code), code, Separator);
  }

  /** An unpadded code with its separator at 8 whose first two digits
      pass the range check is full. */
  lemma FullAtSeparator(code: string)
    requires UnpaddedAt(code, SeparatorPosition)
    requires LeadingValue(code[0]) * EncodingBase < LatitudeMax * 2
    requires LeadingValue(code[1]) * EncodingBase < LongitudeMax * 2
    ensures IsFull(code)
  {
    WellFormedIsValid(code);
    OccurrencesOnce(code, Separator, SeparatorPosition);
    assert IndexOf(code, Separator) == SeparatorPosition;
  }

  /** isShort and isFull do not depend on the case of the letters. */
  lemma ShortFullUpper(code: string)
    ensures IsShort(ToUpper(code)) == IsShort(code)
    ensures IsFull(ToUpper(code)) == IsFull(code)
  {
    ValidUpper(code);
    UpperSeparatorIndex(code);
    if |code| > 0 {
      UpperCharKeeps(code[0]);
    }
    if |code| > 1 {
      UpperCharKeeps(code[1]);
    }
  }
}
