# Open Location Code (PHP library) in Dafny

This project models the codec of the PHP Open Location Code library ("Plus
Codes"): the validity predicates `isValid`, `isShort` and `isFull`, the
encoder (`encode`, `locationToIntegers`, `encodeIntegers`), the decoder
(`decode`), code shortening and recovery (`shorten`, `recoverNearest`,
`computeLatitudePrecision`), the normalisers `clipLatitude` and
`normalizeLongitude`, the constants, and the `CodeArea` value.

A location is first placed on an integer lattice. Latitude is counted in
steps of 1/25000000 degree from the south pole, in `[0, 4500000000)`.
Longitude is counted in steps of 1/8192000 degree from 180 degrees west, in
`[0, 2949120000)`. A code of up to fifteen digits writes one lattice point
in base 20:
- five latitude/longitude pairs,
- then up to five grid digits, each naming a row (of 5) and a column (of 4).

Decoding a code gives back the lattice cell of its digits, converted to
degrees.

Modules, one per part of the library:

| file | module | models |
|---|---|---|
| numerals.dfy | Numerals | powers, digit expansions and place values |
| alphabet.dfy | Results, Alphabet | the error tags and the constants; alphabet, separator and padding helpers |
| normalizer.dfy | Normalizer | `clipLatitude`, `normalizeLongitude`, `locationToIntegers` |
| codearea.dfy | CodeAreas | `CodeArea`, its capped center and `getLatLng` |
| validator.dfy | Validator | `isValid`, `isShort`, `isFull` |
| encoder.dfy | Encoder | `encodeIntegers`, `encode` |
| decoder.dfy | Decoder | `decode` |
| roundtrip.dfy | RoundTrip | encode/decode round trip |
| extent.dfy | Extent | where decoded areas lie; concrete codes |
| shortener.dfy | Shortener | `shorten` |
| recover.dfy | Recovery | `recoverNearest`, `computeLatitudePrecision` |
| nearest.dfy | Nearness | how close a recovered area is to the reference |
| matching.dfy | Matching | the code `recoverNearest` returns keeps the short code's characters |
| antimeridian.dfy | Antimeridian | a short code whose recovery crosses the antimeridian |

Where the library's code works step by step, the model has a `method` with
the same loops:
- the character loop of `isValid`;
- the pair and grid loops of `decode`;
- the digit loops of `encodeIntegers`;
- the wrapping loops of `normalizeLongitude`;
- the loop of `shorten`;
- the rebinding of the code area in `recoverNearest`.

Each method is proved equal to a function. The properties are proved about
those functions.

Degrees are exact reals. Thrown exceptions are `Failure` values of a
`Result`, with error tags `InvalidCode`, `InvalidLength`, `PaddedCode` and
`TooShort`.

Where the library's own description and its code disagree, the model follows
the code:
- `isValid` does not require the padding run to end right before the
  separator. It checks only four things about the run: it is contiguous, it
  has even length, it does not start at index 0, and the code ends with the
  separator. So `8000000F+` is valid; `Validator.PaddedAt` states this shape.
- `isFull` reads the second character of a code padded from index 1 (the
  padding character) as longitude digit 0. `2000000X+` is therefore full, yet
  it decodes to an area that starts at 200 degrees east
  (`Extent.PaddedLongitudePastAntimeridian`).

## Model

| member | source | states |
|---|---|---|
| Validator.IsValid | src/OpenLocationCode.php:128-183 | the loop-based check returns exactly `ValidCode`: one separator, not a lone character, separator at an even index at most 8, padding rules, not one character after the separator, only legal characters |
| Validator.ValidIffWellFormed | src/OpenLocationCode.php:128-183 | a code is valid if and only if it has one of two shapes. Unpadded: separator at an even index ≤ 8, digits elsewhere, never exactly one digit after it. Padded: nine characters ending in the separator, with an even run of at least two `0` starting at index ≥ 1 |
| Validator.IsShort | src/OpenLocationCode.php:191-203 | a short code is valid, has no padding, and has its separator at index 0, 2, 4 or 6 |
| Validator.IsFull | src/OpenLocationCode.php:212-236 | a full code is valid, is not short, and has its separator at index 8 |
| Validator.FullAtSeparator | src/OpenLocationCode.php:212-236 | an unpadded code with the separator at 8 whose first two digits pass the 180/360 range check is full |
| Validator.ShortFullUpper | src/OpenLocationCode.php:191-236 | `isShort` and `isFull` do not depend on letter case |
| Validator.ValidUpper | src/OpenLocationCode.php:174-180 | validity does not depend on letter case |
| Normalizer.ClipLatitude | src/OpenLocationCode.php:600-603 | the result is in [-90, 90]; it is the input when the input is in range, and -90 or 90 otherwise |
| Normalizer.NormalizeLongitude | src/OpenLocationCode.php:608-617 | the wrapping loops compute `NormalLongitude`, the unique value in [-180, 180) that differs from the input by whole turns (`Normalizer.NormalLongitudeUnique`) |
| Normalizer.NormalLongitudeUnique | src/OpenLocationCode.php:608-617 | any value in [-180, 180) that differs from the input by a whole number of turns is the normalised longitude |
| Normalizer.LatitudeToInteger | src/OpenLocationCode.php:513-519 | the latitude lattice value is in [0, 4500000000); in range it is the floor of (latitude + 90) × 25000000; at or above 90 it is the top value; below -90 it is 0 |
| Normalizer.LongitudeToInteger | src/OpenLocationCode.php:521-530 | the longitude lattice value is in [0, 2949120000); in range it is the floor of (longitude + 180) × 8192000 |
| Normalizer.LocationToIntegers | src/OpenLocationCode.php:511-533 | the method returns the two lattice values above |
| Normalizer.TruncModCorrected | src/OpenLocationCode.php:524-527 | PHP's truncating `%`, corrected by adding the modulus when negative, is the Euclidean remainder |
| Normalizer.LatitudeToIntegerClipped | src/OpenLocationCode.php:513-519 | clipping the latitude first does not change its lattice value |
| Normalizer.LongitudeToIntegerNormalized | src/OpenLocationCode.php:521-530 | normalising the longitude first does not change its lattice value |
| CodeAreas.CodeArea.LatitudeCenter | src/CodeArea.php:49-52 | the latitude center never exceeds 90; it is the midpoint when the midpoint is at most 90; it lies between the edges of a non-empty area |
| CodeAreas.CodeArea.LongitudeCenter | src/CodeArea.php:53-56 | the same for longitude, capped at 180 |
| CodeAreas.CodeArea.GetLatLng | src/CodeArea.php:64-67 | returns exactly the pair of centers |
| CodeAreas.CenterInside | src/CodeArea.php:42-57 | for an area inside the domain, both centers lie inside the area and the domain |
| Encoder.EncodeIntegers | src/OpenLocationCode.php:544-595 | the method returns `IntegerCode`. That is a failure with `InvalidLength` exactly for lengths below 2, or odd and below 10. Otherwise it is the digits of the lattice point, formatted |
| Encoder.IntegerCodeShape | src/OpenLocationCode.php:546-594 | with L = min(length, 15): the separator is at index 8; for L ≥ 8 the code has L + 1 characters; for L < 8 it is L alphabet digits, then 8 − L padding characters, then the separator |
| Encoder.GridSection | src/OpenLocationCode.php:559-567 | the grid loop yields the five grid digits (row × 4 + column) and divides the lattice values by 5^5 and 4^5 |
| Encoder.PairSection | src/OpenLocationCode.php:574-579 | the pair loop prepends the five interleaved base-20 pairs of the remaining values |
| Encoder.FormatCode | src/OpenLocationCode.php:582-594 | the separator is inserted at 8; the first L digits are kept in order; padding fills the places up to 8 |
| Encoder.Encode | src/OpenLocationCode.php:250-254 | `encode` fails exactly for an invalid length; the length defaults to 10 |
| Decoder.Decode | src/OpenLocationCode.php:266-341 | the method returns `DecodedArea`: `InvalidCode` exactly for a code that is not full; otherwise an area whose `codeLength` is the number of significant digits |
| Decoder.DecodedArea | src/OpenLocationCode.php:266-272 | decoding fails if and only if the code is not full; a success carries the count of significant digits |
| Decoder.DecodeDigits | src/OpenLocationCode.php:286-340 | the loops over the significant digits compute `AreaOf` of their values |
| Decoder.DecodePairs | src/OpenLocationCode.php:286-298 | the pair loop sums each pair digit times its place value (20^4 down), less the 90/180 offset; it ends with the place value of the last pair |
| Decoder.DecodeGrid | src/OpenLocationCode.php:305-327 | the grid loop sums rows and columns with place values 5^k and 4^k; it ends with the place values of the last digit |
| Decoder.AreaOf | src/OpenLocationCode.php:330-340 | the area has the digit count as its length, and a height and width that are the cell size of that many digits |
| Decoder.SplitInterleaved | src/OpenLocationCode.php:286-298 | reading pairs back from interleaved digits gives the latitude and longitude digit sequences |
| RoundTrip.EncodedIsFull | src/OpenLocationCode.php:544-595 | every code `encodeIntegers` produces for a valid length is a full code |
| RoundTrip.DecodeEncoded | src/OpenLocationCode.php:266-341 | decoding an encoded code gives the lattice cell of length min(L, 15) around the point |
| RoundTrip.EncodedSignificant | src/OpenLocationCode.php:275-277 | the significant characters of an encoded code are exactly its first min(L, 15) digits |
| RoundTrip.DecodedContainsPoint | src/OpenLocationCode.php:286-339 | the decoded area of an encoded lattice point has length min(L, 15) and contains that point's lattice step |
| RoundTrip.EncodeDecode | src/OpenLocationCode.php:250-254 | the decoded area of `encode` has length min(L, 15) and contains the clipped, normalised location. The south and west edges are inclusive and the east edge exclusive. The north edge is exclusive below 90; a latitude of 90 or more lies on the closed north edge of the top row |
| RoundTrip.LatCorner | src/OpenLocationCode.php:286-327 | the south edge of the first n digits of a point is the point's latitude rounded down to a whole cell of n digits |
| RoundTrip.LngCorner | src/OpenLocationCode.php:286-327 | the same for the west edge |
| Extent.DecodedInDomain | src/OpenLocationCode.php:222-234 | a full code with a real second digit decodes to an area inside [-90, 90] × [-180, 180] |
| Extent.PaddedLongitudePastAntimeridian | src/OpenLocationCode.php:227-234 | `2000000X+` is full, yet its area starts east of 180 degrees |
| Extent.SixDigitCodeLength | src/OpenLocationCode.php:266-341 | `7FG49Q00+` is full and decodes to an area of code length 6 |
| Extent.TenDigitCodeFull | src/OpenLocationCode.php:212-236 | `8FVC9G8F+6X` is full |
| Extent.ElevenDigitCodeFull | src/OpenLocationCode.php:212-236 | `8FVC9G8F+6XQ` is full |
| Shortener.Shorten | src/OpenLocationCode.php:451-488 | the method returns `ShortenedCode` |
| Shortener.TrimPairs | src/OpenLocationCode.php:479-487 | the loop removes `TrimmedCount(range)` leading characters |
| Shortener.TrimmedCount | src/OpenLocationCode.php:479-485 | removes 8, 6, 4 or 0 characters: the most pairs whose resolution × 0.3 exceeds the range, and none when the range is at least 0.3 |
| Shortener.CodeRange | src/OpenLocationCode.php:474-477 | the range is the larger of the latitude and longitude distances from the center |
| Shortener.ShortenErrors | src/OpenLocationCode.php:453-467 | fails if and only if the code is not full (`InvalidCode`) or contains padding (`PaddedCode`); `TooShort` never occurs |
| Shortener.ShortenTrimsPairs | src/OpenLocationCode.php:451-488 | a result is the upper-cased code with 0, 4, 6 or 8 leading characters removed; the digits after the separator are kept |
| Shortener.ShortenNearOrFar | src/OpenLocationCode.php:474-487 | a full unpadded code is always shortened successfully; it comes back whole exactly when the range is at least 0.3 |
| Shortener.ShortenIsShort | src/OpenLocationCode.php:451-488 | for codes with digits after the separator, a result is the full code itself or a short code |
| Shortener.ShortenAtCenter | src/OpenLocationCode.php:474-485 | with the reference at the code's center, all eight digits before the separator are removed |
| Shortener.ShortenEightDigitsAtCenter | src/OpenLocationCode.php:479-485 | as written: an eight-digit code shortened at its center gives `+`, which is not valid |
| Shortener.CorrectedCount | src/OpenLocationCode.php:479-485 | the corrected count always leaves at least one digit; it never removes more than `shorten` does, and only at a range within that resolution |
| Shortener.ShortenCorrectedIsShort | src/OpenLocationCode.php:451-488 | the corrected shorten returns the full code or a short code, and agrees with `shorten` on codes of more than eight digits |
| Recovery.RecoverNearest | src/OpenLocationCode.php:355-436 | the method returns `NearestFull` |
| Recovery.RecoverShort | src/OpenLocationCode.php:376-435 | the short-code branch: pad from the reference, decode, adjust, then encode at the decoded length |
| Recovery.AdjustArea | src/OpenLocationCode.php:390-433 | the two rebinding steps compute `Adjusted`: latitude first, guarded at the poles, then longitude |
| Recovery.PaddedShort | src/OpenLocationCode.php:376-387 | the padded code is the short code with 8 − separator index characters (the prefix taken from the reference's code) added in front |
| Recovery.RecoverErrors | src/OpenLocationCode.php:361-366 | fails, with `InvalidCode`, if and only if the code is neither full nor short |
| Recovery.RecoverIsFull | src/OpenLocationCode.php:355-436 | a full code comes back upper-cased; a short code always succeeds; every result is a full code |
| Recovery.RecoverLength | src/OpenLocationCode.php:376-435 | for a short code with k digits after the separator, the result has min(8 + k, 15) digits and one separator |
| Recovery.ShortRecovered | src/OpenLocationCode.php:376-435 | the same, for an upper-cased short code and a normalised reference |
| Recovery.ShortShape | src/OpenLocationCode.php:376 | a short code is unpadded; the missing prefix length 8 − separator index is 2, 4, 6 or 8 |
| Recovery.PaddedShortIsFull | src/OpenLocationCode.php:385-387 | the code passed to `decode` is full and has min(8 + k, 15) significant digits, k being the digits after the separator |
| Recovery.PaddingResolutionIsCell | src/OpenLocationCode.php:379 | 20^(2 − p/2) is the size in degrees of the cell of p digits, in latitude and in longitude |
| Recovery.LatitudePrecision | src/OpenLocationCode.php:496-502 | the precision is positive; for an even length up to 10 it is the padding resolution 20^(2 − n/2) that `recoverNearest` uses |
| Recovery.LatitudePrecisionIsHeight | src/OpenLocationCode.php:496-502 | `computeLatitudePrecision` of a decodable length is the height of the decoded area of that length |
| Nearness.PaddedAreaNear | src/OpenLocationCode.php:376-387 | the area decoded from the padded code has its center within one resolution of the reference, in both directions |
| Nearness.AdjustedNear | src/OpenLocationCode.php:390-433 | after the adjustments the longitude center is within half a resolution of the reference. The latitude center is too, unless a shift was refused because it would pass a pole |
| Nearness.LatitudeShiftNear | src/OpenLocationCode.php:390-414 | a center within one resolution ends within half a resolution, or on the far side only when the shift would cross a pole |
| Nearness.LongitudeShiftNear | src/OpenLocationCode.php:417-433 | a longitude center within one resolution ends within half a resolution |
| Nearness.RecoveredNearReference | src/OpenLocationCode.php:376-433 | for every short code, the adjusted area lies near the clipped, normalised reference as above |
| Nearness.RecoverNearby | src/OpenLocationCode.php:355-435 | the same for the input of `recoverNearest`, before upper-casing |
| Nearness.ShortBranch | src/OpenLocationCode.php:364-373 | for a short code, `recoverNearest` is the short branch applied to the upper-cased code and the clipped, normalised reference |
| Matching.CodeDigitAt | src/OpenLocationCode.php:559-579 | digit k of a lattice point's code is its latitude or longitude value at that digit's place value, modulo the digit's base (a row × 4 + column for grid digits) |
| Matching.CornerDigits | src/OpenLocationCode.php:286-340 | encoding the south-west corner of a decoded area gives back the decoded digits |
| Matching.ShiftedDigits | src/OpenLocationCode.php:390-433 | a lattice point in the cell of n digits, or in that cell moved one p-digit cell in either direction (wrapped around the globe in longitude), has the same digits from p to n |
| Matching.LatCenterRow | src/CodeArea.php:49-52 | the center of a row of the lattice is encoded into that row |
| Matching.LngCenterColumn | src/CodeArea.php:53-56 | the midpoint of a column of the lattice is encoded into that column, wrapped around the globe |
| Matching.AdjustedDigits | src/OpenLocationCode.php:390-435 | after the adjustments, the uncapped middle of the moved area encodes to digits that agree with the padded code's from the padding length on |
| Matching.FormatTail | src/OpenLocationCode.php:582-594 | digits that agree with a padded code's from p on format into a code whose characters from p on are the padded code's |
| Matching.CorrectedFromShort | src/OpenLocationCode.php:376-435 | with the middle of the moved area not capped at 180, the short branch returns a full code of min(8 + k, 15) digits whose characters from the padding length on are the short code's |
| Matching.CorrectedMatches | src/OpenLocationCode.php:355-435 | the same for every short code passed to the corrected `recoverNearest`, in either case, with any reference |
| Matching.ShiftedCenterUncapped | src/OpenLocationCode.php:417-433 | an area whose middle is not east of 180, adjusted toward a reference at least half a resolution west of 180, keeps its middle not east of 180, so the capped center is its middle |
| Matching.AsWrittenFromShort | src/OpenLocationCode.php:376-435 | the short branch as written equals the corrected one when the reference is at least half a resolution west of 180 |
| Matching.RecoverMatches | src/OpenLocationCode.php:355-435 | as written, `recoverNearest` returns a full code ending in the short code's characters whenever the normalised reference is at least half a padding resolution west of 180 |
| Antimeridian.EastEdgeColumn | src/CodeArea.php:53-56 | encoding a center capped at 180 gives the column of -180: the second longitude digit is `2` |
| Antimeridian.ExampleCappedShift | src/OpenLocationCode.php:425-435 | the area of `6V252222+` is moved 20 degrees east for the reference longitude 179.9; its middle, 183.00125, is capped at 180 |
| Antimeridian.RecoverMissesAcrossAntimeridian | src/OpenLocationCode.php:425-435 | as written, `recoverNearest("252222+", 0, 179.9)` does not end in the short code's characters; the corrected version does |

## Left out

- Floating point: degrees are exact reals. The model does not reproduce:
  - `round(..., 14)` in `decode`;
  - float rounding in `floor(latitude * 25000000)` and `floor(longitude * 8192000)`;
  - the float `20 ** ...` in `recoverNearest` and `computeLatitudePrecision`.
  Exact powers of 20 stand in for them.
- Exceptions and their messages are error tags in `Result`. PHP's `InvalidArgumentException` class is not modelled.
- The test files and the usage example script: I/O and printing. Three codes from the basic tests appear as lemmas in Extent: `7FG49Q00+` decodes to an area of length 6, and `8FVC9G8F+6X` and `8FVC9G8F+6XQ` are full. The other test cases are not modelled.
- Normalizer.LatitudeToInteger: the `(int)` casts at src/OpenLocationCode.php:513 and 521 are exact on unbounded integers; PHP's cast of a float beyond the 64-bit range is not modelled.
- Normalizer.LongitudeToInteger: the same cast, at src/OpenLocationCode.php:521.
- Normalizer.NormalizeLongitude: degrees are finite reals, so infinite and NaN inputs are not modelled. For an infinite longitude the loops at src/OpenLocationCode.php:610-615 never end.
- Nearness.RecoverNearby: does not state the returned code itself. The returned code is `Encode` of the adjusted center by the definition of `Recovery.NearestFromShort`; nearness is proved about the adjusted area.
- Nearness.AdjustedNear: near a pole, nearness in latitude is weaker than half a resolution, because the source refuses a shift that would move the center past the pole.
- Recovery.RecoverNearest: the round trip `recoverNearest(shorten(code)) == code` for a reference near the code's center is not proved. That the result keeps the short code's characters is proved only where the normalised reference is at least half a padding resolution west of 180 (`Matching.RecoverMatches`); east of that the source can lose them (see Findings).
- Recovery.NearestFromShort: its `Failure` branch (decoding the padded code fails) is shown unreachable by `Recovery.ShortRecovered`, not removed.

## Findings

| source | as written | input that shows it | evidently intended | confidence | as-written member | corrected member |
|---|---|---|---|---|---|---|
| src/OpenLocationCode.php:479-485 | `shorten` removes `(i + 1) * 2` characters whenever the range is small enough, even when that is every digit of an eight-digit code | any full code of eight digits, e.g. `8FVC9G8F+`, with the reference at its center: the result is `+`, which `isValid` rejects | remove pairs only while at least one digit remains, so the result is always a valid short code | not executed | Shortener.ShortenEightDigitsAtCenter | Shortener.ShortenCorrectedIsShort |
| src/OpenLocationCode.php:425-435, src/CodeArea.php:53-56 | `recoverNearest` moves the area one padding cell east, then encodes its longitude center, which `CodeArea` caps at 180; 180 encodes as the column of -180 | short code `252222+` with reference (0, 179.9): the area of `6V252222+` is moved to [183, 183.0025], its center is capped to 180, and the result is `62222222+` instead of `62252222+` | encode the uncapped middle of the moved area, which `encode` wraps around the globe, so the result always ends in the short code's characters | not executed | Antimeridian.RecoverMissesAcrossAntimeridian | Matching.CorrectedMatches |
