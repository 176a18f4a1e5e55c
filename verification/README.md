# A model of the file-signature tool and of the logging library it carries

The repository builds block signatures of large files (`src/v2`) and carries spdlog 1.8.2 with its
bundled copy of fmt. This project models four parts of it and proves what they promise.

1. **Exact float printing (bundled fmt).** `Words.dfy` and `Limbs.dfy` give the arithmetic of limb
   sequences, `Bigints.dfy` the class `bigint` with its in-place loops, each method proved against the
   number its limbs stand for. `DigitGeneration.dfy` is the (FPP)^2 digit generator on mathematical
   integers, `FallbackFormat.dfy` the same generator on limbs. Around them: the portable wide
   multiplications (`WideMultiply.dfy`), trailing-zero removal by modular inverses
   (`TrailingZeros.dfy`), the branchless UTF-8 decoder (`Utf.dfy`), the format-string scanner
   (`FormatScanner.dfy`) and the flushing output buffers (`IteratorBuffer.dfy`).
2. **Blocking queue and thread pool (spdlog).** `CircularQueue.dfy` is the ring buffer and
   `Backtrace.dfy` its two readers, the backtracer and the ring-buffer sink. `ThreadPool.dfy` is the
   queue between posting threads and workers as a step system: a critical section is one step, a
   notification is sent after the lock is released and is a step of its own, sleepers may wake for no
   reason and waits may time out. The invariants hold in every reachable state.
3. **The v2 signature pipeline.** `Signature.dfy` has the blocks, `BlockReader.dfy` reads one in
   chunk-aligned segments, `SegmentHasher.dfy` hashes a segment, `Writer.dfy` collects the hashes in
   any order of arrival, and `SignaturePipeline.dfy` puts a block table through all of it.
4. **Rotating log files.** `FileNames.dfy` has the names of the files, `RotatingSink.dfy` the sink over
   a map from names to contents.

Each part has a reference form that reads without its loops (`Shortest`, `Rounded`, `Calls`,
`Transcode`, `Pushed`, `Segments`, `Hashes`, `Expected`, `IsRotation`, `Delivered`); the methods that
follow the code are proved to compute it, and the lemmas say what it means.

## Where the code does less than its documentation says

Each of these is a theorem below; the model follows the code.

- `compare` on bigints answers 1 or -1 for equal values with different `exp_`, and both it and
  `add_compare` can misjudge a zero that has many limbs through its `exp_` (`CompareExactIff` and
  `AddCompareExactIff` say exactly when they are right, `CompareMissesEquality` and
  `AddCompareMissesZero` are inputs where they are not). `divmod_assign` inherits one blind spot; digit
  generation never reaches it (`SetUpNeverMissed`).
- The final loop of `subtract_aligned` stays at one limb, so a borrow that meets a zero limb gets stuck
  there (`MinusGetsStuck`). The difference is right if and only if none does (`MinusExactIff`), and none
  does when the operand is at most one limb shorter (`NeverStuck`), as in `divmod_assign`.
- The shortest mode of `fallback_format` always stays in the rounding interval, but is not always
  shortest: `NotAlwaysShortest` is a double for which a shorter decimal exists. `ShorterExistsIff`,
  `ShortestIff` and `ShortestOutputIff` say exactly when that happens: for an even significand, limb
  exponents that hide equality, and a lower end of the interval that is a decimal with m places while
  the interval is narrower than one unit of the m-th place. `format_float` does not reach this mode: it
  sends a negative precision to Dragonbox (format-inl.h:2447-2458), and its fixed handler gives up only
  with a precision that is not negative.
- `utf8_decode` accepts a lone byte 0x80..0xBF or 0xF8..0xFF as a character (`AcceptedIff`).
- A thread pool whose queue has no room can never be shut down (`ShutdownPossibleIff`).
- `block_reader_t` opens its own descriptor and never moves it to the block's offset, so every block
  is read from the start of the file (`OwnBytesIff`). The model follows the code: the signature is
  made of the bytes the readers see.
- The writer counts chunks and not segments: a segment shorter than a chunk that arrives last comes
  after the file has been written and closed (`WrittenOnLastIff`, `SignedInEveryOrderIff`). What is
  reported then and what the file lacks is said by `LateSegments` and `TailTooLate`.
- After rotating on open, `current_size_` still holds the size of the file that was rotated away
  (`CountedAfterOpenIff`), so the first message can rotate an active file that has room for it:
  `EarlyRotationIff` says exactly when, `RotatesEmptyFile` is such a case. The surplus lasts until the
  first rotation (`SurplusStays`, `RotatesIff`); otherwise the counter is exact (`HistoryRotates`).
- `square` needs no bound of 16 limbs; 2^30 limbs are proved to fit the accumulator.

## Modelling choices

- A `bigint` object has the fields `bigits` (a sequence, least significant limb first) and `exp`.
  32- and 64-bit words are subset types, so a value that could wrap where the code does not intend it
  would not verify; intended wrap-around is written `%`.
- `compute_crc32` is a function parameter. A format handler is a value that answers from the calls
  made so far. Finding the next argument, parsing an argument id and parsing format specs are its
  answers.
- `fallback_format` takes the significand, the exponent and the unequal-gap flag of the double as
  arguments, with the bounds they have for a finite positive double.
- `read(2)` past the end of the file leaves the rest of the zeroed buffer as it is.
- The block table of the pipeline is an input, with increasing block ids and nonzero sizes.
- Writing to or closing a stream that is already closed throws; the handler then reports an error.
- A rename removes its target first and fails only when there is no source, which a rotation looks for
  beforehand.

## Model

| member | source | states |
|---|---|---|
| FallbackFormat.FallbackFormat | spdlog-1.8.2/include/spdlog/fmt/bundled/format-inl.h:2312-2428 | shortest mode: the characters are the digits of the reference generator for f * 2^e / 10^exp10 with its half-gaps, the emitted string read as a decimal lies in the rounding interval (endpoints for even significands only) and is the closest one of its length there, ties to even, and exp10 drops by one less than the number of digits; fixed mode: digits times 10^exp10 is the entry value rounded half to even at num_digits digits; exp10 grows by one if and only if that is 10^num_digits, and no zero leads when the entry value has a digit before the point |
| FallbackFormat.ShownWithin | spdlog-1.8.2/include/spdlog/fmt/bundled/format-inl.h:2363-2392 | characters that show the generated digits are a decimal inside the rounding interval, the closest of its length there |
| FallbackFormat.WithinIffBetween | spdlog-1.8.2/include/spdlog/fmt/bundled/format-inl.h:2315-2362 | the rounding interval that the set-up gives is the one between the points half-way to the two neighbouring floats, a quarter below when the float below is closer; its endpoints belong to it for even significands only |
| FallbackFormat.ShortestOutputIff | spdlog-1.8.2/include/spdlog/fmt/bundled/format-inl.h:2363-2392 | for the fraction set up for f * 2^e: the output is the shortest decimal of the interval if and only if not (even significand, larger limb exponent of lower than of denominator, and for some m the lower endpoint is a decimal with m places and the interval is narrower than one unit of them) |
| FallbackFormat.SetUp | spdlog-1.8.2/include/spdlog/fmt/bundled/format-inl.h:2315-2362 | the value is numerator/denominator * 10^exp10 with both scaled alike, and lower is half the gap below (upper_store half the gap above when that is wider), in each of the three exponent cases |
| FallbackFormat.SetUpNeverMissed | spdlog-1.8.2/include/spdlog/fmt/bundled/format-inl.h:2315-2362 | no multiple of the numerator by a power of ten equals a denominator of smaller limb exponent, so the blind spot of the first comparison in divmod_assign is never reached |
| FallbackFormat.NoLargePowerOfTen | spdlog-1.8.2/include/spdlog/fmt/bundled/format-inl.h:2329-2340 | f * 2^e with f below 2^53 and e at least 32 is never a power of ten |
| FallbackFormat.NextDigit | spdlog-1.8.2/include/spdlog/fmt/bundled/format-inl.h:2370 | one division gives the quotient as a digit 0..9 and leaves the remainder, with what the following comparisons need |
| FallbackFormat.MeetsGap | spdlog-1.8.2/include/spdlog/fmt/bundled/format-inl.h:2371-2373 | `low` and `high` say exactly whether the remainder meets the lower and the upper half-gap, endpoints for even significands only, except for the equality that misaligned limb exponents hide |
| FallbackFormat.LastDigit | spdlog-1.8.2/include/spdlog/fmt/bundled/format-inl.h:2375-2383 | the last digit is rounded by the gaps, and half to even when both are met |
| FallbackFormat.RoundsUp | spdlog-1.8.2/include/spdlog/fmt/bundled/format-inl.h:2408-2409 | twice the remainder against the denominator, ties to the even digit |
| FallbackFormat.ShortestDigitLoop | spdlog-1.8.2/include/spdlog/fmt/bundled/format-inl.h:2369-2391 | the limb loop emits exactly the digits of the reference generator on integers and ends |
| FallbackFormat.LeadingDigits | spdlog-1.8.2/include/spdlog/fmt/bundled/format-inl.h:2402-2406 | all but the last digit: n * 10^(k-1) is the emitted number times ten denominators plus what is left |
| FallbackFormat.StoreLastDigit | spdlog-1.8.2/include/spdlog/fmt/bundled/format-inl.h:2407-2426 | the stored digits have the value of the leading digits followed by the rounded last digit; only a value of 10^num_digits is reported as carried out, and is stored as 1 and zeros |
| FallbackFormat.PropagateCarry | spdlog-1.8.2/include/spdlog/fmt/bundled/format-inl.h:2410-2423 | a carry keeps the value of the digits; one out of the first place leaves 1 and zeros, and only a power of ten carries out |
| FallbackFormat.FixedDigits | spdlog-1.8.2/include/spdlog/fmt/bundled/format-inl.h:2393-2427 | the fixed number of digits is the quotient rounded half to even at that many digits, for zero digits too; one place more is written as 1 and zeros with a larger exponent |
| FallbackFormat.ExponentGrowsIff | spdlog-1.8.2/include/spdlog/fmt/bundled/format-inl.h:2410-2426 | the exponent is one larger if and only if the scaled value rounds half to even to 10^num_digits, and the digits are then 1 and zeros |
| FallbackFormat.NoLeadingZero | spdlog-1.8.2/include/spdlog/fmt/bundled/format-inl.h:2393-2427 | an entry value of at least one is written without a leading zero |
| FallbackFormat.RoundedUnique | spdlog-1.8.2/include/spdlog/fmt/bundled/format-inl.h:2393-2427 | digits and exponent of the fixed mode are determined by the value |
| DigitGeneration.ShortestDigits | spdlog-1.8.2/include/spdlog/fmt/bundled/format-inl.h:2363-2392 | when numerator + upper stays below ten denominators (equal allowed for odd significands) every generated digit is 0..9: the final increment never meets a 9 |
| DigitGeneration.ShortestWithin | spdlog-1.8.2/include/spdlog/fmt/bundled/format-inl.h:2363-2392 | the emitted decimal lies in the rounding interval given by lower and upper, endpoints for even significands only |
| DigitGeneration.ShortestNearest | spdlog-1.8.2/include/spdlog/fmt/bundled/format-inl.h:2363-2392 | with equal half-gaps the emitted decimal is at most half a unit of its last place away from the value |
| DigitGeneration.ShortestClosest | spdlog-1.8.2/include/spdlog/fmt/bundled/format-inl.h:2363-2392 | for any half-gaps: of all decimals of its length in the rounding interval the emitted one is the closest to the value and the even one of two equally close, except that hidden equality may pass over the lower endpoint |
| DigitGeneration.ShortestIff | spdlog-1.8.2/include/spdlog/fmt/bundled/format-inl.h:2363-2392 | for any fraction and half-gaps: no shorter decimal lies in the interval, if and only if not (even significand, hidden equality, and for some m the lower endpoint is a decimal with m places and the interval is narrower than one unit of them) |
| DigitGeneration.ShorterExistsIff | spdlog-1.8.2/include/spdlog/fmt/bundled/format-inl.h:2363-2392 | for each m: more than m + 1 digits are emitted although a decimal with m places lies in the interval, if and only if the significand is even, the limb exponents hide equality, the lower endpoint is itself such a decimal, and the interval is narrower than one unit of its last place; a condition on the inputs alone |
| FallbackFormat.NotAlwaysShortest | spdlog-1.8.2/include/spdlog/fmt/bundled/format-inl.h:2363-2392 | the double f = 8344650268554688, e = 33 at exp10 = 25, as set up: 7168 is in the interval and more than four digits are emitted |
| DigitGeneration.CarryUp | spdlog-1.8.2/include/spdlog/fmt/bundled/format-inl.h:2414-2417 | moving a carry one place up keeps the number |
| DigitGeneration.RoundsHalfEvenUnique | spdlog-1.8.2/include/spdlog/fmt/bundled/format-inl.h:2407-2426 | rounding half to even has one answer |
| DigitGeneration.RoundingStep | spdlog-1.8.2/include/spdlog/fmt/bundled/format-inl.h:2408-2409 | comparing twice the remainder decides rounding half to even |
| Bigints.CompareExactIff | spdlog-1.8.2/include/spdlog/fmt/bundled/format-inl.h:1356-1370 | compare gives the order of the values if and only if equal values have equal exp_ and a zero is not given more limbs than the other operand |
| Bigints.CompareMissesEquality | spdlog-1.8.2/include/spdlog/fmt/bundled/format-inl.h:1356-1370 | equal values with different exp_ for which compare answers 1 |
| Bigints.Bigint.Compare | spdlog-1.8.2/include/spdlog/fmt/bundled/format-inl.h:1356-1370 | the exact answer of the loop for all normalised operands |
| Bigints.AddCompareExactIff | spdlog-1.8.2/include/spdlog/fmt/bundled/format-inl.h:1373-1394 | add_compare gives the sign of lhs1 + lhs2 - rhs if and only if no zero operand gets in the way by its number of limbs; for nonzero operands always |
| Bigints.AddCompareMissesZero | spdlog-1.8.2/include/spdlog/fmt/bundled/format-inl.h:1373-1394 | 0 with exp_ 5, plus 1, against 2^32: the answer is 1 |
| Bigints.Bigint.AddCompare | spdlog-1.8.2/include/spdlog/fmt/bundled/format-inl.h:1373-1394 | the exact answer for all normalised operands with any exponents, despite the early exits: the sign of lhs1 + lhs2 - rhs unless a zero is too long |
| Bigints.Bigint.DivmodAssign | spdlog-1.8.2/include/spdlog/fmt/bundled/format-inl.h:1461-1472 | quotient and remainder, termination, and the one blind spot: 0 and no change exactly when exp_ exceeds that of the divisor and the values are equal |
| Bigints.Bigint.Subtractions | spdlog-1.8.2/include/spdlog/fmt/bundled/format-inl.h:1466-1471 | repeated subtraction ends, counts the quotient and leaves the remainder |
| Bigints.Bigint.Align | spdlog-1.8.2/include/spdlog/fmt/bundled/format-inl.h:1448-1457 | changes the representation and not the value; exp_ becomes the smaller of the two |
| Bigints.Bigint.SubtractBigits | spdlog-1.8.2/include/spdlog/fmt/bundled/format-inl.h:1255-1259 | one limb of a subtraction and its borrow, from the wrapped 64-bit difference |
| Bigints.Bigint.RemoveLeadingZeros | spdlog-1.8.2/include/spdlog/fmt/bundled/format-inl.h:1261-1265 | drops zero limbs at the top and keeps the value |
| Bigints.Bigint.SubtractAligned | spdlog-1.8.2/include/spdlog/fmt/bundled/format-inl.h:1268-1277 | for operands of any length: the value becomes the difference if and only if the borrow does not get stuck at a zero limb, which an operand at most one limb shorter rules out |
| Bigints.Bigint.SubtractLimbs | spdlog-1.8.2/include/spdlog/fmt/bundled/format-inl.h:1272-1275 | the borrow chain, with its final loop that stays at one limb |
| Bigints.Bigint.MultiplyBigit | spdlog-1.8.2/include/spdlog/fmt/bundled/format-inl.h:1279-1288 | the limbs of the product with a 32-bit factor |
| Bigints.Bigint.MultiplyWord | spdlog-1.8.2/include/spdlog/fmt/bundled/format-inl.h:1290-1305 | the limbs of the product with a 64-bit factor; the carry never exceeds a word, for any number of limbs |
| Bigints.Bigint.TimesBigit | spdlog-1.8.2/include/spdlog/fmt/bundled/format-inl.h:1350-1354 | multiplies the value by a 32-bit factor and stays normalised |
| Bigints.Bigint.TimesWord | spdlog-1.8.2/include/spdlog/fmt/bundled/format-inl.h:1350-1354 | multiplies the value by a 64-bit factor and stays normalised |
| Bigints.Bigint.AssignFrom | spdlog-1.8.2/include/spdlog/fmt/bundled/format-inl.h:1315-1321 | takes over limbs and exponent |
| Bigints.Bigint.AssignWord | spdlog-1.8.2/include/spdlog/fmt/bundled/format-inl.h:1323-1331 | takes the value of a word, normalised: one limb for zero |
| Bigints.Bigint.ShiftLeft | spdlog-1.8.2/include/spdlog/fmt/bundled/format-inl.h:1335-1348 | multiplies the value by 2^shift |
| Bigints.Bigint.Square | spdlog-1.8.2/include/spdlog/fmt/bundled/format-inl.h:1416-1444 | the value becomes exactly its square, for up to 2^30 limbs |
| Bigints.Bigint.SquareColumns | spdlog-1.8.2/include/spdlog/fmt/bundled/format-inl.h:1423-1440 | each result limb is the low part of the column sum plus the carry |
| Bigints.Accumulator.Add | spdlog-1.8.2/include/spdlog/fmt/bundled/format-inl.h:1226-1229 | the two words hold the exact 128-bit sum |
| Bigints.Accumulator.ShiftRight32 | spdlog-1.8.2/include/spdlog/fmt/bundled/format-inl.h:1230-1235 | divides the 128-bit sum by 2^32 |
| Bigints.Bigint.AssignPow10 | spdlog-1.8.2/include/spdlog/fmt/bundled/format-inl.h:1397-1414 | the value becomes exactly 10^exp, by repeated squaring over the bits of exp and one shift, for exp below 2^30 |
| Limbs.TimesLimb | spdlog-1.8.2/include/spdlog/fmt/bundled/format-inl.h:1290-1305 | digit and carry of one step are exact and the carry fits a word |
| Limbs.TimesValue | spdlog-1.8.2/include/spdlog/fmt/bundled/format-inl.h:1290-1305 | the limb product has the value s * value + carry |
| Limbs.MinusExactIff | spdlog-1.8.2/include/spdlog/fmt/bundled/format-inl.h:1268-1277 | the limb difference has as many limbs as s, and the value s - t - borrow if and only if the borrow does not get stuck |
| Limbs.NeverStuck | spdlog-1.8.2/include/spdlog/fmt/bundled/format-inl.h:1268-1277 | with at most one spare limb the borrow does not get stuck |
| Limbs.MinusGetsStuck | spdlog-1.8.2/include/spdlog/fmt/bundled/format-inl.h:1268-1277 | 2^64 - 1 from limbs: a wrong difference, the second limb being zero when the borrow comes |
| Limbs.ShiftValue | spdlog-1.8.2/include/spdlog/fmt/bundled/format-inl.h:1335-1348 | the shifted limbs have the value times the power of two |
| Limbs.CompareLimb | spdlog-1.8.2/include/spdlog/fmt/bundled/format-inl.h:1360-1367 | agreeing top limbs leave the order to the lower ones |
| Limbs.AddCompareLimb | spdlog-1.8.2/include/spdlog/fmt/bundled/format-inl.h:1384-1392 | one limb of the scan: the sign is known once the running borrow is negative or above one |
| Limbs.CauchyProduct | spdlog-1.8.2/include/spdlog/fmt/bundled/format-inl.h:1416-1444 | the weighted column sums add up to the product |
| Limbs.SquareValue | spdlog-1.8.2/include/spdlog/fmt/bundled/format-inl.h:1416-1444 | emitting the columns with carries gives the square |
| Limbs.PrefixIsQuotient | spdlog-1.8.2/include/spdlog/fmt/bundled/format-inl.h:1399-1411 | the exponent read so far is the quotient of exp by a power of two |
| WideMultiply.Umul128 | spdlog-1.8.2/include/spdlog/fmt/bundled/format-inl.h:1649-1675 | the portable 64x64 multiplication is the exact 128-bit product |
| WideMultiply.Umul128Upper64 | spdlog-1.8.2/include/spdlog/fmt/bundled/format-inl.h:1678-1688 | floor(x * y / 2^64) |
| WideMultiply.PlusWord | spdlog-1.8.2/include/spdlog/fmt/bundled/format.h:845-856 | the 128-bit sum with a word, modulo 2^128 |
| WideMultiply.Umul192Upper64 | spdlog-1.8.2/include/spdlog/fmt/bundled/format-inl.h:1692-1697 | floor(x * y / 2^128) for a 128-bit y |
| WideMultiply.Umul192Middle64 | spdlog-1.8.2/include/spdlog/fmt/bundled/format-inl.h:1707-1712 | the middle word of the 192-bit product, although computed modulo 2^64 |
| WideMultiply.Umul96Upper32 | spdlog-1.8.2/include/spdlog/fmt/bundled/format-inl.h:1701-1703 | floor(x * y / 2^64), for which the narrowing cast drops nothing |
| WideMultiply.Multiply | spdlog-1.8.2/include/spdlog/fmt/bundled/format-inl.h:1178-1193 | lhs * rhs / 2^64 rounded to nearest, ties up, from 32-bit parts |
| WideMultiply.VariantsAgree | spdlog-1.8.2/include/spdlog/fmt/bundled/format-inl.h:1178-1193 | the 128-bit and the portable variant of multiply agree |
| TrailingZeros.InverseDecides | spdlog-1.8.2/include/spdlog/fmt/bundled/format-inl.h:1771-1781 | multiplying by the inverse of d modulo m and comparing with floor((m-1)/d) decides divisibility, and then gives the quotient |
| TrailingZeros.Table32Correct | spdlog-1.8.2/include/spdlog/fmt/bundled/format-inl.h:328-335 | each of the 11 entries is the inverse of its power of five and the largest quotient |
| TrailingZeros.Table64Correct | spdlog-1.8.2/include/spdlog/fmt/bundled/format-inl.h:337-362 | each of the 24 entries is the inverse of its power of five and the largest quotient |
| TrailingZeros.DivisibleByPowerOf5Narrow | spdlog-1.8.2/include/spdlog/fmt/bundled/format-inl.h:1772-1776 | true if and only if 5^exp divides x, for every exp of the table |
| TrailingZeros.DivisibleByPowerOf5 | spdlog-1.8.2/include/spdlog/fmt/bundled/format-inl.h:1777-1781 | true if and only if 5^exp divides x, for every exp of the table |
| TrailingZeros.CtzFactor | spdlog-1.8.2/include/spdlog/fmt/bundled/format-inl.h:2013-2020 | a number is an odd number times two to its count of trailing zero bits |
| TrailingZeros.RemoveTrailingZerosNarrow | spdlog-1.8.2/include/spdlog/fmt/bundled/format-inl.h:2013-2038 | n = m * 10^s with s the number of trailing zeros, capped at 7, for every nonzero n |
| TrailingZeros.RemoveTrailingZeros | spdlog-1.8.2/include/spdlog/fmt/bundled/format-inl.h:2041-2123 | n = m * 10^s with s the number of trailing zeros, capped at 16, for 0 < n <= (2^64-1)/1000 |
| TrailingZeros.StripQuotient | spdlog-1.8.2/include/spdlog/fmt/bundled/format-inl.h:2059-2074 | the branch for multiples of 10^8, in 32-bit arithmetic on the quotient |
| TrailingZeros.StripRemainder | spdlog-1.8.2/include/spdlog/fmt/bundled/format-inl.h:2076-2123 | the branch on the low eight digits, each exit with its constant |
| TrailingZeros.WrappedRemainder | spdlog-1.8.2/include/spdlog/fmt/bundled/format-inl.h:2077-2078 | the remainder from wrapped 32-bit arithmetic is n mod 10^8 |
| Utf.Utf8ToUtf16 | spdlog-1.8.2/include/spdlog/fmt/bundled/format-inl.h:2682-2711 | the windows and the zero-padded tail give the one-code-point-at-a-time transcoding of the whole string, ended by 0, or the error |
| Utf.TranscodeWindows | spdlog-1.8.2/include/spdlog/fmt/bundled/format-inl.h:2697-2701 | the four-byte lookahead loop never reads past the string and stops with fewer than four bytes left |
| Utf.TranscodeTail | spdlog-1.8.2/include/spdlog/fmt/bundled/format-inl.h:2702-2709 | the rest, padded with zeros, decodes as if it ended the string |
| Utf.PieceDecodes | spdlog-1.8.2/include/spdlog/fmt/bundled/format-inl.h:2613-2642 | the branchless decoder takes any one accepted piece, whatever bytes follow, and advances past it |
| Utf.RoundTrip | spdlog-1.8.2/include/spdlog/fmt/bundled/format-inl.h:2682-2711 | UTF-8 (section 3 of RFC 3629) of any scalar values, with stray lead bytes mixed in, becomes their UTF-16 |
| Utf.WellFormedConverts | spdlog-1.8.2/include/spdlog/fmt/bundled/format-inl.h:2682-2711 | UTF-8 (section 3 of RFC 3629) of any scalar values becomes their UTF-16 (section 2.1 of RFC 2781) |
| Utf.Utf8Value | spdlog-1.8.2/include/spdlog/fmt/bundled/format-inl.h:2613-2642 | the payload bits of the one to four bytes make the code point, with the marker bits of section 3 of RFC 3629 |
| Utf.Utf16Value | spdlog-1.8.2/include/spdlog/fmt/bundled/format-inl.h:2688-2694 | one unit, or a high and a low surrogate whose ten bits each make the code point less 0x10000 (section 2.1 of RFC 2781) |
| Utf.AcceptedIff | spdlog-1.8.2/include/spdlog/fmt/bundled/format-inl.h:2613-2642 | a string is accepted if and only if it is a sequence of shortest-form scalar values and stray bytes 0x80..0xBF and 0xF8..0xFF |
| Utf.AcceptedPiece | spdlog-1.8.2/include/spdlog/fmt/bundled/format-inl.h:2613-2642 | whatever the decoder accepts without error is the UTF-8 form of a scalar value or a stray byte |
| Utf.StrayByteAccepted | spdlog-1.8.2/include/spdlog/fmt/bundled/format.h:2767-2777 | a lone continuation byte is accepted |
| FormatScanner.ReplacementField | spdlog-1.8.2/include/spdlog/fmt/bundled/format.h:2959-2983 | one call and an end strictly further on, behind the closing brace of the field, or text for a doubled brace; an error comes last |
| FormatScanner.FieldRoundTrip | spdlog-1.8.2/include/spdlog/fmt/bundled/format.h:2959-2983 | a field written out, automatic, named or with specs that the handler understands, makes exactly its call and scanning goes on right behind it |
| FormatScanner.FieldFailsIff | spdlog-1.8.2/include/spdlog/fmt/bundled/format.h:2959-2983 | a field fails if and only if it is no doubled brace and there is no way to read a field there that the handler understands |
| FormatScanner.FieldErrors | spdlog-1.8.2/include/spdlog/fmt/bundled/format.h:2959-2983 | which error: the one of the handler for an argument id or for specs, or the scanner for a string that ends at the brace, an argument id followed by neither brace nor colon, or specs not followed by a brace |
| FormatScanner.ErrorEndsCalls | spdlog-1.8.2/include/spdlog/fmt/bundled/format.h:2959-3033 | whatever the string, an error is the last call |
| FormatScanner.CallsAt | spdlog-1.8.2/include/spdlog/fmt/bundled/format.h:2986-3007 | at the first brace: text up to the end, text with one closing brace for two, a field, or the error for a lone closing brace |
| FormatScanner.ScanShort | spdlog-1.8.2/include/spdlog/fmt/bundled/format.h:2990-3007 | the character loop makes the calls of the reference reading, empty texts aside, up to the first error |
| FormatScanner.Find | spdlog-1.8.2/include/spdlog/fmt/bundled/format.h:2917-2931 | the first occurrence, if there is one |
| FormatScanner.Write | spdlog-1.8.2/include/spdlog/fmt/bundled/format.h:3008-3022 | the text up to an opening brace, its doubled closing braces halved, or the error |
| FormatScanner.ScanLong | spdlog-1.8.2/include/spdlog/fmt/bundled/format.h:3024-3032 | the two-pass search makes the same calls |
| FormatScanner.ParseFormatString | spdlog-1.8.2/include/spdlog/fmt/bundled/format.h:2986-3033 | the strategy depends on the length and the calls do not |
| FormatScanner.SkipText | spdlog-1.8.2/include/spdlog/fmt/bundled/format.h:3015-3016 | text without braces can be handed over ahead of the rest |
| FormatScanner.EscapedLiteral | spdlog-1.8.2/include/spdlog/fmt/bundled/format.h:2986-3033 | a literal with every brace doubled makes only text calls, and their texts joined are the literal |
| IteratorBuffer.Buffer.Append | spdlog-1.8.2/include/spdlog/fmt/bundled/format.h:598-611 | appends all of the text for any length, by filling and flushing, and ends |
| IteratorBuffer.Buffer.PushBack | spdlog-1.8.2/include/spdlog/fmt/bundled/core.h:735-738 | one character more, after a flush if the buffer is full |
| IteratorBuffer.Buffer.TryReserve | spdlog-1.8.2/include/spdlog/fmt/bundled/core.h:731-733 | a full buffer is emptied and any other left alone, and nothing written is lost |
| IteratorBuffer.Buffer.Grow | spdlog-1.8.2/include/spdlog/fmt/bundled/core.h:779-781 | emptied if full, to the output or to the count |
| IteratorBuffer.Buffer.Limit | spdlog-1.8.2/include/spdlog/fmt/bundled/core.h:755-768 | at most what the limit leaves, and the count grows by all that was written |
| IteratorBuffer.Buffer.Flush | spdlog-1.8.2/include/spdlog/fmt/bundled/format.h:613-617 | what was flushed followed by what is buffered stays everything written, cut off at the limit |
| IteratorBuffer.Buffer.WriteDirect | spdlog-1.8.2/include/spdlog/fmt/bundled/format.h:395-401 | a pointer to free room exactly when the text fits, which is then part of the text written |
| IteratorBuffer.Buffer.Out | spdlog-1.8.2/include/spdlog/fmt/bundled/core.h:791-794 | all of the text, or its first limit characters |
| IteratorBuffer.Buffer.Count | spdlog-1.8.2/include/spdlog/fmt/bundled/core.h:795 | the whole length when limited or counting, and only the buffered part otherwise |
| IteratorBuffer.DeliveredMore | spdlog-1.8.2/include/spdlog/fmt/bundled/core.h:755-768 | cutting off flush by flush is cutting off once |
| IteratorBuffer.FormatToN | spdlog-1.8.2/include/spdlog/fmt/bundled/core.h:2017-2024 | for any sequence of pushes, appends, reservations and direct writes: the first min(n, total) characters, and the total |
| IteratorBuffer.FormatTo | spdlog-1.8.2/include/spdlog/fmt/bundled/core.h:770-796 | for any sequence of those actions: all of the text, in order, once |
| IteratorBuffer.FormattedSize | spdlog-1.8.2/include/spdlog/fmt/bundled/core.h:2047-2052 | for any sequence of those actions: the length of the text |
| CircularQueue.KeepsTheLast | spdlog-1.8.2/include/spdlog/details/circular_q.h:49-62 | any sequence of pushes leaves the last items, in order, up to the capacity |
| CircularQueue.RingPush | spdlog-1.8.2/include/spdlog/details/circular_q.h:53-60 | on the vector: one item more at the tail, and the oldest gone exactly when the ring was full |
| CircularQueue.RingPop | spdlog-1.8.2/include/spdlog/details/circular_q.h:99-102 | on the vector: the head is the oldest item |
| CircularQueue.RingAt | spdlog-1.8.2/include/spdlog/details/circular_q.h:91-95 | on the vector: index i counts from the oldest item |
| CircularQueue.CircularQ.PushBack | spdlog-1.8.2/include/spdlog/details/circular_q.h:49-62 | refines the bounded queue; what left followed by the contents stays everything pushed, and the counter counts exactly the overrun items |
| CircularQueue.CircularQ.PopFront | spdlog-1.8.2/include/spdlog/details/circular_q.h:99-102 | the oldest item leaves and is recorded as popped |
| CircularQueue.CircularQ.Front | spdlog-1.8.2/include/spdlog/details/circular_q.h:66-69 | the oldest item |
| CircularQueue.CircularQ.Size | spdlog-1.8.2/include/spdlog/details/circular_q.h:77-87 | the number of items |
| CircularQueue.CircularQ.At | spdlog-1.8.2/include/spdlog/details/circular_q.h:91-95 | the i-th item, oldest first |
| CircularQueue.CircularQ.Empty | spdlog-1.8.2/include/spdlog/details/circular_q.h:104-107 | no items |
| CircularQueue.CircularQ.Full | spdlog-1.8.2/include/spdlog/details/circular_q.h:109-117 | as many items as the capacity, and never when disabled |
| CircularQueue.CircularQ.MoveFrom | spdlog-1.8.2/include/spdlog/details/circular_q.h:126-138 | takes over contents, counter and history and leaves the other queue disabled and empty; a queue moved onto itself ends up disabled and empty |
| Backtrace.Backtracer.Enable | spdlog-1.8.2/include/spdlog/details/backtracer-inl.h:33-38 | an empty ring of the given capacity |
| Backtrace.Backtracer.PushBack | spdlog-1.8.2/include/spdlog/details/backtracer-inl.h:51-55 | one message more in the bounded ring |
| Backtrace.Backtracer.ForeachPop | spdlog-1.8.2/include/spdlog/details/backtracer-inl.h:58-67 | hands over every message, oldest first, and leaves the ring empty |
| Backtrace.Backtracer.Dump | spdlog-1.8.2/include/spdlog/details/backtracer-inl.h:33-67 | enabling, logging any messages and dumping hands over exactly the last ones, in order |
| Backtrace.RingbufferSink.SinkIt | spdlog-1.8.2/include/spdlog/sinks/ringbuffer_sink.h:59-62 | one message more in the bounded ring |
| Backtrace.RingbufferSink.LastRaw | spdlog-1.8.2/include/spdlog/sinks/ringbuffer_sink.h:28-40 | the lim most recent messages in order, or all of them when lim is zero |
| ThreadPool.InitInv | spdlog-1.8.2/include/spdlog/details/thread_pool-inl.h:16-31 | a new pool satisfies the invariant |
| ThreadPool.StepKeepsInv | spdlog-1.8.2/include/spdlog/details/mpmc_blocking_q.h:32-67 | every step of every thread keeps the invariant: queue, sleepers, fates of messages, shutdown |
| ThreadPool.RunKeepsInv | spdlog-1.8.2/include/spdlog/details/thread_pool-inl.h:88-126 | so does every interleaving |
| ThreadPool.NoStrandedSleeper | spdlog-1.8.2/include/spdlog/details/mpmc_blocking_q.h:32-67 | no wakeup is lost: a poster that sleeps while there is room, or a worker that sleeps while there are messages, has a notification or a woken thread coming |
| ThreadPool.GracefulShutdown | spdlog-1.8.2/include/spdlog/details/thread_pool-inl.h:38-53 | when all joins have returned the queue is empty, each worker took exactly one terminate message, every message ever handed to the queue was posted, and each posted one not overrun was handled exactly once |
| ThreadPool.NowaitPosts | spdlog-1.8.2/include/spdlog/details/mpmc_blocking_q.h:42-50 | enqueue_nowait always posts: the message is the last of the queue, and a full queue, and only a full one, loses its oldest message to it |
| ThreadPool.WaitingPosts | spdlog-1.8.2/include/spdlog/details/mpmc_blocking_q.h:32-40 | enqueue posts behind the others when there is room, and otherwise sleeps with its message; nothing is overrun |
| ThreadPool.OthersDoNotPost | spdlog-1.8.2/include/spdlog/details/mpmc_blocking_q.h:54-67 | every other step leaves the posted and the waiting messages alone, and only a dequeue takes one, the oldest |
| ThreadPool.RunConserves | spdlog-1.8.2/include/spdlog/details/mpmc_blocking_q.h:32-67 | over every run: the messages handed over are exactly those posted and those whose posters wait |
| ThreadPool.PostedInOrder | spdlog-1.8.2/include/spdlog/details/mpmc_blocking_q.h:32-50 | over every run: what is posted is what the successful posts brought, in their order |
| ThreadPool.ExitedBound | spdlog-1.8.2/include/spdlog/details/thread_pool-inl.h:42-45 | no more workers have exited than terminate messages were taken |
| ThreadPool.Progress | spdlog-1.8.2/include/spdlog/details/thread_pool-inl.h:38-126 | until all workers are joined some thread can make a productive step |
| ThreadPool.NoDeadlock | spdlog-1.8.2/include/spdlog/details/thread_pool-inl.h:38-126 | a state in which nobody can move but by a spurious wakeup is a finished shutdown |
| ThreadPool.StepDecreases | spdlog-1.8.2/include/spdlog/details/thread_pool-inl.h:38-126 | every productive step after the start of destruction lowers a measure |
| ThreadPool.ShutdownIsBounded | spdlog-1.8.2/include/spdlog/details/thread_pool-inl.h:38-126 | so without spurious wakeups a shutdown takes a bounded number of steps under any scheduling |
| ThreadPool.ShutdownCompletes | spdlog-1.8.2/include/spdlog/details/thread_pool-inl.h:38-126 | and from every state of a started shutdown a clean end is reached |
| ThreadPool.NoRoom | spdlog-1.8.2/include/spdlog/details/mpmc_blocking_q.h:32-40 | with capacity zero no terminate message can ever be posted |
| ThreadPool.ShutdownPossibleIff | spdlog-1.8.2/include/spdlog/details/thread_pool-inl.h:16-53 | the destructor can return if and only if the queue has room for at least one message |
| ThreadPool.BlockingNeverOverruns | spdlog-1.8.2/include/spdlog/details/mpmc_blocking_q.h:32-40 | no step but enqueue_nowait overruns a message |
| BlockReader.SegmentSize | src/v2/block_reader.cpp:19-22 | the largest multiple of the chunk size not above 128 MiB, or one chunk if that is larger |
| BlockReader.Reader.constructor | src/v2/block_reader.cpp:11-25 | all segments of the block are still to be delivered |
| BlockReader.Reader.DoRead | src/v2/block_reader.cpp:72-116 | delivers the next segment and goes on exactly if there is one more; the offset grows |
| BlockReader.Reader.ReadEntireBlock | src/v2/block_reader.cpp:118-143 | one segment with all the chunks and the tail of the block |
| BlockReader.Reader.ReadSegment | src/v2/block_reader.cpp:145-184 | a segment of whole chunks at the offset before the step |
| BlockReader.Reader.ReadTail | src/v2/block_reader.cpp:90-115 | the rest of the block as chunks and tail |
| BlockReader.Reader.ReadAll | src/v2/block_reader.cpp:72-184 | repeated steps end and deliver exactly the segments of the block, in order |
| BlockReader.SegmentsTile | src/v2/block_reader.cpp:72-184 | the segments tile the block: its bytes once, chunk counts summing to chunks_count(), each starting at the chunk after the one before, only the last with tail_size() |
| BlockReader.WholeChunkIff | src/v2/block_reader.cpp:72-184 | every segment holds a whole chunk if and only if the block has one and does not end in less than a chunk after full segments |
| BlockReader.OwnBytesIff | src/v2/block_reader.cpp:28 | the bytes read are those at the block offset, for every file, if and only if that offset is zero |
| BlockReader.BytesRead | src/v2/block_reader.cpp:72-184 | the segments of a block put together are the first bytes of the file, and zeros past its end |
| SegmentHasher.HashSegment | src/v2/hasher.cpp:12-46 | fills the buffer with the hashes of the chunks and of the tail, and passes block, first chunk and count on |
| SegmentHasher.HashesLength | src/v2/hasher.cpp:14-16 | four bytes for each chunk, and four more if there is a tail |
| SegmentHasher.HashOfChunk | src/v2/hasher.cpp:27-38 | the four bytes of word i make the crc of chunk i, least significant first, and those after the whole chunks that of the tail |
| SegmentHasher.BytesOfWord | src/v2/hasher.cpp:29-30 | the four bytes copied from a word make the word again, the least significant first |
| SegmentHasher.HashesAppend | src/v2/hasher.cpp:27-32 | whole chunks hash on their own, so hashing segment by segment is hashing the block |
| Writer.SignatureWriter.constructor | src/v2/writer.cpp:13-26 | expects the sum of the chunk counts of all blocks |
| Writer.SignatureWriter.Receive | src/v2/writer.cpp:65-103 | one arrival: kept in key order, counted, and all written exactly when the count meets the total |
| Writer.SignatureWriter.ReceiveAll | src/v2/writer.cpp:65-103 | any arrivals one after another: the state that the theorems about runs speak of |
| Writer.InsertNew | src/v2/writer.cpp:71-73 | a new key goes to its place in (block, chunk) order and nothing else changes |
| Writer.InsertKnown | src/v2/writer.cpp:71-73 | a key that is there already changes nothing, and the entry counted is the old one |
| Writer.SortedUnique | src/v2/writer.cpp:105-117 | what is held in key order depends on what arrived and not on the order of arrival |
| Writer.RunHolds | src/v2/writer.cpp:65-80 | after any arrivals: all of them, in key order, and counted |
| Writer.WrittenOnLastIff | src/v2/writer.cpp:65-103 | for each order of arrival: nothing before the last arrival, then all bytes in key order and one success, if and only if the last segment adds a chunk or is the only one |
| Writer.EveryOrderIff | src/v2/writer.cpp:65-103 | this holds for every order if and only if there is one segment or each holds a whole chunk |
| Writer.LateArrivals | src/v2/writer.cpp:65-103 | the first arrival with which the chunks reach the total writes what is there in key order and reports success; each later one reports a failure and the file stays as it is |
| Writer.SomeReaches | src/v2/writer.cpp:74-79 | there is such an arrival in every run whose chunks add up to the total |
| SignaturePipeline.BlockSigned | src/v2/hasher.cpp:12-46 | the hashed segments of a block put together are the hashes of its bytes as a whole, in key order |
| SignaturePipeline.ExpectedSigned | src/v2/writer.cpp:83-89 | all hashed segments in key order are the signature, and their chunks the expected total |
| SignaturePipeline.SignedOnLastIff | src/v2/writer.cpp:65-103 | for a block table and each order of arrival: the whole signature is written once, on the last arrival, if and only if that segment holds a whole chunk or is the only one |
| SignaturePipeline.LateSegments | src/v2/writer.cpp:65-103 | for a block table whose chunks are complete early: one success, a failure for each later segment, and exactly the hashes of those are missing in the file |
| SignaturePipeline.TailTooLate | src/v2/writer.cpp:65-103 | one block that ends in less than a chunk after full segments, arriving in order: success and then a failure, and the signature lacks its last four bytes |
| SignaturePipeline.SignedInEveryOrderIff | src/v2/writer.cpp:65-103 | for every order, if and only if one segment arrives or no block ends in less than a chunk; a condition on block and chunk sizes alone |
| FileNames.SplitExact | spdlog-1.8.2/include/spdlog/details/file_helper-inl.h:109-129 | stem and extension joined are the name; an extension is found exactly when there is one, and only one split is possible |
| FileNames.CalcFilenameInjective | spdlog-1.8.2/include/spdlog/sinks/rotating_file_sink-inl.h:43-54 | different indices name different files |
| FileNames.CalcFilenameIs | spdlog-1.8.2/include/spdlog/sinks/rotating_file_sink-inl.h:43-54 | stem, a dot, the numeral of the index, extension; or the whole name first if it has no extension |
| FileNames.NumeralValue | spdlog-1.8.2/include/spdlog/sinks/rotating_file_sink-inl.h:43-54 | the numeral consists of digits without a leading zero that evaluate to the index |
| RotatingSink.RotatingFileSink.constructor | spdlog-1.8.2/include/spdlog/sinks/rotating_file_sink-inl.h:27-39 | opens for appending, and rotates at once if asked to and not empty; current_size_ is then the size of the file rotated away |
| RotatingSink.RotatingFileSink.RenameFile | spdlog-1.8.2/include/spdlog/sinks/rotating_file_sink-inl.h:122-128 | the target is removed; the source then takes its place, or the rename fails because there is no source |
| RotatingSink.RotatingFileSink.Rotate | spdlog-1.8.2/include/spdlog/sinks/rotating_file_sink-inl.h:88-118 | the whole new file set, gaps included: every file moves up one, the last gives way if the one before exists, the active file is empty, no other file changes |
| RotatingSink.RotatingFileSink.SinkIt | spdlog-1.8.2/include/spdlog/sinks/rotating_file_sink-inl.h:63-75 | appended, or first in the new active file after a rotation |
| RotatingSink.RotatingFileSink.SinkAll | spdlog-1.8.2/include/spdlog/sinks/rotating_file_sink-inl.h:63-75 | any messages one after another make a run of the kind the theorems about histories speak of |
| RotatingSink.RotationUnique | spdlog-1.8.2/include/spdlog/sinks/rotating_file_sink-inl.h:88-118 | the description of a rotation leaves one result |
| RotatingSink.RotateHolds | spdlog-1.8.2/include/spdlog/sinks/rotating_file_sink-inl.h:94-116 | what each file holds after a rotation |
| RotatingSink.RotateFlat | spdlog-1.8.2/include/spdlog/sinks/rotating_file_sink-inl.h:94-117 | a rotation drops at most the oldest file and keeps the order of the rest |
| RotatingSink.SunkParts | spdlog-1.8.2/include/spdlog/sinks/rotating_file_sink-inl.h:63-75 | a message is added whole to one file and at most the oldest file goes |
| RotatingSink.RunKeepsLast | spdlog-1.8.2/include/spdlog/sinks/rotating_file_sink-inl.h:63-118 | over any messages the files hold the last pieces of the stream |
| RotatingSink.SizeKept | spdlog-1.8.2/include/spdlog/sinks/rotating_file_sink-inl.h:63-75 | over any messages current_size_ never underestimates the active file, which is within max_size or is the last message alone |
| RotatingSink.SurplusStays | spdlog-1.8.2/include/spdlog/sinks/rotating_file_sink-inl.h:63-75 | over any messages what current_size_ exceeds the active file by stays the same until the first rotation and is zero from then on |
| RotatingSink.RotatesIff | spdlog-1.8.2/include/spdlog/sinks/rotating_file_sink-inl.h:63-75 | any message of any run rotates the files if and only if active file, message and that surplus exceed max_size, and is otherwise appended |
| RotatingSink.ExactStays | spdlog-1.8.2/include/spdlog/sinks/rotating_file_sink-inl.h:63-75 | an exact counter stays exact, and a message rotates the files if and only if the active file has no room for it |
| RotatingSink.HistoryRotates | spdlog-1.8.2/include/spdlog/sinks/rotating_file_sink-inl.h:27-75 | so it is over every history unless a nonempty file was rotated away on opening |
| RotatingSink.CountedAfterOpenIff | spdlog-1.8.2/include/spdlog/sinks/rotating_file_sink-inl.h:27-39 | after opening current_size_ is the size of the active file, if and only if it was not rotated away on opening with something in it |
| RotatingSink.EarlyRotationIff | spdlog-1.8.2/include/spdlog/sinks/rotating_file_sink-inl.h:27-75 | the first message rotates an active file that has room for it, if and only if a nonempty file was rotated on opening, the message fits in max_size and would not have fitted behind the old contents |
| RotatingSink.RotatesEmptyFile | spdlog-1.8.2/include/spdlog/sinks/rotating_file_sink-inl.h:27-75 | three characters rotated on opening, a limit of four, one backup: a message of two rotates the empty file and the three are lost |
| RotatingSink.RunStaysGapFree | spdlog-1.8.2/include/spdlog/sinks/rotating_file_sink-inl.h:88-118 | a gap-free file set stays gap-free, one more slot taken by each rotation until all are |
| RotatingSink.NothingLost | spdlog-1.8.2/include/spdlog/sinks/rotating_file_sink-inl.h:63-118 | nothing is lost while there is a slot left for each rotation |
| RotatingSink.History | spdlog-1.8.2/include/spdlog/sinks/rotating_file_sink-inl.h:27-128 | from any file set, over every history: files read oldest to newest are the last pieces of the whole stream, each piece within one file, the active file within its limit or the last message alone, no other file changed |

## Left out

- Bigints.Bigint.DivmodAssign: the quotient must fit the int that counts it, and a zero dividend must not have more limbs than the divisor, since `compare` would take it for the larger and the subtraction would go below zero.
- Bigints.Bigint.AssignPow10: exponents below 2^30 only, since the int bit mask overflows beyond.
- `int` overflow of `exp_` and wrap-around of `size_t` counters.
- Decoding a double into significand and exponent (`fp::assign`), and the precision estimate before `fallback_format`.
- Bytes that `try_resize` leaves uninitialised are modelled as zeros; every one of them is written before it is read.
- Dragonbox `to_decimal` as a whole, its power-of-ten tables and logarithm approximations; Grisu; `snprintf_float`, `write_float`, locales and named arguments.
- What a format spec means: only where it starts and ends is modelled, through the handler.
- The rejected half of malformed UTF-8 is given by `AcceptedIff`, not by an error position.
- `iterator_buffer` specialisations that write straight into memory or a growing container: their `grow` changes capacity and never flushes.
- `try_resize` beyond the capacity of a flushing buffer, which no caller asks for.
- The MinGW variant of the queue, which notifies under the lock; posts that arrive after destruction has started; exceptions from sinks; thread creation failure.
- Logging and flushing are one kind of message in the pool, since both are handled once and keep the worker.
- Descriptors, file advice, failed or interrupted reads, strands and executors: a posted task is one step.
- The crc intrinsic, whose tail loop does not advance its pointer: no claim is made about the checksum itself.
- How the block table is cut from the file (`block_file_t`), and the v1 pipeline.
- Renames that fail for another reason than a missing source, their retry and the exception that follows; failed opens and short writes of log files; clocks.
- Pattern formatting, the registry, level parsing, hex dump, platform sinks, TCP client, colours, benchmarks.
