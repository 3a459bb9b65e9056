# Verified model of the wjr number and text kernels

wjr is a C++20 library of low-level building blocks. This project models its five hardest
hand-written kernels in Dafny and proves what each of them is for.

* **Decimal to binary, slow path** (`src/format/fastfloat.cpp`). When the fast conversion cannot
  decide, the digits are read into a big integer, scaled by powers of five and two and compared with
  the point halfway between two floats. The claim proved is correct rounding, roundTiesToEven of
  section 4.3.1 of IEEE 754-2019, for every digit string and for any format that is sound in a sense
  that binary32 and binary64 are shown to meet. `FloatFormat` defines rounding without reference to
  any algorithm: a float is its bit pattern, `Units` is its value, and `Nearest` is shown to mean
  "no other float is closer, and on a tie the even one". `DecimalRounding` holds the theory of
  comparing a * 10^g with halfway points, `PackedDigits` the conversion of eight digits in one word,
  `MantissaDigits` and `BigInts` the reading and scaling on limbs, `SlowPathRoom` why the fixed
  storage of 62 limbs is always enough, `DigitComp` the two branches and the rounding of bit fields.
  `FloatValues` gives every pattern of the two formats its value in real numbers, and
  `DigitCompTypes` states the result for double and float as the closest value.
* **JSON lexer and minifier** (`src/json/lexer.cpp`). Both work on 64-byte blocks by mask arithmetic
  with carries for escapes, strings and scalar boundaries. `JsonAutomaton` gives the lexical rules one
  byte at a time; the blocks are proved to agree with it for every text, every block border and every
  sequence of resumed calls. `Word64` has the mask helpers, with subtraction as the borrow chain that
  is shown to be subtraction modulo 2^64. `JsonTokenCount` is about the lexer's 32-bit token count, in
  which one bit flags the end of the text.
* **Signed-magnitude big integers** (`src/biginteger/biginteger.cpp`). Numbers are limb arrays with a
  signed length, and any result may be any operand. Sums, products, multiply-and-add, division and
  remainders by powers of two are proved against the integers they stand for. The limb primitives they
  call are loops over arrays in `LimbOps`, and `LimbDivision` is the schoolbook division down to the
  guess of one quotient limb.
* **Decimal printer** (`src/format/dragonbox.cpp`). Digits come out of a 64-bit product two at a time.
  The error bounds behind the magic multipliers and the threshold tests are proved, and the text
  written is read back by an independent reader to the number that was to be printed.
* **Multi-rank selection and batched binary search** (`benchmarks/src/np_partition.cpp`,
  `benchmarks/src/np_searchsorted.cpp`), in place and over strided arrays.

## Where the code departs from the plain value

Each of these is proved as the exact condition under which the operation does what its name says.

* `0 - x` into x itself leaves x as it is, because the sign is not written when the operand that
  is left is already the destination (biginteger.cpp lines 302-309): `BigIntegers.AddSub`, with an instance
  in `BigIntegers.SignLostExample`.
* A difference of magnitudes drops one zero limb at most. When the limbs below the highest
  difference cancel, as in 2^128 - (2^128 - 1), zero limbs stay on top and the result is not
  normalized; the value is still right. `LimbDifference.NormalDifference` and `BigIntegers.AddSub` say
  exactly when, `BigIntegers.ZerosOnTopExample` gives that instance. The
  other operations rely on normalized operands.
* Multiply-and-add into a zero destination adds one to a signed length, so that for a negative factor
  a carry limb makes the number shorter (line 478): `BigIntegerProducts.AddSubMulLimb`, with an
  instance in `BigIntegerProducts.LostCarryExample`.
* The subtracting branch of the many-limb multiply-and-add leaves the absolute value of the
  difference, at the longer length (line 644), so that the result is normalized exactly if it fills
  that length: `BigIntegerProducts.AddSubMul`, with an instance in
  `BigIntegerProducts.DifferenceExample`.
* The capacity for a number of n digits is computed in 32 bits and wraps around, in base ten from
  n = 429496730 on: `DecimalCapacity.CapacitySuffices`, which has the last n for each base.
* The lexer adds 2^31 to its 32-bit token count at the end of the text. For a buffer size of 2^31 - 64
  or more the count can reach that bit before the end, and the number returned is then wrong; for a
  size of 2^31 + n or more, with n tokens left, the loop does not end. `JsonTokenCount.AlwaysRightIff` and
  `JsonTokenCount.EndsIff` say exactly when, `JsonTokenCount.CountOverflows` and
  `JsonTokenCount.BlankNeverEnds` give instances.
* Minifying tracks escapes outside strings too, so a second pass can change the text; exactly when,
  told from the input alone, is `JsonIdempotence.MinifyIdempotentIff`, and JSON texts are safe.

## Model

| member | source | states |
|---|---|---|
| FloatFormat.NearestIsClosest | src/format/fastfloat.cpp:492-504 | The specification of rounding means what it should: of all floats up to infinity none is closer to the number than the one called nearest, and at equal distance that one is even |
| FloatFormat.NearestUnique | src/format/fastfloat.cpp:492-504 | No number rounds to two floats, so the specification determines the result |
| FloatFormat.Binary64IsSound | include/wjr/format/fastfloat/binary_format.hpp:116-254 | binary64's constants meet all assumptions on a format; in particular no halfway point has more than 769 significant digits |
| FloatFormat.Binary32IsSound | include/wjr/format/fastfloat/binary_format.hpp:121-254 | The same for binary32 and 114 digits |
| FloatValues.RoundsToDouble | src/format/fastfloat.cpp:492-510 | In real numbers: a decimal rounds to a binary64 pattern if and only if no other pattern up to that of infinity is closer, or as close if the pattern is odd, where fields e > 0 and m stand for (2^52 + m) * 2^(e - 1075), and e = 0 for m * 2^-1074 |
| FloatValues.RoundsToSingle | src/format/fastfloat.cpp:492-507 | The same for binary32 with 23 bits, 2^(e - 150) and 2^-149 |
| FloatValues.EveryDouble | include/wjr/format/fastfloat/binary_format.hpp:116-149 | Every finite binary64 pattern is what the exact decimal of its value rounds to, written with powers of two or five and without the format's constants |
| FloatValues.EverySingle | include/wjr/format/fastfloat/binary_format.hpp:121-153 | The same for binary32 |
| FloatValues.DoubleSamples | include/wjr/format/fastfloat/binary_format.hpp:147-159 | 1 rounds to 0x3FF0000000000000, (2^53 - 1) * 2^971 to 0x7FEFFFFFFFFFFFFF and the tie 2^1024 - 2^970 to 0x7FF0000000000000 |
| FloatValues.SingleSamples | include/wjr/format/fastfloat/binary_format.hpp:152-164 | The same for binary32: 0x3F800000, 0x7F7FFFFF, 0x7F800000 |
| DigitCompTypes.DigitCompDouble | src/format/fastfloat.cpp:509-510 | For the digits of both spans, the first that is not zero worth 10^sci_exp, the fields returned are those of the closest binary64 pattern in real numbers, even on a tie; the estimate only has to lie between the same two neighbouring values as the number, and only where it is used |
| DigitCompTypes.DigitCompFloat | src/format/fastfloat.cpp:506-507 | The same for binary32 |
| DigitCompTypes.EstimateBetween | src/format/fastfloat.cpp:449-453 | An estimate mantissa * 2^(power2 - bias) lies between the value of the pattern it is rounded down to and the next, normal, subnormal or shifted out altogether |
| DigitComp.DigitComp | src/format/fastfloat.cpp:492-504 | For every digit string with a significant digit the result is the float nearest to the number written, ties to even, infinity on overflow, and no integer outgrows its fixed storage; the estimate is only trusted to be the float just below, and only where it is used |
| DigitComp.PositiveDigitComp | src/format/fastfloat.cpp:419-436 | For every mantissa > 0 and exponent >= 0 the result is the float nearest to mantissa * 10^exponent, infinity exactly on overflow |
| DigitComp.AtPoint | src/format/fastfloat.cpp:499-500 | Where the digits kept end at the decimal point or before, the result is the float nearest to the full digit string |
| DigitComp.BelowPoint | src/format/fastfloat.cpp:501-503 | Where they reach below it likewise, given that the estimate rounded down is the float just below |
| DigitComp.CompareHalfway | src/format/fastfloat.cpp:454-472 | The sign of the comparison of the scaled integers is that of mantissa * 10^exponent minus the point halfway above b |
| DigitComp.NegativeDigitComp | src/format/fastfloat.cpp:443-489 | The result is the pattern b of the estimate rounded down, or its successor, by the sign of mantissa * 10^exponent minus the point halfway above b, even on a tie; through subnormal, carry and overflow |
| DigitComp.Round | src/format/fastfloat.cpp:61-90 | The bit fields produced are those of the pattern rounded down, plus one if the callback rounds up, capped at infinity: the carries into the hidden bit, the exponent and infinity are all increments of one number |
| DigitComp.HeadRounds | src/format/fastfloat.cpp:428-433 | Rounding the top 64 bits with the truncation flag rounds the whole integer correctly |
| DigitComp.ToExtended | src/format/fastfloat.cpp:24-47 | The extended mantissa and exponent have the value of the float, normal or subnormal, and the exponent gives the distance to the next float |
| DigitComp.ToExtendedHalfway | src/format/fastfloat.cpp:52-59 | The result is exactly halfway between the float and the next one |
| DigitComp.ScaledCompare | src/format/fastfloat.cpp:459-472 | After scaling by 5^k and by 2 to the difference of exponents, on whichever side, the integers compare as the two rational numbers do |
| DecimalRounding.RoundsFromBelow | src/format/fastfloat.cpp:471-486 | If b is the float just below a number, comparing with the point halfway above b, and parity on a tie, gives the nearest float |
| DecimalRounding.RoundsToInfinity | src/format/fastfloat.cpp:84-89 | From the value that the pattern of infinity would have on, the nearest float is infinity |
| DecimalRounding.NoHalfInside | src/format/fastfloat.cpp:220-225 | With the format's maximum of digits kept, no halfway point lies strictly between two neighbouring values of the last kept place |
| MantissaDigits.ParseMantissa | src/format/fastfloat.cpp:330-417 | The big integer holds the significant digits, or the first max_digits of them, with a one appended exactly when a nonzero digit was dropped, and digits counts what it holds |
| MantissaDigits.ParseFraction | src/format/fastfloat.cpp:379-412 | The same for the fraction part after integer digits that did not fill it, leading zeros skipped only if there were none |
| MantissaDigits.Consume | src/format/fastfloat.cpp:348-376 | The digit loop stops full or at the end of the span, having read exactly the digits passed |
| MantissaDigits.Gather | src/format/fastfloat.cpp:349-356 | One round reads at least one digit and at most 19, eight at a time from one word where it can, and never more than the maximum |
| MantissaDigits.RoundUp | src/format/fastfloat.cpp:220-225 | Appends the marker digit exactly when a nonzero digit was dropped |
| MantissaDigits.SkipZeros | src/format/fastfloat.cpp:132-147 | Leaves exactly the significant digits, passing eight zeros at a time by comparing a word |
| MantissaDigits.IsTruncated | src/format/fastfloat.cpp:151-168 | Says whether any digit is not zero, by words and then by bytes |
| PackedDigits.MemoryOfZeros | src/format/fastfloat.cpp:135-137 | Eight characters read as one word equal the constant exactly if all eight are zeros |
| PackedDigits.ConvertIs | include/wjr/math/integral_constant.hpp:22-33 | Three multiplications, shifts and masks in 64 bits turn the word of eight digits into the number that they write, without a carry between lanes |
| PackedDigits.ParseEight | include/wjr/format/charconv.hpp:2321-2323 | So eight digits are read at once, after taking the eight zero characters off |
| MantissaDigits.KeptComparesAlike | src/format/fastfloat.cpp:220-225 | The digits kept, marker included, compare with every halfway point just as the full digit string does |
| MantissaDigits.KeptRoundsAlike | src/format/fastfloat.cpp:220-225 | So they round to the same float |
| SlowPathRoom.ComparisonFits | src/format/fastfloat.cpp:190-191 | Every integer that the comparison with a halfway point computes, on either side and whichever side is scaled, fits 62 limbs with the room that the multiplications reserve |
| SlowPathRoom.Binary64HasRoom | src/format/fastfloat.cpp:190-191 | For binary64 this holds at every decimal exponent from -400 to 900, further than the fast path lets through |
| SlowPathRoom.Binary32HasRoom | src/format/fastfloat.cpp:190-191 | The same for binary32 |
| SlowPathRoom.HalfTriple | src/format/fastfloat.cpp:455-456 | A halfway point is at most three times the one before it, so that it needs hardly more digits than the number |
| BigInts.BigInt.Pow5 | src/format/fastfloat.cpp:227-282 | Multiplies by 5^exp, in steps of 5^135, 5^27 and one table entry, within the storage if the result leaves five limbs |
| BigInts.BigInt.MulLimb | src/format/fastfloat.cpp:216 | The product of a magnitude by one limb in place, normalized, zero factors included; also lines 275 and 280 |
| BigInts.BigInt.Mul | src/format/fastfloat.cpp:267 | The product of a magnitude by any normalized number, normalized, in place |
| BigInts.BigInt.Add | src/format/fastfloat.cpp:217 | The sum of a magnitude and one limb in place, normalized, also from zero |
| BigInts.BigInt.Pow2 | src/format/fastfloat.cpp:284 | Multiplies a magnitude by 2^exp in place, by whole limbs and bits, normalized |
| BigInts.CompareTo | src/format/fastfloat.cpp:472 | For two magnitudes the order of the lengths, then of the highest differing limbs, is the order of the numbers |
| BigInts.BigInt.Pow10 | src/format/fastfloat.cpp:285-288 | Multiplies by 10^exp |
| BigInts.BigInt.AddNative | src/format/fastfloat.cpp:215-218 | Multiplies by one word and adds another |
| BigInts.TableOfFives | src/format/fastfloat.cpp:228-257 | Every entry of the table is the power of five it should be |
| BigInts.TableOfTens | src/format/fastfloat.cpp:193-213 | Every entry of the table is the power of ten it should be |
| BigInts.LargeIsPower | src/format/fastfloat.cpp:259-264 | The five limbs hold 5^135 |
| BigInts.Hi64 | src/format/fastfloat.cpp:315-327 | The 64 bits from the highest set one down, and whether any bit below them is set |
| BigInts.Hi64OfTwo | src/format/fastfloat.cpp:301-311 | The same for the top two limbs |
| BigInts.ReverseFindNotZero | src/format/fastfloat.cpp:325 | The scan finds a limb exactly when the lower limbs are not all zero |
| Limbs.ClzNormalizes | src/format/fastfloat.cpp:295-299 | Shifting by the leading zeros puts the highest set bit on top and loses none |
| JsonBytes.TableClassifies | src/json/lexer.cpp:10-18 | The class table puts all 256 byte values into the class of the lexical rules |
| JsonBytes.ClassesAre | src/json/lexer.cpp:10-18 | The classes in characters: structural are [ { ] } : and comma, whitespace is space, tab, line feed and carriage return, as section 2 of RFC 8259 has them |
| JsonAutomaton.TokensExact | src/json/lexer.cpp:77-97 | The tokens listed are exactly the positions whose byte starts one in the state that the bytes before lead to |
| JsonAutomaton.TokenIff | src/json/lexer.cpp:77-97 | Told from the text alone: a position is listed if and only if its byte is a quote after an even run of backslashes, or an even number of such quotes come before it and it is structural, or they do and it is not whitespace and is first or comes after whitespace or a structural byte |
| JsonAutomaton.TokensOfList | src/json/lexer.cpp:91-97 | The text [1] has the tokens 0, 1 and 2 |
| JsonAutomaton.KeptIff | src/json/lexer.cpp:213-248 | Told from the text alone: one more byte is kept unless it is whitespace after an even number of unescaped quotes |
| JsonAutomaton.BackslashRunIs | src/json/lexer.cpp:77-85 | The run counted is the longest run of backslashes at the end |
| JsonAutomaton.QuotesStep | src/json/lexer.cpp:87-89 | The count of quotes grows by one exactly with a quote after an even run of backslashes |
| JsonAutomaton.TokensIncrease | src/json/lexer.cpp:99-159 | They are listed in strictly increasing order, within the text |
| JsonAutomaton.TokensAppend | src/json/lexer.cpp:44-162 | Lexing may be cut anywhere: the tokens of the parts are those of the whole |
| JsonAutomaton.KeptAppend | src/json/lexer.cpp:185-250 | Minifying may be cut anywhere |
| JsonAutomaton.EscapedIsOddRun | src/json/lexer.cpp:77-85 | The escape state is what it should be: a byte is escaped exactly when an odd run of backslashes ends right before it |
| JsonAutomaton.InStringIsOddQuotes | src/json/lexer.cpp:87-89 | A byte is in a string exactly when an odd number of unescaped quotes come before it |
| Word64.SubIsModular | include/wjr/json/lexer-impl.hpp:11-18 | Subtraction of words is the difference of the numbers modulo 2^n, with a borrow exactly when it is negative |
| Word64.CalcBackslashMarks | include/wjr/json/lexer-impl.hpp:11-18 | One subtraction marks every backslash that escapes and every other byte right after one |
| Word64.PrefixXorIsParity | include/wjr/math/prefix_xor.hpp:24-42 | Six doublings give every bit the parity of the bits up to it |
| Word64.PrefixXorStep | include/wjr/math/prefix_xor.hpp:24-42 | Each bit flips the parity before it |
| Word64.ClearLowest | src/json/lexer.cpp:106 | x & (x - 1) clears exactly the lowest set bit |
| JsonBlock.Classify | src/json/lexer.cpp:63-75 | Four interleaved lanes collect the four class masks of a block |
| JsonBlock.EscapedMaskAgrees | src/json/lexer.cpp:81-84 | The mask arithmetic and the carry agree with the automaton's escapes at every byte and after the block |
| JsonBlock.Escapes | src/json/lexer.cpp:77-85 | The same with the branch for blocks without backslash |
| JsonBlock.StringMaskAgrees | src/json/lexer.cpp:88 | Parity of quotes, flipped by the carry, is the automaton's string state |
| JsonBlock.Strings | src/json/lexer.cpp:87-89 | Unescaped quotes, string bytes and the sign-filled carry agree with the automaton |
| JsonLexer.BoundaryAgrees | src/json/lexer.cpp:91-93 | Whitespace or structural bytes shifted by one, with the carry, are the places where a scalar may start |
| JsonLexer.StartMaskAgrees | src/json/lexer.cpp:95-97 | The three-step formula marks exactly the token starts |
| JsonLexer.PositionsClear | src/json/lexer.cpp:105-106 | Clearing the lowest set bit drops exactly the first of the listed positions |
| JsonLexer.PositionsAreTokens | src/json/lexer.cpp:99-159 | The set bits of the token mask, in order, are the automaton's tokens of the block |
| JsonLexer.Emit | src/json/lexer.cpp:105-111 | Slots get the positions one after the other, whatever they hold past the last one, and no other slot is written |
| JsonLexer.WriteTokens | src/json/lexer.cpp:99-155 | All tokens of a block are written, in groups, inside 64 slots |
| JsonLexer.Lexer.constructor | include/wjr/json/lexer-impl.hpp:35-56 | A new lexer stands at the start with the automaton's start state in its carries |
| JsonLexer.Lexer.TokenMask | src/json/lexer.cpp:63-97 | The mask marks the token starts of the block, and the carries hold the automaton's state after it |
| JsonLexer.Lexer.TakeBlock | src/json/lexer.cpp:44-61 | The next 64 bytes, or the rest padded with spaces, which adds no token |
| JsonLexer.Lexer.ReadBlock | src/json/lexer.cpp:63-161 | One block of the loop: its tokens at its position, all carries moved on |
| JsonLexer.Lexer.ReadNext | src/json/lexer.cpp:44-162 | The block's tokens are those of the bytes passed, whatever came before |
| JsonLexer.Lexer.Read | src/json/lexer.cpp:32-165 | For every token_buf_size for which the call ends: it writes exactly the automaton's tokens of the bytes it passes and only inside token_buf_size + 64 slots, makes progress, and returns the 32-bit count without its flag, which below 2^31 - 64 is their number and which then ends at the end of the text or with more tokens than asked |
| JsonTokenCount.TokensExtend | src/json/lexer.cpp:32-165 | The tokens of two stretches of the text make those of both |
| JsonTokenCount.TokenInIff | src/json/lexer.cpp:32-165 | The tokens that a call finds in the bytes it passes are those of JsonAutomaton.TokenIff for the whole text, whatever calls came before |
| JsonTokenCount.TokensInOrder | src/json/lexer.cpp:99-159 | They are listed in increasing order, inside the bytes passed |
| JsonTokenCount.EndsIff | src/json/lexer.cpp:47-162 | With n tokens left, n < 2^31, the loop ends if and only if 2^31 + n > token_buf_size, and it ends with the text if n <= token_buf_size as well; with more tokens, where adding the flag wraps around, if and only if n > token_buf_size |
| JsonTokenCount.SmallIsRight | src/json/lexer.cpp:32-165 | Below 2^31 - 64 every call ends, at the end of the text or with more tokens than asked, and returns the number of tokens found |
| JsonTokenCount.AlwaysRightIff | src/json/lexer.cpp:32-165 | The number returned is right for every text if and only if token_buf_size + 64 < 2^31 |
| JsonTokenCount.CountOverflows | src/json/lexer.cpp:161-164 | A failing input at 2^31 - 64: of 2^31 + 64 brackets 2^31 are found and 0 is returned |
| JsonTokenCount.BlankNeverEnds | src/json/lexer.cpp:161-162 | From 2^31 on the call for a text of one space does not end |
| JsonLexer.ResumedIsWhole | src/json/lexer.cpp:32-165 | However a sequence of calls is cut, the tokens they return are those of the whole text |
| JsonMinify.DiffTableCounts | src/json/lexer.cpp:20-24 | Each table row counts, for its nibble of dropped bytes, how many of the first bytes are left |
| JsonMinify.CopyFour | src/json/lexer.cpp:234-241 | Four table-driven writes leave exactly the surviving bytes in order, also when input and output are one array |
| JsonMinify.CopyFours | src/json/lexer.cpp:232-242 | The four-byte loop leaves the survivors of what it passed, and no byte still to be read is overwritten |
| JsonMinify.CopyRest | src/json/lexer.cpp:244-248 | The last bytes likewise, one at a time |
| JsonMinify.BlankMask | src/json/lexer.cpp:204-230 | The mask is the whitespace outside strings, and the carries hold the automaton's state |
| JsonMinify.TakeBlock | src/json/lexer.cpp:186-202 | The next block, read in place or from a padded buffer |
| JsonMinify.MinifyBlock | src/json/lexer.cpp:185-248 | A block's output is what the automaton keeps of it |
| JsonMinify.Minify | src/json/lexer.cpp:171-253 | The output is the input without the whitespace outside strings, for every length, inside as many slots as the input has bytes, also in place |
| JsonIdempotence.MinifiedReadsAlike | src/json/lexer.cpp:213-248 | Every kept byte has the same escape and string state in the output as in the input, exactly when no dropped byte before a kept one was escaped |
| JsonIdempotence.KeptRunIs | src/json/lexer.cpp:213-248 | The run of backslashes that ends what is kept of a text is the run that ends the text, read over dropped whitespace |
| JsonIdempotence.KeptQuotesIs | src/json/lexer.cpp:213-248 | The unescaped quotes of what is kept are the quotes of the text before which that run is even |
| JsonIdempotence.MinifyIdempotentIff | src/json/lexer.cpp:213-248 | A second pass changes nothing if and only if, before every whitespace byte that an odd number of unescaped quotes precede, the number of quotes before which the run over dropped whitespace is even is odd too: a condition on the input alone |
| JsonIdempotence.MinifyIdempotent | src/json/lexer.cpp:213-248 | Where readings are kept, a second pass changes nothing |
| JsonIdempotence.MinifyIdempotentOnJson | src/json/lexer.cpp:213-248 | In particular on every text whose backslashes all lie in strings |
| JsonIdempotence.MinifyNotIdempotent | src/json/lexer.cpp:213-248 | Backslash, space, quote, space, quote: the second pass drops a space that the first kept |
| LimbOps.Addc1 | include/wjr/biginteger/detail/add.hpp:14-68 | Limbs plus a limb plus a carry, as numbers, with the carry out |
| LimbOps.Subc1 | include/wjr/biginteger/detail/sub.hpp:14-57 | Limbs minus a limb minus a borrow, with the borrow out |
| LimbOps.AddcN | include/wjr/biginteger/detail/add.hpp:70-147 | The sum of two numbers of n limbs and a carry in, and the carry out; dst may be either |
| LimbOps.SubcN | include/wjr/biginteger/detail/sub.hpp:59-127 | The difference less a borrow in, and the borrow out; dst may be either |
| LimbOps.AddcS | include/wjr/biginteger/detail/add.hpp:159-171 | The sum of numbers of different lengths and a carry in |
| LimbOps.SubcS | include/wjr/biginteger/detail/sub.hpp:139-151 | The difference of numbers of different lengths, less a borrow in |
| LimbOps.Mul1 | include/wjr/biginteger/detail/mul.hpp:42-70 | Limbs times a limb, with the carry limb |
| LimbOps.AddMul1 | include/wjr/biginteger/detail/mul.hpp:81-125 | Adds limbs times a limb, with the carry limb |
| LimbOps.SubMul1 | include/wjr/biginteger/detail/mul.hpp:128-167 | Subtracts limbs times a limb, with the borrow limb |
| LimbOps.MulS | include/wjr/biginteger/detail/mul.hpp:451-459 | The product, row by row |
| LimbOps.Normalize | include/wjr/biginteger/biginteger.hpp:43-45 | The length without zeros on top, at the same value |
| LimbOps.NegateN | include/wjr/biginteger/detail/negate.hpp:15-25 | True exactly for zero; otherwise the complement to BASE^n; also in place |
| LimbDifference.AbsSubNPos | include/wjr/biginteger/detail/sub.hpp:226-271 | The magnitude of the difference, its sign in the length, and the length one less than the place of the highest difference exactly when the top limb cancels |
| LimbDifference.AbsSubSPos | include/wjr/biginteger/detail/sub.hpp:326-375 | The same for different lengths, zero limbs on top of the longer operand passed over |
| LimbDifference.CancelsIff | include/wjr/biginteger/detail/sub.hpp:254-267 | The difference is two or more limbs short exactly when the limbs below the highest difference are 0 against the largest and the rest is less |
| LimbDifference.NormalDifference | include/wjr/biginteger/detail/sub.hpp:254-270 | The length returned is normalized exactly when the operands do not cancel so |
| BigIntegers.BigInteger.SetSize | include/wjr/biginteger/biginteger.hpp:129-136 | The value is that of the limbs counted, with the sign of the length |
| BigIntegers.AddSubLimb | src/biginteger/biginteger.cpp:232-275 | lhs plus or minus a limb, normalized, for every sign, length and aliasing: testing the top limb alone is enough |
| BigIntegers.AddSub | src/biginteger/biginteger.cpp:282-324 | For every sign, length and aliasing the value left is lhs plus or minus rhs, but for 0 - dst into dst, which leaves dst; the result is normalized if and only if it is not a difference of magnitudes that cancels two limbs or more |
| BigIntegers.ZerosOnTopIs | src/biginteger/biginteger.cpp:312-314 | Magnitudes cancel so if and only if their difference is less than BASE^(k - 1), k being the highest place where they differ |
| BigIntegers.AddOrdered | src/biginteger/biginteger.cpp:295-323 | The same with the longer operand first, after the swap |
| BigIntegers.ZerosOnTopExample | src/biginteger/biginteger.cpp:312-314 | 2^128 - (2^128 - 1) leaves zero limbs on top |
| BigIntegers.SignLostExample | src/biginteger/biginteger.cpp:302-309 | 0 - 1 into the integer that holds 1 leaves 1 |
| LimbProducts.MaxMeansMinusOne | src/biginteger/biginteger.cpp:542-545 | The wrapped carry is the largest limb exactly when the true carry is -1, and adding one then makes it right |
| LimbProducts.AddProduct | src/biginteger/biginteger.cpp:502-524 | dp + lp * limb, normalized, whichever is longer |
| LimbProducts.SubProductWithin | src/biginteger/biginteger.cpp:527-540 | dp - lp * limb with its sign, normalized, where dp is not shorter |
| LimbProducts.SubProductBeyond | src/biginteger/biginteger.cpp:541-560 | lp * limb - dp, normalized, where lp is longer: the negated low part, the carry of -1 put off and taken back at the end |
| LimbProducts.NegateWithCarry | src/biginteger/biginteger.cpp:536-542 | Negating the low limbs and adding to the carry negates the whole, up to 64-bit wrap-around of the carry |
| BigIntegerProducts.AddSubMulLimb | src/biginteger/biginteger.cpp:463-565 | dst plus or minus lhs * limb, normalized, for every sign, length, borrow and aliasing; the value is wrong if and only if dst is zero, lhs is negative and the product has one limb more than lhs, and then the limbs below are what is left |
| BigIntegerProducts.AddSubMulNonZero | src/biginteger/biginteger.cpp:487-564 | For two numbers that are not zero the value is always right and normalized |
| BigIntegerProducts.AddSubMulToZero | src/biginteger/biginteger.cpp:474-485 | Into zero the value is right if and only if no carry of a negative lhs is lost, and where one is, the product's limbs below the top two are left |
| BigIntegerProducts.AddSubMul | src/biginteger/biginteger.cpp:567-648 | On values: d plus or minus l * r, right and normalized, but for two cases. Into zero, a negative factor times a shorter or equal one of one limb, with one limb more in the product, leaves a wrong value; and numbers of opposite signs, both factors of two limbs or more, leave the absolute value, normalized if and only if it fills the longer length |
| BigIntegerProducts.AddSubMulLong | src/biginteger/biginteger.cpp:592-647 | For factors of two limbs or more the sum with its sign, or for opposite signs the absolute value |
| BigIntegerProducts.LostCarryExample | src/biginteger/biginteger.cpp:474-485 | Adding -(2^64 - 1) * 2 to zero leaves zero |
| BigIntegerProducts.DifferenceExample | src/biginteger/biginteger.cpp:638-644 | 1 - 2^64 * 2^64 leaves 2^128 - 1 |
| BigIntegerProducts.Mul | src/biginteger/biginteger.cpp:326-402 | The exact signed product, normalized, dst being either operand or both, in place or in a new buffer |
| BigIntegerProducts.MulLong | src/biginteger/biginteger.cpp:359-401 | The magnitudes' product in dst's array or a new one, the operands copied where they share it |
| BigIntegerProducts.Product | src/biginteger/biginteger.cpp:387-394 | Dropping at most one top limb normalizes the product |
| BigIntegerProducts.Square | src/biginteger/biginteger.cpp:404-461 | The exact square, normalized, also in place |
| LimbDivision.DivBy1 | include/wjr/biginteger/detail/div.hpp:14-47 | Quotient and remainder by one limb, from the top limb down |
| LimbDivision.CapStep | src/biginteger/detail/div.cpp:180-183 | Where the top two limbs are the divisor's, the largest limb is the quotient and a remainder smaller than the divisor is left |
| LimbDivision.GuessStep | src/biginteger/detail/div.cpp:185-196 | Otherwise the quotient guessed from three limbs by two, one less if the rest of the divisor borrows, leaves a remainder smaller than the divisor: one add-back is enough |
| LimbDivision.AddBack | src/biginteger/detail/div.cpp:193-196 | Adding the divisor back, with the top limb in 64-bit wrap-around, undoes the borrow |
| LimbDivision.QuotientStep | src/biginteger/detail/div.cpp:178-200 | One round keeps u = q * d + r with r < d |
| LimbDivision.SbDivQr | src/biginteger/detail/div.cpp:149-206 | The schoolbook division: the numerator is the quotient's limbs with the first bit returned on top times the divisor, plus a remainder smaller than it |
| LimbDivision.DivLong | src/biginteger/detail/div.cpp:398-444 | Shifting both numbers by the divisor's leading zeros, dividing and shifting the remainder back gives quotient and remainder of the numbers themselves |
| LimbDivision.DivQrS | src/biginteger/detail/div.cpp:398-444 | For every divisor of one limb or more the limbs hold quotient and remainder |
| BigIntegerDivision.TdivQr | src/biginteger/biginteger.cpp:650-706 | num = quot * div + rem, rem is smaller in magnitude than div and has num's sign, both are normalized, for every aliasing of results with operands |
| BigIntegerDivision.DivideArrays | src/biginteger/biginteger.cpp:682-702 | Operands that share a result's array are copied first; the quotient loses at most one top limb |
| BigIntegerDivision.DividesSigned | src/biginteger/biginteger.cpp:704-705 | The signs given to the magnitudes' quotient and remainder make truncating division |
| BigIntegerDivision.CfdivR2Exp | src/biginteger/biginteger.cpp:805-880 | For every num, shift and direction: rem is num modulo 2^shift, smaller than 2^shift, not positive rounding up and not negative rounding down, normalized, also in place |
| BigIntegerDivision.TruncateBits | src/biginteger/biginteger.cpp:821-838 | The branch that keeps num's sign: the low bits of its magnitude |
| BigIntegerDivision.ComplementBits | src/biginteger/biginteger.cpp:839-868 | The branch that changes it: zero if the low bits are, their complement otherwise |
| BigIntegerDivision.MaskTop | src/biginteger/biginteger.cpp:870-879 | Masking the top limb and dropping zeros takes the remainder |
| DecimalCapacity.CapacitySuffices | src/biginteger/biginteger.cpp:178-207 | For each of the bases 2, 4, 8, 10, 16 and 32 the limbs computed hold every number of n digits if and only if n is not beyond the last for which nothing wraps around in 32 bits, 429496729 in base ten |
| DecimalCapacity.TenThirds | src/biginteger/biginteger.cpp:201-202 | From 59 digits on, ten thirds of a bit per digit, rounded down, are enough |
| DigitPrinter.HighIsQuotient | src/format/dragonbox.cpp:60-68 | While the product holds n / d within its error, the upper half is the quotient and the lower half holds the remainder within the same error |
| DigitPrinter.ThresholdMeansZero | src/format/dragonbox.cpp:113-196 | The lower half is within the threshold exactly when all digits left are zero |
| DigitPrinter.NineDigits | src/format/dragonbox.cpp:82-84 | The multiplier 1441151882 is exact for all nine-digit numbers and does not overflow 64 bits |
| DigitPrinter.EightDigits | src/format/dragonbox.cpp:100-102 | The multiplier 281474978 is exact for seven and eight digits |
| DigitPrinter.EightDigitsBelow | src/format/dragonbox.cpp:396-399 | With one added it is exact for eight digits with leading zeros |
| DigitPrinter.SixDigits | src/format/dragonbox.cpp:158-159 | The multiplier 429497 is exact for five and six digits |
| DigitPrinter.FourDigits | src/format/dragonbox.cpp:199-200 | The multiplier 42949673 is exact for three and four digits |
| DigitPrinter.PrintTail | src/format/dragonbox.cpp:400-431 | The digits of a block without trailing zeros, two at a time until the rest is zero |
| DigitPrinter.PrintHead | src/format/dragonbox.cpp:108-111 | One digit or two with the point after the first |
| DigitPrinter.PrintTrimmed | src/format/dragonbox.cpp:98-228 | A number of three to eight digits in scientific form without trailing zeros |
| DigitPrinter.PrintPointed | src/format/dragonbox.cpp:327-388 | The same with all digits |
| DigitPrinter.PrintNine | src/format/dragonbox.cpp:70-243 | For every number below 10^9 the text is its scientific form, without trailing zeros up to eight digits, and the exponent grows by the digits after the first |
| FloatPrinter.ToChars64 | src/format/dragonbox.cpp:272-464 | For every significand in 1 .. 10^17 - 1 and printed exponent below 1000 in magnitude the text is the scientific form of the significand's digits and the exponent, in at most 23 characters |
| FloatPrinter.ToChars32 | src/format/dragonbox.cpp:245-270 | The same for binary32, below 10^9 and 100, in at most 14 characters |
| FloatPrinter.PrintFirst | src/format/dragonbox.cpp:326-392 | The first block in full, and the exponent |
| FloatPrinter.PrintSeventeen | src/format/dragonbox.cpp:295-325 | All digits of a nine-digit and an eight-digit block |
| FloatPrinter.PrintSixteen | src/format/dragonbox.cpp:326-432 | Both blocks where the first is not full, without trailing zeros |
| FloatPrinter.PrintExponent | src/format/dragonbox.cpp:435-461 | The exponent in decimal with its sign |
| FloatPrinter.PrintThree | src/format/dragonbox.cpp:445-454 | Three digits, one of them split off by fixed point |
| FloatPrinter.TenthIs | src/format/dragonbox.cpp:447-451 | The multiplier 6554 gives quotient and remainder by ten for every number below 1000 |
| FloatPrinter.SecondBlock | src/format/dragonbox.cpp:281-282 | In 32-bit arithmetic the second block is the remainder by 10^8, although neither operand is exact |
| FloatPrinter.TextDenotes | src/format/dragonbox.cpp:272-464 | Reading the text back gives n * 10^(exponent + k) where significand = n * 10^k; n ends in no zero below 10^16 or if the significand does not |
| FloatPrinter.TextIs | src/format/dragonbox.cpp:272-464 | The text by its characters: digits without a leading zero, the point after the first if there are more, E, a minus sign if the exponent is negative, and the exponent's digits; significand = digits * 10^k, and the exponent is that of the first digit |
| FloatPrinter.TextDenotes32 | src/format/dragonbox.cpp:245-270 | The same for binary32 |
| FloatPrinter.TextIs32 | src/format/dragonbox.cpp:245-270 | The same for binary32 |
| FloatPrinter.AllShown | src/format/dragonbox.cpp:295-325 | A significand that ends in no zero is printed with all its digits |
| DecimalText.ReadScientific | src/format/dragonbox.cpp:435-463 | The reader, defined without reference to the printer, undoes scientific notation |
| DecimalText.StrippedIs | src/format/dragonbox.cpp:129-154 | Cutting zeros off the text divides by the power of ten that they are |
| RankSelection.BalancedSelect | benchmarks/src/np_partition.cpp:15-34 | The range keeps its elements and nothing else is written, and of the range nothing before a requested rank is greater than what is there and nothing after less, duplicate ranks included |
| RankSelection.SelectAround | benchmarks/src/np_partition.cpp:18-32 | One round extends what is in place to the middle rank and leaves only greater ranks |
| RankSelection.SelectRank | benchmarks/src/np_partition.cpp:20-25 | One rank in place, by least, greatest or nth element |
| RankSelection.SplitIsSorted | benchmarks/src/np_partition.cpp:14-34 | A rank in place holds the value that any full sort of the range puts there |
| SearchSorted.LevelSearch | benchmarks/src/np_searchsorted.cpp:17-46 | In each query's slot is a number such that exactly the elements before it are less than the query, or for the right side less or equal, for every stride; no other slot is written |
| SearchSorted.BlockedSearch | benchmarks/src/np_searchsorted.cpp:51-110 | The same for every block width, with or without the shared prefix |
| SearchSorted.PlaceMeans | benchmarks/src/np_searchsorted.cpp:20-25 | With plain comparisons: an element is less than the key exactly before the left place, and less or equal exactly before the right one |
| SearchSorted.PlaceCounts | benchmarks/src/np_searchsorted.cpp:20-25 | The left place is the number of elements less than the key, and the right place is further by the number of elements equal to it |
| SearchSorted.RunBlock | benchmarks/src/np_searchsorted.cpp:66-105 | One block's slots get their bounds and no others are written |
| SearchSorted.SharedPrefix | benchmarks/src/np_searchsorted.cpp:74-89 | While least and greatest key agree, the narrowed range holds the bounds of all keys |
| SearchSorted.HalveShared | benchmarks/src/np_searchsorted.cpp:80-88 | A half decided by the least or by the greatest key is right for every key |
| SearchSorted.HalveAll | benchmarks/src/np_searchsorted.cpp:96-101 | One level keeps every bound inside its key's range, all ranges of one length |
| SearchSorted.Finish | benchmarks/src/np_searchsorted.cpp:102-103 | The last comparison turns ranges of one element into bounds, into another array or the same |
| SearchSorted.PlaceIsUnique | benchmarks/src/np_searchsorted.cpp:20-25 | A key has only one lower and one upper bound |

## Left out

- DigitComp.DigitComp: needs one significant digit at least, because zero mantissas are settled before the slow path, and an exponent for which the storage is large enough, as the code has no check of its own; that the estimate rounded down is the float just below is the fast path's promise and is an assumption here, made only where the code uses the estimate.
- BigInts.BigInt.Mul: the integer's own storage is a sequence of limbs, copied into arrays for the limb primitives and back; the choice between a product in place and in scratch memory is not modelled here.
- JsonLexer.Lexer.Read: the text has at most 2^32 bytes, since positions wrap around in 32 bits beyond; a call that does not end has no result, and `JsonTokenCount.EndsIff` is the exact condition, for fewer than 2^32 tokens left.
- LimbOps.MulS: the schoolbook base case; the choice among the Toom-Cook and transform multiplications is not modelled.
- LimbDivision.DivQrS: every division by two limbs or more is by the schoolbook; the divide-and-conquer division, the separate code for two limbs, and the division of the top limbs with correction where the quotient is shorter than the divisor are not modelled.
- LimbDivision.Divide3By2: the three-by-two and two-by-one limb quotients are given by what they are to compute; their reciprocal arithmetic is not modelled.
- LimbDivision.DivBy1: starts from the top limb with remainder zero, without the shift by the divisor's leading zeros that its limb division needs.
- LimbOps.Sqr: calls the product; the separate squaring code is not modelled.
- BigIntegers.BigInteger.Reserve: grows to exactly the size asked, the vector's growth policy and the dispatch to storage kinds being without effect on values; lengths are unbounded where the code has 32-bit ones.
- DigitPrinter.PrintTail: the nested tests of the source are a recursion over pairs of digits, and the tables of digits and digit pairs are given by the digits that they hold.
- FloatPrinter.ToChars64: starts from a decimal significand and exponent; the shortest-digits search that finds them is not part of this model.
- RankSelection.NthElement: selection of the least, repeated; `std::nth_element`, `std::min_element`, `std::lower_bound` and `std::upper_bound` are given by their contracts with simple loops.
- The rest of `from_chars` for floats: its fast path and the parsing of number syntax.
- The digit conversion of big integers (`biginteger_from_chars`, `to_chars`), `_tdiv_q`, `_tdiv_r`, `_pow`, shifts and bit operations, stream and fmt output.
- SIMD and assembly variants of all kernels; the model follows the portable code.
- The B+ tree, the np library, the JSON document and reader, vector, memory pools, expected, optional, tuple and span.
- Benchmarks as such, and the Python reporting tools.
