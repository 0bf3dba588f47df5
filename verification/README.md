# Verified models of the Crypto++ and GMP code of this repository

The Dafny files here model the parts of the bundled Crypto++ 5.6.2 sources and
GMP headers where the code is furthest from what it means, and prove that it
means it: for every input, every run and every way of cutting a stream into
calls.

- **Scalar multiplication** (`Powers`, `Groups`, `WindowSlider`,
  `SimultaneousMultiply`, `CascadeMultiply`, `GeneralCascade`, `RingPowers`,
  `EuclideanDomains`, `Euclid`). A group is an arbitrary value of type `Group`; its laws are
  hypotheses. Signed sliding windows, buckets filled in place, a two-base table
  and a heap of many bases all compute the one-line sum of scalar multiples.
  Inverses are only assumed where the code inverts, and commutativity only where
  the code reorders. The window algorithms are proved for every width, not only
  for the widths the code picks.
- **Expression templates of gmpxx.h** (`Rationals`, `GmpExpr`). Expression
  trees, a memory of cells in which the numerator and denominator of a rational
  are themselves integers that can be aliased, and the evaluators that write
  into the destination while operands may still refer to it.
- **Authenticated ciphers** (`AuthEnc`, `AuthEncRuns`, `Pieces`). The six-state object with its partial
  block. Hooks and cipher are arbitrary functions over arbitrary state types, so
  an equation about the hook state is an equation about which hooks ran, on what
  and in which order.
- **BER and DER** (`AsnBytes`, `AsnLength`, `AsnInteger`, `AsnOid`,
  `AsnReencode`; X.690 sections 8.1.3, 8.1.5, 8.3, 8.19 and 10.1). A `Stream` is
  a byte queue seen through the nested definite-length decoders that share it;
  reading charges all of them.
- **Base-2^k coding** (`BitStrings`, `BaseN`, `BaseNEncoder`, `BaseNDecoder`,
  `BaseNTransfer`; the bit packing of sections 4, 6 and 8 of RFC 4648).
- **DES and its multiple forms** (`DesPermutation`, `DesKeys`, `Des`,
  `DesCiphers`, `DesStandard`; FIPS 46-3): the standard bit by bit, and the code
  proved equal to it, with arbitrary S-boxes.
- **Limb arithmetic** (`Limbs`), for limbs of any number of bits.
- **Block order and chaining** (`BlockModes`, `DesModes`): reverse processing in
  place, the CBC and CFB modes that need it, and which DES ciphers may be used in
  place in CFB mode.

Where the code does not do what its comment or its name promises, the model
follows the code, the exact condition is proved, and an input that fails it is
given: `Euclid.MultiplicativeInverse` and `Euclid.UnreducedArgument` (arguments
larger than the modulus), `AsnOid.OidRoundTrip` and `AsnOid.OidChanged` (first
two arcs in one octet), `AsnInteger.WordRoundTrip` and
`AsnInteger.BooleanChanged` (every non-zero BOOLEAN is written as 255),
`Limbs.NegCorrect` and `Limbs.NegWrong` (the carry into a further limb has the
wrong sign), `BaseNTransfer.TableMatches` and `BaseNTransfer.RepeatedCharacter`
(repeated alphabet characters), `DesCiphers.DES_XEX3.ProcessAndXorBlock` and
`DesCiphers.Xex3Wrong` (`xorBlock` aliasing `outBlock`), and
`BlockModes.CfbInPlaceExact`, `DesModes.WhitenedExact` and
`DesModes.WhitenedIntolerant` (CFB in place over such a cipher), and
`AsnReencode.DerExact` and `AsnReencode.NotDer` (what is inside a definite object
is not made DER).

## Model

| member | source | states |
|---|---|---|
| `WindowSliders.RecodeExact` | crypto++/algebra.cpp:219-246 | the signed digits of an exponent, each times two to its position, add up to the exponent, for every window size and both settings of fastNegate |
| `WindowSliders.RecodeWellSpaced` | crypto++/algebra.cpp:219-246 | every digit is odd and below 2^windowSize in magnitude, non-negative without fastNegate, and positions are at least windowSize apart, windowSize + 1 with fastNegate (a non-adjacent form) |
| `WindowSliders.WindowSlider.constructor` | crypto++/algebra.cpp:208-217 | a fresh slider stands before the whole recoding of its exponent |
| `WindowSliders.WindowWidths` | crypto++/algebra.cpp:214-214 | where the default width changes, and that it grows with the exponent |
| `WindowSliders.WindowSlider.FindNextWindow` | crypto++/algebra.cpp:219-246 | each call shows the next digit of the recoding and its position, and sets finished exactly when no digit is left, although exp is shifted and rounded up in place |
| `WindowSliders.WindowTaken` | crypto++/algebra.cpp:236-245 | the window of an odd exponent, rounded up or not, is the first digit of its recoding, and the exponent above it recodes to the rest |
| `WindowSliders.SkipZeros` | crypto++/algebra.cpp:221-232 | the scan stops at the first set bit at or after its start, or finds that there is none |
| `SimultaneousMultiplication.OddWeightedAdd` | crypto++/algebra.cpp:281-285 | adding delta to bucket j changes the weighted total by (2j+1) times delta |
| `SimultaneousMultiplication.AddWindow` | crypto++/algebra.cpp:279-287 | serving a window keeps the bucket invariant: the buckets weighted by the odd numbers hold the digits already served |
| `SimultaneousMultiplication.ServePosition` | crypto++/algebra.cpp:277-289 | one bit position for all exponents: no window at this position is left behind, and notDone says exactly whether some exponent is unfinished |
| `SimultaneousMultiplication.WaitingBelowBound` | crypto++/algebra.cpp:274-296 | an unfinished exponent has its window below a bound known in advance, which makes the main loop terminate |
| `SimultaneousMultiplication.CollectBuckets` | crypto++/algebra.cpp:300-311 | the in-place suffix-sum pass yields the sum of (2j+1) times bucket j |
| `SimultaneousMultiplication.FinishedSum` | crypto++/algebra.cpp:219-313 | when a slider is finished, its weighted buckets amount to its exponent |
| `SimultaneousMultiplication.SimultaneousMultiply` | crypto++/algebra.cpp:254-313 | results[i] is the scalar multiple by exponent i for every list of non-negative exponents, in any group, and in any monoid when inversion is not fast; nothing else in results changes |
| `SimultaneousMultiplication.ScalarMultiply` | crypto++/algebra.cpp:90-95 | the scalar multiple, the same conditions |
| `CascadeMultiplication.FillTable` | crypto++/algebra.cpp:107-129 | the set-up loops fill every entry with at least one odd index with its combination of x and y, starting from a table of arbitrary contents |
| `CascadeMultiplication.StripTwos` | crypto++/algebra.cpp:142-151 | removing common twos keeps both values up to the squarings postponed, never removes more than there are, and leaves an index pair that is not both even |
| `CascadeMultiplication.ApplyWindow` | crypto++/algebra.cpp:142-167 | one window multiplies the running result up by the bits read and adds the combination read, using only a filled entry |
| `CascadeMultiplication.CascadeWithWidth` | crypto++/algebra.cpp:97-170 | e1 times x plus e2 times y for every window width, in any monoid where x and y commute |
| `CascadeMultiplication.CascadeScalarMultiply` | crypto++/algebra.cpp:97-170 | the same with the width the code chooses, both exponents zero included |
| `GeneralCascade.FoldPermutation` | crypto++/algebra.cpp:184-200 | a sum over a range does not depend on the order of its terms, so heap operations keep it |
| `GeneralCascade.QuotientStep` | crypto++/algebra.cpp:190-196 | one quotient step keeps the sum of exponent times base and strictly lowers the total of the exponents |
| `GeneralCascade.HeapTop` | crypto++/algebra.cpp:184-189 | the first element of a heap is a largest one |
| `GeneralCascade.OnlyLast` | crypto++/algebra.cpp:187-202 | when the next largest exponent is zero the last term alone is the sum |
| `GeneralCascade.GeneralCascadeMultiplication` | crypto++/algebra.cpp:172-204 | the sum of exponent times base over any non-empty range, in any commutative monoid, for any heap library that keeps its contract |
| `GeneralCascade.SortedIsHeapLibrary` | crypto++/algebra.cpp:184-199 | the contract assumed of the heap functions can be met |
| `RingPowers.SimultaneousExponentiate` | crypto++/algebra.cpp:332-336 | every result is the power of the base, in any ring, with no element invertible |
| `RingPowers.Exponentiate` | crypto++/algebra.cpp:315-320 | the power of the base |
| `RingPowers.CascadeExponentiate` | crypto++/algebra.cpp:322-325 | the product of the two powers whenever the two bases commute |
| `RingPowers.GeneralCascadeExponentiation` | crypto++/algebra.cpp:327-330 | the product of all the powers, in a commutative ring |
| `RingPowers.MultiplicativeMonoid` | crypto++/algebra.h:66-113 | multiplication and one of a ring are a monoid under the adapter's renaming |
| `EuclideanDomains.Gcd` | crypto++/algebra.cpp:56-68 | in any Euclidean domain the result divides both arguments and every common divisor divides it |
| `EuclideanDomains.CombineStep` | crypto++/algebra.cpp:79-84 | one rotation keeps every remainder a combination of argument and modulus |
| `EuclideanDomains.StopIsGcd` | crypto++/algebra.cpp:77-85 | from a remainder smaller than the modulus on, the remainder at which the loop stops is a greatest common divisor |
| `EuclideanDomains.MultiplicativeInverse` | crypto++/algebra.cpp:70-88 | in any Euclidean domain, modulo any non-zero element and for every argument, the result is the inverse, or zero where there is none, if and only if the loop stops at a unit or there is no inverse; that holds for every argument no larger than the modulus or zero in the quotient ring |
| `Euclid.IntegersAreDomain` | crypto++/algebra.h:155-215 | the integers meet the laws assumed of a Euclidean domain |
| `Euclid.TooLarge` | crypto++/algebra.cpp:77-85 | beyond the limit the loop meets a multiple of the modulus early and stops at a number that is no unit |
| `Euclid.SmallEnough` | crypto++/algebra.cpp:77-85 | up to the limit the loop ends with a greatest common divisor |
| `Euclid.MultiplicativeInverse` | crypto++/algebra.cpp:70-88 | over the integers, modulo any non-zero number, the result is the inverse, or zero where there is none, if and only if the argument is within a limit (the modulus, or for a negative one two or three times its size by the sign of the argument), or zero in the ring, or not invertible |
| `Euclid.UnreducedArgument` | crypto++/algebra.cpp:77-87 | for 12 modulo 7, whose inverse is 3, what is returned is no inverse |
| `Rationals.CanonCorrect` | gmpxx.h:193-240 | canonicalisation gives an equal fraction in lowest terms with positive denominator |
| `Rationals.CanonicalUnique` | gmpxx.h:193-240 | equal canonical fractions are the same pair, so a canonical result with the right value is the result |
| `Rationals.ShiftCanonical` | gmpxx.h:193-240 | adding a multiple of the denominator to the numerator keeps lowest terms, so the shortcuts need no canonicalisation |
| `Rationals.MixedPlus` | gmpxx.h:228-240 | the shortcut numerator over the old denominator is exactly the canonical sum of a rational and an integer |
| `Rationals.NegatedScalar` | gmpxx.h:550-567 | product and quotient by a negative scalar are those by its absolute value, negated, still in lowest terms |
| `Rationals.Arithmetic` | gmpxx.h:190-191 | sum, difference, product and quotient of canonical pairs are those of the real numbers they stand for |
| `Rationals.NumberUnique` | gmpxx.h:190-191 | a number has one canonical pair |
| `Rationals.Laws` | gmpxx.h:682-683 | (r / s) * s = r, (r - s) + s = r, commutativity of sum and product, and distributivity, on canonical pairs |
| `Rationals.WholeOperations` | gmpxx.h:190-191 | whole numbers add and multiply as integers do |
| `GmpExpr.IntegerOperations` | gmpxx.h:139-161 | negation, absolute value, sum, difference and product by their laws |
| `GmpExpr.TruncatingDivision` | gmpxx.h:612-616 | quotient and remainder make up the dividend, the remainder is smaller than the divisor and zero or of the dividend's sign |
| `GmpExpr.ScalarRange` | gmpxx.h:656-676 | the scalars are those of unsigned long and long, and only the least long over -1 is excluded |
| `GmpExpr.TrailingZerosOfPower` | gmpxx.h:485-494 | every power of two takes the shift branch |
| `GmpExpr.ZFrame` | gmpxx.h:2208-2590 | the value of an integer tree depends only on the cells it mentions: any memory that agrees on those gives the same |
| `GmpExpr.QFrame` | gmpxx.h:2208-2774 | the same for rational and mixed trees |
| `GmpExpr.QDenotes` | gmpxx.h:2208-2774 | the value of a rational or mixed tree is the real number that it denotes, operation by operation |
| `GmpExpr.Memory.ZEval` | gmpxx.h:2208-2590 | the destination gets the value the tree had in the old memory and no other cell changes, wherever and however often the destination occurs in the tree, itself possibly half of a rational |
| `GmpExpr.Memory.ZEvalBinary` | gmpxx.h:2320-2590 | the same for the two-subtree nodes, where the choice of temporary depends on the kinds of the operands |
| `GmpExpr.Memory.QEval` | gmpxx.h:2208-2774 | the same for rational destinations; the result is canonical |
| `GmpExpr.Memory.Assign` | gmpxx.h:2127-2131 | after an assignment the destination is the canonical form of the real number that the tree denoted before it, and nothing else changed |
| `GmpExpr.Memory.QEvalBinary` | gmpxx.h:2320-2590 | the two-subtree nodes over rationals |
| `GmpExpr.Memory.MixedEval` | gmpxx.h:2600-2774 | sums and differences of a rational and an integer operand, variables or trees on either side, written into a destination that either may alias |
| `GmpExpr.Memory.ConvertedEval` | gmpxx.h:2208-2590 | products and quotients of a rational and an integer tree, through conversion of the integer one |
| `GmpExpr.Memory.SetQFromZ` | gmpxx.h:2115-2120 | assigning an integer tree to a rational writes the numerator, then the denominator, and is the integer's value over one even when the tree reads either half |
| `GmpExpr.Memory.PlusScalar` | gmpxx.h:163-184 | integer plus built-in scalar of either sign, destination aliasing the operand or not |
| `GmpExpr.Memory.MinusScalar` | gmpxx.h:275-299 | integer minus scalar |
| `GmpExpr.Memory.ScalarMinus` | gmpxx.h:284-309 | scalar minus integer |
| `GmpExpr.Memory.TimesScalar` | gmpxx.h:481-518 | integer times scalar, on the branches for a compile-time zero, power of two and sign as on the others |
| `GmpExpr.Memory.DividesScalar` | gmpxx.h:617-665 | truncating quotient by a scalar, computed for a negative divisor by negating, on the branches for a compile-time one and power of two as on the others |
| `GmpExpr.Memory.ModulusScalar` | gmpxx.h:786-809 | truncating remainder by a scalar |
| `GmpExpr.Memory.ScalarDivides` | gmpxx.h:635-676 | truncating quotient of a scalar by an integer of any size, by the case split on whether the divisor fits |
| `GmpExpr.Memory.ScalarModulus` | gmpxx.h:788-820 | truncating remainder of a scalar by an integer of any size |
| `GmpExpr.Memory.QPlusZ` | gmpxx.h:228-240 | exact canonical sum without canonicalising, for q equal to r and not |
| `GmpExpr.Memory.QMinusZ` | gmpxx.h:364-374 | exact canonical difference, the same |
| `GmpExpr.Memory.ZMinusQ` | gmpxx.h:375-376 | exact canonical difference the other way round |
| `GmpExpr.Memory.QPlusScalar` | gmpxx.h:193-216 | exact canonical sum with a built-in scalar |
| `GmpExpr.Memory.QMinusScalar` | gmpxx.h:318-346 | exact canonical difference with a built-in scalar |
| `GmpExpr.Memory.QMultiplied` | gmpxx.h:527-569 | rational times or over a scalar, on the branches for a compile-time zero, power of two and sign as on the others; the result is canonical |
| `GmpExpr.Memory.Increment` | gmpxx.h:1069-1083 | adding or subtracting the denominator from the numerator is adding or subtracting one, canonically |
| `AuthEnc.AbsorbJoin` | crypto++/authenc.cpp:11-46 | absorbing in two pieces, the partial block carried over, is absorbing the whole |
| `AuthEnc.StreamInverse` | crypto++/authenc.cpp:104-134 | byte-wise invertibility of the stream cipher makes whole strings invertible with equal end states |
| `AuthEnc.Cipher.AuthenticateData` | crypto++/authenc.cpp:11-46 | full blocks handed to the hook plus the buffer are exactly the old buffer and the new data, and the buffer stays below one block |
| `AuthEnc.Cipher.SetKey` | crypto++/authenc.cpp:48-60 | ends ready for a message if parameters carry an IV, waiting for one otherwise; any message under way is dropped |
| `AuthEnc.Cipher.Resynchronize` | crypto++/authenc.cpp:62-73 | fails exactly before a key is set, otherwise starts an empty message |
| `AuthEnc.Cipher.Restart` | crypto++/authenc.h:20-20 | the message is given up: no output or MAC until the next IV |
| `AuthEnc.Cipher.Update` | crypto++/authenc.cpp:75-102 | the data joins the header or the footer according to the phase, the confidential part being closed once before the first footer byte; fails exactly for non-empty data without key and IV |
| `AuthEnc.Cipher.ProcessData` | crypto++/authenc.cpp:104-134 | input and output join the message, in place or not; fails exactly when too long, without IV, or after the footer began, and then writes nothing |
| `AuthEnc.Cipher.TruncatedFinal` | crypto++/authenc.cpp:136-176 | the MAC is the function of the bytes of the header, confidential part and footer, each closed exactly once and in that order, however they were cut; the confidential part is the plaintext if the scheme says so and else the ciphertext, in either direction; afterwards a new IV is needed |
| `AuthEnc.Run` | crypto++/authenc.cpp:62-176 | a whole message in any pieces, or without any ProcessData call, yields the output and MAC of the concatenated parts, and succeeds exactly with a key set and within the length limits |
| `AuthEnc.WholeMessage` | crypto++/cryptlib.cpp:204-234 | the call sequence of EncryptAndAuthenticate and DecryptAndVerify, lengths announced first: the output and MAC of header and message, or exactly which failure |
| `AuthEnc.EncryptThenDecrypt` | crypto++/cryptlib.cpp:218-307 | what one object encrypts another decrypts, within the length limits; its MAC is accepted and no other is |
| `AuthEnc.TranscriptsAgree` | crypto++/authenc.cpp:121-130 | the receiver recovers the message, and both sides authenticate the plaintext if the MAC is on plaintext and else the ciphertext |
| `AuthEnc.RoundTrip` | crypto++/authenc.cpp:62-176 | encrypting in one set of pieces and decrypting in another recovers the message and accepts the MAC, exactly within the length limits; header-only messages included |
| `AuthEncRuns.Perform` | crypto++/authenc.cpp:11-176 | for every list of calls on one object, exactly which calls succeed, as a function of the bytes given since the last IV and the key; outputs continue one cipher stream, and every MAC is that of the message parts collected |
| `AuthEncRuns.Determined` | crypto++/authenc.cpp:11-176 | the calls of a run determine which of them succeed and every byte put out |
| `AuthEncRuns.NothingWithoutIV` | crypto++/authenc.cpp:62-176 | in every run, output and MACs come only after a Resynchronize or a key with an IV, with no MAC, restart or key without IV since |
| `AuthEncRuns.HookOrder` | crypto++/authenc.cpp:75-176 | with hooks that only write a log, the last one sees: reset, header blocks, last-header once, confidential blocks, last-confidential once, footer blocks |
| `AuthEncRuns.BlocksWhole` | crypto++/authenc.cpp:11-46 | the blocks of a part, all of full size, and its rest hold exactly its bytes in order |
| `AuthEncRuns.EveryMac` | crypto++/authenc.cpp:136-176 | in every run, every MAC is computed from such a log over exactly the bytes of each part since its IV was set, the plaintext or the ciphertext as the scheme says |
| `AsnBytes.RoomFits` | crypto++/asn.cpp:455-462 | what can be read is the least of the remaining lengths of all enclosing decoders and what there is |
| `AsnLength.LengthRoundTrip` | crypto++/asn.cpp:16-73 | every length decodes to itself and leaves the rest of the stream |
| `AsnLength.LengthShortest` | crypto++/asn.cpp:16-73 | no octets the decoder accepts for a length are fewer than the encoder's |
| `AsnLength.LwordRange` | crypto++/asn.cpp:37-37 | lengths have 64 bits |
| `AsnLength.LengthOctets` | crypto++/asn.cpp:16-35 | the octets of 127, 128 and 256 |
| `AsnLength.DERLengthEncode` | crypto++/asn.cpp:16-35 | appends the minimal encoding and returns its size |
| `AsnLength.BERLengthDecode` | crypto++/asn.cpp:37-73 | decodes, reports overflow and truncation, and charges what it read to every enclosing decoder |
| `AsnInteger.ContentShortest` | crypto++/asn.h:295-320 | no shorter octets with a clear sign bit have the same value |
| `AsnInteger.EncodingShortest` | crypto++/asn.h:295-356 | of all encodings the decoder accepts for a word with content of clear sign bit, tag and length octets included, none is shorter than the encoder's |
| `AsnInteger.ShorterAccepted` | crypto++/asn.h:333-352 | both conditions are needed: empty content is accepted for 0, and one octet with its sign bit set for 128 |
| `AsnInteger.WordOctets` | crypto++/asn.h:295-320 | the octets of INTEGER 127, 128 and 256 and of BOOLEAN true |
| `AsnInteger.WordRoundTrip` | crypto++/asn.h:295-356 | a word of any size round-trips and leaves the rest of the stream, if and only if the tag is not BOOLEAN or the word is 0 or 255 |
| `AsnInteger.BooleanChanged` | crypto++/asn.h:300-304 | a BOOLEAN of 1 comes back as 255 |
| `AsnInteger.DEREncodeUnsigned` | crypto++/asn.h:295-320 | filling and trimming the fixed buffer yields the minimal content octets |
| `AsnInteger.BERDecodeUnsigned` | crypto++/asn.h:325-356 | accepts leading zeros and rejects what does not fit the word or the limits |
| `AsnOid.OverflowExact` | crypto++/asn.cpp:225-242 | the test before each shift rejects exactly the base-128 strings worth 2^32 or more |
| `AsnOid.ArcRoundTrip` | crypto++/asn.cpp:218-242 | decoding inverts encoding on every word32 |
| `AsnOid.GroupCount` | crypto++/asn.cpp:220-220 | the starting shift computed from the bit precision is the number of base-128 digits after the first, times seven |
| `AsnOid.Word32Range` | crypto++/asn.cpp:225-225 | arcs have 32 bits |
| `AsnOid.EncodeValue` | crypto++/asn.cpp:218-223 | the descending shift loop writes the base-128 digits |
| `AsnOid.DecodeValue` | crypto++/asn.cpp:225-242 | reads one arc, returns the bytes used, or fails on overflow or truncation |
| `AsnOid.OidRoundTrip` | crypto++/asn.cpp:244-283 | an identifier of any word32 arcs round-trips and leaves the rest, if and only if its second arc is below 40 and the shared octet does not overflow |
| `AsnOid.OidOctets` | crypto++/asn.cpp:218-254 | 1.2.840.113549 is 06 06 2A 86 48 86 F7 0D |
| `AsnOid.OidChanged` | crypto++/asn.cpp:248-272 | the arcs 2, 40 come back as 3, 0 |
| `AsnOid.Oid.DEREncode` | crypto++/asn.cpp:244-254 | appends the encoding of the object's arcs |
| `AsnOid.Oid.BERDecode` | crypto++/asn.cpp:256-283 | sets the arcs to what the octets spell and consumes exactly the encoding, or fails |
| `AsnReencode.MinimalShape` | crypto++/asn.cpp:201-216 | the minimal object spells the same tree of tags and contents, and is a well-formed encoding of it |
| `AsnReencode.ReencodeComplete` | crypto++/asn.cpp:201-216 | every well-formed encoding, with definite and indefinite lengths mixed to any depth, is consumed exactly and rewritten as a well-formed encoding of the same tree: its own length, and within indefinite objects those of the children, definite and minimal, the content of definite objects as it was |
| `AsnReencode.IndefiniteTags` | crypto++/asn.cpp:397-398 | for every class and number, an indefinite length is rewritten with the constructed tag 64c + 32 + t and refused with the primitive tag 64c + t |
| `AsnReencode.AttributeSet` | crypto++/asn.cpp:585-588 | A0 80 00 00 becomes A0 00 |
| `AsnReencode.ReencodeSound` | crypto++/asn.cpp:201-216 | whatever is accepted is such an encoding, and what is written is a well-formed encoding of the same tree |
| `AsnReencode.DerExact` | crypto++/asn.cpp:201-216 | the result is DER, all lengths to any depth definite and minimal as crypto++/asn.h:78 promises, if and only if what is inside the outermost definite objects is DER already |
| `AsnReencode.NotDer` | crypto++/asn.cpp:207-208 | 30 04 30 80 00 00, an indefinite object in a definite one, is a proper encoding, is outside that condition, and comes out unchanged |
| `AsnReencode.ReencodeIdempotent` | crypto++/asn.cpp:201-216 | the output is a fixed point |
| `AsnReencode.DERReencode` | crypto++/asn.cpp:201-216 | the recursion through nested decoders and encoders terminates, appends exactly that output to dest, or on failure what the destructors of unfinished encoders still write, and charges its bytes to every decoder around the source |
| `AsnReencode.MessageEnd` | crypto++/asn.cpp:504-511 | the collected content is appended as one object with its minimal length |
| `AsnReencode.Unwind` | crypto++/asn.cpp:492-502 | an encoder destroyed by an exception still ends its object |
| `AsnReencode.Init` | crypto++/asn.cpp:388-399 | the header is taken from the source, an indefinite primitive being refused |
| `AsnReencode.ReencodeChildren` | crypto++/asn.cpp:209-213 | children are rewritten in order up to the end-of-content octets, which are consumed |
| `BitStrings.GroupsUnique` | crypto++/basecode.cpp:47-70 | the groups of a bit string are the only k-bit numbers that spell it with less than one group of filling |
| `BitStrings.Deposit` | crypto++/basecode.cpp:53-53 | or-ing a number into the free part of a cell appends its bits to those packed |
| `BaseN.RoundTrip` | crypto++/basecode.cpp:124-167 | the characters of a message, followed by any padding the table does not know, decode to the message |
| `BaseN.PadCompletes` | crypto++/basecode.cpp:95-99 | padding makes the characters a whole number of blocks |
| `BaseN.TwoCharacters` | crypto++/basecode.cpp:47-70 | two characters of a byte, read as digits of base 2^k, are the byte shifted by the filling |
| `BaseN.LetterF` | crypto++/basecode.cpp:39-104 | the letter f in base 64 and base 32, with its paddings |
| `BaseNEncoder.OutputBlockSize` | crypto++/basecode.cpp:31-34 | the loop finds the least number of bytes that is a whole number of characters |
| `BaseNEncoder.BlockSizes` | crypto++/basecode.cpp:31-34 | eight characters in a block for odd k, four for 2 and 6, two for 4 |
| `BaseNEncoder.EndOfMessage` | crypto++/basecode.cpp:86-102 | characters already output, buffered ones and padding are together the coding of the whole message |
| `BaseNEncoder.Encoder.IsolatedInitialize` | crypto++/basecode.cpp:13-37 | accepts exactly 1 to 7 bits per character |
| `BaseNEncoder.Encoder.PackByte` | crypto++/basecode.cpp:47-70 | the bit loop appends the byte's eight bits and never leaves the buffer |
| `BaseNEncoder.Encoder.Put2` | crypto++/basecode.cpp:39-104 | however the message is cut into calls, its end has output exactly the coding of the whole, padded or not |
| `BaseNDecoder.OutputBlockSize` | crypto++/basecode.cpp:116-119 | the least number of characters that is a whole number of bytes |
| `BaseNDecoder.BlockSizes` | crypto++/basecode.cpp:116-119 | as many bytes in a block as the odd part of k |
| `BaseNDecoder.Decoder.IsolatedInitialize` | crypto++/basecode.cpp:106-122 | accepts exactly 1 to 7 bits per character |
| `BaseNDecoder.Decoder.PackCharacter` | crypto++/basecode.cpp:138-152 | both shift cases append the character's bits and never leave the buffer |
| `BaseNDecoder.Decoder.Put2` | crypto++/basecode.cpp:124-167 | however the characters are cut into calls, the end of the message has output the whole bytes that the known characters spell |
| `BaseNTransfer.InitializeDecodingLookupArray` | crypto++/basecode.cpp:169-188 | every entry is the last alphabet position read as that character, or -1 |
| `BaseNTransfer.ReadAsLetters` | crypto++/basecode.cpp:175-186 | without regard to case the 26 letters are read as each other's small or capital form and everything else only as itself |
| `BaseNTransfer.TableMatches` | crypto++/basecode.cpp:169-188 | the table undoes the alphabet if and only if no character repeats, up to case where case is ignored |
| `BaseNTransfer.RepeatedCharacter` | crypto++/basecode.cpp:169-188 | the alphabet A, a read without case is outside that condition |
| `BaseNTransfer.Transfer` | crypto++/basecode.cpp:39-167 | what goes into the encoder in any pieces comes out of the decoder fed in any pieces, for every k from 1 to 7, and both are ready for the next message |
| `DesPermutation.InitialPermutation` | crypto++/des.cpp:76-96 | the rotate-and-mask code is the 64-entry table IP, both halves rotated by one |
| `DesPermutation.FinalPermutation` | crypto++/des.cpp:98-118 | with swapped halves it is the table IP^-1 |
| `DesPermutation.PermutationsInverse` | crypto++/des.cpp:76-118 | each undoes the other, because the tables do |
| `DesKeys.RawSetKey` | crypto++/des.cpp:274-320 | the round keys of the standard, from the permuted choices and rotations, in order for encryption; the in-place pairwise swaps reverse them for decryption |
| `DesKeys.ScheduleRotations` | crypto++/des.cpp:249-252 | the halves turn one place in rounds 1, 2, 9 and 16, two in the others, and are back in the end |
| `DesKeys.Pc1Columns` | crypto++/des.cpp:237-247 | permuted choice 1 is the columns of the key, without the parity bits |
| `DesKeys.Pc2Rows` | crypto++/des.cpp:255-264 | permuted choice 2 row by row |
| `DesKeys.Pc2Halves` | crypto++/des.cpp:255-264 | it takes 24 bits of each half, none twice, and leaves out exactly eight |
| `DesKeys.ParityIgnored` | crypto++/des.h:31-35 | keys that differ only in parity bits have the same schedule in both directions |
| `DesKeys.OddParity` | crypto++/des.cpp:398-402 | the folded xor accepts exactly the bytes with an odd number of ones |
| `DesKeys.CheckKeyParityBits` | crypto++/des.cpp:404-410 | accepts exactly the keys whose bytes all have odd parity |
| `DesKeys.CorrectKeyParityBits` | crypto++/des.cpp:412-417 | every byte gets odd parity and no other bit changes |
| `Des.FeistelInverse` | crypto++/des.cpp:322-353 | with reversed round keys the network runs backwards up to a swap of the halves, for any number of rounds and any round function |
| `Des.RawDES.RawProcessBlock` | crypto++/des.cpp:322-353 | eight double rounds without moving the halves are the sixteen rounds of the standard |
| `DesStandard.RoundFunctionIsStandard` | crypto++/des.cpp:327-350 | box n sees the six bits that table E picks from the un-rotated half, xored with bits 6n + 1 to 6n + 6 of the round key |
| `DesStandard.ScheduleIs` | crypto++/des.cpp:274-311 | every round key is the standard's, bit by bit: permuted choice 1 of the key bits, the rotations, permuted choice 2 |
| `DesStandard.DesIsStandard` | crypto++/des.cpp:420-428 | the whole cipher on bytes is that of FIPS 46-3: IP, sixteen rounds with the round keys in order or reversed, the halves exchanged, IP^-1; only the contents of the boxes are free |
| `DesCiphers.DesInverse` | crypto++/des.cpp:420-428 | decryption undoes encryption and encryption decryption, for every key and block |
| `DesCiphers.ThreeBlocks` | crypto++/des.cpp:363-393 | three passes between one IPERM and one FPERM, halves exchanged in the middle one, are three whole DES operations |
| `DesCiphers.Ede2Inverse` | crypto++/des.cpp:355-373 | two-key triple DES decrypts what it encrypts |
| `DesCiphers.Ede2IsTriple` | crypto++/des.cpp:355-373 | the same with the first key in both places |
| `DesCiphers.Ede3Inverse` | crypto++/des.cpp:375-394 | three-key triple DES decrypts what it encrypts |
| `DesCiphers.Ede3IsTriple` | crypto++/des.cpp:375-394 | encryption under the first key, decryption under the second, encryption under the third, and the way back |
| `DesCiphers.Xex3Inverse` | crypto++/des.cpp:430-447 | DES-XEX3 decrypts what it encrypts |
| `DesCiphers.Xex3IsWhitened` | crypto++/des.cpp:430-447 | the outer keys are xored in before and after the DES of the middle one |
| `DesCiphers.XorLaws` | crypto++/des.cpp:444-446 | xor acts on every byte alone |
| `DesCiphers.OneKey` | crypto++/des.cpp:355-394 | with all keys equal triple DES is single DES |
| `DesCiphers.DES.ProcessAndXorBlock` | crypto++/des.cpp:420-428 | outBlock gets the DES of inBlock, xored with xorBlock if given, with any of the three the same array |
| `DesCiphers.DES_EDE2.ProcessAndXorBlock` | crypto++/des.cpp:363-373 | outBlock gets the composition of three single DES operations |
| `DesCiphers.DES_EDE3.ProcessAndXorBlock` | crypto++/des.cpp:384-394 | the same with three keys, in the order the direction asks for |
| `DesCiphers.DES_XEX3.ProcessAndXorBlock` | crypto++/des.cpp:442-447 | outBlock gets the whitened DES xored with xorBlock if and only if xorBlock is not outBlock or holds the whitened input; in the other case the whitened input is what gets xored in |
| `DesCiphers.Xex3Wrong` | crypto++/des.cpp:442-447 | one array of zeros as all three blocks, under a key that begins with 1, is outside that condition whatever the boxes |
| `DesCiphers.DES_EDE3.SetKey` | crypto++/des.cpp:375-382 | accepts exactly 24 bytes and sets the three schedules in the order of the direction |
| `Limbs.ValueInjective` | gmp.h:2015-2034 | a value has one representation of each length |
| `Limbs.Undone` | gmp.h:1859-1898 | subtraction undoes addition and addition subtraction, limbs and carry |
| `Limbs.ResultUnique` | gmp.h:1859-1898 | limbs and carry are determined by the operands |
| `Limbs.AddOrSub` | gmp.h:1859-1898 | value and carry of mpn_add and mpn_sub for all sizes with ysize at most xsize, w being x, y or neither; limbs beyond xsize stay |
| `Limbs.AddOrSub1` | gmp.h:1926-1961 | value and carry of mpn_add_1 and mpn_sub_1, in place or not, with the carry recognised by comparison after wrap-around |
| `Limbs.CopyRest` | gmp.h:2050-2061 | exactly the limbs from start to size are copied |
| `Limbs.Cmp` | gmp.h:2015-2034 | the sign of the difference of the values |
| `Limbs.Neg` | gmp.h:2142-2154 | every limb written is carry minus limb modulo the limb, the carry being whether a lower limb is non-zero, and so is the returned one |
| `Limbs.NegCorrect` | gmp.h:2142-2154 | for limbs of two or more bits the result is the two's complement negative if and only if every limb below the last is zero |
| `Limbs.NegWrong` | gmp.h:2149-2149 | the limbs 1, 0 are outside that condition |
| `BlockModes.RunSafe` | crypto++/cryptlib.cpp:141-177 | in either order, if no operand block is overwritten by an earlier block's output, every output is the function of the original operands that applies, and nothing else changes |
| `BlockModes.ReverseInPlace` | crypto++/cryptlib.cpp:148-157 | reverse order in place with the xor blocks one block behind equals a forward pass into separate memory |
| `BlockModes.AdvancedProcessBlocks` | crypto++/cryptlib.cpp:141-177 | the loop with its signed increments applies the block operation in the order asked for; where that is safe, and xorBlocks is not outBlocks or the operation tolerates it, every output is the function of the original operands |
| `BlockModes.EcbProcess` | crypto++/modes.cpp:149-153 | every block is transformed, in place or not, and nothing else changes |
| `BlockModes.RunChain` | crypto++/modes.cpp:162-165 | forward order with the previous output as xor block is a chain through the outputs |
| `BlockModes.CbcEncrypt` | crypto++/modes.cpp:155-166 | CBC of the input from the register on, in place or not; the register ends as the last ciphertext block |
| `BlockModes.CbcDecrypt` | crypto++/modes.cpp:195-207 | the inverse chain of the original input, in place or not, for every block operation; the register ends as the last ciphertext block although that was overwritten |
| `BlockModes.CfbEncrypt` | crypto++/modes.cpp:32-38 | CFB of the input from the register on, apart, or in place if the operation tolerates an xor block that is its output block; otherwise what comes instead |
| `BlockModes.CfbDecrypt` | crypto++/modes.cpp:39-46 | the inverse chain, under the same condition |
| `BlockModes.CfbInPlaceExact` | crypto++/modes.cpp:27-46 | in-place CFB is CFB for every register and message if and only if the operation tolerates an xor block that is its output block; the same for decryption |
| `BlockModes.ChainJoin` | crypto++/modes.cpp:155-166 | a message may be cut into calls anywhere |
| `BlockModes.UnchainJoin` | crypto++/modes.cpp:195-207 | a ciphertext may be cut into calls anywhere |
| `BlockModes.ChainRoundTrip` | crypto++/modes.cpp:155-207 | unchaining a chain gives the message back |
| `BlockModes.CbcUndone` | crypto++/modes.cpp:155-207 | the CBC block functions undo each other when the cipher is invertible |
| `BlockModes.CbcIs` | crypto++/modes.cpp:155-207 | c[i] = E(c[i-1] xor p[i]), c[-1] being the register, and back |
| `BlockModes.CfbUndone` | crypto++/modes.cpp:27-47 | the CFB block function undoes itself for any cipher, invertible or not |
| `BlockModes.CfbIs` | crypto++/modes.cpp:27-46 | c[i] = E(c[i-1]) xor p[i], and back |
| `BlockModes.CbcInPlace` | crypto++/modes.cpp:155-207 | encrypting a buffer in place and decrypting it in place restores it and leaves both registers equal, for every block operation |
| `BlockModes.CfbInPlace` | crypto++/modes.cpp:27-46 | the same in CFB mode for an operation that tolerates being in place |
| `DesModes.DesStep` | crypto++/des.cpp:420-428 | DES on one block is a block operation that reads its xor block in time |
| `DesModes.Ede2Step` | crypto++/des.cpp:363-373 | so is two-key triple DES |
| `DesModes.Ede3Step` | crypto++/des.cpp:384-394 | so is three-key triple DES |
| `DesModes.Xex3Step` | crypto++/des.cpp:442-447 | DES-XEX3 on one block is the operation that overwrites its output block first |
| `DesModes.XorInputStep` | crypto++/cryptlib.cpp:161-165 | under BT_XorInput the block becomes the cipher of the xor of the two operands, any of the three being the same array |
| `DesModes.PlainTolerant` | crypto++/des.cpp:363-428 | the first three tolerate in-place CFB |
| `DesModes.WhitenedIntolerant` | crypto++/strciphr.cpp:201-209 | DES-XEX3 does not, under any key: in-place CFB, which the stream adapter uses, is wrong for some message |
| `DesModes.WhitenedExact` | crypto++/modes.cpp:33-38 | over DES-XEX3 in-place CFB is CFB for a register and message if and only if every message block is the whitened ciphertext block before it |
| `DesModes.WhitenedLosesMessage` | crypto++/modes.cpp:33-38 | there all messages of one length have the same ciphertext |

## Left out

- Integers of the exponent code are unbounded: 32-bit truncation of expWindow for windows of 32 bits and more, and of loop counters, is not modelled.
- The standard heap functions, mpn_add_n, mpn_sub_n and the mpz and mpq library calls appear as their contracts or as the plainest code with that contract.
- `FILTER_BEGIN` and `FILTER_OUTPUT` resumption after a blocked output, `ByteQueue` and `SecByteBlock` internals: queues are byte sequences and output is appended.
- EncodedObjectFilter: it forwards other bytes than the ones it reads, so the property its name suggests does not hold.
- Grouper, the remaining ASN.1 string and bit string codecs, X.509 and PKCS #8 key classes: little beyond what is here.
- AsnInteger.BERDecodeUnsigned: an indefinite length, which the size_t overload of BERLengthDecode leaves unset, is treated as failure; the same in the OID decoder.
- AsnReencode.DERReencode: how much of the source is used up on failure is not stated, and a content longer than a 64-bit count can express is treated as failure.
- AuthEnc.Cipher.ProcessData: the 64-bit length counters are unbounded, and exceptions thrown by hooks are not modelled.
- In gmpxx.h: mpf, double operands, shift and bitwise operators of the user, `mpz` from a rational by truncation, hypot, input and output. Scalars are those of a long of any width; LONG_MIN over -1 is excluded as signed overflow.
- The contents of Spbox, and DES test values: the boxes are arbitrary, so nothing here says that they are the ones of the standard.
- BlockModes.AdvancedProcessBlocks: the counter flag and the flag that keeps the pointers still are not modelled, operands overlap by whole blocks only, a null xorBlocks is an operation that ignores its xor block, and reverse order with it is excluded since the code then moves the null pointer.
- CTR mode and ciphertext stealing.
- BaseNDecoder.Decoder.IsolatedInitialize: requires table entries that are either skipped or fit the character, as InitializeDecodingLookupArray makes them.
- Character classification in the lookup table is that of the C locale.
- mpir.h repeats gmp.h; the remaining headers only declare.
