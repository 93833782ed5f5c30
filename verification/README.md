# Ed25519, SHA-512, the binary ladder and calendar arithmetic: a verified model

This project models the arithmetic core of the repository in Dafny and proves it correct: the 64-bit portable
Ed25519 code under `3rd/` (scalars modulo L, the field modulo p = 2^255 - 19, points, signing, verification and
batch verification), the streaming SHA-512 beside it, the 32-bit field code where it must agree with the 64-bit
code, the Lopez-Dahab ladder on binary curves in `ec/`, and the Julian-day calendar arithmetic in `common/ca.cpp`.

`dafny verify dfyconfig.toml` checks everything.

## How the model is laid out

| layer | modules |
|---|---|
| numbers, bits and byte strings | `Numbers`, `Bytes`, `Columns`, `Scalars` |
| scalars modulo L, five limbs of 56 bits | `Modm`, `ModmBytes`, `Recoding`, `ModmBatch` |
| batch multi-scalar multiplication | `Groups`, `HeapOrder`, `BosCarter`, `FinalMultiple`, `BatchVerify` |
| the field, five limbs of 51 bits, and ten of 26 and 25 | `Field25519`, `FieldBytes`, `FieldChains`, `Field32` |
| points | `EdwardsLaw`, `EdwardsFormulas`, `ScalarMult`, `BaseMult`, `SquareRoots`, `PointBytes`, `Montgomery`, `StandardCurve` |
| hashing and signatures | `Sha512`, `Sha512Standard`, `Sha512Example`, `Signatures`, `BatchEquation`, `BatchOpen` |
| binary curves | `BinaryField`, `BinaryCurve`, `BinaryLadder` |
| calendar | `Julian` |

Code that works in place is modelled in place: limb buffers are arrays, `ge25519` and its relatives, the batch heap,
the hash context and `struct tm` are classes, and loops are loops with invariants. A machine word is a subset type
(`u64`, `u128`, `u32`, `i32`, `i8`), so every value stored in one carries the obligation that it fits; where the code
wraps on purpose the model writes the modulus out. Every method is proved against a specification: the number its
limbs stand for (`Val`, `FV`, `TV`), the residue (`Res`), the point its coordinates stand for (`IsPartial`, `IsFull`,
`IsP1P1`), or the message hashed so far.

What those specifications rest on is tied down in turn, so that no definition speaks for itself alone: `Sha512Standard`
and `Sha512Example` hold the hash against FIPS 180-4 down to the published digest of "abc", `StandardCurve` holds the
constants, the curve, its addition law and the first table entries against section 5.1 of RFC 8032, and
`Signatures.AcceptsIs`, `SignatureIs` and `SecretScalarIs` state signing and verification with every hash written out.
The words of SHA-512 are 64-bit vectors, whose operators are the machine's.
`Numbers.NamedPowers` says which powers of two the named constants are.

Residues modulo p are taken by `Field25519.Mod`, which adds or takes away p, and multiplied by `Field25519.FMul`,
which adds repeatedly; `ModIsRemainder` and `FMulIs` say that these are the remainder and the product. Laws that are
hypotheses (the group laws, `CurveLaws`, `OnCurve`, `OrderL`) keep their content behind a named instance or a
quantifier, and so do `Accepts`, `IsSignature` and `Returned`, so that a specification that mentions them is not unfolded until a
proof asks for it.

Where a comment and the code disagree the model follows the code: 3rd/curve25519-donna-64bit.h:178 says in^(2 count),
the loop below it and its callers compute and need in^(2^count).

## Hypotheses

- `EdwardsLaw.CurveLaws`: p has no zero divisors, Fermat's theorem for p, completeness of the Edwards law (its
  denominators never vanish and its results are on the curve), and that it makes the curve an abelian group.
- `BinaryCurve.GroupLaws`: the field's laws with addition as exclusive or, and that the affine law is commutative and
  associative on the curve.
- `Signatures.OrderL`, `Signatures.OfOrderL`: L kills the base point, or a key, or is its order, where a theorem says so.
- `BaseMult.BaseMultiples`, `ScalarMult.SlidingMultiples`: what the precomputed tables hold.

## Model

| member | source | states |
|---|---|---|
| `Modm.Reduce256` | 3rd/modm-donna-64bit.h:42-63 | one conditional subtraction of L, done with borrows and a mask, for every five limbs |
| `Modm.BarrettReduce256` | 3rd/modm-donna-64bit.h:65-107 | x mod L exactly for every x below 2^512, although the three lowest columns of mu q1 are never formed; no 64- or 128-bit value wraps |
| `Modm.EstimateIsClose` | 3rd/modm-donna-64bit.h:65-107 | the truncated quotient estimate is at most 2 below x / L and never above it |
| `Modm.Add256` | 3rd/modm-donna-64bit.h:110-121 | the sum, less L when it reaches L; the sum modulo L for reduced inputs |
| `Modm.Mul256` | 3rd/modm-donna-64bit.h:123-150 | the product modulo L |
| `StandardCurve.OrderIs` | 3rd/modm-donna-64bit.h:21-27 | L is 2^252 + 27742317777372353535851937790883648493 |
| `ModmBytes.Expand256` | 3rd/modm-donna-64bit.h:152-187 | the little-endian number modulo L, for every input of up to 64 bytes, including those under 32 that skip the reduction |
| `ModmBytes.ExpandRaw256` | 3rd/modm-donna-64bit.h:189-203 | the number in 32 bytes, unreduced |
| `ModmBytes.Contract256` | 3rd/modm-donna-64bit.h:205-211 | the bytes of the number and nothing outside them |
| `Recoding.Window4` | 3rd/modm-donna-64bit.h:213-238 | the signed radix-16 digits sum to the scalar; digits in [-8, 8), the top one at most 8 below 2^255 |
| `Recoding.SlidingWindow` | 3rd/modm-donna-64bit.h:240-280 | the digits times powers of two sum to the scalar, nonzero ones are odd and at most 2^(w-1) - 1, and any w in a row hold at most one; for scalars below 2^255 and w from 2 to 7 the rippled carry stays inside the 256 places |
| `ModmBatch.LessThan` | 3rd/modm-donna-64bit.h:302-315 | comparing limbs 0..limbsize compares the truncated numbers |
| `ModmBatch.SubInPlace` | 3rd/modm-donna-64bit.h:286-299 | subtraction on limbs 0..limbsize subtracts the numbers when both fit them |
| `BatchVerify.BatchHeap.InsertNext` | 3rd/ed25519-donna-batchverify.h:31-48 | the next entry joins; the places stay a permutation in max-heap order |
| `BatchVerify.BatchHeap.UpdatedRoot` | 3rd/ed25519-donna-batchverify.h:51-77 | order restored from any new root key on an odd-sized heap: sink along the larger children, then rise |
| `BatchVerify.BatchHeap.GetTop2` | 3rd/ed25519-donna-batchverify.h:96-103 | an entry with the largest key, and one with the largest among the others |
| `BatchVerify.InitialSizeIs` | 3rd/ed25519-donna-batchverify.h:162 | of 2n + 1 entries the heap starts with the least odd number above n |
| `BosCarter.Step` | 3rd/ed25519-donna-batchverify.h:182-184 | a subtraction and a point addition keep the group sum, the common divisors, the limb bound and the phase; before the extension some key stays at 2^127 or more |
| `BosCarter.Shrink` | 3rd/ed25519-donna-batchverify.h:171-173 | dropping an exhausted limb keeps every key within the limbs looked at, and the limb count never runs below 0 |
| `BosCarter.StepMeasure` | 3rd/ed25519-donna-batchverify.h:182-184 | every step makes the sum of the keys smaller |
| `BosCarter.Finish` | 3rd/ed25519-donna-batchverify.h:164-187 | with one key left: it is the gcd of all that took part, its multiple of its point is their whole sum, and the heap was extended if and only if two of the first scalars were nonzero and their common divisors are below 2^128 |
| `BatchVerify.BatchHeap.MultiScalarmult` | 3rd/ed25519-donna-batchverify.h:151-188 | on every input: the result is `Multiple` of the gcd of the participating scalars, of a point whose gcd-fold is the group sum of the participating terms |
| `BatchVerify.FinalSafe` | 3rd/ed25519-donna-batchverify.h:106-128 | the scalar left over can be handed to the closing multiplication if and only if the first half is all zero or not all multiples of 2^224 |
| `BatchVerify.WholeSum` | 3rd/ed25519-donna-batchverify.h:151-188 | the whole sum is returned when the heap extends and the gcd is 1 |
| `BatchVerify.PartOfSum` | 3rd/ed25519-donna-batchverify.h:168-180 | when it does not extend and the others' gcd is at most 1, the others' sum alone is returned: the whole sum if and only if the terms left out add up to the identity |
| `BatchVerify.OneScalarAlone` | 3rd/ed25519-donna-batchverify.h:168-180 | the witness: five scalars 1, 0, 0, 1, 0, where the fourth point is left out |
| `BatchVerify.NoLimbFound` | 3rd/ed25519-donna-batchverify.h:127-128 | the witness: for scalars 2^224, 0, 0, 0, 0 the key left over is 2^224, and limbs 3 to 0 hold no bit of it |
| `FinalMultiple.Final` | 3rd/ed25519-donna-batchverify.h:106-148 | what the closing double-and-add returns for every scalar it can be given |
| `FinalMultiple.TwoGivesSix` | 3rd/ed25519-donna-batchverify.h:124-147 | the witness: for the scalar 2 it is six times the point |
| `FinalMultiple.FinalIsExact` | 3rd/ed25519-donna-batchverify.h:124-147 | it is the scalar's multiple if and only if the scalar is at most 1 or a stated multiple of the point vanishes; all scalars |
| `FinalMultiple.FinalExactBelow224` | 3rd/ed25519-donna-batchverify.h:124-147 | for a point other than the identity killed by an odd number, and scalars below 2^224: if and only if the scalar is at most 1 |
| `FinalMultiple.FinalExactForOrder` | 3rd/ed25519-donna-batchverify.h:124-147 | for a point of odd order and every scalar below the order the loop can be given: if and only if the scalar is at most 1 or in [3 2^223, 2^225) |
| `Field25519.FMulIs` | 3rd/curve25519-donna-64bit.h:105-171 | the specification's product of residues is the residue of the product |
| `StandardCurve.ModulusIs` | 3rd/curve25519-donna-64bit.h:321-373 | p is 2^255 - 19 |
| `Field25519.Mul` | 3rd/curve25519-donna-64bit.h:105-171 | the product modulo p, reduced limbs out, for limbs below 2^54 in; every 64- and 128-bit value fits |
| `Field25519.Square` | 3rd/curve25519-donna-64bit.h:236-284 | the same for a square |
| `Field25519.SquareTimes` | 3rd/curve25519-donna-64bit.h:178-234 | in^(2^count) for every count of at least 1, with the limb bound kept around the loop |
| `Field25519.SubAfterBasic` | 3rd/curve25519-donna-64bit.h:72-80 | the difference modulo p after adding 4p limb by limb; no limb goes negative for lazy operands |
| `FieldBytes.Expand` | 3rd/curve25519-donna-64bit.h:286-319 | the low 255 bits of 32 bytes |
| `FieldBytes.Contract` | 3rd/curve25519-donna-64bit.h:321-373 | the little-endian bytes of the residue itself, for every input within the limb bound |
| `FieldBytes.EncodingUnique` | 3rd/curve25519-donna-64bit.h:321-373 | two 32-byte strings with one value are the same string, so the encoding is the only one |
| `FieldChains.PowTwo250` | 3rd/curve25519-donna-helpers.h:8-31 | z^(2^5 - 1) to z^(2^250 - 1), in place |
| `FieldChains.Recip` | 3rd/curve25519-donna-helpers.h:33-49 | z^(2^255 - 21) |
| `FieldChains.RecipInverts` | 3rd/curve25519-donna-helpers.h:33-49 | which is the inverse of every nonzero z, given Fermat's theorem |
| `FieldChains.PowTwo252m3` | 3rd/curve25519-donna-helpers.h:51-67 | z^(2^252 - 3) |
| `Field32.Mul` | 3rd/curve25519-donna-32bit.h:151-248 | the ten-limb product modulo p; scaled limbs fit 32 bits and column sums 64 |
| `Field32.Expand` | 3rd/curve25519-donna-32bit.h:401-443 | the ten limbs of the low 255 bits |
| `Field32.Contract` | 3rd/curve25519-donna-32bit.h:445-527 | the bytes of the residue |
| `Field32.SameBytes` | 3rd/curve25519-donna-32bit.h:151-527 | expand, multiply and contract give the same 32 bytes in both representations, for every pair of inputs |
| `StandardCurve.CurveConstants` | 3rd/ed25519-donna-64bit-tables.h:8-14 | d is -121665/121666 modulo p, and the second constant is 2d |
| `StandardCurve.OnCurveIs` | 3rd/ed25519-donna-impl-base.h:191-239 | a point of the model is on the curve if and only if its coordinates are residues with y^2 - x^2 = 1 + d x^2 y^2 modulo p, in integers |
| `StandardCurve.SumIs` | 3rd/ed25519-donna-impl-base.h:32-50 | the sum of two points meets x3 (1 + d x1 x2 y1 y2) = x1 y2 + x2 y1 and y3 (1 - d x1 x2 y1 y2) = y1 y2 + x1 x2 modulo p, with neither factor 0 |
| `StandardCurve.BaseOnCurve` | 3rd/ed25519-donna-64bit-tables.h:1-6 | the base point of the standard is on the curve, with y = 4/5 and even x |
| `StandardCurve.BaseLimbs` | 3rd/ed25519-donna-64bit-tables.h:1-6 | the limbs of `ge25519_basepoint` are its x, y and xy |
| `StandardCurve.FirstSlidingEntry` | 3rd/ed25519-donna-64bit-tables.h:20-21 | the first precomputed entry is y - x, y + x and 2dxy of it |
| `StandardCurve.FirstBaseRow` | 3rd/ed25519-donna-basepoint-table.h:2-3 | the first packed row is y - x, y + x and 2xy of it, as the hypothesis on the table says of rows 0 to 7 |
| `EdwardsLaw.SumIsSum` | 3rd/ed25519-donna-impl-base.h:32-50 | the extended-coordinate addition stands for the affine sum of section 5.1.4 of RFC 8032 |
| `EdwardsLaw.DoubleIsDouble` | 3rd/ed25519-donna-impl-base.h:53-67 | doubling stands for the affine double, reading only X, Y and Z |
| `EdwardsLaw.PNielsAdds` | 3rd/ed25519-donna-impl-base.h:88-106 | adding a precomputed point, or subtracting it when the sign bit is set |
| `EdwardsLaw.NielsAdds` | 3rd/ed25519-donna-impl-base.h:69-86 | the same for one without a denominator |
| `EdwardsLaw.ToFullKeepsPoint` | 3rd/ed25519-donna-impl-base.h:12-18 | the conversion keeps the point and makes T = xyZ again |
| `EdwardsLaw.FullMeansXYisZT` | 3rd/ed25519-donna-impl-base.h:12-18 | then X Y = Z T, wherever T is read |
| `EdwardsFormulas.AddP1P1` | 3rd/ed25519-donna-impl-base.h:32-50 | from reduced coordinates every field call meets its limb bound, and the coordinates are the formula's |
| `EdwardsFormulas.DoublePartial` | 3rd/ed25519-donna-impl-base.h:108-113 | doubling in place with T left as it was |
| `EdwardsFormulas.PNielsAdd` | 3rd/ed25519-donna-impl-base.h:149-172 | the addition straight into precomputed form |
| `ScalarMult.BuildTable` | 3rd/ed25519-donna-impl-base.h:263-266 | entry k is (2k + 1)P |
| `ScalarMult.DoubleScalarmult` | 3rd/ed25519-donna-impl-base.h:251-292 | [s1]P + [s2]B for all scalars below 2^255, every table index in range |
| `BaseMult.SelectRow` | 3rd/ed25519-donna-impl-base.h:303-317 | the masked scan picks the row of the digit's magnitude, or the neutral row |
| `BaseMult.ChooseNiels` | 3rd/ed25519-donna-impl-base.h:303-328 | the precomputed [d 256^pos]B for every digit in [-8, 8], negated without a branch |
| `BaseMult.ScalarmultBase` | 3rd/ed25519-donna-impl-base.h:333-363 | [s]B for every s below 2^255: odd digits, four doublings, even digits |
| `SquareRoots.CandidateWorks` | 3rd/ed25519-donna-impl-base.h:207-230 | whenever u/v is a square the candidate's square times v is u or -u |
| `SquareRoots.TurnedRoot` | 3rd/ed25519-donna-impl-base.h:225-230 | in the second case the candidate times sqrt(-1) is a root |
| `SquareRoots.CurveIsRoot` | 3rd/ed25519-donna-impl-base.h:200-205 | a point is on the curve if and only if its x is a root of (y^2 - 1)/(d y^2 + 1) |
| `PointBytes.Verify` | 3rd/ed25519-donna.h:66-72 | the constant-time comparison is equality of the bytes |
| `PointBytes.Pack` | 3rd/ed25519-donna-impl-base.h:179-189 | the encoding of the point the coordinates stand for |
| `PointBytes.UnpackNegative` | 3rd/ed25519-donna-impl-base.h:191-239 | succeeds if and only if some point has the encoded y; the point is then on the curve, has that y, and x of the opposite parity unless x = 0 |
| `PointBytes.DecodeOfEncode` | 3rd/ed25519-donna-impl-base.h:179-239 | the bytes of a point decode to its negative |
| `StandardCurve.BaseDecodes` | 3rd/ed25519-donna-impl-base.h:191-239 | the bytes 58 66 66 .. 66 decode, to the negated base point |
| `Sha512.Context.Update` | 3rd/ed25519-hash.h:123-151 | the context after any further piece stands for the message so far followed by the piece |
| `Sha512.Context.Final` | 3rd/ed25519-hash.h:153-178 | the digest of section 6.4 of FIPS 180-4 over everything fed in, however it was split |
| `Sha512.Hash` | 3rd/ed25519-hash.h:180-186 | the one-shot digest is the same |
| `Sha512.CounterStep` | 3rd/ed25519-hash.h:90-106 | T[1]:T[0] counts the bits compressed modulo 2^128, because T[0] is a multiple of 1024 |
| `Sha512.BigEndianRoundTrip` | 3rd/ed25519-hash.h:45-68 | loading what was stored gives the word back |
| `Sha512Standard.SigmaBits` | 3rd/ed25519-hash.h:40-75 | bit i of each of the four rotating functions is the exclusive or of the three bits the standard names |
| `Sha512Standard.ChoiceBits` | 3rd/ed25519-hash.h:70-71 | Ch takes the bit of y or z as the bit of x says, Maj the majority |
| `Sha512.ChooseIsCh` | 3rd/ed25519-hash.h:70 | the form with three operations is Ch of FIPS 180-4 |
| `Sha512.MajorityIsMaj` | 3rd/ed25519-hash.h:71 | the form with four operations is Maj of FIPS 180-4 |
| `Sha512Standard.RoundConstants` | 3rd/ed25519-hash.h:17-38 | constant t is the first 64 bits of the fractional part of the cube root of number t of a list |
| `Sha512Standard.PrimesInOrder` | 3rd/ed25519-hash.h:17-38 | which is of eighty primes in increasing order |
| `Sha512Standard.InitialWords` | 3rd/ed25519-hash.h:109-117 | the initial words are the same of the square roots of its first eight |
| `Sha512Standard.ScheduleIs` | 3rd/ed25519-hash.h:76-97 | whatever starts with the words of the block and goes on by the recurrence is the schedule |
| `Sha512Standard.PaddingFits` | 3rd/ed25519-hash.h:153-178 | the padding is the only string of a 1 bit, the fewest zeros that fill blocks, and the bit length in 128 bits |
| `Sha512Example.AbcDigest` | 3rd/ed25519-hash.h:40-186 | the digest of "abc" is the one published with the standard |
| `Signatures.ClampValue` | 3rd/ed25519.cpp:26-32 | the byte masks clear the low three bits, clear bit 255 and set bit 254 of the number |
| `Signatures.SecretScalarIs` | 3rd/ed25519.cpp:26-32 | the secret scalar is a multiple of 8 in [2^254, 2^255) that agrees with the first half of the hash of the seed in bits 3 to 253 |
| `Signatures.PublicKey` | 3rd/ed25519.cpp:44-55 | the encoding of the clamped scalar's multiple of the base point |
| `Signatures.Sign` | 3rd/ed25519.cpp:58-91 | the signature of section 5.1.6 of RFC 8032: R encodes [r]B and S = r + h a modulo L |
| `Signatures.SignatureIs` | 3rd/ed25519.cpp:58-91 | a signature with the hashes written out: the nonce is the hash of the second half of the seed's hash and the message |
| `Signatures.SameCommitment` | 3rd/ed25519.cpp:67-72 | two signatures by one key share R if and only if those hashes agree modulo L, for a base point of order L |
| `Signatures.SignOpen` | 3rd/ed25519.cpp:93-116 | accepts if and only if S is below 2^253, the key decodes and R is the encoding of [S]B - [h]A |
| `Signatures.AcceptsIs` | 3rd/ed25519.cpp:93-116 | acceptance with nothing abbreviated: the hash is that of R, the key and the message |
| `Signatures.MessageIsBound` | 3rd/ed25519.cpp:35-42 | for a key of order L, a signature accepted for one message is accepted for another if and only if the two hashes agree modulo L |
| `Signatures.SignatureAccepted` | 3rd/ed25519.cpp:44-116 | every signature made is accepted under the matching public key |
| `Signatures.ShiftedResponseAccepted` | 3rd/ed25519.cpp:93-116 | S and S + L are accepted alike when both are below 2^253 |
| `Signatures.AcceptedResponses` | 3rd/ed25519.cpp:93-116 | beside an accepted S, with the same R, exactly the numbers below 2^253 congruent to it modulo L are accepted, for a base point of order L |
| `Signatures.UniqueResponse` | 3rd/ed25519.cpp:93-116 | an accepted signature is the only accepted one with its R if and only if S mod L is at least 2^253 - L |
| `Montgomery.ClampedBytesIs` | 3rd/ed25519.cpp:132-136 | the clamped key is a multiple of 8 in [2^254, 2^255) that agrees with the key in bits 3 to 253 |
| `Montgomery.CurveBasepoint` | 3rd/ed25519.cpp:124-149 | the Montgomery u of the clamped multiple of the base point: u (1 - y) = 1 + y |
| `BatchEquation.BatchScalars` | 3rd/ed25519-donna-batchverify.h:219-238 | the scalars of a batch: the sum of z s, the z h, and the z, all modulo L |
| `BatchEquation.ScalarsAre` | 3rd/ed25519-donna-batchverify.h:219-238 | the scalars of signature i with nothing abbreviated: its 16 random bytes, and they times the hash of R, key and message modulo L |
| `BatchEquation.FirstScalarIs` | 3rd/ed25519-donna-batchverify.h:224-231 | scalar 0 is the sum of the random numbers times the responses, before its reduction |
| `BatchEquation.DecodePoints` | 3rd/ed25519-donna-batchverify.h:240-247 | the points of a batch, given up exactly when some key or commitment does not decode |
| `BatchEquation.BatchPoint` | 3rd/ed25519-donna-batchverify.h:216-250 | one pass: the point the multi-scalar multiplication gives on those scalars and points |
| `BatchEquation.BatchSumGap` | 3rd/ed25519-donna-batchverify.h:219-250 | for all keys: the sum of all terms, plus the multiples of [L](-A) that reducing z h leaves out, is the sum over the batch of z ([h](-A) + [s]B - R) |
| `BatchEquation.BatchSumIs` | 3rd/ed25519-donna-batchverify.h:219-250 | for keys of order L nothing is left out |
| `BatchEquation.GoodIff` | 3rd/ed25519-donna-batchverify.h:204-274 | a decodable signature is good if and only if S is below 2^253, R is canonical and its defect is the identity |
| `BatchEquation.OneDefectStays` | 3rd/ed25519-donna-batchverify.h:204-274 | one defect of order above its nonzero multiplier cannot cancel |
| `BatchEquation.AddPoints` | 3rd/ed25519-donna-impl-base.h:122-127 | `ge25519_add` on coordinates is the group's addition that the heap's points are added with |
| `BatchEquation.IsNeutral` | 3rd/ed25519-donna-batchverify.h:193-202 | the test on coordinates holds if and only if the point is the identity |
| `BatchOpen.SignOpenBatch` | 3rd/ed25519-donna-batchverify.h:204-274 | which signatures are reported good and both bits of the return value, exactly, from the points the batches came to |
| `BatchOpen.BatchedIff` | 3rd/ed25519-donna-batchverify.h:215-274 | signature i is checked in the batch that starts at the multiple of 64 below it if and only if more than three are left there; batches are of 64 or of the rest |
| `BatchOpen.ReportForAnyKeys` | 3rd/ed25519-donna-batchverify.h:204-274 | for all keys, in a batch whose whole sum comes back: a signature is reported good if and only if it is, or everything decodes and the multiplied defects equal the multiples of [L](-A) that reducing z h modulo L leaves out |
| `BatchOpen.ReportIsExact` | 3rd/ed25519-donna-batchverify.h:204-274 | in a regular batch (keys of order L) a signature is reported good if and only if it is, or everything decodes and the multiplied defects cancel |
| `BatchOpen.AllGoodValid` | 3rd/ed25519-donna-batchverify.h:204-274 | good signatures are all reported good and bit 0 of the result is clear, whatever the keys, the multipliers and the points returned |
| `BatchOpen.AllGoodResult` | 3rd/ed25519-donna-batchverify.h:204-274 | for good signatures in batches whose whole sum comes back, the result is 0 if and only if no batch leaves out anything when z h is reduced modulo L |
| `BatchOpen.AllGoodReported` | 3rd/ed25519-donna-batchverify.h:204-274 | so it is 0 for good signatures in regular batches (keys of order L, whole sum back) |
| `BatchOpen.OneBadReported` | 3rd/ed25519-donna-batchverify.h:204-274 | a single bad one whose defect has order above its multiplier is reported bad |
| `BatchOpen.RangeNotTested` | 3rd/ed25519-donna-batchverify.h:226-229 | S and S + kL beyond 2^253 give the same share, so no batch tells them apart, and single verification rejects the second |
| `BatchOpen.RangeReported` | 3rd/ed25519-donna-batchverify.h:204-274 | a regular batch whose signatures are good but for one such S reports that one good, where single verification rejects it |
| `BinaryCurve.ChordIs` | ec/ec2_smpl.cpp:461-571 | the sum of points with different x: with slope s, x3 = s^2 + s + x1 + x2 + a and y3 = s(x1 + x3) + x3 + y1 |
| `BinaryCurve.TangentIs` | ec/ec2_smpl.cpp:461-571 | the double: s x = x^2 + y, x3 = s^2 + s + a and y3 = x^2 + (s + 1) x3 |
| `BinaryCurve.SumFromDifference` | ec/ec2_mult.cpp:125-161 | x(P + Q) from x(Q - P), x(P) and x(Q), over any field of characteristic two |
| `BinaryLadder.SimpleAdd` | ec/ec2_smpl.cpp:461-571 | the affine law in every case, with results that may overwrite operands |
| `BinaryLadder.IsOnCurve` | ec/ec2_smpl.cpp:606-665 | the test holds if and only if the equation does |
| `BinaryLadder.Invert` | ec/ec2_smpl.cpp:583-592 | the negated point if and only if the point is infinity, or Y is not 0, or X is 0 |
| `BinaryLadder.InvertLeavesOneZero` | ec/ec2_smpl.cpp:583-592 | the point (1, 0) of y^2 + xy = x^3 + 1 is such a point and is not its own negative |
| `BinaryLadder.LadderStep` | ec/ec2_mult.cpp:331-341 | after each bit the two ratios are the x-coordinates of kP and (k + 1)P for the prefix k |
| `BinaryLadder.Mxy` | ec/ec2_mult.cpp:173-251 | the affine point from two x-coordinates; its division is never by zero |
| `BinaryLadder.PointMultiply` | ec/ec2_mult.cpp:263-367 | the scalar multiple by repeated `ec_GF2m_simple_add`, for every non-negative scalar |
| `BinaryLadder.HighIsEval` | ec/ec2_mult.cpp:263-367 | the scalar is the number its words spell, least significant first |
| `Julian.JulianNumber` | common/ca.cpp:915-919 | the day number, with every intermediate value inside 32 bits |
| `Julian.NextDayIsNextNumber` | common/ca.cpp:915-919 | successive Gregorian dates have successive numbers |
| `Julian.YearRange` | common/ca.cpp:915-919 | the years 1900 to 9999 are exactly the days 2415021 to 5373484 |
| `Julian.JulianToDate` | common/ca.cpp:963-976 | a valid date whose number is the one given, for every number from year -4800 on |
| `Julian.DateRoundTrip` | common/ca.cpp:915-976 | the date of a date's number is the date |
| `Julian.GmtimeAdj` | common/ca.cpp:978-1002 | returning 1, the instant has moved by exactly off_day days and offset_sec seconds and the date is valid; for a time of day in range it returns 1 if and only if the new year is in 1900..9999, and otherwise changes nothing; for offsets of 24856 days or more on condition that the overflowing product wraps |
| `Julian.ProductFits` | common/ca.cpp:927-929 | the product of days and seconds in a day fits an int if and only if the offset is less than 24856 days either way |
| `Julian.CenturyOverflows` | common/ca.cpp:927-929 | the witness: for a hundred years it does not |

## Findings

Properties that the code does not have, each with an input and the exact condition under which it has it.

| where | as written | input | intended, and exactly when the code meets it | confidence |
|---|---|---|---|---|
| 3rd/ed25519-donna-batchverify.h:136 | the closing double-and-add starts on the scalar's top bit with the point already in `r`, and never looks at limb 4 | the scalar 2 gives six times the point (`FinalMultiple.TwoGivesSix`) | the scalar's multiple of the point: for all scalars if and only if the scalar is at most 1 or a stated multiple vanishes (`FinalMultiple.FinalIsExact`); on points of odd order, if and only if it is at most 1 or in [3 2^223, 2^225) (`FinalMultiple.FinalExactBelow224`, `FinalMultiple.FinalExactForOrder`) | proved |
| 3rd/ed25519-donna-batchverify.h:127-128 | the search for the scalar's top limb goes down from limb 3 | scalars 2^224, 0, 0, 0, 0: 2^224 is left over and the search passes limb 0 (`BatchVerify.NoLimbFound`) | a nonzero limb is found: if and only if the first half of the scalars is all zero or has an element that 2^224 does not divide (`BatchVerify.FinalSafe`) | proved |
| 3rd/ed25519-donna-batchverify.h:168-180 | the exit test comes before the extension test | scalars 1, 0, 0, 1, 0: the fourth point is left out (`BatchVerify.OneScalarAlone`) | the whole sum is returned: with a gcd of at most 1, if and only if the heap extends, which is when two of the first scalars are nonzero and their common divisors are below 2^128, or the terms left out add up to the identity (`BosCarter.Finish`, `BatchVerify.WholeSum`, `BatchVerify.PartOfSum`) | proved |
| 3rd/ed25519.cpp:100 | S is tested against 2^253 and reduced afterwards | S and S + L, whenever both are below 2^253 (`Signatures.ShiftedResponseAccepted`) | one accepted S beside an R: for a base point of order L, if and only if S mod L is at least 2^253 - L (`Signatures.UniqueResponse`, from `Signatures.AcceptedResponses`) | proved |
| 3rd/ed25519-donna-batchverify.h:226-229 | the batch neither tests the range of S nor the form of R | a good signature with S replaced by S + kL at 2^253 or above (`BatchOpen.RangeNotTested`), in a regular batch otherwise good: reported good (`BatchOpen.RangeReported`) | batch and single verification agree on a signature without defect: if and only if S is below 2^253 and R is a canonical encoding (`BatchEquation.GoodIff`) | proved |
| ec/ec2_smpl.cpp:585 | a point with Y = 0 is left as it is | (1, 0) on y^2 + xy = x^3 + 1 (`BinaryLadder.InvertLeavesOneZero`) | the negated point: if and only if the point is at infinity, or Y is not 0, or X is 0 (`BinaryLadder.Invert`) | proved |
| common/ca.cpp:929 | days times seconds in a day is an int product, of an offset that is a long | an offset of 36500 days (`Julian.CenturyOverflows`) | the product fits an int: if and only if the offset is less than 24856 days either way (`Julian.ProductFits`); beyond that the language leaves it undefined, and the adjusted time is right where it wraps (`Julian.GmtimeAdj`) | proved |

## Left out

- `3rd/modm-donna-32bit.h`: the nine-limb scalar code repeats the five-limb algorithms on 30-bit limbs; only the 32-bit field code is tied to the 64-bit one.
- The SSE2 and assembly variants: the same mathematics through intrinsics; the portable C is modelled.
- The contents of the precomputed tables: they are hypotheses, with rows 0 to 7 of the base table holding 2xy where the others hold 2dxy; of each table the first entry is proved (`StandardCurve.FirstSlidingEntry`, `StandardCurve.FirstBaseRow`).
- Primality of p, Fermat's theorem, completeness and the group laws of both curves: hypotheses, listed above.
- `BatchVerify.BatchHeap.MultiScalarmult`: the heap holds elements of a group, in the batch affine points of the curve, and its result is compared with the identity; that `ge25519_add`, `ge25519_double` and the neutral test do the same on coordinates is `BatchEquation.AddPoints`, `EdwardsLaw.DoubleIsDouble` and `BatchEquation.IsNeutral`.
- `BatchVerify.BatchHeap.MultiScalarmult`: it needs `Ready`, that the scalars which join late are below 2^128 and that 2^224 does not divide all of a first half that is not all zero; the code tests neither. Every batch meets the first (`BatchEquation.LateScalars`); the second is `BatchReady`, a precondition on batches that decode.
- `BatchEquation.ResponseSum`: forms each product where the code first stores all of them in slots that later hold other scalars; the scratch contents are not modelled.
- `BinaryLadder.PointMultiply`: negative scalars, which go through `ec_GF2m_simple_invert`, are not modelled; the field routines `BN_GF2m_*` are an abstract field.
- `Julian.GmtimeAdj`: field values large enough to overflow `int` in the other sums and products are excluded by `Small`, and offsets of about 2^30 days or more by `SmallOffset`; for offsets of 24856 days or more it takes the overflowing product at common/ca.cpp:929 to wrap, which the language leaves undefined.
- `Field25519.ReduceLimbs`, `BaseMult.MoveConditional` and other helpers: the C macros and unrolled blocks are methods here.
- Random multipliers are parameters; the random generators, the OpenSSL hash branch and the custom hash are not modelled.
- `ec_GF2m_simple_dbl` is the sum of a point with itself and adds nothing to `BinaryLadder.SimpleAdd`.
- The rest of `common/`, ASN.1, key storage, network, HTTP, daemon and configuration code: wrappers over libraries that are not part of this model.
