# Ed25519 and ECDSA, from limbs to signatures

This project models the Ed25519 implementation in `src/ed25519-donna` and the integer ECDSA toolkit in `bin/python/ecdsa`,
and proves what the two promise.

The C code is followed from 64-bit words up. Field elements are five 51-bit limbs and scalars five 56-bit limbs. The
words of the multiplications, additions and carry chains have types in which every assignment is proved not to wrap. The borrow words
of the subtractions wrap, as in the code, and recoded digits are integers with the bounds their contracts state. On top of that stand the addition chains, the byte codecs, the point
formulas, the scalar recodings, the two scalar multiplications, point compression, and finally keys, signatures and
verification. The end result is one theorem: a signature made with a key is accepted under the matching public key
(`Signatures.SignThenOpen`), and acceptance is exactly the equation [S]B = R + [h]A for the reduced challenge h
(`Signatures.AcceptsIff`). Module `Rfc8032` compares this with sections 5.1.3 and 5.1.7 of RFC 8032. Batch verification is a second line: the index heap, the Bos-Carter loop with its conserved sum, and
the weighted equation that the whole batch tests, up to signing and batch verification in sequence
(`BatchTheorems.SignThenOpenBatch`).

`dafny verify dfyconfig.toml` checks everything.

## What is taken for granted

- `EdwardsGroup.IsEd25519`: p = 2^255 - 19 is prime, d is not a square modulo p, and the addition of curve points is associative.
  That the addition has no exceptional points, stays on the curve, and has a neutral element and inverses is proved. So is
  Fermat's little theorem.
- The basepoint has order L, and L is prime where batch verification needs it. 8 L kills every curve point where section 5.1.7 of
  RFC 8032 is compared (`Rfc8032.CofactorEight`).
- The precomputed tables hold the multiples their names say (`Ladder.SlidingTable`, `BaseMult.BaseTable`). The first row of the
  basepoint table stores 2xy instead of 2dxy, and the model keeps that difference.
- The hash gives 64 bytes; the compression function of SHA-512 maps eight words to eight words.

## How the source appears here

- Limb arrays that the C functions write through out-parameters are returned values. Shifts and masks are division and
  remainder by powers of two, and an "or" of disjoint bits is a sum. Masked selections are conditionals; the lemmas about bit vectors
  show that they agree (`Modm.SelectByMask`, `BaseMult.MoveByMask`, `BaseMult.SwapByMask`, `BaseMult.WindowbEqual`).
- Switch statements that fall through are loops over the limbs, and a do-while loop is one pass followed by a while loop.
- The heap of batch verification is a class that changes its arrays in place, and so are the recodings and the SHA-512 context.
  Python exceptions are the value `Failed`.
- `Congruence.Residue` and `Congruence.Product` are kept uninterpreted outside a few lemmas, so that congruence modulo p is plain
  equality of terms. `Congruence.ResidueIs` and `Congruence.ProductIs` say what they are.

## Where the code differs from its comments or from the standard

- `curve25519_square_times` computes in^(2^count). Its comment says in^(2 * count).
- `ge25519_multi_scalarmult_vartime_final` processes the leading bit twice and returns [2^n + s]point. The result is right
  only as a test for neutrality, and `BosCarterFinal.FinalIsMultipleIff` and `BosCarterFinal.FinalKeepsNeutral` say when;
  `BosCarterFinal.FinalDoublesLeadingBit` is a run with another result.
- The Bos-Carter loop can end before the 128-bit scalars are admitted. `BosCarterStep.Stuck` is the exact condition on the first
  scalars: at most one of them is nonzero, or they share a divisor of at least 2^128. The sum that decides is then the one over
  the first scalars only (`BosCarterFinal.MultiScalarmultVartime`, `BatchVerify.CheckBatch`). `BosCarterFinal.StuckRun` and
  `BatchTheorems.StuckBatch`, the latter for every hash, are runs with a wrong result, and in `BosCarterFinal.OverrunRun` the final step reads outside the
  scalar.
- Batch verification does not test S < 2^253 or that R is canonical, as single verification does. `BatchTheorems.VerdictIff` is
  the exact difference; `BatchTheorems.LargeSRun` and `BatchTheorems.LargeRRun` are runs that show it.
- `ge25519_unpack_negative_vartime` accepts y >= p, and x = 0 with the sign bit set. Section 5.1.3 of RFC 8032 rejects
  both. `Rfc8032.StandardDecodesIff` says exactly when the two agree; `Rfc8032.LargeYIsDecoded` and
  `Rfc8032.SignedZeroIsDecoded` are inputs on which they do not.
- `ed25519_sign_open` only requires S < 2^253 and reduces it modulo L, where section 5.1.7 of RFC 8032 demands S < L
  (`Rfc8032.AcceptsShifted`, `Rfc8032.TwoForms`). It tests [S]B = R + [h]A with the reduced challenge, where the standard tests
  [8][S]B = [8]R + [8][k]A with the whole digest k. `Rfc8032.StandardAcceptsIff` and `Rfc8032.AcceptsByDefect` put both as conditions
  on one point, `Rfc8032.StandardAgrees` says when they agree, and `Rfc8032.TwistKey` is a key of order two for which they do not.
- `Private_key.sign` does not reduce the x coordinate modulo n, so a signature with r >= n is rejected:
  `Ecdsa.SignThenVerify` and `Ecdsa.UnreducedIsRejected`.
- `encode_integer` writes a single length byte, so integers of 2^1015 and more are not read back: `Der.IntegerRoundTrip`,
  `Der.SignatureRoundTrip` and `Der.LargeIntegerLost`.
- `remove_integer`, `remove_sequence` and `remove_object` do not notice a length beyond the end of the string: `DerGrammar.RemoveIntegerIff`
  has the exact form of what is read, and `DerGrammar.TruncatedIsRead` is an input.
- The length test in `read_number` never fires, because indexing fails first: `Der.ReadNumber`.
- `encode_oid` accepts a negative second component, which is not read back: `Der.OidRoundTrip` and `Der.NegativeComponentLost`.
- `heap_updated_root` restores the heap for every odd size, the sizes its callers use, but not for every even one.
  `BatchHeaps.BatchHeap.HeapUpdatedRoot` has the exact condition on the heap before the call, and `BatchHeaps.EvenSizeRun` is a run
  where it fails.

## Model

| member | source | states |
|---|---|---|
| `ModmBatch.Sub256ModmBatch` | src/ed25519-donna/modm-donna-64bit.h:287-299 | on limbs that are zero above limbsize and b <= a, the truncated subtraction is the integer a - b, and the limbs above stay zero |
| `ModmBatch.Lt256ModmBatch` | src/ed25519-donna/modm-donna-64bit.h:303-315 | on limbs that are zero above limbsize, the truncated comparison decides a < b on the whole numbers |
| `ModmBatch.Lte256ModmBatch` | src/ed25519-donna/modm-donna-64bit.h:318-330 | the same for a <= b |
| `ModmBatch.IsZero256ModmBatch` | src/ed25519-donna/modm-donna-64bit.h:333-340 | true exactly for the scalar 0 |
| `ModmBatch.IsOne256ModmBatch` | src/ed25519-donna/modm-donna-64bit.h:343-350 | true exactly for the scalar 1 |
| `ModmBatch.IsAtMost128Bits256ModmBatch` | src/ed25519-donna/modm-donna-64bit.h:353-361 | true exactly for scalars below 2^128 |
| `HeapOrder.RootIsMaximal` | src/ed25519-donna/ed25519-donna-batchverify.h:96-103 | the root of a max-heap bounds every key |
| `HeapOrder.ChildIsSecond` | src/ed25519-donna/ed25519-donna-batchverify.h:96-103 | the larger child of the root bounds every other key |
| `HeapOrder.SiftDownStep` | src/ed25519-donna/ed25519-donna-batchverify.h:57-68 | moving the larger child into the hole leaves a heap but for the hole |
| `HeapOrder.HoleAtLeaf` | src/ed25519-donna/ed25519-donna-batchverify.h:57-68 | with an odd number of keys the hole always reaches a leaf, so the sift never misses a single child |
| `HeapOrder.PermutationHitsAll` | src/ed25519-donna/ed25519-donna-batchverify.h:96-103 | a heap of distinct indices below n contains every index below n, so its root is a maximum over all scalars |
| `BatchHeaps.BatchHeap.HeapSwap` | src/ed25519-donna/ed25519-donna-batchverify.h:22-28 | exchanges two heap entries and nothing else |
| `BatchHeaps.BatchHeap.HeapInsertNext` | src/ed25519-donna/ed25519-donna-batchverify.h:31-48 | keeps the max-heap and the permutation while admitting the next scalar |
| `BatchHeaps.BatchHeap.HeapUpdatedRoot` | src/ed25519-donna/ed25519-donna-batchverify.h:51-77 | after only the root key has changed, restores the max-heap for every odd size; for an even size from 4 on exactly if, on the keys before the call, the path of larger children does not end at the parent of the last entry or the last key is not above the new root; the heap stays a permutation of the indices |
| `HeapOrder.UpdatedRoot` | src/ed25519-donna/ed25519-donna-batchverify.h:57-77 | the two sift loops seen through the keys: what they leave is a max-heap exactly under that condition |
| `BatchHeaps.EvenSizeRun` | src/ed25519-donna/ed25519-donna-batchverify.h:57-77 | a run on the scalars 0, 5, 3, 4, where size 4 leaves no max-heap |
| `BatchHeaps.BatchHeap.HeapBuild` | src/ed25519-donna/ed25519-donna-batchverify.h:80-86 | a max-heap over the first count scalars |
| `BatchHeaps.BatchHeap.HeapExtend` | src/ed25519-donna/ed25519-donna-batchverify.h:89-93 | admits all scalars up to the new count and stays a max-heap |
| `BatchHeaps.BatchHeap.HeapGetTop2` | src/ed25519-donna/ed25519-donna-batchverify.h:96-103 | two different indices that hold the largest and the second largest scalar |
| `BosCarterStep.StepKeepsSum` | src/ed25519-donna/ed25519-donna-batchverify.h:181-182 | subtracting one scalar from the other and adding the points the other way leaves the sum of scalar multiples unchanged, in any abelian group |
| `BosCarterStep.StepKeepsDivisors` | src/ed25519-donna/ed25519-donna-batchverify.h:181-182 | the same step leaves the common divisors of the scalars unchanged |
| `BosCarterStep.StepStaysLarge` | src/ed25519-donna/ed25519-donna-batchverify.h:167-183 | while the heap is not extended a large scalar survives every step |
| `BosCarterStep.NotStuck` | src/ed25519-donna/ed25519-donna-batchverify.h:175-179 | reaching a nonzero maximum below 2^128 with two scalars in play rules out the condition Stuck |
| `BosCarterStep.StuckAtExit` | src/ed25519-donna/ed25519-donna-batchverify.h:168-169 | leaving the loop before the extension happens only under the condition Stuck on the first scalars |
| `BosCarter.RoomForTail` | src/ed25519-donna/ed25519-donna-batchverify.h:175-179 | when the 128-bit scalars are admitted, limbsize is still at least 2, so they fit the truncated comparisons |
| `BosCarter.SubtractAndAdd` | src/ed25519-donna/ed25519-donna-batchverify.h:181-182 | the two updates of a step, as changes of the integer scalars and the points |
| `BosCarter.BosCarterLoop` | src/ed25519-donna/ed25519-donna-batchverify.h:151-185 | every run: the 128-bit scalars are admitted exactly if the first scalars are not Stuck; at the end one scalar is left, it is the gcd of the scalars in play, and its multiple of the surviving point is the original sum; every common order of the points is kept; the loop terminates |
| `BosCarterFinal.MultiScalarmultVartimeFinal` | src/ed25519-donna/ed25519-donna-batchverify.h:106-148 | returns [2^n + t]point for the low 224 bits t of bit length n, the point itself for 1 and neutral for 0; runs off the scalar exactly if only its top limb is set |
| `BosCarterFinal.FinalIsMultipleIff` | src/ed25519-donna/ed25519-donna-batchverify.h:124-147 | [2^n + s]point equals [s]point exactly if 2^n kills the point |
| `BosCarterFinal.FinalDoublesLeadingBit` | src/ed25519-donna/ed25519-donna-batchverify.h:106-148 | a run over the integers: s = 2 and the point 1 give 6 and not 2 |
| `BosCarterFinal.FinalNeutralIff` | src/ed25519-donna/ed25519-donna-batchverify.h:124-147 | for a point of prime order l >= 2^130 and 1 < s < 2^128 the result is neutral exactly if [s]point is |
| `BosCarterFinal.FinalKeepsNeutral` | src/ed25519-donna/ed25519-donna-batchverify.h:106-148 | the same for every scalar s below 2^128, and for every s below l when l >= 2^225, if the step does not run off the scalar |
| `BosCarterFinal.MultiScalarmultVartime` | src/ed25519-donna/ed25519-donna-batchverify.h:151-188 | on every input: the result is the final step at the gcd of the scalars in play (all, or the first ones if they are Stuck) and a point whose multiple by it is their sum; it runs off the scalar exactly if that gcd is a nonzero multiple of 2^224; for points killed by a large prime it is neutral exactly if the sum of the scalars in play is |
| `BosCarterFinal.StuckRun` | src/ed25519-donna/ed25519-donna-batchverify.h:168-169 | a run that leaves the loop early: scalars 0, 0, 0, 1, 0 give the neutral element although the sum is the point p, in any abelian group |
| `BosCarterFinal.OverrunRun` | src/ed25519-donna/ed25519-donna-batchverify.h:127-128 | a run whose final step reads outside the scalar: 2^224 and four zeros |
| `Modm.SelectByMask` | src/ed25519-donna/modm-donna-64bit.h:55-62 | the masked exclusive-or keeps one of the two words |
| `Modm.Reduce256Modm` | src/ed25519-donna/modm-donna-64bit.h:42-63 | subtracts L once if the value is at least L, and only then |
| `Modm.QuotientEstimate` | src/ed25519-donna/modm-donna-64bit.h:71-85 | the quotient estimate with the low columns dropped, without overflow of any 64- or 128-bit word |
| `Modm.BarrettBound` | src/ed25519-donna/modm-donna-64bit.h:65-107 | for every x < 2^512 the estimate q3 gives 0 <= x - q3 L < 3 L |
| `Modm.LowProduct` | src/ed25519-donna/modm-donna-64bit.h:87-96 | q3 L modulo 2^264 |
| `Modm.Sub264` | src/ed25519-donna/modm-donna-64bit.h:98-103 | the difference modulo 2^264 |
| `Modm.BarrettReduce256Modm` | src/ed25519-donna/modm-donna-64bit.h:65-107 | x mod L for every x below 2^512, with exactly two conditional subtractions |
| `Modm.Add256Modm` | src/ed25519-donna/modm-donna-64bit.h:110-121 | (x + y) mod L for reduced x and y |
| `Modm.Mul256Modm` | src/ed25519-donna/modm-donna-64bit.h:123-150 | x y mod L for all x, y below 2^256 |
| `ModmCodec.Expand256Modm` | src/ed25519-donna/modm-donna-64bit.h:152-187 | the little-endian number in up to 64 bytes, modulo L |
| `ModmCodec.Contract256Modm` | src/ed25519-donna/modm-donna-64bit.h:205-211 | the 32 little-endian bytes of the scalar |
| `Recoding.Ripple` | src/ed25519-donna/modm-donna-64bit.h:268-274 | propagating a carry adds one to the number above the position and never leaves the array |
| `Recoding.SlideAt` | src/ed25519-donna/modm-donna-64bit.h:259-279 | opening one window in place keeps the value and clears the digits it absorbs |
| `Recoding.ContractSlidingWindow` | src/ed25519-donna/modm-donna-64bit.h:240-280 | for every scalar up to 2^255 and window w the signed digits keep the value, every nonzero digit is odd, below 2^(w-1) in size and followed by w-1 zeros or the end |
| `Recoding.ContractWindow4` | src/ed25519-donna/modm-donna-64bit.h:213-238 | the signed radix-16 digits keep the value and lie in [-8, 7], the top one in [0, 8] below 2^255 |
| `Field.Add` | src/ed25519-donna/curve25519-donna-64bit.h:26-32 | the sum, with limbs bounded as the result of one basic operation |
| `Field.AddAfterBasic` | src/ed25519-donna/curve25519-donna-64bit.h:36-42 | the sum of two such results, inside the bound multiplication accepts |
| `Field.AddReduce` | src/ed25519-donna/curve25519-donna-64bit.h:45-54 | the sum modulo p with nearly reduced limbs |
| `Field.Sub` | src/ed25519-donna/curve25519-donna-64bit.h:63-69 | the difference modulo p; the added 2p keeps every limb from going below zero |
| `Field.SubAfterBasic` | src/ed25519-donna/curve25519-donna-64bit.h:73-79 | the difference modulo p of results of basic operations, without underflow |
| `Field.SubReduce` | src/ed25519-donna/curve25519-donna-64bit.h:82-91 | the difference modulo p with nearly reduced limbs |
| `Field.Neg` | src/ed25519-donna/curve25519-donna-64bit.h:94-103 | the negative modulo p with nearly reduced limbs |
| `Field.Mul` | src/ed25519-donna/curve25519-donna-64bit.h:106-171 | for limbs below 2^54: no overflow, nearly reduced limbs, and the product modulo p |
| `Field.SquareTimes` | src/ed25519-donna/curve25519-donna-64bit.h:179-233 | in^(2^count) modulo p for every count >= 1 |
| `Field.Square` | src/ed25519-donna/curve25519-donna-64bit.h:236-284 | the square modulo p, with columns formed from doubled operands |
| `FieldChains.PowTwo5mTwo0Two250mTwo0` | src/ed25519-donna/curve25519-donna-helpers.h:12-31 | from z^(2^5 - 1) to z^(2^250 - 1) |
| `FieldChains.Recip` | src/ed25519-donna/curve25519-donna-helpers.h:36-49 | z^(2^255 - 21) = z^(p - 2) |
| `FieldChains.PowTwo252m3` | src/ed25519-donna/curve25519-donna-helpers.h:54-67 | z^(2^252 - 3) = z^((p - 5) / 8) |
| `Fermat.LittleTheorem` | src/ed25519-donna/curve25519-donna-helpers.h:33-49 | x^(p - 1) = 1 modulo p for x not divisible by p, given that p is prime |
| `Fermat.RecipInverts` | src/ed25519-donna/curve25519-donna-helpers.h:33-49 | the power p - 2 is the inverse |
| `FieldCodec.Expand` | src/ed25519-donna/curve25519-donna-64bit.h:287-319 | the low 255 bits of the little-endian number, in proper limbs |
| `FieldCodec.Canonical` | src/ed25519-donna/curve25519-donna-64bit.h:325-360 | the limbs of the residue in [0, p), for all limbs below 2^54 |
| `FieldCodec.Contract` | src/ed25519-donna/curve25519-donna-64bit.h:324-373 | the 32 bytes of the residue in [0, p), for all limbs below 2^54 |
| `FieldCodec.ContractExpand` | src/ed25519-donna/curve25519-donna-64bit.h:286-373 | contract after expand gives back exactly the strings that encode a number below p |
| `EdwardsCurve.ExpModIs` | bin/python/ed25519.py:10-14 | square-and-multiply is the power modulo p |
| `EdwardsCurve.ConstantD` | bin/python/ed25519.py:19-19 | the Python constant d and the table constant agree modulo p |
| `EdwardsCurve.EdwardsLaw` | bin/python/ed25519.py:33-40 | edwards solves the addition law: x3 (1 + k) and y3 (1 - k) are the numerators |
| `EdwardsCurve.CurveIsComplete` | bin/python/ed25519.py:33-40 | on the curve neither denominator vanishes, given that d is not a square |
| `EdwardsGroup.SumOnCurve` | bin/python/ed25519.py:33-40 | the sum of two curve points is a curve point |
| `EdwardsGroup.ZeroIsNeutral` | bin/python/ed25519.py:42-43 | (0, 1) is neutral |
| `EdwardsGroup.NegIsInverse` | bin/python/ed25519.py:33-40 | (-x, y) is the inverse of (x, y) |
| `EdwardsGroup.CurveGroup` | bin/python/ed25519.py:33-47 | the curve points form an abelian group, given associativity |
| `EdwardsGroup.ScalarMultIs` | bin/python/ed25519.py:42-47 | scalarmult is the integer multiple in that group |
| `EdwardsGroup.BaseOnCurve` | bin/python/ed25519.py:29-31 | the basepoint is on the curve, has y = 4/5 and even x |
| `PointCodec.BasepointIs` | src/ed25519-donna/ed25519-donna-64bit-tables.h:1-6 | the limbs of the basepoint, t included, are reduced and represent the curve point with y = 4/5 and even x |
| `Points.Constants` | src/ed25519-donna/ed25519-donna-64bit-tables.h:8-18 | the constants are d, 2d and a square root of -1, with reduced limbs |
| `Points.FullIsExtended` | src/ed25519-donna/ed25519-donna-impl-base.h:12-18 | full points satisfy XY = ZT |
| `Points.AddFormula` | src/ed25519-donna/ed25519-donna-impl-base.h:32-50 | b - a, b + a, d + c, d - c are the affine sum in completed coordinates, with nonzero denominators |
| `Points.DoubleFormula` | src/ed25519-donna/ed25519-donna-impl-base.h:53-67 | the doubling formula is the affine double, using the curve equation |
| `Points.P1p1ToPartial` | src/ed25519-donna/ed25519-donna-impl-base.h:5-10 | the same point in projective coordinates |
| `Points.P1p1ToFull` | src/ed25519-donna/ed25519-donna-impl-base.h:12-18 | the same point with a valid t |
| `Points.FullToPniels` | src/ed25519-donna/ed25519-donna-impl-base.h:20-26 | the precomputed sums of the point |
| `Points.AddP1p1` | src/ed25519-donna/ed25519-donna-impl-base.h:32-50 | the affine sum, with no underflow and limbs that multiplication accepts |
| `Points.DoubleP1p1` | src/ed25519-donna/ed25519-donna-impl-base.h:53-67 | the affine double of a partial point, with the same bounds |
| `Points.Nielsadd2P1p1` | src/ed25519-donna/ed25519-donna-impl-base.h:69-86 | the sum with a table entry or, for signbit 1, with its negative |
| `Points.PnielsaddP1p1` | src/ed25519-donna/ed25519-donna-impl-base.h:88-106 | the same for an entry with its own z |
| `Points.DoublePartial` | src/ed25519-donna/ed25519-donna-impl-base.h:108-113 | the double, without t |
| `Points.Double` | src/ed25519-donna/ed25519-donna-impl-base.h:115-120 | the double, with t |
| `Points.AddGe` | src/ed25519-donna/ed25519-donna-impl-base.h:122-127 | the sum of two full points |
| `Points.Nielsadd2` | src/ed25519-donna/ed25519-donna-impl-base.h:129-147 | adds a table entry in place |
| `Points.Pnielsadd` | src/ed25519-donna/ed25519-donna-impl-base.h:149-172 | the sum as precomputed sums |
| `Ladder.DigitPoint` | src/ed25519-donna/ed25519-donna-impl-base.h:280-287 | entry |d|/2 of the table of odd multiples, with the sign of d, is [d]a for every odd digit |
| `Ladder.OddTable` | src/ed25519-donna/ed25519-donna-impl-base.h:263-266 | entry k of the table is [2k + 1]p1 |
| `Ladder.Step` | src/ed25519-donna/ed25519-donna-impl-base.h:277-291 | one pass doubles both multipliers and adds the two digits |
| `Ladder.DoubleScalarmultVartime` | src/ed25519-donna/ed25519-donna-impl-base.h:252-292 | [s1]p1 + [s2]b for all s1, s2 up to 2^255; every table index is in range |
| `BaseMult.MagnitudeByMask` | src/ed25519-donna/ed25519-donna-impl-base.h:306-308 | the masked exclusive-or is the magnitude |
| `BaseMult.WindowbEqual` | src/ed25519-donna/ed25519-donna-impl-base.h:298-301 | 1 for equal and 0 for different small numbers |
| `BaseMult.MoveByMask` | src/ed25519-donna/curve25519-donna-64bit.h:378-395 | the masked move keeps one of the two words |
| `BaseMult.SwapByMask` | src/ed25519-donna/curve25519-donna-64bit.h:398-408 | the masked exclusive-or swaps two words or leaves them |
| `BaseMult.ChooseNiels` | src/ed25519-donna/ed25519-donna-impl-base.h:303-329 | [b]p from the row of multiples of p, for every digit from -8 to 8 |
| `BaseMult.Interleaved` | src/ed25519-donna/ed25519-donna-impl-base.h:334-363 | a radix-16 number is its even digits plus 16 times its odd digits, both in radix 256 |
| `BaseMult.AddFirst` | src/ed25519-donna/ed25519-donna-impl-base.h:356-358 | the first row stores 2xy, and multiplying by d makes it the entry the addition expects |
| `BaseMult.ScalarmultBaseNiels` | src/ed25519-donna/ed25519-donna-impl-base.h:334-363 | [s]b as a full point for every s below 2^255 |
| `PointCodec.Verify` | src/ed25519-donna/ed25519-donna.h:66-72 | true exactly for equal strings |
| `PointCodec.Pack` | src/ed25519-donna/ed25519-donna-impl-base.h:179-189 | the bytes of y with the parity of x in the top bit |
| `PointCodec.Candidate` | src/ed25519-donna/ed25519-donna-impl-base.h:206-219 | the candidate x has v x^2 = u (u v^7)^((p-1)/4) |
| `PointCodec.RootExists` | src/ed25519-donna/ed25519-donna-impl-base.h:217-231 | if u / v is a square, one of the two branches succeeds |
| `PointCodec.SquareRoot` | src/ed25519-donna/ed25519-donna-impl-base.h:206-231 | a square root of u / v when there is one, and otherwise a proof that there is none |
| `PointCodec.UnpackNegativeVartime` | src/ed25519-donna/ed25519-donna-impl-base.h:191-239 | succeeds exactly if the curve has a point with this y; then z = 1, t = xy, the point is on the curve and x is zero or has the parity opposite to the sign bit |
| `PointCodec.UnpackOfPack` | src/ed25519-donna/ed25519-donna-impl-base.h:175-239 | decoding the encoding of a point gives its negative and nothing else |
| `PointCodec.DecodesUnique` | src/ed25519-donna/ed25519-donna-impl-base.h:191-239 | a string decodes to at most one point |
| `PointCodec.EncodingUnique` | src/ed25519-donna/ed25519-donna-impl-base.h:179-189 | different points have different encodings |
| `PointCodec.IsNeutralVartime` | src/ed25519-donna/ed25519-donna-batchverify.h:193-202 | true exactly for the neutral point |
| `Signatures.ConstantsAre` | src/ed25519-donna/modm-donna-64bit.h:11-27 | L, p and 2^254 by their formulas |
| `Signatures.ClampedValue` | src/ed25519-donna/ed25519.c:26-32 | clamping gives 2^254 plus bits 3 to 253 of the number |
| `Signatures.PublicKey` | src/ed25519-donna/ed25519.c:44-55 | the encoding of [a]b, where a is 2^254 plus bits 3 to 253 of the first half of H(sk), modulo L |
| `Signatures.Sign` | src/ed25519-donna/ed25519.c:58-91 | R encodes [r]b, where r is the digest of the second half of H(sk) and the message, modulo L, and S = r + H(R, A, m) a modulo L, below L |
| `Signatures.SameRIff` | src/ed25519-donna/ed25519.c:66-75 | two messages signed with one key get the same R exactly if their nonce digests agree modulo L |
| `Signatures.SignOpen` | src/ed25519-donna/ed25519.c:93-116 | accepts exactly if the top bits of S are clear, the key decodes, and R is the encoding of [S]b + [h](-A) |
| `Signatures.SignedIsAccepted` | src/ed25519-donna/ed25519.c:58-116 | every signature under the matching key is accepted |
| `Signatures.SignThenOpen` | src/ed25519-donna/ed25519.c:44-116 | key generation, signing and verification in sequence always accept |
| `Signatures.AcceptsIff` | src/ed25519-donna/ed25519.c:93-116 | for all strings: accepted exactly if the top bits of S are clear, the key decodes to a point A, R encodes a point, and [S]b = R + [h]A |
| `SignatureHash.ShaIsHash` | src/ed25519-donna/ed25519-hash.h:108-178 | SHA-512 gives 64 bytes for every byte string, as the signature scheme demands of its hash |
| `SignatureHash.HashNonce` | src/ed25519-donna/ed25519.c:67-71 | two updates give the hash of the second half of H(sk) and the message, whose scalar is the nonce |
| `SignatureHash.Hram` | src/ed25519-donna/ed25519.c:34-42 | three updates give the hash of R, A and m, whose scalar is the challenge |
| `Rfc8032.DecodedIsEncoding` | src/ed25519-donna/ed25519-donna-impl-base.h:191-239 | a string that decodes is the encoding of its point exactly if y < p and the top bit is not set for y = 1 or y = -1 |
| `Rfc8032.StandardDecodesIff` | src/ed25519-donna/ed25519-donna-impl-base.h:191-239 | section 5.1.3 of RFC 8032 decodes a string to P exactly if the code decodes it to -P and the string is canonical in that sense |
| `Rfc8032.LargeYIsDecoded` | src/ed25519-donna/ed25519-donna-impl-base.h:191-239 | the bytes of p + 1 are decoded by the code and not by the standard |
| `Rfc8032.SignedZeroIsDecoded` | src/ed25519-donna/ed25519-donna-impl-base.h:191-239 | the bytes of 1 with the top bit set are decoded by the code and not by the standard |
| `Rfc8032.StandardAcceptsIff` | src/ed25519-donna/ed25519.c:93-116 | section 5.1.7 of RFC 8032, with the factor 8 and the whole digest, accepts exactly if S < L, key and R decode and are canonical, and 8 kills [S]b - R - [h mod L]A |
| `Rfc8032.AcceptsByDefect` | src/ed25519-donna/ed25519.c:93-116 | for S < L the code accepts exactly if key and R decode, R is canonical, and that difference is neutral |
| `Rfc8032.AcceptedByStandard` | src/ed25519-donna/ed25519.c:93-116 | what the code accepts with S < L and a canonical key, section 5.1.7 accepts |
| `Rfc8032.StandardAgrees` | src/ed25519-donna/ed25519.c:93-116 | for a key and an R of order L, section 5.1.7 accepts exactly what the code accepts with S < L and a canonical key |
| `Rfc8032.TwistKey` | src/ed25519-donna/ed25519.c:93-116 | the key (0, -1) with R = (0, 1) and S = 0: section 5.1.7 accepts for every hash and message, the code exactly if the reduced challenge is even, and the equation without the factor 8 holds exactly if the whole digest is even |
| `Rfc8032.AcceptsShifted` | src/ed25519-donna/ed25519.c:100-108 | the code does not tell S from S + L while both are below 2^253 |
| `Rfc8032.SecondForm` | src/ed25519-donna/ed25519.c:93-116 | every accepted signature with S + L below 2^253 has a second accepted form, which the standard refuses |
| `Rfc8032.NeutralKey` | src/ed25519-donna/ed25519.c:93-116 | the key (0, 1) with R = (0, 1) and S = 0 is accepted for every hash and message, by the code and by section 5.1.7 |
| `Rfc8032.TwoForms` | src/ed25519-donna/ed25519.c:93-116 | a run: S = L in place of S = 0 is accepted by the code for every hash and message, and refused by section 5.1.7 |
| `BatchVerify.LoadWeights` | src/ed25519-donna/ed25519-donna-batchverify.h:219-223 | the random weights, below 2^128 |
| `BatchVerify.LoadFirst` | src/ed25519-donna/ed25519-donna-batchverify.h:225-231 | scalars[0] is the weighted sum of the S values modulo L |
| `BatchVerify.LoadKeys` | src/ed25519-donna/ed25519-donna-batchverify.h:233-238 | scalars[1+i] is the weighted challenge modulo L |
| `BatchVerify.LoadPoints` | src/ed25519-donna/ed25519-donna-batchverify.h:240-247 | unpacks the keys and the R strings into the points, or fails exactly if some string does not decode |
| `BatchEquation.ResidualIff` | src/ed25519-donna/ed25519-donna-batchverify.h:219-249 | the residual of a signature vanishes exactly if [S]b = R + [h]A |
| `BatchEquation.RPart` | src/ed25519-donna/ed25519-donna-batchverify.h:219-249 | for points of order L the sum over the first scalars is [sum of z S]b, all key terms, and as many R terms as are in play |
| `BatchEquation.LoadedSum` | src/ed25519-donna/ed25519-donna-batchverify.h:219-249 | over all scalars it is the weighted sum of [S]b - [h]A - R |
| `BatchEquation.ValidIsNeutral` | src/ed25519-donna/ed25519-donna-batchverify.h:219-249 | if every equation holds, that sum is neutral for all weights |
| `BatchEquation.ValidPasses` | src/ed25519-donna/ed25519-donna-batchverify.h:219-250 | if every equation holds and the batch is not Stuck, its test succeeds |
| `BatchEquation.OneWeightPasses` | src/ed25519-donna/ed25519-donna-batchverify.h:219-250 | with an invalid signature, and whatever the other weights are, at most one of the 2^128 weights of that signature makes the weighted sum neutral |
| `BatchEquation.OneWeightOfBatch` | src/ed25519-donna/ed25519-donna-batchverify.h:219-250 | so a batch with an invalid signature that is not Stuck passes for at most one weight of that signature |
| `BatchEquation.OnlyStuckOverruns` | src/ed25519-donna/ed25519-donna-batchverify.h:127-128 | only a Stuck batch can run off the scalar |
| `BatchEquation.StuckPasses` | src/ed25519-donna/ed25519-donna-batchverify.h:168-169 | a Stuck batch of even size with neutral keys and S = 0 passes whatever the points R are |
| `BatchEquation.LoneWeightStuck` | src/ed25519-donna/ed25519-donna-batchverify.h:168-169 | if only the first weight is not zero, such a batch is Stuck, and it runs off the scalar exactly if the product of weight and challenge modulo L is a nonzero multiple of 2^224 |
| `BatchEquation.GoodWeight` | src/ed25519-donna/ed25519-donna-batchverify.h:219-223 | for every challenge there is a weight for which it does not |
| `BatchVerify.CheckBatch` | src/ed25519-donna/ed25519-donna-batchverify.h:219-250 | for all points that decode, the outcome of the final step at the gcd of the scalars in play; for points of order L, and unless that step runs off the scalar, the batch passes exactly if all strings decode and the sum of the scalars in play is neutral: the weighted sum, or without its R terms (for an odd size all but one) if the batch is Stuck |
| `BatchVerify.VerifyEach` | src/ed25519-donna/ed25519-donna-batchverify.h:254-257 | marks each signature by running single verification on it |
| `BatchVerify.SignOpenBatch` | src/ed25519-donna/ed25519-donna-batchverify.h:204-274 | a signature is marked valid exactly if it verifies or its batch passed; which batches passed is decided as in CheckBatch; bit 0 of the result records a mark 0, bit 1 a batch that decoded and did not pass; if all residuals vanish and no batch is Stuck, every signature in a batch is marked valid and nothing is retried |
| `BatchTheorems.VerdictIff` | src/ed25519-donna/ed25519-donna-batchverify.h:219-257 | for points of order L a signature verifies exactly if its residual vanishes, S is below 2^253 and R is canonical; the batch tests the residual only |
| `BatchTheorems.LargeSOnlyInBatch` | src/ed25519-donna/ed25519-donna-batchverify.h:219-257 | every signature with S + 2L in place of S does not verify, and its residual vanishes |
| `BatchTheorems.LargeROnlyInBatch` | src/ed25519-donna/ed25519-donna-batchverify.h:219-257 | the bytes of p + 1 for R = (0, 1), under the key (0, 1) with S = 0: it does not verify for any hash, and its residual vanishes |
| `BatchTheorems.OpenReplaced` | src/ed25519-donna/ed25519-donna-batchverify.h:204-274 | any signature with a vanishing residual that does not verify, among signatures by matching keys: if no batch is Stuck, all are marked valid and the result is 0 |
| `BatchTheorems.LargeSRun` | src/ed25519-donna/ed25519-donna-batchverify.h:204-274 | a run of that kind with S + 2L |
| `BatchTheorems.LargeRRun` | src/ed25519-donna/ed25519-donna-batchverify.h:204-274 | a run of that kind with the bytes of p + 1 for R |
| `BatchTheorems.SignedEntry` | src/ed25519-donna/ed25519.c:44-91 | a signature by the matching key decodes to points of order L, verifies, and has a vanishing residual |
| `BatchTheorems.SignedIsGood` | src/ed25519-donna/ed25519-donna-batchverify.h:204-274 | any list of such signatures verifies and has vanishing residuals of order L, as SignOpenBatch asks, if no batch is Stuck |
| `BatchTheorems.SignThenOpenBatch` | src/ed25519-donna/ed25519-donna-batchverify.h:204-274 | key generation, signing and batch verification in sequence: all are marked valid, and the result is 0 if no batch is Stuck |
| `BatchTheorems.StuckBatch` | src/ed25519-donna/ed25519-donna-batchverify.h:204-274 | a run, for every hash: four signatures under the key (0, 1), none of which verifies, in a Stuck batch that passes; the whole weighted sum is not neutral |
| `BatchTheorems.LoneWeightExists` | src/ed25519-donna/ed25519-donna-batchverify.h:219-223 | for every hash there are weights for that run |
| `Sha512.Context.constructor` | src/ed25519-donna/ed25519-hash.h:108-121 | an empty message |
| `Sha512.Context.Blocks` | src/ed25519-donna/ed25519-hash.h:90-106 | folds the blocks into the state and counts 1024 bits for each, modulo 2^128 |
| `Sha512.CountNext` | src/ed25519-donna/ed25519-hash.h:103-104 | testing the low word for zero detects every carry of the bit counter |
| `Sha512.Context.Update` | src/ed25519-donna/ed25519-hash.h:123-151 | the message grows by the input; complete blocks are folded and the rest waits in the buffer |
| `Sha512.Context.Final` | src/ed25519-donna/ed25519-hash.h:153-178 | the digest of the padded message with its 128-bit length |
| `Sha512.FoldAppend` | src/ed25519-donna/ed25519-hash.h:90-106 | whole blocks can be folded in any number of parts |
| `Sha512.PadLength` | src/ed25519-donna/ed25519-hash.h:153-168 | a padded message is a whole number of blocks |
| `Sha512.PadInjective` | src/ed25519-donna/ed25519-hash.h:153-168 | different messages stay different after padding |
| `Sha512.HashParts` | src/ed25519-donna/ed25519-hash.h:108-178 | for every split of a message over updates the digest is that of the concatenation |
| `Sha512Standard.InitialIs` | src/ed25519-donna/ed25519-hash.h:108-121 | the initial words are the first 64 bits of the fractional parts of the square roots of the first eight primes |
| `Sha512Standard.PadIs` | src/ed25519-donna/ed25519-hash.h:153-168 | the padded message: the message, 0x80, fewer than 128 zeros up to a whole number of blocks, and the length in bits modulo 2^128 in the last 16 bytes, most significant first |
| `Sha512Standard.FoldIsChained` | src/ed25519-donna/ed25519-hash.h:90-106 | block n is compressed into the hash value after block n - 1 |
| `Sha512Standard.DigestWords` | src/ed25519-donna/ed25519-hash.h:170-177 | bytes 8i to 8i + 7 of the digest are word i of the last hash value, most significant first |
| `NumberTheory.Gcd2` | bin/python/ecdsa/numbertheory.py:206-210 | the divisors of the result are the common divisors, for integers of any sign; the result has the sign of the first argument, and is the second argument if the first is 0 |
| `NumberTheory.InverseMod` | bin/python/ecdsa/numbertheory.py:185-203 | succeeds exactly for coprime arguments; then the result is an inverse, in [1, m-1] for m >= 2 |
| `Ecdsa.LeftmostBit` | bin/python/ecdsa/ellipticcurve.py:112-116 | the largest power of two that is at most x |
| `Ecdsa.DoubleAndAddSubtract` | bin/python/ecdsa/ellipticcurve.py:125-138 | e times the point for every e > 0, from the digits bit(3e) - bit(e) |
| `Ecdsa.Multiply` | bin/python/ecdsa/ellipticcurve.py:109-138 | the multiple, reduced by a known order; it fails only for a negative multiplier without order |
| `Ecdsa.MakeKey` | bin/python/ecdsa/ecdsa.py:76-90 | a key is made exactly for a point other than infinity that n kills, with both coordinates below n |
| `Ecdsa.Sign` | bin/python/ecdsa/ecdsa.py:127-151 | s k = hash + secret r modulo n with r the unreduced x coordinate; fails exactly if the point is infinity, r is 0, k has no inverse or s would be 0 |
| `Ecdsa.Verifies` | bin/python/ecdsa/ecdsa.py:93-111 | false unless r and s are from 1 to n - 1; fails without an inverse or at infinity; otherwise compares x modulo n with r |
| `Ecdsa.VerifyShifted` | bin/python/ecdsa/ecdsa.py:104-105 | if (r, s) is accepted, (r, s + kn) is refused for every k other than 0 |
| `Ecdsa.ShiftedIsRejected` | bin/python/ecdsa/ecdsa.py:93-111 | a run on the example curve: (5, 5) is accepted and (5, 12) refused |
| `Ecdsa.SignThenVerify` | bin/python/ecdsa/ecdsa.py:93-151 | for a prime order a signature under the matching key is accepted exactly if the x coordinate of the nonce point is below n |
| `Ecdsa.MultiplesOnCurve` | bin/python/ecdsa/ellipticcurve.py:231-251 | the points used below lie on y^2 = x^3 + x + 1 modulo 23, and each is (13, 7) plus the one before |
| `Ecdsa.UnreducedIsRejected` | bin/python/ecdsa/ecdsa.py:76-151 | a run on that curve, with order 7: the key (5, 4) is admitted, sign gives (13, 5), and verifies returns false |
| `Der.LengthRoundTrip` | bin/python/ecdsa/der.py:124-145 | a length is read back, with anything after it, exactly below 256^127 |
| `Der.EncodeLengthIff` | bin/python/ecdsa/der.py:124-134 | encode_length succeeds exactly from 0 to below 256^255 |
| `DerGrammar.ReadLengthIff` | bin/python/ecdsa/der.py:135-145 | on every string: read_length finds exactly the length fields, one byte below 128 or a count of 1 to 127 and as many bytes |
| `DerGrammar.EncodeLengthIsShortest` | bin/python/ecdsa/der.py:124-134 | encode_length writes the only shortest length field: one byte below 128, otherwise the count and the shortest digits; from 256^127 on there is none |
| `Der.IntegerRoundTrip` | bin/python/ecdsa/der.py:98-107 | an integer is read back, with anything after it, exactly below 2^1015 |
| `DerGrammar.EncodeIntegerIff` | bin/python/ecdsa/der.py:12-25 | encode_integer succeeds exactly from 0 to below 2^2039 |
| `DerGrammar.EncodeIntegerIsShortest` | bin/python/ecdsa/der.py:12-25 | below 2^1015 it writes the only shortest integer that announces the length it has |
| `DerGrammar.RemoveIntegerIff` | bin/python/ecdsa/der.py:98-107 | on every string: tag 2, a length field, content that does not start from 0x80 on and is as long as announced or all that is left, and the rest |
| `DerGrammar.TruncatedIsRead` | bin/python/ecdsa/der.py:98-107 | [2, 5, 1] is read as the integer 1 |
| `Der.LargeIntegerLost` | bin/python/ecdsa/der.py:12-25 | 2^1015 is encoded but not read back |
| `Der.SequenceRoundTrip` | bin/python/ecdsa/der.py:62-68 | the body of a sequence and the rest after it are recovered, exactly for bodies shorter than 256^127 |
| `DerGrammar.RemoveSequenceIff` | bin/python/ecdsa/der.py:62-68 | on every string: tag 0x30, a length field, a body as long as announced or all that is left, and the rest |
| `Der.EncodeNumber` | bin/python/ecdsa/der.py:41-49 | the base-128 digits with continuation bits |
| `Der.ReadNumber` | bin/python/ecdsa/der.py:109-122 | the number and how many bytes it took, or failure at the end of the string, which is never the failure of the length test |
| `Der.NumberRoundTrip` | bin/python/ecdsa/der.py:109-122 | a component is read back, with anything after it |
| `DerGrammar.ReadNumberIff` | bin/python/ecdsa/der.py:109-122 | on every string: the bytes up to the first one below 128, as base-128 digits |
| `DerGrammar.NumberIsShortest` | bin/python/ecdsa/der.py:41-49 | encode_number writes the only shortest string that is read as n, and it does not start with 0x80 |
| `Der.EncodeOid` | bin/python/ecdsa/der.py:31-37 | the encoded identifier, or failure exactly for a first component above 2, a second above 39, a negative sum or a body of 256^255 bytes |
| `Der.RemoveObject` | bin/python/ecdsa/der.py:79-96 | the components and the rest, or failure where Python raises |
| `DerGrammar.ObjectIff` | bin/python/ecdsa/der.py:79-96 | on every string: tag 6, a length field, a body of components as long as announced or all that is left, the first of which is 40 times the first number plus the second, and the rest |
| `Der.OidRoundTrip` | bin/python/ecdsa/der.py:79-96 | an identifier is read back exactly if its second component is not negative |
| `Der.NegativeComponentLost` | bin/python/ecdsa/der.py:31-37 | (2, -40) is encoded like (1, 0) |
| `Der.SignatureRoundTrip` | bin/python/ecdsa/util.py:197-247 | sigdecode_der after sigencode_der gives back both numbers exactly if both are below 2^1015, for all pairs that can be encoded |
| `DerGrammar.SigencodeIs` | bin/python/ecdsa/util.py:197-198 | below 2^1015: the tag 0x30, the shortest length and the two shortest integers in order |
| `DerGrammar.SigdecodeIff` | bin/python/ecdsa/util.py:235-246 | on every string: a sequence with nothing after it, whose body is the two integers with nothing after them |
| `DerGrammar.TrailingIsRefused` | bin/python/ecdsa/util.py:238-240 | an encoded signature with anything after it is refused |
| `Der.SmallSignatureEncodes` | bin/python/ecdsa/util.py:197-198 | all pairs below 2^1015 can be encoded |

## Left out

- The 32-bit, SSE2 and inline-assembly variants: the same statements for another limb layout.
- The contents of the precomputed tables: that their entries are the stated multiples is a hypothesis.
- Aliasing of output and input arrays: the C functions may be called with the same array for both, the model returns new values.
- `expand_raw256_modm` and `curved25519_scalarmult_basepoint`: they would only add members of the kinds shown.
- The SHA-512 compression function: the rounds of `sha512_blocks` are a parameter.
- Random numbers, the OpenSSL hash branch and the custom hash headers: foreign code; random bytes are parameters.
- Timing: the constant-time behaviour of the masked selections is not modelled.
- The curve arithmetic of `ellipticcurve.Point`: `__add__` and `double` are the operations of an abstract group, followed only on the seven points of the example curve.
- Number theory that ECDSA does not use here (`jacobi`, `square_root_mod_prime`, factorisation), key serialisation and PEM.
- The C++ server, the JavaScript tools and the other Python packages of the repository.
- BosCarter.BosCarterLoop: the heap holds elements of a group, not coordinates; `Points.AddGe` is the coordinate form of its additions.
- BatchVerify.SignOpenBatch: the random bytes are a parameter; `BatchEquation.OneWeightOfBatch` counts the weights that let an invalid signature pass, and no probability is computed.
- BatchVerify.CheckBatch: the outcome is left open when the final step reads outside the scalar, which only a stuck batch does. For points outside the subgroup of order L it is stated as the outcome of the final step and not as an equation, because such points are not determined by scalars modulo L.
- BatchHeaps.BatchHeap.HeapUpdatedRoot: requires two entries, because the source reads the second one in any case.
- Field.SquareTimes: requires count >= 1; for 0 the C loop counter wraps around.
- Der.EncodeNumber: requires a natural number; for a negative one the Python loop does not end.
- Signatures.Sign: the hash is any function from byte strings to 64 bytes; `SignatureHash.ShaIsHash` shows that the streaming SHA-512 is one.
