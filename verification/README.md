# Verified cores of a coin's cryptography and hashing

This Dafny project models the arithmetic and hashing code that the coin is built on, and proves
what that code promises:

* **Batch verification of Ed25519 signatures** (`ScalarLimbs`, `BatchHeap`, `ScalarRun`,
  `BosCarter`, `BatchExactness`, `BatchEquation`, `BatchVerify`, with `Divisors` and `Groups` underneath):
  the index heap, the Bos-Carter multi-scalar multiplication that it drives, the exact condition on the
  scalars under which a run returns the full sum, and the whole of batch verification with its batches,
  its fall-back and its return value.
* **Scalars modulo the group order** (`ScalarMod`, `ScalarCodec`, `SlidingWindow`, `Window4`):
  Barrett reduction, multiplication, decoding, and the two signed recodings.
* **Scalar multiplication and signatures** (`ScalarMult`, `BaseMult`, `Ed25519`), over an arbitrary
  abelian group, and again on limbs (`DoublePrograms`, `BasePrograms`, with `TableChoice` for the packed
  table), where the group law of the formulas is an explicit hypothesis (`CurveLaw`).
* **The field modulo 2^255 - 19** (`Field`, `FieldOps`, `FieldPow`, `FieldCodec`, `PointFormulas`,
  `PointPrograms`, `CurveEquation`, `Ref10Bytes`): multiplication and squaring without wrap-around,
  powers, encoding, the point formulas with all their limb bounds along every sequence of operations,
  and the laws of the formulas on the curve that need no third point.
* **BLAKE2b and BLAKE2bp** (`Blake2bCompress`, `Blake2b`, `Blake2bp`, `Blake2bSimd`, `Blake2bTrace`):
  streaming against RFC 7693 for every chunking, the tree for every chunking and every interleaving of
  its leaves, the row-parallel round against the reference round, and the trace of appendix A of the RFC.
* **xxHash** (`XxhStream`, `Xxh64`, `Xxh32`, `Xxh64Answers`, `Xxh32Answers`): one-shot form and digest,
  each with its own arithmetic as in the source, compute the same function, and known answers pin it down.

`Words`, `Bitwise`, `WordBits` and `Bytes` hold machine words, powers of two, masks, single bits and
little-endian byte strings; `Wrappers` holds the option type. Code that changes arrays or objects
step by step (the heap, the recodings, the hash states) is a class or a method over arrays with its
loop invariants; limb vectors are values. Functions that code and specification share are pinned down
by lemmas that do not name them: byte layouts, bit positions, known answers. Integer widths
are modelled: words, limbs, columns and signed-char digits are subset types, so that a limb, column
or digit that must not overflow is a proof obligation, while intended wrap-around is written out.
Byte counts of a single call are unbounded.

## Where the code does something else than one would expect

* The final exponentiation of the multi-scalar multiplication processes the leading bit twice and
  never looks at limb 4 (`BosCarter.FinalValue`). For a surviving scalar d > 1 it returns
  (d + 2^(k+1)) * P, where k is the top bit of d, if d < 2^224.
* The main loop may stop before the 128-bit scalars have joined the heap, and then their terms are
  lost. Whether it does is decided by the input (`BosCarter.Extends`): the scalars of the first half
  must hold two nonzero ones, and their gcd must be below 2^128.
* With an even count, the index at the last node stays idle once the 128-bit scalars have joined,
  because the heap repair never compares the last node of an even heap (when it restores the order all
  the same is `BatchHeap.Repairs`). Its term is missing from the result (`BosCarter.IdleOutcome`),
  while the comment on the multi-scalar multiplication asks only for a count of at least 5. Its only
  caller passes 2n + 1. Which index that is, and its scalar then, are functions of the scalars alone
  (`ScalarRun.LastIndex`, `ScalarRun.IdleScalar`): they follow the heap up to the extension. If the
  first half fits in 128 bits, they are the last node of the heap of all scalars and its scalar.
* These three effects give the exact condition `BatchExactness.Exact` on the scalars, for every count:
  the final step is right for the gcd reached, all terms are reached or the others are zero, and the
  scalar of an idle index is zero. It is proved sufficient in every abelian group and for all points,
  and necessary already in the integers, where every outcome on certain points is wrong. Once the
  128-bit scalars have joined, it says that the gcd of all scalars is 1 and that an idle scalar is
  zero; with an even count and a first half of nonzero 128-bit scalars the latter says that the last
  scalar is zero, and so no run with an even count, such a first half and a nonzero last scalar is exact.
* For a batch on points of the prime-order subgroup none of this matters but the terms reached: the
  batch is accepted if and only if the sum of the terms reached is neutral, even where the final step
  computes another multiple (`BatchEquation.BatchAcceptedIff`), as long as the scan for the leading
  bit stays in the scalar. A key outside the subgroup adds what the reduction of h * r modulo the
  order drops (`BatchEquation.AllDropped`). Whatever is in a batch, a signature that single
  verification accepts is accepted (`BatchVerify.ValidIsAccepted`).
* If a final exponentiation leaves its scalar, `BatchVerify.SignOpenBatch` returns ok = false and
  promises nothing; which batches do is decided by the gcd of their scalars.
* That the limb count never drops below 3 limbs before the extension, on which conservation
  depends, needs no assumption: it follows from the run (`BosCarter.StillWide`).
* The comment on repeated squaring reads "in^(2 * count)"; the code computes in^(2^count).
* The streaming length of xxHash is kept modulo 2^64. A digest is the hash of all bytes given
  unless that count has wrapped to less than one stripe; then it is the hash of the bytes after the
  last whole stripe alone (`Xxh64.Digested`). So all messages of 2^64 bytes have the digest of the
  empty one; below 2^64 bytes the digest is always the hash.

## Model

| member | source | states |
|---|---|---|
| `ScalarLimbs.LtBatch` | ed25519-donna/modm-donna-64bit.h:301-315 | the borrow of the word-wise subtraction over limbs 0..limbsize is exactly the order of the values of those limbs |
| `ScalarLimbs.LteBatch` | ed25519-donna/modm-donna-64bit.h:317-330 | the same for "less or equal" |
| `ScalarLimbs.SubBatch` | ed25519-donna/modm-donna-64bit.h:286-299 | for operands that are zero above limbsize and b <= a, the limbs written over a are normalised, zero above limbsize, and worth a - b |
| `ScalarLimbs.LowIsValue` | ed25519-donna/modm-donna-64bit.h:286-330 | a scalar that is zero above limbsize is worth its limbs up to limbsize, so cut comparisons are full ones |
| `ScalarLimbs.ValueBelowWeight` | ed25519-donna/ed25519-donna-batchverify.h:171-173 | limbs n..4 are zero if and only if the value is below 2^(56n): a limb is exhausted for all smaller scalars at once |
| `ScalarLimbs.IsZeroBatch` | ed25519-donna/modm-donna-64bit.h:332-340 | true if and only if the value is 0 |
| `ScalarLimbs.IsOneBatch` | ed25519-donna/modm-donna-64bit.h:342-350 | true if and only if the value is 1 |
| `ScalarLimbs.AtMost128Bits` | ed25519-donna/modm-donna-64bit.h:352-361 | the limb masks test exactly for a value below 2^128 |
| `BatchHeap.StepDown` | ed25519-donna/ed25519-donna-batchverify.h:57-68 | moving the larger child up keeps every edge that does not touch the hole in order |
| `BatchHeap.StepUp` | ed25519-donna/ed25519-donna-batchverify.h:70-76 | moving a smaller or equal parent down keeps every edge but the one above the node in order |
| `BatchHeap.RootLargest` | ed25519-donna/ed25519-donna-batchverify.h:95-103 | in a heap of any size the root points at a largest scalar |
| `BatchHeap.SecondLargest` | ed25519-donna/ed25519-donna-batchverify.h:95-103 | every other entry is at most the larger of nodes 1 and 2 |
| `BatchHeap.Batch.InsertNext` | ed25519-donna/ed25519-donna-batchverify.h:30-48 | inserting the next index keeps the heap ordered and a permutation of the indices below its size, and the nodes are those of the function `Insert` |
| `BatchHeap.Batch.Build` | ed25519-donna/ed25519-donna-batchverify.h:79-86 | from any contents, a heap of exactly the first count indices, with the nodes that inserting them in turn gives |
| `BatchHeap.Batch.Extend` | ed25519-donna/ed25519-donna-batchverify.h:88-93 | the heap grows to exactly newCount indices and stays a heap, with the nodes that inserting in turn gives |
| `BatchHeap.RiseLast` | ed25519-donna/ed25519-donna-batchverify.h:30-48 | the last node after an insertion holds the former parent if its scalar is smaller, and the inserted index otherwise |
| `BatchHeap.InsertsNonzero` | ed25519-donna/ed25519-donna-batchverify.h:88-93 | if none of the first m nodes holds a zero scalar, none does after any insertions |
| `BatchHeap.Batch.UpdatedRoot` | ed25519-donna/ed25519-donna-batchverify.h:50-77 | for every size >= 3, after only the root scalar changed, sifting to a leaf and back up puts all nodes that it looks at in order (all of them for an odd size, all but the last for an even one), keeps the permutation, restores the whole heap if and only if `Repairs` holds of the state before the call, and leaves the nodes of the function `Repair` |
| `BatchHeap.RepairedIff` | ed25519-donna/ed25519-donna-batchverify.h:50-77 | for an even size the last edge ends in order exactly when it was before and, if the root sinks to its parent, the last key does not exceed that of the root |
| `BatchHeap.EvenHeapExample` | ed25519-donna/ed25519-donna-batchverify.h:50-77 | four nodes with keys 0, 5, 1, 4 are a heap below the root that the repair does not restore |
| `BatchHeap.Batch.GetTop2` | ed25519-donna/ed25519-donna-batchverify.h:95-103 | two distinct indices, of a largest scalar and of a largest one among the others, over all nodes that sifting keeps in order |
| `BatchHeap.Batch.DropLimb` | ed25519-donna/ed25519-donna-batchverify.h:171-173 | when the largest scalar does not use limb limbsize, no scalar in the heap does, and limbsize is not 0 |
| `BatchHeap.Batch.CombineAndRestore` | ed25519-donna/ed25519-donna-batchverify.h:182-184 | one step replaces a by a - b, adds the point of a to the point of b, changes nothing else, and ends with the active nodes in order, for every heap size |
| `Divisors.GcdOfDivisors` | ed25519-donna/ed25519-donna-batchverify.h:164-185 | the divisors of the gcd of n scalars are exactly their common divisors |
| `Divisors.GcdOfSubtract` | ed25519-donna/ed25519-donna-batchverify.h:182-182 | subtracting one scalar from another keeps the gcd of all |
| `ScalarRun.FirstSizeIsLeast` | ed25519-donna/ed25519-donna-batchverify.h:161-162 | the heap starts with the least odd number of indices that is at least half of the count |
| `ScalarRun.FirstSizeIsOr` | ed25519-donna/ed25519-donna-batchverify.h:161-162 | that number is ((count + 1) / 2) | 1 |
| `ScalarRun.FirstPartKeeps` | ed25519-donna/ed25519-donna-batchverify.h:150-180 | before the extension only indices of the first half are in the heap and only their scalars change |
| `ScalarRun.FirstPartOfSmall` | ed25519-donna/ed25519-donna-batchverify.h:162-180 | with a first half below 2^128 nothing is combined before the extension |
| `ScalarRun.ApplyUnapply` | ed25519-donna/ed25519-donna-batchverify.h:182-183 | what the combinations do to the points can be undone: every tuple of points at the extension comes from some input points |
| `ScalarRun.IdleScalarIsMin` | ed25519-donna/ed25519-donna-batchverify.h:30-48 | with an even count the idle scalar is the smaller of the last scalar and the one above its node |
| `ScalarRun.LastZeroIdle` | ed25519-donna/ed25519-donna-batchverify.h:175-180 | with an even count and a last scalar of zero the idle scalar is zero |
| `ScalarRun.IdleZeroIff` | ed25519-donna/ed25519-donna-batchverify.h:175-180 | with an even count and a first half without a zero at the extension, the idle scalar is zero if and only if the last scalar is |
| `ScalarRun.IdleOfSmall` | ed25519-donna/ed25519-donna-batchverify.h:162-180 | with a first half below 2^128 the idle scalar is that of the last node of the heap built from all scalars |
| `BosCarter.CombineConserves` | ed25519-donna/ed25519-donna-batchverify.h:182-183 | in every abelian group one step conserves the sum of scalars[i] * points[i] and the gcd of the scalars |
| `BosCarter.StillWide` | ed25519-donna/ed25519-donna-batchverify.h:171-180 | in every reachable state before the extension at least limbs 0..2 are in use and limb 2 is not dropped then |
| `BosCarter.ExtendsNow` | ed25519-donna/ed25519-donna-batchverify.h:175-180 | when the top scalar fits in 128 bits the input satisfies the condition for extending, and the waiting scalars are untouched |
| `BosCarter.ExtendNow` | ed25519-donna/ed25519-donna-batchverify.h:175-180 | at the extension scalars, points and idle index are those of the snapshot, which is a function of the input |
| `BosCarter.ExitOutcome` | ed25519-donna/ed25519-donna-batchverify.h:165-187 | at exit the surviving scalar is the gcd of the scalars reached, and times its point, which is a combination of the input points, it is their whole sum; with an even count that extended, all terms but that of the idle index are reached |
| `BosCarter.Iterate` | ed25519-donna/ed25519-donna-batchverify.h:171-184 | every iteration, for every count, keeps sum, gcd, heap and limb bounds, follows the stages of `ScalarRun` up to the extension and keeps the idle index after it, and makes the sum of all scalars strictly smaller |
| `BosCarter.ScanForLeadingBit` | ed25519-donna/ed25519-donna-batchverify.h:126-133 | finds the leading one of limbs 0..3; leaves the scalar if and only if those are all zero |
| `BosCarter.Final` | ed25519-donna/ed25519-donna-batchverify.h:105-148 | d * P for d = 0 and 1, otherwise (e + the next power of two above e) * P for e = d mod 2^224 |
| `BosCarter.MultiScalarmult` | ed25519-donna/ed25519-donna-batchverify.h:150-188 | terminates on all inputs with any count >= 5; the result is the final step applied to the gcd d of the scalars reached and a combination q of the points with d * q the sum of their terms; for an even count that extends, exactly the index `LastIndex` of the scalars stays idle and the other terms are summed |
| `BosCarter.OutcomeOfPrefix` | ed25519-donna/ed25519-donna-batchverify.h:150-188 | what a run may return does not depend on the scalars and points beyond count |
| `BatchExactness.FinalExactIff` | ed25519-donna/ed25519-donna-batchverify.h:124-147 | for which surviving scalars above 1 the final step is right: exactly 3 * 2^223 <= d < 2^225 |
| `BatchExactness.ExactIsSufficient` | ed25519-donna/ed25519-donna-batchverify.h:150-188 | for every count, on exact scalars every result of a run in every abelian group is the full multi-scalar sum |
| `BatchExactness.ExactIsNecessary` | ed25519-donna/ed25519-donna-batchverify.h:150-188 | for every count, on all other scalars every result of a run on the given integer points differs from the sum |
| `BatchExactness.IdleWitnessSum` | ed25519-donna/ed25519-donna-batchverify.h:175-187 | with an even count that extends there are integer points on which every run returns 0, if anything, while the sum is the idle scalar |
| `BatchExactness.IntegerOutcome` | ed25519-donna/ed25519-donna-batchverify.h:150-188 | in the integers every outcome is determined by d and q: d * q is the sum reached, and r is what the final step makes of them, also when it leaves the scalar |
| `BatchExactness.InexactRun` | ed25519-donna/ed25519-donna-batchverify.h:150-188 | the run itself, with any count >= 5, started on inexact scalars and those points, does not return their sum |
| `BatchExactness.IdleTermMissing` | ed25519-donna/ed25519-donna-batchverify.h:175-187 | with an even count that extends, what is left lacks exactly the term of the idle index |
| `BatchExactness.IdleExactIff` | ed25519-donna/ed25519-donna-batchverify.h:175-187 | and for given points: if the final step is right for what is left, the run is right if and only if that term is zero |
| `BatchExactness.ExtendedExactIff` | ed25519-donna/ed25519-donna-batchverify.h:175-187 | once extended, the run is exact if and only if the gcd of all scalars is 1 and, with an even count, the idle scalar is zero |
| `BatchExactness.EvenExactIff` | ed25519-donna/ed25519-donna-batchverify.h:150-188 | with an even count and a first half of nonzero scalars below 2^128, the run is exact if and only if the gcd of all scalars is 1 and the last scalar is zero |
| `BatchExactness.EvenNeverExact` | ed25519-donna/ed25519-donna-batchverify.h:150-188 | with an even count, nonzero scalars and a first half below 2^128 no run is exact |
| `BatchExactness.OvershootExample` | ed25519-donna/ed25519-donna-batchverify.h:124-147 | five scalars 2 at the point 1: the sum is 10, the run returns 30 |
| `BatchExactness.EarlyExitExample` | ed25519-donna/ed25519-donna-batchverify.h:165-180 | scalars 1, 0, 0, 1, 1 at the point 1: the sum is 3, the run returns 1 |
| `BatchExactness.EvenCountExample` | ed25519-donna/ed25519-donna-batchverify.h:150-188 | six scalars 1 at the point 1: the sum is 6, the run returns 5 |
| `BatchEquation.BatchSum` | ed25519-donna/ed25519-donna-batchverify.h:219-249 | for all keys, the scalars and points of a batch, together with what reducing h * r modulo the order drops, sum to the combination of all single verification residuals with the random factors; in the subgroup nothing is dropped |
| `BatchEquation.ExactBatchAcceptedIff` | ed25519-donna/ed25519-donna-batchverify.h:219-250 | for all claims and keys, on exact scalars the batch is accepted if and only if the weighted residuals equal what was dropped; a valid batch if and only if that is neutral |
| `BatchEquation.BatchAcceptedIff` | ed25519-donna/ed25519-donna-batchverify.h:219-250 | for all claims on points of the subgroup of prime order, valid or not, whether or not all terms are reached: the final step stays in the scalar by the gcd alone, and then the batch is accepted if and only if the sum of the terms reached is neutral |
| `BatchEquation.FinalNeutralIff` | ed25519-donna/ed25519-donna-batchverify.h:105-148 | in the subgroup of prime order the final step, right or not, ends in the neutral element if and only if d * P is neutral |
| `BatchEquation.ValidBatchIsNeutral` | ed25519-donna/ed25519-donna-batchverify.h:219-250 | a batch of valid signatures in the subgroup that reaches all its terms, with a gcd that is zero or prime to the group order, ends in the neutral element whenever the final step stays in the scalar, which the gcd alone decides; for keys outside and terms not reached see the two lemmas above |
| `BatchEquation.BatchGcdIsCoprime` | ed25519-donna/ed25519-donna-batchverify.h:219-249 | if the group order is prime, the gcd that a batch reaches is zero or prime to it |
| `BatchEquation.GcdKills` | ed25519-donna/ed25519-donna-batchverify.h:182-187 | a point killed by two numbers is killed by their gcd |
| `BatchVerify.FillScalars` | ed25519-donna/ed25519-donna-batchverify.h:226-241 | the loops leave exactly the scalars of `BatchEquation.Scalars`: the sum of r_i s_i, all r_i H(R_i, A_i, m_i) and all r_i, modulo the order |
| `BatchVerify.FillPoints` | ed25519-donna/ed25519-donna-batchverify.h:243-249 | B, all keys and all points R in their places, or a failure exactly when one does not decode |
| `BatchVerify.WaitingAreSmall` | ed25519-donna/ed25519-donna-batchverify.h:219-241 | the scalars that wait for the extension are random factors and fit in 128 bits, as the multiplication demands |
| `BatchVerify.RunBatch` | ed25519-donna/ed25519-donna-batchverify.h:249-250 | the multiplication on the loaded arrays ends in a value that `Outcome` allows for the batch, and stays in the scalar exactly when the gcd says so |
| `BatchVerify.TryBatch` | ed25519-donna/ed25519-donna-batchverify.h:219-250 | one batch from the random bytes to the test of the result |
| `BatchVerify.SignOpenBatch` | ed25519-donna/ed25519-donna-batchverify.h:204-273 | for every number of signatures: batches of up to 64 while more than 3 are left, fall-back, single verification of the rest; every verdict is that of single verification or the acceptance of its whole batch, bit 0 of the result says whether one was refused and bit 1 whether a decoded batch was not neutral |
| `BatchVerify.ValidIsAccepted` | ed25519-donna/ed25519-donna-batchverify.h:204-273 | every signature that single verification accepts is accepted, whatever else is in its batch |
| `BatchVerify.AcceptedIff` | ed25519-donna/ed25519-donna-batchverify.h:204-273 | with the points of a batch in the subgroup of prime order: accepted are exactly the valid signatures and all signatures of a batch whose reached terms sum to the neutral element |
| `BatchVerify.ResidualOfValid` | ed25519-donna/ed25519-donna-batchverify.h:219-250 | a signature that single verification accepts has a vanishing residual in the batch equation |
| `BatchVerify.AllValidIsNeutral` | ed25519-donna/ed25519-donna-batchverify.h:219-250 | a batch of valid signatures with keys in the subgroup that reaches all terms sums to the neutral element |
| `ScalarMod.Reduce` | ed25519-donna/modm-donna-64bit.h:42-63 | one conditional subtraction of the order, for every value below 2^264 |
| `Bitwise.ChooseByBorrow` | ed25519-donna/modm-donna-64bit.h:55-62 | the limb computed with the xor mask of a borrow bit is r with a borrow and t without |
| `ScalarMod.EstimateQuotient` | ed25519-donna/modm-donna-64bit.h:71-85 | the estimate with the three lowest columns dropped lies between (mu q1 - 2^226) / 2^264 - 1 and mu q1 / 2^264, with no 128-bit overflow |
| `ScalarMod.EstimateWithinTwo` | ed25519-donna/modm-donna-64bit.h:65-107 | for every x < 2^512 the estimate is at most 2 below the exact quotient |
| `ScalarMod.TimesOrderLow` | ed25519-donna/modm-donna-64bit.h:87-96 | the low 264 bits of the order times q |
| `ScalarMod.SubtractMod264` | ed25519-donna/modm-donna-64bit.h:98-103 | limb-wise r1 - r2 modulo 2^264 |
| `ScalarMod.Barrett` | ed25519-donna/modm-donna-64bit.h:65-107 | exactly x mod m for every x < 2^512 |
| `ScalarMod.MulMod` | ed25519-donna/modm-donna-64bit.h:123-150 | x * y mod m for all x, y < 2^256 |
| `ScalarCodec.AddMod` | ed25519-donna/modm-donna-64bit.h:110-121 | x + y mod m for reduced x, y |
| `ScalarCodec.Expand` | ed25519-donna/modm-donna-64bit.h:152-187 | the little-endian value mod m for every string of up to 64 bytes |
| `ScalarCodec.Contract` | ed25519-donna/modm-donna-64bit.h:205-211 | 32 bytes whose little-endian value is the scalar |
| `SlidingWindow.AddCarry` | ed25519-donna/modm-donna-64bit.h:268-274 | the carry loop adds exactly 1 at its position and never passes the last digit |
| `SlidingWindow.Absorb` | ed25519-donna/modm-donna-64bit.h:262-278 | the inner loop keeps the value, leaves an odd digit within the window and zeros up to the next window |
| `SlidingWindow.Recode` | ed25519-donna/modm-donna-64bit.h:240-280 | for every s < 2^255 and window 2..7: signed-char digits that sum to s, nonzero digits odd and at most 2^(w-1) - 1 in absolute value, and any w consecutive digits hold at most one |
| `Window4.Recode` | ed25519-donna/modm-donna-64bit.h:213-238 | for every s < 2^255: 64 signed-char digits that sum to s in base 16, digits 0..62 in [-8, 7], digit 63 in [0, 8] |
| `ScalarMult.BuildTable` | ed25519-donna/ed25519-donna-impl-base.h:263-266 | entry i is (2i + 1) * p |
| `ScalarMult.AddSigned` | ed25519-donna/ed25519-donna-impl-base.h:280-288 | adds d * p for an odd digit d of either sign from the table of odd multiples |
| `ScalarMult.DigitInTable` | ed25519-donna/ed25519-donna-impl-base.h:246-288 | every digit of the recodings indexes inside its table |
| `ScalarMult.DoubleScalarmult` | ed25519-donna/ed25519-donna-impl-base.h:252-292 | s1 * p1 + s2 * B for all s1, s2 < 2^255 |
| `Bitwise.EqualBit` | ed25519-donna/ed25519-donna-impl-base.h:298-301 | the bit that is computed is equality for values below 2^31 |
| `Bitwise.AbsByMask` | ed25519-donna/ed25519-donna-impl-base.h:306-308 | the masked sum is the absolute value of a signed char |
| `Bitwise.SwapMask` | ed25519-donna/curve25519-donna-64bit.h:397-408 | xor with the masked difference swaps two words when the flag is set, and keeps them otherwise |
| `TableChoice.MoveConditional` | ed25519-donna/curve25519-donna-64bit.h:377-395 | the masked merge is the row when the flag is set, and the old bytes otherwise |
| `TableChoice.SwapConditional` | ed25519-donna/curve25519-donna-64bit.h:397-408 | the masked exchange of two field elements |
| `TableChoice.ChooseNiels` | ed25519-donna/ed25519-donna-impl-base.h:303-328 | from the packed rows, for every digit in [-8, 8]: the entry, with limbs fit for any operation, of the point of that row, negated for a negative digit, and of the neutral element for 0 |
| `BaseMult.Choose` | ed25519-donna/ed25519-donna-impl-base.h:303-328 | the entry whose number is the masked absolute value of b, with its sign applied, is b * 256^pos * B for b in [-8, 8], given the meaning of the table |
| `BaseMult.HalvesMakeWhole` | ed25519-donna/ed25519-donna-impl-base.h:334-363 | sixteen times the odd digits plus the even digits is the value of all digits |
| `BaseMult.ScalarmultBase` | ed25519-donna/ed25519-donna-impl-base.h:334-363 | s * B for every s < 2^255 |
| `Ed25519.ExtendSecret` | ed25519-donna/ed25519.c:22-28 | hashing and the three masks give the clamped secret |
| `Ed25519.Clamped` | ed25519-donna/ed25519.c:22-28 | clamping sets bit 254, clears bit 255 and the three low bits, keeps bits 3 to 253 and the other half of the hash |
| `Ed25519.KeyIsClampedMultiple` | ed25519-donna/ed25519.c:42-54 | the public key encodes the clamped scalar times B, although the code reduces the scalar first |
| `Ed25519.OrderIs` | ed25519-donna/modm-donna-64bit.h:6-26 | the modulus is 2^252 + 27742317777372353535851937790883648493 |
| `Ed25519.PublicKey` | ed25519-donna/ed25519.c:44-55 | the encoding of a * B for the clamped, reduced scalar a |
| `Ed25519.Sign` | ed25519-donna/ed25519.c:58-91 | the encoding of R = r * B, then of S = r + H(R, A, m) * a mod m |
| `Ed25519.SignOpen` | ed25519-donna/ed25519.c:93-116 | accepts exactly when S is small, the key decodes, and the encoding of [S]B - [H(R, A, m)]A is R, with the hash over R, A and m in this order |
| `Ed25519.SignatureEquation` | ed25519-donna/ed25519.c:58-116 | (r + h a) B - h (a B) = r B with all scalars reduced |
| `Ed25519.SignThenVerify` | ed25519-donna/ed25519.c:44-116 | for every secret key and message the signature made with the derived key is accepted |
| `Field.FeMul` | ed25519-donna/curve25519-donna-64bit.h:105-171 | for all limbs below 2^54: no 64- or 128-bit wrap-around, the product modulo p, limbs below 2^51 but for limb 1 below 2^51 + 2^13 |
| `Field.FeSquare` | ed25519-donna/curve25519-donna-64bit.h:236-284 | the same for the square |
| `Field.ColumnBounds` | ed25519-donna/curve25519-donna-64bit.h:126-155 | the five columns stay below 77 * 2^108, and column 4 below 5 * 2^108 |
| `Field.CarryColumns` | ed25519-donna/curve25519-donna-64bit.h:158-170 | the carry chain keeps the value modulo p and every carry fits a word |
| `Field.SquareRound` | ed25519-donna/curve25519-donna-64bit.h:194-227 | one round of repeated squaring: the square modulo p, limbs fit for the next round |
| `FieldPow.PrimeIs` | ed25519-donna/curve25519-donna-64bit.h:350-366 | the modulus of the field is 2^255 - 19 |
| `FieldPow.SquareTimes` | ed25519-donna/curve25519-donna-64bit.h:178-234 | in^(2^count) for every count >= 1, limb bounds kept through the loop |
| `FieldPow.PowTwo5ToTwo250` | ed25519-donna/curve25519-donna-helpers.h:12-31 | from z^(2^5 - 1) to z^(2^250 - 1) |
| `FieldPow.Recip` | ed25519-donna/curve25519-donna-helpers.h:33-49 | z^(2^255 - 21) modulo p |
| `FieldPow.PowTwo252m3` | ed25519-donna/curve25519-donna-helpers.h:51-67 | z^(2^252 - 3) modulo p |
| `FieldOps.FeAdd` | ed25519-donna/curve25519-donna-64bit.h:25-33 | the sum, with no limb overflow |
| `FieldOps.FeSub` | ed25519-donna/curve25519-donna-64bit.h:56-70 | the difference plus 2p, with no limb underflow |
| `FieldOps.FeSubAfterBasic` | ed25519-donna/curve25519-donna-64bit.h:72-80 | the difference plus 4p, with no limb underflow for a subtrahend that was itself an uncarried sum |
| `FieldOps.FeAddReduce` | ed25519-donna/curve25519-donna-64bit.h:45-54 | the carried sum modulo p |
| `FieldOps.FeSubReduce` | ed25519-donna/curve25519-donna-64bit.h:82-91 | the carried difference modulo p |
| `FieldOps.FeNeg` | ed25519-donna/curve25519-donna-64bit.h:93-103 | the carried negation modulo p |
| `FieldCodec.Settle` | ed25519-donna/curve25519-donna-64bit.h:347-349 | two carry passes bring all limbs below 2^54 below 2^51 each |
| `FieldCodec.Freeze` | ed25519-donna/curve25519-donna-64bit.h:351-364 | adding 19, carrying and removing 2^255 gives the residue below p |
| `FieldCodec.Contract` | ed25519-donna/curve25519-donna-64bit.h:321-373 | for all limbs below 2^54 the bytes are those of the value modulo p, below p |
| `FieldCodec.Expand` | ed25519-donna/curve25519-donna-64bit.h:286-319 | the low 255 bits of the string, in normalised limbs |
| `FieldCodec.Canonical` | ed25519-donna/curve25519-donna-64bit.h:286-373 | encoding after decoding gives (x mod 2^255) mod p; canonical strings come back unchanged |
| `PointFormulas.Ec2dIsTwiceD` | ed25519-donna/ed25519-donna-64bit-tables.h:12-14 | the limb constant is 2d, for d = -121665/121666 |
| `PointFormulas.EcdIsHalf` | ed25519-donna/ed25519-donna-64bit-tables.h:8-14 | the other limb constant is d: twice it is 2d modulo p |
| `PointFormulas.Add` | ed25519-donna/ed25519-donna-impl-base.h:32-127 | the addition formula of section 5.1.4 of RFC 8032, limbs fit for any further operation |
| `PointFormulas.Double` | ed25519-donna/ed25519-donna-impl-base.h:53-120 | its doubling formula with all coordinates negated |
| `PointFormulas.P1p1ToFull` | ed25519-donna/ed25519-donna-impl-base.h:12-18 | the four products of the factors modulo p |
| `PointFormulas.P1p1ToPartial` | ed25519-donna/ed25519-donna-impl-base.h:5-10 | x, y and z of the product form; t keeps its old limbs |
| `PointFormulas.FullToPniels` | ed25519-donna/ed25519-donna-impl-base.h:20-26 | the addition-ready form of the point, limbs below 2^54 |
| `PointFormulas.PnielsAddP1p1` | ed25519-donna/ed25519-donna-impl-base.h:88-106 | the factors of p + q or p - q by the sign bit, limbs below 2^54 |
| `PointFormulas.NielsAdd2P1p1` | ed25519-donna/ed25519-donna-impl-base.h:69-86 | the same for a point with z = 1 |
| `PointFormulas.NielsAdd2` | ed25519-donna/ed25519-donna-impl-base.h:129-147 | the addition in place with an uncarried 2z |
| `PointFormulas.PnielsAdd` | ed25519-donna/ed25519-donna-impl-base.h:149-172 | the addition-ready form of p + q |
| `PointFormulas.FromEntry` | ed25519-donna/ed25519-donna-impl-base.h:343-347 | the start point of a fixed-base multiplication has all coordinates of the entry's point doubled |
| `PointFormulas.ScaleEntry` | ed25519-donna/ed25519-donna-impl-base.h:356-357 | an entry of the first window, multiplied by d, becomes addition-ready |
| `CurveEquation.AddKeepsCurve` | ed25519-donna/ed25519-donna-impl-base.h:32-127 | the addition formula keeps -x^2 + y^2 = z^2 + d t^2 and x y = z t modulo p |
| `CurveEquation.DoubleKeepsCurve` | ed25519-donna/ed25519-donna-impl-base.h:53-120 | so does the doubling formula |
| `CurveEquation.DoubleIsAdd` | ed25519-donna/ed25519-donna-impl-base.h:53-120 | on the curve, adding a point to itself gives -4 times all four coordinates of its double: the same projective point |
| `CurveEquation.AddCommutes` | ed25519-donna/ed25519-donna-impl-base.h:32-127 | the addition formula is symmetric |
| `CurveEquation.AddNeutral` | ed25519-donna/ed25519-donna-impl-base.h:32-127 | adding (0, 1, 1, 0) gives 4z times all four coordinates: the same projective point |
| `CurveEquation.AddInverse` | ed25519-donna/ed25519-donna-impl-base.h:32-127 | a point and its negation add up to the neutral element |
| `CurveEquation.NegKeepsCurve` | ed25519-donna/ed25519-donna-impl-base.h:32-127 | negating x and t keeps the equations |
| `PointPrograms.AddRespects` | ed25519-donna/ed25519-donna-impl-base.h:32-50 | the factors of the addition formula depend on its coordinates only modulo p |
| `PointPrograms.DoubleRespects` | ed25519-donna/ed25519-donna-impl-base.h:53-67 | so do those of the doubling formula, on x, y and z alone |
| `PointPrograms.Run` | ed25519-donna/ed25519-donna-impl-base.h:5-172 | along every sequence of all these operations that reads only coordinates that were computed, every argument of a multiplication is below 2^54, no subtraction underflows, and all registers hold the results of the formulas modulo p |
| `DoublePrograms.ProgramLeads` | ed25519-donna/ed25519-donna-impl-base.h:252-292 | the operations of the double scalar multiplication, for all digits and any number of leading zeros, never read a stale t, and leave the stated coordinates |
| `DoublePrograms.TurnIs` | ed25519-donna/ed25519-donna-impl-base.h:277-291 | if the formulas are the group law, one turn doubles both factors and adds the digits |
| `DoublePrograms.DoubleScalarmult` | ed25519-donna/ed25519-donna-impl-base.h:252-292 | on limbs, for all s1, s2 < 2^255: if the formulas are the group law and the entries the odd multiples of B, the x, y and z of the result, with the t that belongs to them, are the point s1 * p1 + s2 * B |
| `BasePrograms.BaseLeads` | ed25519-donna/ed25519-donna-impl-base.h:334-363 | the operations of the fixed-base multiplication, start point, partial doublings and scaled entry included, never read a stale t |
| `BasePrograms.BaseIs` | ed25519-donna/ed25519-donna-impl-base.h:334-363 | if the formulas are the group law, they leave the value of all digits times B |
| `BasePrograms.ScalarmultBase` | ed25519-donna/ed25519-donna-impl-base.h:334-363 | on limbs and the packed table, for every s < 2^255: under the same assumption the four coordinates of the result are the point s * B |
| `Ref10Bytes.EstimateIsExact` | ed25519-donna/fuzz/curve25519-ref10.c:791-814 | the rounded quotient by 2^255 is exactly floor(h / p) |
| `Ref10Bytes.Quotient` | ed25519-donna/fuzz/curve25519-ref10.c:840-850 | the chain computes floor(h / p) for all limbs in the stated bounds, with no 32-bit overflow |
| `Ref10Bytes.Reduced` | ed25519-donna/fuzz/curve25519-ref10.c:852-873 | the second chain leaves the normalised limbs of h mod p |
| `Ref10Bytes.ToBytes32` | ed25519-donna/fuzz/curve25519-ref10.c:816-907 | the 32 bytes are exactly h mod p |
| `Blake2b.AbsorbedAppend` | blake2/blake2b-ref.c:228-241 | one more block extends the chain of compressed blocks with the running byte count |
| `Blake2b.DigestFromCut` | blake2/blake2b-ref.c:221-270 | compressing all but the last, possibly full, block and then the padded rest is the digest of section 3.3 of RFC 7693 |
| `Blake2b.CounterAdd` | blake2/blake2b-ref.c:66-70 | the two-word counter with its carry counts modulo 2^128 |
| `Blake2b.State.Update` | blake2/blake2b-ref.c:221-246 | after any update, also one after a finalisation, the state has compressed exactly the blocks before the last cut under its present flags, and buffers the rest |
| `Blake2b.State.Final` | blake2/blake2b-ref.c:248-270 | fails when finalised already or when the output is too short, changing nothing; otherwise the digest of all bytes given, and the last block stays buffered |
| `Blake2b.Init` | blake2/blake2b-ref.c:81-151 | refuses exactly the invalid lengths; the chain starts from the parameter block and a key is the first block |
| `Blake2b.HashChunks` | blake2/blake2b-ref.c:98-270 | init, any sequence of updates, final: the RFC 7693 hash of the concatenation, keyed or not |
| `Blake2b.Hash` | blake2/blake2b-ref.c:273-300 | the one-shot call is the RFC 7693 hash and fails exactly for invalid lengths; see the trace below for the function itself |
| `Blake2b.ParamLayout` | blake2/blake2.h:111-124 | the parameter block holds length, key length, fanout, depth, node offset, node depth and inner length at their byte positions and zeros elsewhere |
| `Blake2b.InitParamIs` | blake2/blake2b-ref.c:81-96 | the IV xored with the eight words of that block is the IV with three words xored |
| `Blake2bTrace.IvIsRoots` | blake2/blake2b-ref.c:23-29 | the IV holds the first 64 bits of the fractions of the square roots of the first eight primes |
| `Blake2bTrace.Rotation32` | blake2/blake2b-ref.c:165-177 | the rotation to the right by 32 as quotient and remainder |
| `Blake2bTrace.Rotation24` | blake2/blake2b-ref.c:165-177 | the rotation to the right by 24 as quotient and remainder |
| `Blake2bTrace.Rotation16` | blake2/blake2b-ref.c:165-177 | the rotation to the right by 16 as quotient and remainder |
| `Blake2bTrace.Rotation63` | blake2/blake2b-ref.c:165-177 | the rotation to the right by 63 as quotient and remainder |
| `Blake2bTrace.AbcRounds` | blake2/blake2b-ref.c:179-219 | the twelve rounds on "abc" give the trace of appendix A of RFC 7693, round by round |
| `Blake2bTrace.DigestWord` | blake2/blake2b-ref.c:265-269 | the digest holds the words of the chain value, lowest byte first |
| `Blake2bTrace.AbcDigest` | blake2/blake2b-ref.c:273-300 | the hash of "abc" is that of appendix A of RFC 7693 |
| `Blake2bp.AppendStripe` | blake2/blake2bp.c:164-174 | after whole stripes, a further stripe, full or not, gives leaf i exactly the bytes whose block index is i mod 4 |
| `Blake2bp.LeafParam` | blake2/blake2bp.c:45-62 | the chain value of leaf i comes from the parameter block with fanout 4, depth 2, node offset i, node depth 0 and inner length 64 |
| `Blake2bp.RootParam` | blake2/blake2bp.c:64-80 | that of the root from the same with node offset 0 and node depth 1 |
| `Blake2bp.ChainsDiffer` | blake2/blake2bp.c:45-80 | the four leaves, the root and the sequential hash all start from different chain values |
| `Blake2bp.FeedInTurn` | blake2/blake2bp.c:153-174 | leaf after leaf: each leaf has got its blocks of all whole stripes |
| `Blake2bp.FeedInterleaved` | blake2/blake2bp.c:153-174 | the same for every interleaving of the leaves' steps by threads |
| `Blake2bp.Tree.Update` | blake2/blake2bp.c:135-184 | leaves hold their blocks of the whole stripes, fewer than 512 bytes stay buffered, nothing is lost; also after a finalisation |
| `Blake2bp.Tree.Final` | blake2/blake2bp.c:188-215 | the tree hash of all bytes given, or failure exactly when the output is too short or the tree was finalised before; a too short output changes nothing |
| `Blake2bp.HashChunks` | blake2/blake2bp.c:80-215 | init, any updates, each sequential or threaded, final: the tree hash of the concatenation |
| `Blake2bp.Hash` | blake2/blake2bp.c:217-292 | the one-shot form, sequential or threaded, is the same tree hash and fails exactly for invalid lengths |
| `Blake2bp.HashInterleaved` | blake2/blake2bp.c:252-281 | every interleaving of the four threads of the one-shot form, their last shares and digests included, gives the digests of the leaves |
| `Blake2bSimd.LoadIsSigma` | blake2/blake2b-load-sse41.h:18-399 | all 48 message loads give the words of the sigma permutation, for every message |
| `Blake2bSimd.G1Lanes` | blake2/blake2b-round.h:45-62 | in each lane G1 is the first half of G |
| `Blake2bSimd.G2Lanes` | blake2/blake2b-round.h:64-81 | in each lane G2 is the second half of G, with the rotation by 63 as shift and addition |
| `Blake2bSimd.DiagonalizationsAgree` | blake2/blake2b-round.h:83-137 | both ways of diagonalizing agree, and undiagonalizing undoes them |
| `Blake2bSimd.MixDiagonal` | blake2/blake2b-ref.c:165-177 | G on a diagonal mixes that diagonal and keeps the other three |
| `Blake2bSimd.RoundRefines` | blake2/blake2b-round.h:145-155 | for every state, message and round the SIMD round is the reference round |
| `Blake2bSimd.CompressSse` | blake2/blake2b.c:167-234 | the SSE compression is the reference compression |
| `XxhStream.FoldStripe` | xxhash/xxhash.c:780-813 | one more stripe after whole stripes |
| `XxhStream.FoldCut` | xxhash/xxhash.c:735-822 | wherever whole stripes are cut off with less than a stripe left, lanes and rest are those of the whole input |
| `XxhStream.State.Reset` | xxhash/xxhash.c:554-578 | a fresh stream, whatever the state was |
| `XxhStream.State.Update` | xxhash/xxhash.c:735-822 | lanes hold the whole stripes, the buffer fewer bytes than a stripe, the count all bytes modulo 2^64 |
| `Xxh64.Hash` | xxhash/xxhash.c:359-468 | the one-shot loops, with their own arithmetic, compute the hash function of the bytes |
| `Xxh64.Digest` | xxhash/xxhash.c:836-915 | with its own arithmetic again, and reading the state only: the hash of all bytes given while the kept length tells long from short, and otherwise the hash of the bytes after the last whole stripe |
| `Xxh64.WrappedDigest` | xxhash/xxhash.c:836-915 | all messages of 2^64 bytes have the digest of the empty one |
| `Xxh64.HashChunks` | xxhash/xxhash.c:567-578 | reset, any updates, a digest after each: every digest is the one-shot hash of the bytes so far |
| `Xxh64Answers.RotlBits` | xxhash/xxhash.c:151-158 | bit k of the rotated word is bit k - r modulo 64 |
| `Xxh64Answers.EmptyAnswer` | xxhash/xxhash.c:359-468 | no bytes, seed 0: 0xef46db3751d8e999 |
| `Xxh64Answers.DataAnswer` | xxhash/xxhash.c:359-468 | the 45 bytes 0, 1, 2, ... under the seed 7, which reach a stripe, a word, a half word and a single byte |
| `Xxh32.Hash` | xxhash/xxhash.c:254-328 | the same for XXH32 |
| `Xxh32.Digest` | xxhash/xxhash.c:682-721 | the same for XXH32 |
| `Xxh32.WrappedDigest` | xxhash/xxhash.c:682-721 | the same for XXH32 |
| `Xxh32.HashChunks` | xxhash/xxhash.c:554-565 | the same for XXH32 |
| `Xxh32Answers.RotlBits` | xxhash/xxhash.c:151-158 | the same for XXH32 |
| `Xxh32Answers.EmptyAnswer` | xxhash/xxhash.c:254-328 | no bytes, seed 0: 0x02cc5d05 |
| `Xxh32Answers.DataAnswer` | xxhash/xxhash.c:254-328 | the 21 bytes 0, 1, 2, ... under the seed 7 |
| `WordBits.XorBit` | xxhash/xxhash.c:461-465 | exclusive or works on each bit |

## Left out

- Associativity of the addition formulas on the curve, and that the z of a sum does not vanish; the other laws are in `CurveEquation`. `CurveLaw.GroupLaw` states the group law as a hypothesis where it is needed, together with the fact that coordinates matter modulo p only; the code is proved equal to the formulas.
- The contents of the base point tables: the predicates on tables state them as hypotheses.
- The primality of the group order: a hypothesis of `BatchEquation.BatchGcdIsCoprime`, `BatchEquation.BatchAcceptedIff` and `BatchVerify.AcceptedIff`.
- Point encoding and decoding (`ge25519_pack`, `ge25519_unpack_negative_vartime`): parameters of `Ed25519`, assumed to invert each other.
- Hashes in signatures, random factors and OpenSSL: parameters, or not modelled. The test for the neutral element is an equality of points.
- The probability that a bad batch passes.
- Aliasing of limb arrays: field elements, scalars and points are values, so that an output array may be an input array is not captured.
- Constant-time behaviour, zeroing of memory, alignment, endianness detection and null pointers.
- The 32-bit and SSE2 field code, inline assembly, curve25519 key exchange, and the other field operations of the reference field code: the same argument with more limbs.
- BLAKE2s, BLAKE2sp, BLAKE2xb, BLAKE2xs, the AVX2, XOP and SSE2-load variants: repeats of the BLAKE2b argument.
- Ed25519.SignThenVerify: assumes that the base point has the group order and that the encodings invert each other.
- The stubs, icons and declarations under `rai/`, and the test and fuzz drivers.
