# vkzg arithmetic, modelled and proved

vkzg computes EIP-7594 cell proofs and recovers missing cells on a GPU. This project models both computations
from the caller's bytes to the caller's bytes: the multi-word field routines, the transforms, cell recovery,
multi-scalar multiplication, the curve formulas, batched inversion and the byte encodings, together with the
host code that sequences the kernels over reused buffers and cuts a batch into chunks.
`dafny verify dfyconfig.toml` checks everything.

The two results at the top are about whole batches. `HostRecovery.Prover.RecoverCellsBatch`: whatever the missing
cells' bytes, the chunk size and the state of the buffers, every blob with at least 64 of its 128 cells comes out as
the bytes of the values, at every wire position, of the polynomial of degree below 4096 its present cells agree with;
`Erasures.RecoverableExactly` shows that 64 is the right number: with fewer cells there is more than one such polynomial. `HostProofs.Prover.ComputeProofsBatch`: under any thread order, any interleaving of the
atomics, any lane count and any undefined shuffle results, the 48 bytes at the bit-reversed place of proof a are a
valid compressed encoding of the curve point that the 128-tap kernel yields on the multi-scalar products of the
blob's circulant columns; by `HostProofs.ProofsOfPolynomial` those are the proofs of the polynomial the blob
spells.

## How the program is modelled

- **Kernels** are methods over arrays. Between two barriers the invocations run in any order: a loop
  repeatedly takes an arbitrary invocation that has not run yet (`Dispatch.Invocations`, `Dispatch.Grid`),
  so what is proved holds for every order. The atomics of the bucket sort are steps of a state machine in
  which any of the 64 threads may take the next step; in the scatter the increment that returns a slot and the
  store into it are two steps, with the other threads' steps in between (`BucketSort.IncrementStep`, `BucketSort.StoreStep`).
  A dispatch followed by a barrier is sequential composition.
- **Field elements** appear at two levels. `Limbs` and `Montgomery` work on 32-bit limbs and prove that each
  routine computes a function on residues; the transforms and the curve formulas call those functions (`Field`).
  A residue has exactly one limb form (`Montgomery.HoldsUnique`), so a buffer of limbs and the buffer of the residues it
  holds are two views of the same thing; `CellBytes.ElementsOf`, `CellBytes.LimbsFor` and `Compress.WordsFor`
  change the view where the byte kernels meet the others, and are no stages of the program.
- **Specifications** are written over the integers (sums, polynomials, powers) and compared modulo p.
- **Curve points**: the kernels compute on Jacobian and affine coordinates with the formulas of `Curve`, and are
  specified in a commutative group in which the curve's points are read (`CurveGroup.Reading`): `Is(c, j, x)`
  says the coordinates j stand for the member x.
- **The host objects** are the classes `HostRecovery.Prover` and `HostProofs.Prover`, the two halves of the
  source's one prover, with its buffers as array fields that stay allocated between calls and are overwritten by
  each chunk. `Clients` builds, sets up and calls both.

Hypotheses a reader should know of, all stated as `requires`: the moduli are prime; the root tables hold the
powers of a primitive 8192nd root of unity and of its inverse; the fixed-base table holds 256^d times the base
points; the kernel tables hold well-formed packed taps; the coset shift s has s^8192 different from 1; the
affine law is read as the addition of a commutative group (`CurveGroup.Homomorphic`; `Curve.AffineLaws` proves all of
the group laws but associativity, and `ChordLaw.ChordAndTangent` that the law is the chord and tangent construction). `Consistency` exhibits a recovery domain (modulo the prime 40961), constants for both
limb counts and a curve with its group, and `Clients` calls both entry points with them on any bytes and any output
array, so none of these hypotheses is empty.

| files | what they cover |
|---|---|
| Modular, Sums, Bits, Field, Dispatch, Flatten, Layout | congruence, primes and Fermat's little theorem; finite sums; bit reversal and bitwise or; residues; invocation sets; tables written row after row; sizes |
| Limbs, Montgomery | carry chains, CIOS multiplication, canonical form, inversion, generated constants |
| Dft, FourStep, NttPass, Transforms | the discrete Fourier transform, its four-step split, one pass, two passes |
| CellBytes | 32-byte elements to limbs and back, whole blobs of cells |
| Poly, Vanishing, RecoveryMath, Elementwise, Recovery, Erasures, HostRecovery | cell recovery from the vanishing polynomial to the batch loop, and why half of the cells are needed |
| Circulant | blob values to coefficients; circulant columns |
| Curve, ChordLaw, Group, CurveGroup | point formulas against the affine law; that law against lines and the curve; commutative groups; coordinates as members of a group |
| Recode, BucketSort, PhaseA, BucketReduce, PhaseB, ProofPoints | multi-scalar multiplication and the split circulant |
| Normalize, Compress | batched inversion, compressed encoding |
| HostBuffers, HostProofs | host copies and allocation; proof computation from blob bytes to proof bytes |
| Consistency, Clients | instances that meet the hypotheses, and callers of both host objects |

One comment in the source does not match its code: `src/shaders/k_fold_ladder.comp:5-7` says folding in place
would race. Each thread reads exactly the two slots it writes and no other thread touches them
(`PhaseB.PairsApart`); the model keeps the separate buffer, as the code does.

Two claims of the source hold only under a condition, which is proved exactly: the Newton loop of
`tools/gen_constants.py` (`Montgomery.N0`: up to 1024 bits it succeeds if and only if the modulus is odd;
`Montgomery.NewtonFallsShort` gives an odd modulus for which 1025 bits are too many), and the absence of a
33rd digit (`Recode.NoFinalCarry`).

## Model

| member | source | states |
|---|---|---|
| HostRecovery.Prover.RecoverCellsBatch | src/vkzg.cpp:1201-1218 | for every number of blobs and every chunk size at least 1, the batch succeeds exactly if every blob has at least 64 present cells; every blob written is the recovery of its own bytes, whatever earlier chunks or calls left in the buffers, and spells at every wire position the value of any polynomial of degree below 4096 its present cells agree with; a failing batch has written exactly the whole chunks before the offending one |
| HostRecovery.Prover.RecoverBatch | src/vkzg.cpp:1086-1179 | one chunk: refused exactly if some blob has fewer than 64 present cells, and then nothing is written; else the bytes of every blob of the chunk are recovered and no byte outside the chunk changes |
| HostRecovery.Prover.ChunkOnDevice | src/vkzg.cpp:1089-1164 | the copy, the missing-cell lists and the ten stages leave the recovered bytes in the output buffer, exactly if every blob has at least 64 present cells |
| HostRecovery.Prover.ListMissing | src/vkzg.cpp:1093-1106 | the uploaded lists hold, per blob, the count and the 7-bit-reversed indices of the cells whose presence byte is zero, and listing fails exactly if some blob has fewer than 64 present cells |
| HostRecovery.PresentOfFlat | src/vkzg.cpp:1096-1098 | blob b's presence bytes are the b-th 128 |
| HostRecovery.Prover.RunPipeline | src/vkzg.cpp:1114-1164 | the ten stages over reused buffers, the byte load and store included, compute per blob the mathematical recovery of the cells in the upload buffer |
| HostRecovery.Prover.RecoverNtt | src/vkzg.cpp:1057-1065 | the two dispatches through the scratch buffer are one unscaled 8192-point transform per blob, for either root table |
| HostRecovery.Prover.PopulateCosetShiftTables | src/vkzg.cpp:757-768 | after setup the tables hold the powers of the coset shift and of its inverse |
| Recovery.RecoverCellsCorrect | src/vkzg.cpp:1114-1164 | for every polynomial of degree below 4096 and every presence mask with at least 64 cells present, with arbitrary bytes in the missing cells, recovery returns the 32 canonical bytes of that polynomial's value at every wire position |
| Recovery.RecoverableCount | src/vkzg.cpp:1093-1106 | a set of at least 64 present cells is the same as a list of at most 64 missing ones: 64 missing cells are accepted, 65 are not |
| Erasures.RecoverableExactly | src/vkzg.cpp:1093-1106 | the bound the host checks is exact: a mask is accepted if and only if any two polynomials of degree below 4096 that agree in its present cells agree at all 8192 points |
| Erasures.ExtremeMasks | src/vkzg.cpp:1093-1106 | a nonzero byte marks a present cell: all nonzero is accepted, all zero refused |
| Recovery.PresentCellsKept | src/vkzg.cpp:1114-1164 | the present items come out byte for byte as they went in when they were canonical |
| Recovery.RecoveredElement | src/vkzg.cpp:1114-1164 | in values: every output is the residue of the polynomial's value, and canonical present values are returned unchanged |
| Recovery.CellOfSlot | src/shaders/k_cells_to_fr.comp:35-36 | the 13-bit-reversed load puts wire cell c exactly on the slots congruent to the 7-bit reversal of c modulo 128 |
| RecoveryMath.RecoveryCorrect | src/vkzg.cpp:1127-1158 | with (E Z)(x) = P(x) Z(x) on the whole domain, the degree below 8192 and Z nonzero on the coset, the stages return the values of P at all 8192 points |
| RecoveryMath.InverseInterpolates | src/vkzg.cpp:1133-1136 | the inverse-root transform followed by the 1/N scale returns the coefficients a value table was computed from |
| RecoveryMath.CosetDivision | src/vkzg.cpp:1138-1148 | dividing pointwise on the coset gives the values of P there |
| Vanishing.ShortProduct | src/shaders/k_vanishing_poly.comp:67-84 | the in-place recurrence leaves the coefficients of the product of (x - r_i), for every count from 1 to 64 |
| Vanishing.VanishingDispatch | src/shaders/k_vanishing_poly.comp:48-90 | whatever the output slice and the shared array held, each blob's slice ends as the coefficients of the product of (x^64 - w^(64 m_i)), the constant 1 when nothing is missing |
| Vanishing.VanishesExactlyOnMissing | src/shaders/k_vanishing_poly.comp:54-90 | among the domain points w^m it is zero exactly where m mod 128 is a listed index |
| Vanishing.NonzeroOnCoset | src/vkzg.cpp:1138-1145 | it has no zero on the coset when the shift is not an 8192nd root of unity |
| Poly.EvalMul | src/vkzg.cpp:1130-1131 | the product of two polynomials evaluates to the product of the values, the fact pointwise multiplication relies on |
| Elementwise.EwMul | src/shaders/k_ew_mul.comp:26-47 | pointwise product with batched, shared-table or broadcast second operand, also when the output is the first operand |
| Elementwise.EwDiv | src/shaders/k_ew_div.comp:17-30 | pointwise quotient by the Fermat inverse |
| Elementwise.PowSeq | src/shaders/k_pow_seq.comp:25-39 | the table of the first 8192 powers of the factor |
| Elementwise.Brev13Involution | src/shaders/field.glsl.inc:564 | the 13-bit reversal undoes itself |
| Bits.BrevInvolution | src/shaders/field.glsl.inc:564 | reversing any number of bits twice is the identity |
| Bits.BrevFields | src/shaders/field.glsl.inc:564 | reversing a two-field index reverses both fields and swaps them |
| Bits.BrevBits | src/shaders/field.glsl.inc:564 | bit j of the reversal is the bit as far from the other end |
| Bits.OrBits | src/vkzg.cpp:1046-1050 | every bit of an or is the or of the bits |
| Bits.BrevCell | src/vkzg.cpp:1046-1050 | the host's or-loop computes the 7-bit reversal |
| Bits.ILog2 | src/vkzg.cpp:64-68 | the least exponent whose power of two reaches n |
| Bits.OrDisjoint | src/vkzg.cpp:1046-1050 | or-ing a field below shifted bits is addition, which is what the shift-and-or code relies on |
| CellBytes.Decode | src/shaders/k_blob_to_fr.comp:14-38 | every slot holds in Montgomery form its wire value modulo r, and the error flag is raised exactly if some value is not canonical (the cell kernel is the same without the flag) |
| CellBytes.DecodeAt | src/shaders/k_cells_to_fr.comp:22-36 | one element: 32 big-endian bytes to eight limbs to Montgomery form, for any bytes |
| CellBytes.Encode | src/shaders/k_fr_to_cells.comp:16-36 | every wire position receives the 32 big-endian bytes of its element |
| CellBytes.DecodeThenEncode | src/shaders/k_fr_to_cells.comp:20-35 | bytes to field and back is reduction modulo r position by position, hence the identity on canonical bytes |
| CellBytes.LoadRefines | src/shaders/k_cells_to_fr.comp:18-37 | what the load leaves in the slots of a blob is the residues of that blob's own items, bit-reversed, for any number of index bits |
| CellBytes.LoadBlobs | src/shaders/k_blob_to_fr.comp:14-38 | each blob's slots take the residues of its own items at the reversed places, and the error flag is raised exactly if some blob has an item that is not canonical |
| CellBytes.LoadCells | src/shaders/k_cells_to_fr.comp:18-37 | the 13-bit case without the flag: any bytes, in any invocation order |
| CellBytes.StoreRefines | src/shaders/k_fr_to_cells.comp:16-36 | what the store leaves in the bytes of a blob is the spelling of that blob's own slots in wire order |
| CellBytes.StoreCells | src/shaders/k_fr_to_cells.comp:16-36 | the whole store, in any invocation order |
| CellBytes.BytesSpell | src/shaders/k_fr_to_cells.comp:28-35 | big-endian spelling inverts itself |
| CellBytes.BigEndianAppend | src/shaders/k_cells_to_fr.comp:27-33 | earlier bytes weigh more: appending n bytes multiplies by 256^n |
| CellBytes.ItemOfFlat | src/shaders/k_cells_to_fr.comp:25 | item k of items written one after the other is the k-th |
| CellBytes.LoadLimbs | src/shaders/k_cells_to_fr.comp:27-33 | regrouping bytes into words keeps the number |
| CellBytes.StoreLimbs | src/shaders/k_fr_to_cells.comp:28-35 | regrouping words into bytes keeps the number |
| Dft.InverseTransform | src/vkzg.cpp:1057-1065 | transforming with the inverse root gives back n times each coefficient |
| Dft.Orthogonality | src/vkzg.cpp:1057-1065 | powers of a root sum to n or to zero |
| FourStep.FourStepCorrect | src/vkzg.cpp:786-817 | row transforms of twiddled column transforms are the n1 n2-point transform in natural order, for any n1 and n2 |
| NttPass.Butterfly | src/shaders/k_ntt_pass.comp:59-71 | one thread rewrites exactly its two slots |
| NttPass.SlotsDistinct | src/shaders/k_ntt_pass.comp:60-62 | different threads of a stage touch different slots |
| NttPass.Stage | src/shaders/k_ntt_pass.comp:57-73 | a stage gives the same tile for every thread order |
| NttPass.StageAdvances | src/shaders/k_ntt_pass.comp:56-74 | after each stage every slot holds its value of the decimation-in-time invariant |
| NttPass.Stages | src/shaders/k_ntt_pass.comp:56-74 | all stages over a bit-reversed tile compute the n-point transform for every power of two n |
| NttPass.SubTransform | src/shaders/k_ntt_pass.comp:49-74 | load and stages together transform the strided input of a workgroup |
| Transforms.Finish | src/shaders/k_ntt_pass.comp:76-87 | the inter-pass twiddle and the optional scale |
| Transforms.NttDispatch | src/shaders/k_ntt_pass.comp:38-90 | a dispatch stores every workgroup's transform at its strided place, in any order |
| Transforms.BlobOfFlat | src/shaders/k_ntt_pass.comp:46-47 | blob b of blobs written one after the other is the b-th |
| Transforms.PassOne | src/vkzg.cpp:786-800 | the first pass leaves the twiddled column transforms |
| Transforms.PassTwo | src/vkzg.cpp:803-817 | the second pass turns them into the whole transform, scaled if asked |
| Transforms.FourStepTransform | src/vkzg.cpp:786-817 | the two passes with their strides compute the N-point transform of every blob for any N = N1 N2 of powers of two dividing 8192, also when output and input are the same buffer |
| Circulant.InverseBlob | src/vkzg.cpp:927-935 | the 4096-point run over the inverse roots with the scaled second pass |
| Circulant.InverseBlobCorrect | src/vkzg.cpp:927-935 | it recovers the coefficients from the values at the 4096 powers of the squared root |
| Circulant.BuildCirculant | src/shaders/k_build_circulant.comp:18-73 | every scalar of every output is the right entry of the 128-point transform of its column, at the transposed place |
| Circulant.CoefficientPlaced | src/shaders/k_build_circulant.comp:30-38 | each coefficient from 64 up is in exactly one entry of one column, the lowest 64 in none |
| Circulant.ScalarIsEval | src/shaders/k_build_circulant.comp:42-71 | a scalar is its column, read as a polynomial, evaluated at w^(64 j) |
| Limbs.AddChain | src/shaders/field.glsl.inc:169-176 | the carry chain adds, with the carry as the missing top |
| Limbs.SubChain | src/shaders/field.glsl.inc:189-196 | the borrow chain subtracts, with the borrow as the missing top |
| Limbs.ModAdd | src/shaders/field.glsl.inc:69-88 | addition modulo p for operands below p |
| Limbs.ModSub | src/shaders/field.glsl.inc:90-107 | subtraction modulo p for operands below p |
| Limbs.MulAddFits | src/shaders/field.glsl.inc:208-248 | no 64-bit accumulator of the product rows overflows |
| Limbs.MulRow | src/shaders/field.glsl.inc:208-248 | one product row adds a times a word of b |
| Limbs.ReduceRow | src/shaders/field.glsl.inc:208-248 | one reduction row divides exactly by 2^32 |
| Limbs.RowStep | src/shaders/field.glsl.inc:208-248 | the row invariant: scaled back, the accumulator is a times the low part of b plus a bounded multiple of p, and stays below a + p |
| Limbs.MontMul | src/shaders/field.glsl.inc:116-157 | for any limb count, if one operand is any n-limb number and the other is below p, the result is below p and times 2^(32n) congruent to a b; one final subtraction suffices |
| Montgomery.Mul | src/shaders/field.glsl.inc:208-248 | refines multiplication of residues |
| Montgomery.Add | src/shaders/field.glsl.inc:69-88 | refines addition of residues |
| Montgomery.Sub | src/shaders/field.glsl.inc:90-107 | refines subtraction of residues |
| Montgomery.FromCanonical | src/shaders/field.glsl.inc:285-289 | any n-limb number, reduced or not, enters as its residue |
| Montgomery.ToCanonical | src/shaders/field.glsl.inc:278-282 | leaving gives the limbs of the residue itself |
| Montgomery.RoundTrip | src/shaders/field.glsl.inc:277-289 | in and out is reduction modulo p, the identity below p |
| Montgomery.HoldsUnique | src/shaders/field.glsl.inc:63-67 | limb arrays are equal exactly if the elements are, which justifies limb-wise comparison |
| Montgomery.IsZero | src/shaders/field.glsl.inc:57-61 | or-ing the limbs tests the element for zero |
| Montgomery.Less | src/shaders/field.glsl.inc:292-297 | comparing from the top limb decides the order of the numbers |
| Montgomery.Inv | src/shaders/field.glsl.inc:528-546 | the square-and-multiply loop raises to the exponent the limb table spells |
| Montgomery.InvCorrect | src/shaders/field.glsl.inc:257-275 | times the element it is 1, for every nonzero element |
| Modular.Fermat | src/shaders/field.glsl.inc:257-275 | a^(p-1) is 1 modulo a prime p for a not divisible by p |
| Montgomery.N0 | tools/gen_constants.py:12-17 | ten Newton rounds give -1/mod modulo 2^bits exactly if (1 - mod)^1024 vanishes there; up to 1024 bits exactly if mod is odd |
| Montgomery.NewtonStep | tools/gen_constants.py:15-16 | each round squares the error, doubling the correct bits |
| Montgomery.NewtonFallsShort | tools/gen_constants.py:12-17 | for modulus 3 and 1025 bits ten rounds do not suffice |
| Montgomery.N0Clears | tools/gen_constants.py:12-17 | the constant is what the reduction rows need to clear their low word |
| Montgomery.LimbsSpell | tools/gen_constants.py:20-22 | the emitted limbs spell the number |
| Montgomery.ToMontHolds | tools/gen_constants.py:30-31 | the emitted Montgomery constants hold their elements |
| Recode.RecodeDigit | src/shaders/k_phase_a_sort.comp:31-40 | one call yields the digit and carry of its position |
| Recode.RecodeConserves | src/shaders/k_phase_a_sort.comp:27-40 | digits plus outgoing carry always spell the bytes consumed |
| Recode.DigitRange | src/shaders/k_phase_a_sort.comp:27-40 | every digit is in [-127, 128] |
| Recode.NoFinalCarry | src/shaders/k_phase_a_sort.comp:27-30 | no carry is left exactly if the scalar is at most the number whose digits are all 128 |
| Recode.RecodeScalar | src/shaders/k_phase_a_sort.comp:27-40 | for every scalar below 2^255 the 32 digits sum to it |
| Recode.PackDecodes | src/shaders/k_phase_a_sort.comp:112 | the 16-bit item decodes to one term, digit position and sign |
| Recode.PackItemIs | src/shaders/k_phase_a_sort.comp:112 | the shifted fields do not overlap |
| BucketSort.Histogram | src/shaders/k_phase_a_sort.comp:56-71 | under any interleaving of the atomic increments each counter ends as the number of digits of its magnitude |
| BucketSort.Boundaries | src/shaders/k_phase_a_sort.comp:74-80 | bucket boundaries are the prefix sums, and the counters become write cursors |
| BucketSort.LoadOrder | src/shaders/k_phase_a_sort.comp:82-100 | the counting sort produces the ordering by clamped load, ascending inside a class |
| BucketSort.LoadOrderMeaning | src/shaders/k_phase_a_sort.comp:82-100 | that ordering lists every bucket exactly once, and no bucket comes after a lighter one unless that one has 63 items or more |
| BucketSort.CodesStep | src/shaders/k_phase_a_sort.comp:106-114 | one step of one thread adds its digit to its bucket and changes no other |
| BucketSort.Scatter | src/shaders/k_phase_a_sort.comp:105-114 | under any interleaving of increments and stores each section ends as a rearrangement of exactly its bucket's digits; slots past the last boundary keep their contents |
| BucketSort.SlotUnheld | src/shaders/k_phase_a_sort.comp:111-112 | the slot an increment returns is held by no other thread whose store is still to come |
| BucketSort.IncrementStep | src/shaders/k_phase_a_sort.comp:107-111 | a thread's increment keeps the state: what the items will be once all held stores are made is a correct scatter of the digits handled |
| BucketSort.StoreStep | src/shaders/k_phase_a_sort.comp:112 | a store, whenever it comes, keeps the state |
| BucketSort.BucketExactly | src/shaders/k_phase_a_sort.comp:105-114 | bucket k holds each digit of magnitude k + 1 once and nothing else |
| BucketSort.ItemsFit | src/shaders/k_phase_a_sort.comp:52 | the items of an output never exceed its 2048 slots |
| BucketSort.SortOutput | src/shaders/k_phase_a_sort.comp:56-114 | the whole pass of one output |
| PhaseA.Accumulate | src/shaders/k_phase_a.comp:36-42 | mixed additions of the table points of a section of column j's items, their y negated by the item's sign, give coordinates that stand for the sum |
| PhaseA.TableInFileOrder | src/shaders/k_phase_a.comp:34-39 | the file's order: a table written column by column, term by term, lowest digit first, is what phase A needs exactly if entry d of term t of column j is 256^d times P_(j,t) |
| PhaseA.ThreadTotalWeight | src/shaders/k_phase_a.comp:29-43 | gathered by magnitude, the digits of a scalar weigh the scalar times its base point |
| PhaseA.SortedWeight | src/shaders/k_phase_a.comp:29-43 | the index-weighted sum of the sorted buckets is the multi-scalar product |
| PhaseA.SortDispatch | src/shaders/k_phase_a_sort.comp:42-115 | all outputs sorted in their own slices of the global buffers, workgroups in any order |
| PhaseA.CurveDispatch | src/shaders/k_phase_a.comp:17-44 | every bucket of every output stands for the sum of its section, threads in any order |
| PhaseA.PhaseA | src/vkzg.cpp:945-961 | sort, accumulate and reduce give coordinates of the sum of s_t P_(j,t) for every output, for all scalars, whatever the interleavings, the lane count and stale buffers |
| BucketReduce.SerialPass | src/shaders/field.glsl.inc:481-490 | the running sum from the top gives coordinates of the plain and index-weighted sums of a slice |
| BucketReduce.JoinSums | src/shaders/field.glsl.inc:493-510 | the three sums of two neighbouring blocks in terms of the sums of each |
| BucketReduce.DoubledIs | src/shaders/field.glsl.inc:498-499 | n doublings of coordinates multiply the point by 2^n |
| BucketReduce.JoinBlocks | src/shaders/field.glsl.inc:493-510 | joining two neighbouring lane blocks with the doublings of its level keeps the three block sums |
| BucketReduce.PartnerInTeam | src/shaders/field.glsl.inc:493-510 | a committing lane reads only from a block leader of its own team, never out of range, for every subgroup size |
| BucketReduce.TreeStep | src/shaders/field.glsl.inc:493-510 | after level l every lane at a multiple of 2^l holds the sums of its 2^l-lane block, whatever value each out-of-range lane reads |
| BucketReduce.TeamTotal | src/shaders/field.glsl.inc:512-517 | the leader's final combination is the index-weighted sum of all buckets, independent of the lane count |
| BucketReduce.SubgroupReduce | src/shaders/field.glsl.inc:478-517 | all of that for subgroups of any number of teams and every lane count from 1 to 128 |
| BucketReduce.Reduce | src/shaders/k_bucket_reduce.comp:18-39 | every output is written by exactly one 32-lane workgroup with coordinates of its index-weighted sum, clamped tail teams write nothing, and no other slot changes |
| PhaseB.Ladder | src/shaders/k_ladder.comp:15-26 | position d of ladder j stands for 256^d times point j |
| PhaseB.Fold | src/shaders/k_fold_ladder.comp:19-37 | the folded ladders stand for the multiples of u_j + u_(j+64) and u_j - u_(j+64) |
| PhaseB.PairsApart | src/shaders/k_fold_ladder.comp:24-36 | different threads touch disjoint pairs of slots |
| PhaseB.NormalizedFold | src/vkzg.cpp:978-980 | normalizing the folded ladders changes their coordinates and not their points |
| PhaseB.AffineLadder | src/vkzg.cpp:964-980 | ladder, fold and normalization leave affine coordinates of every folded multiple |
| PhaseB.TapDecodes | src/shaders/k_phase_b_split.comp:45-47 | the item e + 2^8 d + 2^16 s decodes to exactly e, d and s |
| PhaseB.TapUnique | src/shaders/k_phase_b_split.comp:45-47 | no other number below 2^17 decodes to them |
| PhaseB.ItemCounts | src/shaders/k_phase_b_split.comp:36-47 | an item (e, d, s) put into bucket k of a half-table adds (k + 1) 256^d to tap e, negated if s is 1, and nothing to any other tap |
| PhaseB.OneItem | src/shaders/k_phase_b_split.comp:36-47 | so the half-kernel of a table with that one item is that number at e and 0 elsewhere |
| PhaseB.TapHalves | src/shaders/k_combine_split.comp:23-31 | the half-kernels are half the sum and half the difference of taps e and e + 64 |
| PhaseB.Impulse | src/vkzg.cpp:964-1008 | tap e of the circulant carries the point at j, and nothing else, to output j + e modulo 128 |
| PhaseB.TapPointIs | src/shaders/k_phase_b_split.comp:43-54 | a packed tap contributes its signed place value times the folded point, negated in the negacyclic half exactly when e > a |
| PhaseB.BucketsOfTaps | src/shaders/k_phase_b_split.comp:42-61 | index-weighted buckets of taps are the half-kernel applied to the points |
| PhaseB.SplitDispatch | src/shaders/k_phase_b_split.comp:21-62 | both halves' buckets in one dispatch, workgroups and threads in any order |
| PhaseB.HalvesAgree | src/shaders/k_combine_split.comp:23-31 | sum and difference of the halves are outputs a and a + 64 of the circulant |
| PhaseB.Combine | src/shaders/k_combine_split.comp:19-32 | the recombination kernel |
| PhaseB.PhaseB | src/vkzg.cpp:964-1008 | ladder, fold, batched inversion, split accumulation, reduction and recombination give coordinates of out[a] = sum of h_e u[(a - e) mod 128] with h_e = h+_e + h-_e and h_(e+64) = h+_e - h-_e, for arbitrary half-kernels, over the reused points buffer |
| ProofPoints.ComputePoints | src/vkzg.cpp:945-1008 | both phases in sequence over shared buffers: proof a stands for the kernel applied to the 128 multi-scalar products of its blob |
| ProofPoints.ScalarsFeedPhaseA | src/shaders/k_build_circulant.comp:67-71 | phase A's products are those of the transformed circulant columns |
| ProofPoints.ProofOfBlob | src/vkzg.cpp:938-1008 | so each proof depends on the coefficients of its own blob only |
| HostProofs.Prover.ComputeProofsBatch | src/vkzg.cpp:1183-1199 | for every number of blobs, chunk size, thread order, interleaving, lane count and undefined shuffle result, the batch succeeds exactly if every blob is canonical; then every blob's 128 proofs are encoded at their reversed places, from its own bytes alone; otherwise exactly the whole chunks before the offending one have been written |
| HostProofs.Prover.ComputeBatch | src/vkzg.cpp:899-1039 | one chunk: refused exactly if some blob has an item that is not canonical, and then nothing is written; else its proofs are written and no byte outside the chunk changes |
| HostProofs.Prover.RunStages | src/vkzg.cpp:920-1020 | all stages in the code's order over the reused buffers: from uploaded bytes to encoded proofs of the recovered coefficients, and the error flag |
| HostProofs.Prover.ScalarStage | src/vkzg.cpp:920-943 | bytes to Lagrange values, to coefficients, to the scalars of the circulant columns in Montgomery form |
| HostProofs.Prover.EncodeStage | src/vkzg.cpp:1011-1020 | normalization and compression leave at the 7-bit reversed place of every proof a valid encoding of its point |
| HostProofs.CoefficientsOf | src/vkzg.cpp:920-936 | from a blob that spells a polynomial's values in bit-reversed order the scalar stage recovers exactly its coefficients |
| HostProofs.ProofsOfPolynomial | src/vkzg.cpp:920-1020 | so the proofs returned for such a blob are the proofs of its polynomial |
| HostProofs.EncodesOne | src/shaders/k_compress_proofs.comp:25-46 | proof bytes encode at most one member of the group |
| Group.SeqSumPermuted | src/shaders/k_phase_a.comp:37-42 | the order of a bucket's items does not matter to its sum |
| Curve.DblCorrect | src/shaders/field.glsl.inc:323-343 | doubling agrees with the affine tangent law on every representable point: identity, y = 0, general |
| Curve.AddCorrect | src/shaders/field.glsl.inc:346-374 | addition agrees with the affine law (characterized by `ChordLaw.ChordAndTangent`) on every pair of points of the curve: identities, equal, opposite, general |
| Curve.MaddCorrect | src/shaders/field.glsl.inc:377-408 | so does mixed addition, with (0, 0) as the affine identity |
| Curve.NegCorrect | src/shaders/field.glsl.inc:411-415 | flipping y negates |
| Curve.SubCorrect | src/shaders/field.glsl.inc:417 | subtraction adds the negated point |
| Curve.AddOnCurve | src/shaders/field.glsl.inc:322-408 | sums of points of y^2 = x^3 + b lie on it |
| ChordLaw.ChordAndTangent | src/shaders/field.glsl.inc:322-408 | for points that do not cancel, r is their sum exactly if a line through them meets the curve in the two, counted with multiplicity, and the reflection of r: the line's slope, the third point and the reflection are all determined |
| ChordLaw.SumOnLine | src/shaders/field.glsl.inc:346-374 | without the slope: the reflected sum lies on the chord, or on the tangent of slope 3x^2 / 2y |
| Consistency.SmallChord | src/shaders/field.glsl.inc:346-374 | on y^2 = x^3 + 4 modulo 11, (0, 2) + (1, 4) = (3, 3) |
| Curve.AffineLaws | src/shaders/field.glsl.inc:322-408 | the affine law is commutative with neutral element and inverses |
| CurveGroup.StandsUnique | src/shaders/field.glsl.inc:322-408 | coordinates stand for one affine point only |
| CurveGroup.DblIs | src/shaders/field.glsl.inc:323-343 | doubling coordinates doubles the group member |
| CurveGroup.AddIs | src/shaders/field.glsl.inc:346-374 | adding coordinates adds the members |
| CurveGroup.MaddIs | src/shaders/field.glsl.inc:377-408 | so does mixed addition |
| CurveGroup.SubIs | src/shaders/field.glsl.inc:417 | subtracting coordinates subtracts the members |
| CurveGroup.PairNegIs | src/shaders/k_phase_a.comp:40 | negating y negates the member, the affine identity included |
| Normalize.BackwardPass | src/shaders/k_normalize.comp:35-56 | peeling inverses off the running product normalizes every point of the chunk, zeros skipped without disturbing neighbours |
| Normalize.NormalizeThread | src/shaders/k_normalize.comp:24-56 | one thread normalizes exactly its own range, also a short last one |
| Normalize.OwnerIs | src/shaders/k_normalize.comp:25-27 | the threads' ranges partition the points |
| Normalize.OwnerDispatched | src/vkzg.cpp:869-875 | the rounded-up dispatch contains the thread of every point |
| Normalize.Normalize | src/vkzg.cpp:869-875 | for every count and chunk size every point with z nonzero becomes (x/z^2, y/z^3) and every other (0, 0), threads in any order |
| Normalize.NormalRepresents | src/shaders/k_normalize.comp:1-4 | the pair stands for the same curve point, and (0, 0) is free to mean infinity |
| Normalize.NormalIs | src/shaders/k_normalize.comp:1-4 | normalization keeps the group member |
| Normalize.InversionChunk | src/vkzg.cpp:828-834 | the chunk size stays between its floor and ceiling and is never zero |
| Compress.EncodePoint | src/shaders/k_compress_proofs.comp:25-46 | from its Montgomery limbs the kernel writes the bytes that `EncodeDecodes` shows to be the point's valid encoding |
| Compress.FlagsDisjoint | src/shaders/k_compress_proofs.comp:44-46 | the flags never collide with a bit of x |
| Compress.EncodedNumber | src/shaders/k_compress_proofs.comp:25-46 | as a 384-bit number the encoding is x with bit 383 set, bit 382 on infinity only, and bit 381 exactly if y > p - y |
| Compress.LexLargestIs | src/shaders/field.glsl.inc:557-562 | comparing with (p - 1) / 2 decides y > p - y, so exactly one of the two carries the sign |
| Compress.LargestIsLargerRoot | src/shaders/field.glsl.inc:557-562 | on the curve it tells whether another point with the same x has a smaller y |
| Compress.IsLexLargest | src/shaders/field.glsl.inc:557-562 | the limb-wise comparison decides it, and with it whether y exceeds p - y |
| Compress.EncodeDecodes | src/shaders/k_compress_proofs.comp:25-46 | what is written is a valid encoding of the point it was given: x in the low 381 bits, the sign flag set exactly for the larger of the two square roots |
| Compress.DecodeUnique | src/shaders/k_compress_proofs.comp:25-46 | no byte string is a valid encoding of two curve points |
| Compress.EncodeInjective | src/shaders/k_compress_proofs.comp:25-46 | different curve points have different encodings |
| Compress.Compress | src/shaders/k_compress_proofs.comp:15-46 | proof i of every blob is encoded at the 7-bit reversal of i, invocations in any order |

## Left out

- Vulkan: device selection, buffer creation, command recording, fences, profiling and every device failure; a dispatch always runs.
- `gpu_topology.cpp` and the choice between the two lane counts: `BucketReduce.Reduce` holds for any lane count that divides the 32 lanes of a workgroup, and `HostProofs.Prover.ComputeProofsBatch` for any choice of one per batch size.
- A team whose lanes lie in different subgroups: a workgroup's lanes are taken to be one subgroup.
- `precomputed_tables.cpp` and the table files: their contents are the hypotheses listed above.
- That the 48-byte outputs are valid KZG proofs (pairings, trusted setup, the FK20 argument): the model ends at the multi-scalar products and the circulant of the given inputs.
- Primality of the two BLS12-381 moduli and the root-of-unity facts for the concrete numbers: taken as hypotheses.
- Associativity of the affine group law: a hypothesis of the multi-scalar layer, through `CurveGroup.Homomorphic`.
- Canonicity of cell bytes on the recovery path: the code does not check it, and recovery is stated for values modulo r.
- Between the byte kernels, the transforms and the curve kernels run on one integer per field element; `Montgomery` proves the limb routines those integers stand for, operation by operation.
- A buffer the source reuses for bytes and for field elements is one integer array here, as long as the larger of the two contents.
- 32-bit wrap-around of buffer index arithmetic, except where the source relies on it (`PhaseB.WrappedIndex`): indices are unbounded integers.
- Null-argument checks, the empty-batch early return and the mutex of the entry points.
- Tests, benchmarks, the Java bindings and the shader embedding script.
