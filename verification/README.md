# A Dafny model of the Akita polynomial algebra

The Akita prover and verifier rest on a few fast algorithms in `crates/akita-algebra` that
must each compute a short mathematical object: a multilinear equality table, a contraction of
weights against it, a discrete Fourier transform, a sumcheck round polynomial. This project
models those algorithms as the code writes them, with their in-place loops, mutable objects,
kernel choices and error returns, and proves that each equals its definition for every input,
every run and every kernel chosen.

* **Field.** `Field.K` is an arbitrary field with no value given to it, so every result holds
  over every field whose elements can be coded by integers. `PrimeFields.IsField` shows that
  the integers modulo any prime are such a field. `Weights.W` is, in the same way, an
  arbitrary algebra over that field, with or without a unit, for the weights of the affine
  contraction.
* **Equality polynomial** (`EqPolynomial`, `EqTables`, `Multilinear`, `RangeCheck`). `Eq(r, b)` is the product over
  the bits of `b`; five table builders, the prefix sum, the recursive evaluator and the in-place fold
  are all compared with it.
* **Offset contraction** (`OffsetWindow`, `AffineSpec`, `AffineSummaries`, `AffineHighRows`,
  `AffineIntervals`, `AffineAligned`, `AffineEvaluator`). The reference is the triple sum
  `Problem.WindowSum`. The evaluator never enumerates it; it cuts the window, groups bases by
  residue, summarises the low factor by carry and picks kernels. It is proved to answer
  exactly the inputs in `Accepts`, always with the reference sum. `Accepts` is stated over
  addresses, digits and blocks, not over the code's own bounds.
* **Gruen split equality and sumcheck** (`SplitEq`, `Sumcheck`, `UniPoly`, `Interpolation`). A
  mutable object whose tables match the fully folded table at every round of every run, and a
  complete sumcheck run on top of it, from the opening sum to `c * eq(tau, r) * f(r)`.
* **Smooth FFT** (`Dft`, `FftKernels`, `FftPlan`, `FftStages`, `Fft`, `SmoothDomain`, `Roots`).
  Digit reversal followed by the staged in-place butterflies leaves the plain DFT; the inverse, coset
  evaluation and Reed-Solomon extension follow.
* **Companions** (`Challenges`, `PackedAccumulators`, `WidthSearch`). Challenges are evaluated in
  the field the powers live in; multiplying by an embedded base-field integer is multiplying by
  that integer's image there.

Integers are unbounded except where a width matters: the lane accumulators use 64- and 128-bit
newtypes, so every operation in them is proved free of overflow, and challenge positions are 32-bit.
Rust errors and panics that depend on the input are `None` results or, where the code only panics or
checks in debug builds, preconditions.

Where the code and its comments differ, the model follows the code:

* the layers of `evals_cached` are tables of the *last* coordinates, although their comment
  says prefixes (`crates/akita-algebra/src/eq_poly.rs:324-328` against `355-364`);
* decompressing a compressed constant gives two coefficients, the second zero, so that round
  trip is an equality of values (`crates/akita-algebra/src/uni_poly.rs:50-53`, `210-219`);
* recovery from a claim returns the zero polynomial, not nothing, when `l(0)` and `l(1)` are both zero
  (`crates/akita-algebra/src/split_eq.rs:187-188` against `199-201`);
* primitivity of the FFT root and the radix bound are checked in debug builds only, so they are
  preconditions (`crates/akita-algebra/src/fft.rs:229`, `787-796`). The panic for a size that is not
  invertible cannot occur once the root is primitive (`SmoothDomain.OrderInvertible`).

`dfyconfig.toml` lists the files; each module stands for one component of the source.

## Model

| member | source | states |
|---|---|---|
| `AffineEvaluator.EvalAffineDigitIntervals` | crates/akita-algebra/src/offset_eq.rs:169-380 | the evaluator answers exactly the inputs in `Accepts`, which is written over the addresses, digits and blocks of the window itself, and every answer, on whichever path, is the triple sum over bases, outer indices and digits |
| `AffineEvaluator.CoverExact` | crates/akita-algebra/src/offset_eq.rs:270-292 | head, whole low blocks and tail cover the outer window exactly once, each inside the blocks it is charged to |
| `AffineEvaluator.PiecesFit` | crates/akita-algebra/src/offset_eq.rs:322-378 | the three calls receive pieces that lie in the domain, start where the previous one ended and have the right length |
| `AffineEvaluator.EvalPieces` | crates/akita-algebra/src/offset_eq.rs:293-380 | within the work bound, none of the inner error returns can fire and the accumulated pieces are the whole reference sum |
| `AffineEvaluator.SpanCoversDigits` | crates/akita-algebra/src/offset_eq.rs:199-213 | the stride check holds exactly when every strided digit lies below one outer step |
| `AffineEvaluator.DomainIsAddresses` | crates/akita-algebra/src/offset_eq.rs:239-254 | the bound checked for each base holds exactly when every address of every base, index and digit is in the equality domain |
| `AffineEvaluator.ChargeIsCount` | crates/akita-algebra/src/offset_eq.rs:270-318 | the work charged from the cover is the count over the window: digits times low positions summarised, plus blocks met times carries, for every base |
| `AffineEvaluator.BlocksMetCount` | crates/akita-algebra/src/offset_eq.rs:297-300 | the blocks counted are exactly those that hold a position of the window |
| `AffineEvaluator.CheckDomain` | crates/akita-algebra/src/offset_eq.rs:239-254 | the address check accepts exactly when every address of every base lies in the equality domain |
| `AffineSpec.SourceTotal` | crates/akita-algebra/src/offset_eq.rs:60-111 | a dense or product weight source answers exactly the indices below its length |
| `AffineSpec.ProductEntries` | crates/akita-algebra/src/offset_eq.rs:97-111 | a product source is outer-major: its entry at j * |inner| + k is outer[j] * inner[k], and it has |outer| * |inner| entries |
| `AffineSpec.ProductWindow` | crates/akita-algebra/src/offset_eq.rs:75-95 | the window over the first rows of a product source is the double sum over outer and inner entries, for every base and digit |
| `AffineSpec.ScaledBase` | crates/akita-algebra/src/offset_eq.rs:153-155 | scale b multiplies exactly the part of base b |
| `AffineSpec.WindowSplit` | crates/akita-algebra/src/offset_eq.rs:139-147 | the reference sum over consecutive windows is the sum of the parts |
| `AffineSpec.PieceIsWindow` | crates/akita-algebra/src/offset_eq.rs:503-535 | rows of low blocks, read by (row, low position, digit), are the reference sum over the outer indices they stand for |
| `AffineSummaries.CarryInRange` | crates/akita-algebra/src/offset_eq.rs:563-586 | every carry an address can produce has a summary slot, and no carry exceeds the outer stride |
| `AffineSummaries.BuildDense` | crates/akita-algebra/src/offset_eq.rs:764-795 | slot c of the dense loop is the sum of all low terms whose address carries by c, with or without the equality table |
| `AffineSummaries.BuildIdentity` | crates/akita-algebra/src/offset_eq.rs:721-743 | the identity low factor gives the same summaries on the unit low domain |
| `AffineSummaries.RunFromPrefix` | crates/akita-algebra/src/offset_eq.rs:897-905 | a digit run inside one block is one difference of the geometric prefix scan, rescaled by the inverse power |
| `AffineSummaries.WrapFromPrefix` | crates/akita-algebra/src/offset_eq.rs:906-918 | the wrapped part of a run is one entry of the prefix scan, rescaled |
| `AffineSummaries.GeometricSlot` | crates/akita-algebra/src/offset_eq.rs:889-918 | each digit window wraps at most one block: the sum in slot c is the run for the carry, the wrapped run for the next slot, and zero elsewhere |
| `AffineSummaries.BuildGeometric` | crates/akita-algebra/src/offset_eq.rs:816-921 | the scan builder returns summaries exactly when its guards hold, and they are the ones the dense loop builds, slot by slot |
| `AffineSummaries.BuildSummaries` | crates/akita-algebra/src/offset_eq.rs:703-796 | whichever builder is chosen, the result is the specified summary of every slot |
| `AffineHighRows.PlanPays` | crates/akita-algebra/src/offset_eq.rs:935-993 | the plan buckets exactly when the least power-of-two window for the carries fits the caps and costs less than the direct loop |
| `AffineHighRows.GroupIsAddresses` | crates/akita-algebra/src/offset_eq.rs:553-664 | for one residue, high weight times summary times eq(high, row + carry), over rows and carries, is the full cell sum of its addresses |
| `AffineHighRows.DirectRows` | crates/akita-algebra/src/offset_eq.rs:618-662 | the direct row and carry loop adds exactly the group sum |
| `AffineHighRows.CarryInTwoBlocks` | crates/akita-algebra/src/offset_eq.rs:1042-1059 | a carry window touches at most two high blocks: eq at row + carry is a low factor times eq of that block or the next |
| `AffineHighRows.BucketStep` | crates/akita-algebra/src/offset_eq.rs:1109-1122 | adding one row to its bucket pair adds exactly its share to every combined carry |
| `AffineHighRows.PhiAdds` | crates/akita-algebra/src/offset_eq.rs:1131-1141 | merging the bucket pairs of two tasks adds their combined values |
| `AffineHighRows.EvalHigh` | crates/akita-algebra/src/offset_eq.rs:1048-1059 | the split table with its domain test is eq at every block, and zero past the domain |
| `AffineHighRows.FillBuckets` | crates/akita-algebra/src/offset_eq.rs:1068-1142 | one task for all addresses or one per address leave buckets with the same combined value |
| `AffineHighRows.CombinedIsDirect` | crates/akita-algebra/src/offset_eq.rs:1144-1156 | combining buckets with summaries, carry by carry, is the direct sum over addresses, rows and carries |
| `AffineHighRows.BucketedRows` | crates/akita-algebra/src/offset_eq.rs:1014-1158 | for every eligible window the bucketed kernel adds exactly what the direct loop would add |
| `AffineIntervals.AddressesPermuted` | crates/akita-algebra/src/offset_eq.rs:677-687 | the sum over addresses does not depend on their order |
| `AffineIntervals.SortByResidue` | crates/akita-algebra/src/offset_eq.rs:687-687 | the sort keeps the multiset of addresses and orders them by low residue |
| `AffineIntervals.AccumulateGroup` | crates/akita-algebra/src/offset_eq.rs:553-664 | one residue group adds its addresses whether the rows are bucketed or direct |
| `AffineIntervals.AccumulateGroups` | crates/akita-algebra/src/offset_eq.rs:688-698 | the residue groups together add every address once |
| `AffineIntervals.AccumulateAffineRows` | crates/akita-algebra/src/offset_eq.rs:503-700 | a piece adds exactly the reference sum over its window, and cannot fail within the work bound |
| `AffineIntervals.PlanWithinWork` | crates/akita-algebra/src/offset_eq.rs:966-992 | the charged work of the entry point rules out the bucket plan's work error |
| `AffineAligned.CarryAtMostOne` | crates/akita-algebra/src/offset_eq.rs:450-464 | on the bit-aligned path no digit carries by more than one, so its carry error cannot fire |
| `AffineAligned.TermInClasses` | crates/akita-algebra/src/offset_eq.rs:382-398 | every term lies in exactly one of the two carry classes, where it factors into a digit part and an outer part |
| `AffineAligned.BaseIsClasses` | crates/akita-algebra/src/offset_eq.rs:449-492 | for one base the two class products sum to the reference sum |
| `AffineAligned.EvalAligned` | crates/akita-algebra/src/offset_eq.rs:399-494 | the aligned kernel answers exactly when its work charge fits, with the reference sum |
| `Weights.FieldAsAlgebra` | crates/akita-algebra/src/offset_eq.rs:113-134 | the field is one of the weight algebras, with itself as scalars |
| `OffsetWindow.EqEvalAtIndex` | crates/akita-algebra/src/offset_eq.rs:1435-1451 | the scalar fold is eq at every index and zero outside the domain |
| `OffsetWindow.SplitLowBits` | crates/akita-algebra/src/offset_eq.rs:1236-1246 | the split stays within the low cap, and leaves the high side within its cap whenever both can fit |
| `OffsetWindow.SplitIsOptimal` | crates/akita-algebra/src/offset_eq.rs:1284-1286 | when both tables fit their caps, no other allowed split needs fewer entries |
| `OffsetWindow.NewWindow` | crates/akita-algebra/src/offset_eq.rs:1291-1316 | both tables are equality tables of their halves; the high one exists exactly when it fits the cap; the entry count used for amortisation is the number of entries built |
| `OffsetWindow.EvalWindow` | crates/akita-algebra/src/offset_eq.rs:1329-1345 | for every challenge vector, cap and index, in or out of the domain, lookup equals eq |
| `OffsetWindow.FillBounded` | crates/akita-algebra/src/offset_eq.rs:1387-1431 | block by block, with the zero, one and early zero-fill branches, exactly the given range receives eq |
| `OffsetWindow.FillInterval` | crates/akita-algebra/src/offset_eq.rs:1351-1385 | every output entry k is eq(challenges, start + k), whatever the chunking |
| `OffsetWindow.AmortizedOffsetEq.constructor` | crates/akita-algebra/src/offset_eq.rs:1182-1187 | a new evaluator has no window |
| `OffsetWindow.AmortizedOffsetEq.PrepareForProduct` | crates/akita-algebra/src/offset_eq.rs:1189-1201 | a window appears exactly when the evaluations repay its tables, and is never replaced |
| `OffsetWindow.AmortizedOffsetEq.Eval` | crates/akita-algebra/src/offset_eq.rs:1204-1209 | evaluation is eq with or without the window |
| `PrimeFields.IsField` | crates/akita-algebra/src/fft.rs:6-16 | the integers modulo any prime satisfy the field laws the model assumes, so they are not vacuous |
| `EqPolynomial.Mle` | crates/akita-algebra/src/eq_poly.rs:96-107 | for points of the same length, and only then, the value is the sum of eq(x, b) * eq(y, b) over the hypercube, at all field points |
| `EqPolynomial.MleSymmetric` | crates/akita-algebra/src/eq_poly.rs:96-107 | exchanging the points changes nothing |
| `EqPolynomial.AtBits` | crates/akita-algebra/src/eq_poly.rs:96-107 | at the bits of an index the two-point form is eq at that index |
| `EqPolynomial.Indicator` | crates/akita-algebra/src/eq_poly.rs:96-107 | on Boolean points eq is the indicator of equality |
| `EqPolynomial.Concat` | crates/akita-algebra/src/eq_poly.rs:421-433 | eq of a concatenated point is the product of eq at the low and the high bits |
| `EqPolynomial.OutOfDomain` | crates/akita-algebra/src/offset_eq.rs:1435-1438 | eq vanishes at every index past the domain |
| `EqPolynomial.SumsToOne` | crates/akita-algebra/src/eq_poly.rs:232-234 | the whole table sums to one |
| `EqPolynomial.PrefixSum` | crates/akita-algebra/src/eq_poly.rs:224-248 | for every length up to 2^n, and no other, the bit scan returns the sum of the first entries |
| `EqPolynomial.Children` | crates/akita-algebra/src/eq_poly.rs:41-50 | the parent split with one product gives the two children scaled by 1 - t and t |
| `EqTables.ExpandLayer` | crates/akita-algebra/src/eq_poly.rs:308-319 | expanding from the last parent down in place produces both children of every parent |
| `EqTables.FillSerial` | crates/akita-algebra/src/eq_poly.rs:295-320 | the serial in-place build is the mapped table scale * eq(r, b) at every index, touches nothing else and splits exactly 2^n - 1 parents |
| `EqTables.EvalsParallel` | crates/akita-algebra/src/eq_poly.rs:374-394 | the forward doubling build is the same table |
| `EqTables.Evals` | crates/akita-algebra/src/eq_poly.rs:256-278 | both sides of the size threshold give the same table |
| `EqTables.EvalsMappedSlabs` | crates/akita-algebra/src/eq_poly.rs:172-200 | the slabs seeded by the high table are the mapped table, for every number of outer variables |
| `EqTables.EvalsCached` | crates/akita-algebra/src/eq_poly.rs:336-366 | layer j is the table of the last j coordinates, so the last layer is the full table |
| `EqTables.NewSplit` | crates/akita-algebra/src/eq_poly.rs:428-433 | the pair holds the tables of the low and the high half of the point |
| `EqTables.EvalAt` | crates/akita-algebra/src/eq_poly.rs:462-471 | the product of the two half tables is eq at every index of the domain, and an error past it |
| `Multilinear.RefIsExtension` | crates/akita-algebra/src/poly.rs:173-186 | recursion on the last variable is the inner product with the equality table |
| `Multilinear.FoldKeepsExtension` | crates/akita-algebra/src/poly.rs:227-233 | folding the first variable leaves the extension at the rest of the point, for a live prefix of any length |
| `Multilinear.FoldAllIsExtension` | crates/akita-algebra/src/poly.rs:196-234 | folding all variables leaves the extension at the point |
| `Multilinear.FoldOfPadding` | crates/akita-algebra/src/poly.rs:227-233 | folding a live prefix of odd length commutes with padding it by zeros |
| `Multilinear.FoldInPlace` | crates/akita-algebra/src/poly.rs:196-234 | the in-place loop leaves the folded prefix although it overwrites its own input |
| `Multilinear.MultilinearEval` | crates/akita-algebra/src/poly.rs:129-170 | both evaluators return the multilinear extension; the size checks reject everything else |
| `RangeCheck.RangeCheckEval` | crates/akita-algebra/src/poly.rs:113-120 | the product is the value at w of the monic polynomial of the balanced digits, and vanishes exactly on them |
| `RangeCheck.DigitPolynomialRoots` | crates/akita-algebra/src/poly.rs:113-120 | that polynomial is monic of degree n and its roots are exactly the n digits |
| `RangeCheck.DigitPolynomialUnique` | crates/akita-algebra/src/poly.rs:113-120 | no other monic polynomial of degree n vanishes on n distinct digits |
| `UniPoly.ValueIsSum` | crates/akita-algebra/src/uni_poly.rs:29-35 | the nested form is the sum of coefficients times powers |
| `UniPoly.Evaluate` | crates/akita-algebra/src/uni_poly.rs:29-35 | Horner's loop returns the polynomial's value |
| `UniPoly.CompressRoundTrip` | crates/akita-algebra/src/uni_poly.rs:43-61 | decompressing with the polynomial's own hint gives the same value everywhere, and the same coefficients except for a constant |
| `UniPoly.DecompressHasHint` | crates/akita-algebra/src/uni_poly.rs:210-220 | for every hint the decompressed polynomial compresses back, and has that hint exactly when something was kept or the hint is zero |
| `UniPoly.RecoverLinearTerm` | crates/akita-algebra/src/uni_poly.rs:196-207 | the loop returns the one linear coefficient the hint allows |
| `UniPoly.EvalFromHint` | crates/akita-algebra/src/uni_poly.rs:225-239 | evaluation without decompressing equals the value of the decompressed polynomial |
| `Interpolation.NewtonInterpolates` | crates/akita-algebra/src/uni_poly.rs:65-69 | the Newton forward-difference form takes value e[i] at i |
| `Interpolation.FromEvals` | crates/akita-algebra/src/uni_poly.rs:75-127 | the returned coefficients, without trailing zeros, take every given value at 0, 1, ..., n-1 when those factorials are invertible |
| `Interpolation.UniqueInterpolant` | crates/akita-algebra/src/uni_poly.rs:65-69 | polynomials that agree at as many distinct points as coefficients are equal |
| `Interpolation.InterpolateValues` | crates/akita-algebra/src/uni_poly.rs:75-127 | applied to the values of a polynomial shorter than n, interpolation returns its coefficients, trimmed |
| `SplitEq.FoldedTable` | crates/akita-algebra/src/split_eq.rs:106-110 | the full table folded by any challenges is the table of the remaining point times c * eq(tau, r) of the bound part |
| `SplitEq.RemainingEntry` | crates/akita-algebra/src/split_eq.rs:117-125 | scalar times eq(tau_k, b) times the two top tables is entry 2j + b of the table of the remaining point |
| `SplitEq.GruenSplitEq.constructor` | crates/akita-algebra/src/split_eq.rs:83-104 | the new object satisfies the invariant: scalar c and all suffix tables of both halves |
| `SplitEq.GruenSplitEq.WithInitialScalar` | crates/akita-algebra/src/split_eq.rs:83-104 | construction fails exactly on an empty point |
| `SplitEq.GruenSplitEq.RemainingEqTables` | crates/akita-algebra/src/split_eq.rs:129-134 | in every reachable state the top tables, scalar and current coordinate give every entry of the full table folded by the challenges bound so far |
| `SplitEq.GruenSplitEq.Bind` | crates/akita-algebra/src/split_eq.rs:140-149 | binding keeps the invariant, and the scalar is c * eq over all bound coordinates, so c * eq(tau, r) after the last |
| `SplitEq.GruenSplitEq.LinearFactorEvals` | crates/akita-algebra/src/split_eq.rs:153-157 | the pair is scalar * eq(tau_k, x) at x = 0 and x = 1 |
| `SplitEq.GruenSplitEq.GruenMul` | crates/akita-algebra/src/split_eq.rs:172-181 | the coefficients are those of l times q, with its value everywhere |
| `SplitEq.GruenSplitEq.TryGruenPolyFromCoeffsExceptLinear` | crates/akita-algebra/src/split_eq.rs:189-217 | it fails exactly when l(1) is zero and l(0) is not; otherwise the result, of the length of l * q, equals l * q everywhere for every q with these coefficients and this claim |
| `SplitEq.GruenSplitEq.TryGruenPolyDeg3` | crates/akita-algebra/src/split_eq.rs:227-258 | the quadratic variant through interpolation has the same failures and values, and returns trimmed coefficients |
| `SplitEq.RecoveredInner` | crates/akita-algebra/src/split_eq.rs:203-215 | the inner polynomial rebuilt from the claim has the values of every inner polynomial the data could come from |
| `SplitEq.Deg3Values` | crates/akita-algebra/src/split_eq.rs:239-257 | the four interpolated numbers are the values of l * q at 0, 1, 2, 3 |
| `Sumcheck.RoundKeepsClaim` | crates/akita-algebra/src/split_eq.rs:166-181 | the hint of an honest round polynomial is the current claim, and its value at the challenge is the next |
| `Sumcheck.FollowedClaim` | crates/akita-algebra/src/uni_poly.rs:222-239 | over whole runs of any length the claim followed from compressed messages alone is the true claim, ending at c * eq(tau, r) * g(r) |
| `Sumcheck.OpeningClaim` | crates/akita-algebra/src/split_eq.rs:117-125 | the first claim is c times the sum of eq(tau, b) * f[b] |
| `Sumcheck.RoundInner` | crates/akita-algebra/src/split_eq.rs:117-125 | the pair loop over the two remaining tables gives the coefficients of the inner polynomial |
| `Sumcheck.Round` | crates/akita-algebra/src/split_eq.rs:129-181 | one round of prover object, folded table, compression and evaluation from the hint keeps all of them in step, with a quadratic polynomial equal to l * q everywhere |
| `Sumcheck.Run` | crates/akita-algebra/src/split_eq.rs:83-181 | a full run: every round polynomial has three coefficients, equals l * q at every point and sums to the current claim, the verifier's claim is followed from compressed forms, and the last is c * eq(tau, r) * f(r) |
| `Dft.DftIsEvaluation` | crates/akita-algebra/src/fft.rs:611-611 | the transform is evaluation at the powers of the root |
| `Dft.InverseOfDft` | crates/akita-algebra/src/fft.rs:622-622 | transforming at the inverse root after transforming multiplies every entry by n |
| `Dft.CooleyTukey` | crates/akita-algebra/src/fft.rs:18-26 | decimation in time: each entry from the transforms of the r lanes and the twiddles |
| `FftKernels.Twiddle` | crates/akita-algebra/src/fft.rs:397-441 | lane k is scaled by the k-th power of the twiddle in every unrolled branch |
| `FftKernels.Radix2` | crates/akita-algebra/src/fft.rs:445-448 | the radix-2 kernel is the transform of its lanes |
| `FftKernels.Radix3` | crates/akita-algebra/src/fft.rs:449-460 | the two-multiplication kernel is the transform, by 1 + w + w^2 = 0 |
| `FftKernels.Pair` | crates/akita-algebra/src/fft.rs:503-514 | a conjugate pair is recovered from its half sum and half difference |
| `FftKernels.Radix5` | crates/akita-algebra/src/fft.rs:461-501 | the six-multiplication Karatsuba kernel is the transform of its five lanes |
| `FftKernels.Radix7` | crates/akita-algebra/src/fft.rs:502-542 | the eighteen-multiplication kernel is the transform of its seven lanes |
| `FftKernels.NaiveKernel` | crates/akita-algebra/src/fft.rs:543-554 | the fallback is the transform for every other radix |
| `FftKernels.Winograd7` | crates/akita-algebra/src/fft.rs:286-314 | the constants are the halved sums and differences of conjugate roots, row-major |
| `FftPlan.ReverseDigits` | crates/akita-algebra/src/fft.rs:164-176 | extracting the digits and rebuilding them in order is the recursive digit reversal |
| `FftPlan.DigitReversal` | crates/akita-algebra/src/fft.rs:161-178 | the table holds the digit reversal of every index |
| `FftPlan.ReversalIsPermutation` | crates/akita-algebra/src/fft.rs:155-160 | the table is a permutation of the indices |
| `FftStages.WinogradConsts` | crates/akita-algebra/src/fft.rs:264-317 | the constants of radix 5 and 7, and none for other radices |
| `FftStages.PrecomputeStages` | crates/akita-algebra/src/fft.rs:224-259 | stage i has the i-th radix from the end, the block below it, and twiddles and roots of a root of order block * r |
| `FftStages.Kernel` | crates/akita-algebra/src/fft.rs:443-555 | whichever kernel is chosen, the output is the size-r transform at the stage root |
| `FftStages.Butterfly` | crates/akita-algebra/src/fft.rs:386-441 | twiddle and kernel together are the transform of the twisted lanes, also when the twiddle phase is skipped |
| `Fft.JoinedIsDft` | crates/akita-algebra/src/fft.rs:370-375 | when the blocks of a group hold the transforms of the lanes, its butterflies leave the transform of the whole |
| `Fft.StageStep` | crates/akita-algebra/src/fft.rs:376-385 | one stage keeps the invariant with one radix fewer: at the reversed place of a, the transform of every Prod-th input from a |
| `Fft.FftWorkspace.JoinGroup` | crates/akita-algebra/src/fft.rs:386-557 | the butterflies of one group in place, column by column, change that group only |
| `Fft.FftWorkspace.RunStage` | crates/akita-algebra/src/fft.rs:378-558 | a stage joins every group |
| `Fft.FftWorkspace.ButterflyStages` | crates/akita-algebra/src/fft.rs:376-559 | from the reversed input, the sweep leaves the full transform |
| `Fft.FftWorkspace.Execute` | crates/akita-algebra/src/fft.rs:344-354 | the first buffer ends as the transform of the input: entry k is the sum of x[j] * omega^(jk) |
| `Fft.FftWorkspace.ExecuteFromB` | crates/akita-algebra/src/fft.rs:359-368 | the same from the second buffer |
| `SmoothDomain.OrderInvertible` | crates/akita-algebra/src/fft.rs:593-596 | a field with a root of order n has n nonzero, so the normalisation panic cannot occur |
| `SmoothDomain.NewDomain` | crates/akita-algebra/src/fft.rs:591-609 | for every primitive root and every size with prime factors at most 7, the domain is valid for both directions |
| `SmoothDomain.SupportedDomain` | crates/akita-algebra/src/fft.rs:77-85 | the sizes of the supported subgroup are exactly its divisors, and each gives a valid domain on the stored root raised to the cofactor |
| `SmoothDomain.Forward` | crates/akita-algebra/src/fft.rs:615-620 | the output is the transform |
| `SmoothDomain.Inverse` | crates/akita-algebra/src/fft.rs:626-636 | the result transforms back to the input, and is the only vector that does: a two-sided inverse |
| `SmoothDomain.CosetForward` | crates/akita-algebra/src/fft.rs:650-664 | entry i is the polynomial's value at shift * omega^i |
| `SmoothDomain.RsExtendBatch` | crates/akita-algebra/src/fft.rs:680-706 | a polynomial of degree below k through the evaluations exists, and the extension holds its values on the cosets, coset-major, for every such polynomial |
| `SmoothDomain.ExtensionIsCodeword` | crates/akita-algebra/src/fft.rs:666-676 | when the base root is the blowup-th power, evaluations and extension are together the transform over the larger subgroup |
| `SmoothDomain.SupportedCodeword` | crates/akita-algebra/src/fft.rs:666-676 | over the supported subgroup the hypothesis on the roots holds, so evaluations and extension are the transform over the larger subgroup |
| `Roots.FieldPow` | crates/akita-algebra/src/fft.rs:89-100 | repeated squaring is the power |
| `Roots.SmallestPrimeFactor` | crates/akita-algebra/src/fft.rs:118-135 | the result is the least divisor above one, by table, odd trial division or primality |
| `Roots.Factorize` | crates/akita-algebra/src/fft.rs:142-150 | the factors are prime, in non-decreasing order, and multiply to n |
| `Roots.PrimeDivisors` | crates/akita-algebra/src/fft.rs:137-150 | a prime divides n exactly when it is among the factors |
| `Roots.DistinctPrimeFactors` | crates/akita-algebra/src/fft.rs:768-773 | exactly the primes that divide n, strictly increasing |
| `Roots.ExactOrder` | crates/akita-algebra/src/fft.rs:775-784 | the order is n exactly when the n-th power is one and no n/q-th power is, over the primes q of n |
| `Roots.IsPrimitiveNthRoot` | crates/akita-algebra/src/fft.rs:777-784 | the test is true exactly when the order is n |
| `Roots.PrimitiveNthRoot` | crates/akita-algebra/src/fft.rs:717-730 | a root exists exactly for divisors n of the stored order, is the stored root to the power m when n * m is the order, and has order n |
| `Roots.RootsNest` | crates/akita-algebra/src/fft.rs:709-730 | the root of a divisor size k is the (n/k)-th power of the root of size n |
| `Roots.SupportedRadices` | crates/akita-algebra/src/fft.rs:77-85 | every prime factor of a supported size is 2 or 3 |
| `Challenges.Validate` | crates/akita-challenges/src/challenge.rs:89-133 | the bitset scan accepts exactly the challenges with matching lengths, nonzero coefficients and distinct positions in range |
| `Challenges.AccumulateSmallSigned` | crates/akita-challenges/src/challenge.rs:33-51 | every branch adds coefficient times value |
| `Field.FromIntMul` | crates/akita-challenges/src/challenge.rs:49-49 | the image of the integers keeps products and one |
| `Field.FromIntAdd` | crates/akita-challenges/src/challenge.rs:49-49 | the image of the integers keeps sums |
| `Challenges.EvalAtPows` | crates/akita-challenges/src/challenge.rs:147-175 | the value is the sum of coefficient times power, with an error exactly for mismatched, out-of-range or zero terms |
| `Challenges.EmbedSubringPositions` | crates/akita-challenges/src/challenges.rs:217-293 | it fails exactly when dimensions disagree, a challenge is invalid or a position leaves 32 bits; otherwise layout, order and coefficients are kept and every result is valid in the ambient ring |
| `Challenges.EmbeddingIsValid` | crates/akita-challenges/src/challenges.rs:234-259 | scaling positions by the stride keeps a challenge valid in the larger dimension |
| `Challenges.EmbeddingValue` | crates/akita-challenges/src/challenges.rs:208-212 | the embedded challenge at the powers of alpha is the source at the powers of alpha^stride |
| `Challenges.EmbeddingsCompose` | crates/akita-challenges/src/challenges.rs:242-254 | two embeddings are one with the product of the strides |
| `Challenges.SelectClaims` | crates/akita-challenges/src/challenges.rs:181-206 | block i of selected claim k is block i of the requested claim; an error exactly when a claim is out of range |
| `PackedAccumulators.Red` | specs/packed-accumulator-microbench.rs:34-43 | every 64-bit word goes to its residue |
| `PackedAccumulators.Eager` | specs/packed-accumulator-microbench.rs:119-132 | the sum of all products modulo P without overflow |
| `PackedAccumulators.Chunked` | specs/packed-accumulator-microbench.rs:61-84 | the same for every chunk length from 1 to 4 |
| `PackedAccumulators.ChunkLimit` | specs/packed-accumulator-microbench.rs:60-69 | k unreduced products of a lane fit in a word for all operands if and only if k is at most 4 |
| `PackedAccumulators.Deferred` | specs/packed-accumulator-microbench.rs:87-100 | the same whenever every lane sum fits a word |
| `PackedAccumulators.WideLanes` | specs/packed-accumulator-microbench.rs:103-116 | the same with 128-bit lanes |
| `WidthSearch.MaxWidth` | scripts/gen_sis_table.py:264-303 | for an antitone predicate the hybrid search ends at the largest secure width, or zero |

## Left out

- Word overflow: `usize` is an unbounded natural, so the `checked_*` errors for sums and products
  past the machine word are not modelled; the 64-bit limits of the table and extension sizes are.
- Allocation: byte budgets for equality tables and failed reservations.
- Rayon scheduling: parallel branches have their sequential meaning; which branch runs is a
  size test in the model as in the code, and the thread count is a parameter where it matters.
- A missing base scale is modelled as the scale one.
- `multilinear_eval_small` and the unreduced accumulators, which rest on limb representations
  outside the repository.
- `Poly` arithmetic, `trim_trailing_zeros` on its own, `zero_selector`, `evals_prefix` and other
  one-line wrappers: they would only add easy members.
- `find_primitive_nth_root`, a scanner used by tests only.
- The tensor-pair evaluator, the NTT and ring modules, challenge sampling and the transcript.
- The batch evaluation of challenges by chunks: a map over `EvalAtPows`.
- The value of the stored root for the protocol prime: its order is a hypothesis of `SupportedDomain`.
- Serialization, configuration presets, schedules, benches and report scripts.
- The security estimator behind the width search is an arbitrary antitone predicate.
- SplitEq.GruenSplitEq.TryGruenPolyFromCoeffsExceptLinear: for an empty input the code returns the zero polynomial whatever the claim, and the contract then speaks only of the empty inner polynomial.
