# Shannon-Prime verification project

A Dafny model of the numeric and protocol core of Shannon-Prime, an engine that compresses the key/value cache
of a language model, and of the machinery around it. The model follows the code: the same branches, constants,
error returns and loop orders. Arrays the code changes in place are arrays here, structs are classes.

What is modelled, by module:

- **Linear algebra**: `Sums`, `RealArith`, `Matrices`, `SpdSolver` (in-place Cholesky and substitutions),
  `RidgeTheory`, `HierPredictor` and `HierTraining` (ridge calibration, prediction and what both achieve together),
  `JacobiTheory`, `Jacobi`, `SpectralScores` (eigenvalues and scores), `ShadowCalibration` (accumulators, covariance,
  ranking).
- **Transforms**: `IntArith`, `Vht2Theory`, `Vht2`, `Vht2Kernel` (the transform in closed form), `Vilenkin`.
- **Number theory**: `Primes`, `Mobius`, `MobiusSum`, `Permutations`, `MobiusMask`, `RankSort`.
- **Residue arithmetic**: `Crt`, `ResidueMatmul`.
- **Compressed cache**: `Digits`, `BitPack`, `Half`, `BandCodec`, `BandRecords`, `Compression`, `ShadowCache`,
  `ShadowRuns`, `CacheFile`, `CacheLayout`, `ProgressiveLoad`, `CachePersistence`.
- **Squarefree path**: `KnightMask`, `ResidualQuantizer`, `SqfreeCodec`, `Kronecker`.
- **Step machines**: `Speculative`, `Cauchy`, `Heartbeat`, `BitBudget`.

Floating-point values are reals. Square root and the Hartley kernels are parameters constrained by what they must
satisfy (`IsSqrt`; symmetric kernels with H H = I). Integer widths are kept where they matter: 32 and 64 bits in the
residue arithmetic, bytes in the codecs, 32-bit words in the file headers, the binary16 scale (section 3.4 of
IEEE 754-2008) with its truncation, flush to zero and overflow. The transformer is an abstract function of the token
history, the drafter and the heartbeat's peer are arbitrary, the Mertens schedule is any strictly increasing list with
risks between zero and one, and memory for the caches is supplied by the caller as the backend does.

## Findings

Where code and documentation differ, the model follows the code.

- The spectral scores are described as capturing correlations that variance misses (core/src/shannon_prime.c:1172-1176).
  For every covariance matrix on an exact run they equal the marginal variance shares up to the off-diagonal residue, so
  they rank two coefficients as their variances do unless these are closer than the square root of eight times the
  residue (`ScoresRankByVariance`, `SpectralRankFollowsVariance`).
- A transform length with a prime factor above 11 is not left unchanged as a comment says (core/src/shannon_prime.c:165):
  the stages of the smaller primes are applied. The data is untouched if and only if none of 2, 3, 5, 7 and 11 divides
  the length (`UntouchedIff`; `LengthTwentySix` is a length where it changes). The result is still self-inverse and keeps
  the sum of squares.
- The small-angle branch of the eigen-solver (core/src/shannon_prime.c:1207) writes a zero that its rotation does not
  produce; a step keeps A = V^T A0 V if and only if it did not take that branch (`TangentAnnihilates`, `StepIsRotation`,
  `FirstVisitIff`). The covariance [[1, 1], [1, 4e15]] reaches it (`LopsidedIsNotExact`); 2 x 2 inputs reach it exactly
  when their own tau is beyond 1e15 (`TwoByTwoExactIff`); inputs whose squares sum to at most two never do.
- `sp_burnhard_safe_q_max` is unsafe exactly for inner dimensions above half the modulus product, where it returns 1
  (core/include/burnhard_crt.h:131; `SafeQMax`).
- Run offsets in cache files are kept in 32 bits (core/src/shannon_prime.c:1682); they are right if and only if the run
  starts below 2^32 (`OffsetsExact`; `LargeLayerOverflows` is a layer beyond it).
- An accepted draft token that ends the text leaves only the inner loop (desktop/beast_canyon/sp_beast_canyon.c:2004), so
  speculative output can run past it (`RunsPastEnd`): it does if and only if a drafted end token is kept before the last
  place (`Generate`, `RunAgainstText`), hence never if none is offered (`NoDraftedEnd`).
- The bit rebalancing hits a total if and only if the entries have room for the drift at four bits each
  (bridge/tools/sp_auto_bands.py:132; `Rebalance`). With at most four bits between the limits every reachable total is
  hit; with five it can be missed (`WideRangeMisses`, `WideRangeRun`).
- The risk looked up outside the cached range (core/src/shannon_prime_cauchy.c:364) is that of the first neighbouring
  position within reach; it is the peak if and only if no position within reach exceeds it (`SearchedIsPeak`;
  `SearchMissesPeak` is a schedule where one does).
- Saving with a position count of zero relies on `seq_len` (core/src/shannon_prime.c:1642), which only loading sets
  (core/src/shannon_prime.c:1869): writes leave it alone, so a cache that was only written to is not saved at all
  (`SaveK`, `LoadK`, `RunThenSave`).
- A squarefree index outside the skeleton belongs to neither set (core/src/shannon_prime_sqfree.c:249) and is
  reconstructed as zero. There is one if and only if the skeleton asked for is smaller than the number of squarefree
  indices (`OrphansExist`, `OrphanIsLost`; `DefaultMaskHasOrphan` is such a mask).
- The squarefree cache allocates four magnitude bytes even without residuals (core/src/shannon_prime_sqfree.c:425-432;
  `RecordFits`).
- For a residual magnitude of 1e-12 encoder and decoder saturate differently (core/src/shannon_prime_sqfree.c:333). The
  saturating error bound holds for every value if and only if the magnitude is larger or levels have one bit
  (`SaturatingBoundIff`; `TinyValueIsStretched` is a value that breaks it).

## Model

| member | source | states |
|---|---|---|
| `SpdSolver.SolveSpd` | core/src/shannon_prime_sqfree.c:1144-1186 | Returns 0 exactly when every Cholesky pivot is positive; then the X left in B satisfies A0 X = B0 for the symmetric matrix given by the lower triangle of the original A; otherwise B is untouched |
| `SpdSolver.CholeskyIsFactorisation` | core/src/shannon_prime_sqfree.c:1145-1161 | With positive pivots the factor L written in place satisfies L L^T = A0 on the whole matrix |
| `SpdSolver.ForwardSolves` | core/src/shannon_prime_sqfree.c:1163-1172 | The forward substitution solves L z = b for every row and right-hand side |
| `SpdSolver.BackSolves` | core/src/shannon_prime_sqfree.c:1174-1183 | The back substitution solves L^T x = z |
| `RidgeTheory.RidgePivots` | core/src/shannon_prime_sqfree.c:1188-1221 | Every Cholesky pivot of X^T X + lambda I is at least lambda, for any samples: the fallback branch is dead over the reals |
| `RidgeTheory.PivotIsQuadraticForm` | core/src/shannon_prime_sqfree.c:1145-1161 | Pivot j is the value of the quadratic form at a vector with a one at j |
| `RidgeTheory.RidgeMinimiser` | core/src/shannon_prime_sqfree.c:1188-1221 | A solution of the normal equations minimises squared error plus lambda times the squared norm, and is the only minimiser |
| `RidgeTheory.SolutionIsMinimiser` | core/src/shannon_prime_sqfree.c:1188-1221 | What the solver returns for the accumulated matrices is that unique minimiser, target by target |
| `HierPredictors.HierPredictor.CalibrateBegin` | core/src/shannon_prime_sqfree.c:1096-1113 | Refused while calibrating; otherwise empty accumulators |
| `HierPredictors.HierPredictor.CalibrateFeed` | core/src/shannon_prime_sqfree.c:1115-1140 | The accumulators stay exactly X^T X and X^T Y of the vectors fed, where entry i of a row of X is the coefficient at skeletonIdx[i] and entry t of a row of Y the one at targetIdx[t] |
| `HierPredictors.HierPredictor.CalibrateEnd` | core/src/shannon_prime_sqfree.c:1188-1248 | Fails exactly when not calibrating or nothing was fed; otherwise W is the narrowed unique minimiser with lambda = 1e-4 n, and the state is reset |
| `HierPredictors.HierPredictor.Predict` | core/src/shannon_prime_sqfree.c:1292-1316 | Every target is the weighted sum of the skeleton by its column of W, zero without W |
| `HierPredictors.HierPredictor.PredictionIsDot` | core/src/shannon_prime_sqfree.c:1292-1315 | The running sums of the predictor are the dot products of the skeleton with the columns of W |
| `HierTraining.TrainAndScore` | core/src/shannon_prime_sqfree.c:1096-1316 | Begin, feed, end and predict: the squared error of the predictions from the skeletons of the fed vectors against their own target coefficients, plus lambda times the squared norm of W, is least among all weight matrices, with narrow the identity |
| `HierTraining.LeastCost` | core/src/shannon_prime_sqfree.c:1188-1221 | Weights that are the unique minimiser target by target have the least cost on the fed vectors themselves |
| `JacobiTheory.StepLowersOff` | core/src/shannon_prime.c:1205-1228 | Every in-place rotation lowers the off-diagonal square sum by exactly the square of the removed entry, on both tangent branches |
| `JacobiTheory.TangentAnnihilates` | core/src/shannon_prime.c:1205-1212 | The chosen tangent annihilates the entry if and only if the small-angle branch (tau beyond 1e15) was not taken |
| `JacobiTheory.TangentIsSmall` | core/src/shannon_prime.c:1205-1212 | The chosen tangent is the small root: at most one in absolute value, with the sign of tau, and one for tau = 0 |
| `JacobiTheory.StepSpreads` | core/src/shannon_prime.c:1205-1228 | A turn by such a tangent moves unequal diagonal entries of its plane strictly apart, each by at most the entry removed |
| `JacobiTheory.StepIsRotation` | core/src/shannon_prime.c:1213-1228 | What is written into A is J^T A J if and only if the tangent annihilates the entry |
| `JacobiTheory.RotationKeepsOrthogonal` | core/src/shannon_prime.c:1230-1236 | V stays orthogonal under the in-place column rotation |
| `JacobiTheory.ConjugateRotates` | core/src/shannon_prime.c:1213-1236 | Rotating V rotates V^T A0 V accordingly |
| `JacobiTheory.StepKeepsMass` | core/src/shannon_prime.c:1213-1228 | An exact rotation keeps the sum of squares of all entries |
| `JacobiTheory.LightMatrixIsExact` | core/src/shannon_prime.c:1200-1208 | A symmetric matrix whose squares sum to at most two never sends a visited entry into the small-angle branch |
| `Jacobi.VisitPlane` | core/src/shannon_prime.c:1200-1236 | One visit: entries below 1e-15 are skipped and nothing changes, others become zero; the plane turns by at most 45 degrees, so each diagonal entry changes by at most the entry removed, and unequal diagonal entries never approach each other; symmetry, orthogonality, trace and, unless the small-angle branch was taken, A = V^T A0 V are kept |
| `Jacobi.PlanesAreComplete` | core/src/shannon_prime.c:1198-1199 | A sweep visits every pair p < q below n exactly once, row by row |
| `Jacobi.JacobiEigen` | core/src/shannon_prime.c:1184-1246 | The run is the one of the source, sweep by sweep and plane by plane; it ends below the threshold or at the sweep limit, and fewer sweeps leave a residue below 1e-20; V is orthogonal, A = V^T A0 V on exact runs, and every run of a matrix of mass at most two is exact; for 2 x 2 inputs the larger diagonal entry becomes the larger eigenvalue |
| `Jacobi.FirstVisitIff` | core/src/shannon_prime.c:1200-1228 | After the first rotation of a run A = V^T A0 V if and only if the entry did not take the small-angle branch |
| `Jacobi.TwoByTwoExactIff` | core/src/shannon_prime.c:1184-1246 | For 2 x 2 inputs a run is exact if and only if the input is already diagonal enough or its own tau is at most 1e15 in absolute value |
| `Jacobi.TwoByTwoEigenvalues` | core/src/shannon_prime.c:1184-1246 | For a 2 x 2 input the smaller diagonal entry can only fall and the larger only rise; their sum is the trace and, on an exact run, their product the determinant; equal entries d and off-diagonal b give d - b and d + b in this order |
| `Jacobi.LopsidedIsNotExact` | core/src/shannon_prime.c:1205-1212 | For the covariance [[1, 1], [1, 4e15]] no run is exact, and A = V^T A0 V fails after its first rotation |
| `SpectralScores.WeightedDiagonal` | core/src/shannon_prime.c:1287-1300 | The weighted sum of squared eigenvector components differs from cov[i][i] by at most the off-diagonal residue |
| `SpectralScores.SvdEntropyScores` | core/src/shannon_prime.c:1252-1305 | Scores are non-negative and sum to one; a trace of at least 1e-30 is never refused, on any run; for a positive semidefinite input on an exact run refusal is exactly a trace below 1e-30, and trace times score is cov[i][i] up to the residue |
| `SpectralScores.ScoresRankByVariance` | core/src/shannon_prime.c:1252-1305 | A dimension whose variance is larger by g has the larger score whenever g^2 exceeds eight times the off-diagonal residue the solver stopped at; with residue zero scores are exactly variance over trace and rank as variances do |
| `ShadowCalibration.CovariancePositive` | core/src/shannon_prime.c:1328-1337 | The finalised covariance matrix is symmetric and positive semidefinite for every list of fed vectors |
| `ShadowCalibration.CovarianceMeaning` | core/src/shannon_prime.c:1307-1337 | Covariance and variance are the mean products and mean squares of the deviations from the sample means |
| `ShadowCalibration.VarianceNonNegative` | core/src/shannon_prime.c:1314-1320 | The variance formula is never negative over the reals: the clamp does nothing |
| `ShadowCalibration.Calibration.Begin` | core/src/shannon_prime.c:1100-1123 | Refused while calibrating; otherwise empty accumulators |
| `ShadowCalibration.Calibration.Feed` | core/src/shannon_prime.c:1125-1156 | The accumulators stay the sums, sums of squares and cross products of the transformed vectors; entry i of the new sample is what a write of the vector stores at i in natural order |
| `ShadowCalibration.Calibration.End` | core/src/shannon_prime.c:1307-1355 | Scores are the variances of the fed vectors, or spectral scores of their covariance: always when its trace reaches 1e-30 and, on exact runs, only then |
| `ShadowCalibration.SpectralRankFollowsVariance` | core/src/shannon_prime.c:1322-1374 | Ranked by spectral scores, no later coefficient has a variance more than the square root of eight times the residue above an earlier one |
| `ShadowCalibration.SpectralRankIsVarianceRank` | core/src/shannon_prime.c:1322-1374 | Where the residue is zero, ranking by spectral scores and ranking by variance are the same ranking |
| `ShadowCalibration.CalibrateCache` | core/src/shannon_prime.c:1307-1391 | After a successful calibration keys are stored by descending variance; with spectral scores of an exact run, up to the square root of eight times the residue, which is below 1e-20 if fewer than fifty sweeps were made; nothing stored before is promised any more, values are not affected |
| `Vht2Theory.StageInvolution` | core/src/shannon_prime.c:118-166 | One stage of a symmetric self-inverse kernel is its own inverse |
| `Vht2Theory.StagesCommute` | core/src/shannon_prime.c:118-166 | Stages at strides s and s p r commute |
| `Vht2Theory.StageKeepsEnergy` | core/src/shannon_prime.c:118-166 | A stage keeps the sum of squares of any whole number of blocks |
| `Vht2.Forward` | core/src/shannon_prime.c:118-166 | The array ends as the staged transform of its contents, for every length, including lengths with a leftover prime above 11; `Vht2Kernel.TransformIsKernel` says what that is |
| `Vht2Kernel.TransformIsKernel` | core/src/shannon_prime.c:118-166 | Entry x of the transform is the sum over y of d(y) times a product of Hartley entries at the mixed-radix digits of x and y; the radices are the factors 2, 3, 5, 7 and 11 of n with multiplicity, ascending, the smallest finest; digits above them must be equal |
| `Vht2Kernel.StagesOfFactors` | core/src/shannon_prime.c:124-161 | There is only one such list of radices, and the stages are exactly these radices, each at the stride of the product of those before it |
| `Vht2Kernel.FactorsExist` | core/src/shannon_prime.c:124-161 | Every positive length has such a list |
| `Vht2Kernel.LengthOneFiftyFour` | core/src/shannon_prime.c:124-161 | For n = 154 the stages are 2 at stride 1, 7 at stride 2 and 11 at stride 14 |
| `Vht2.TransformInvolution` | core/src/shannon_prime.c:118-166 | The transform is its own inverse for every n > 0 |
| `Vht2.TransformKeepsEnergy` | core/src/shannon_prime.c:118-166 | The transform keeps the sum of squares for every n > 0 |
| `Vht2.InPlaceRoundTrip` | core/src/shannon_prime.c:118-166 | Running the in-place transform twice restores the array |
| `Vht2.ScheduleEmpty` | core/src/shannon_prime.c:118-166 | No stage is run if and only if none of the primes still to be tried divides the length left |
| `Vht2.UntouchedIff` | core/src/shannon_prime.c:118-166 | Every vector of length n is left unchanged if and only if none of 2, 3, 5, 7 and 11 divides n, whatever larger prime factors n has |
| `Vht2.LengthTwentySix` | core/src/shannon_prime.c:118-166 | For n = 26 = 2 * 13 the stage for 2 is run and changes the first unit vector |
| `Vilenkin.ScheduleComplete` | core/src/shannon_prime.c:118-166 | The stages use up every factor 2, 3, 5, 7 and 11 of the length: their radices times a rest free of these primes give n |
| `Vilenkin.Pad` | core/src/shannon_prime_sqfree.c:75-88 | Padding copies the vector and fills the tail with its mean |
| `Vilenkin.PrimeFactorize` | core/src/shannon_prime_sqfree.c:103-114 | Succeeds exactly when n is a product of at most sixteen factors 2, 3, 5, 7 and 11; the factors then are these, in ascending order, and multiply to n |
| `Vilenkin.FactorableIff` | core/src/shannon_prime_sqfree.c:103-114 | The condition for success without the schedule: the ascending list of small primes exhausts n within sixteen factors |
| `Vilenkin.VilenkinForward` | core/src/shannon_prime_sqfree.c:119-163 | The squarefree path applies the same transform as VHT2 when the length factors, and leaves the data alone otherwise; `VilenkinIsKernel` gives it in closed form |
| `Vilenkin.VilenkinIsKernel` | core/src/shannon_prime_sqfree.c:119-163 | With a complete list of at most sixteen ascending factors the squarefree transform is the product kernel over the digits of these factors; with more or none it is the identity |
| `Vilenkin.TwentySixDoesNotFactor` | core/src/shannon_prime_sqfree.c:103-114 | The squarefree path does refuse to factor 26, and so leaves that length alone |
| `Vilenkin.BackTransformAccuracy` | core/src/shannon_prime_sqfree.c:648-742 | Transforming reconstructed coefficients back and dropping the padding never adds error |
| `Primes.EuclidsLemma` | core/src/shannon_prime_sqfree.c:31-44 | A prime dividing a product divides a factor (what makes dividing primes out correct) |
| `Primes.RemovePrime` | core/src/shannon_prime_sqfree.c:31-44 | Dividing out a prime once removes exactly that prime from the divisors and adds no square |
| `Mobius.MobiusVal` | core/src/shannon_prime_sqfree.c:31-44 | Trial division returns mu(n) by its definition, and 0 for n <= 0 |
| `Mobius.MobiusMu` | core/src/shannon_prime_cauchy.c:178-192 | The second trial division returns mu(n) by its definition |
| `Mobius.ComputeMobius` | core/src/shannon_prime.c:193-228 | The sieve fills in mu(i) by its definition for every 1 <= i < n |
| `MobiusSum.MuDivisorSum` | core/src/shannon_prime_sqfree.c:31-44 | The values of mu over the divisors of n sum to one for n = 1 and to zero otherwise |
| `MobiusMasks.SelectionIsPermutation` | core/src/shannon_prime.c:230-259 | Squarefree indices followed by the others form a permutation |
| `MobiusMasks.MobiusMask.constructor` | core/src/shannon_prime.c:230-259 | The order is a permutation, squarefree indices first, each part ascending |
| `Permutations.Reorder` | core/src/shannon_prime.c:270-277 | Gather by the order |
| `Permutations.Unreorder` | core/src/shannon_prime.c:279-286 | Scatter by the order |
| `Permutations.GatherAfterScatter` | core/src/shannon_prime.c:270-286 | Reordering undoes unreordering |
| `Permutations.ScatterAfterGather` | core/src/shannon_prime.c:270-286 | Unreordering undoes reordering |
| `Crt.GarnerExact` | core/include/burnhard_crt.h:84-93 | The join returns q from its residues if and only if q lies in [-M1 M2/2, M1 M2/2]; no int64 step overflows |
| `Crt.ShredRoundTrip` | core/include/burnhard_crt.h:67-93 | Joining a shredded 32-bit value gives it back |
| `Crt.SafeQMax` | core/include/burnhard_crt.h:126-135 | The bound is the largest q up to 2^30 - 1 with K q^2 in the window; it is safe if and only if K is at most half the modulus product |
| `ResidueMatmul.PartialSumInWindow` | core/src/burnhard_residue_matmul.c:132-135 | No partial sum of bounded factors leaves the window |
| `ResidueMatmul.RecoverCell` | core/src/burnhard_residue_matmul.c:132-144 | Each cell recovers the exact integer dot product |
| `ResidueMatmul.RealDotIsSum` | core/src/burnhard_residue_matmul.c:89-153 | The real product a cell is compared with is the sum of products over the inner dimension |
| `ResidueMatmul.Multiply` | core/src/burnhard_residue_matmul.c:89-153 | Every cell is within K peakA peakB / q_max of the exact real product, with the true peaks and the largest safe q_max; empty shapes are refused |
| `Digits.ValUnique` | core/src/shannon_prime.c:440-468 | A number has one expansion in digits of a given width |
| `BitPack.PackStream` | core/src/shannon_prime.c:440-468 | The streaming packer writes the base-256 digits of sum code_i 2^(bits i) in ceil(n bits / 8) bytes |
| `BitPack.UnpackStream` | core/src/shannon_prime.c:527-550 | The streaming unpacker returns the digits of the packed value and consumes exactly the packed bytes |
| `BitPack.PackRandom` | core/src/shannon_prime_sqfree.c:617-629 | The random-access packer writes the base-256 digits of the same number |
| `BitPack.UnpackRandom` | core/src/shannon_prime_sqfree.c:690-703 | The two-byte reads return the digits of the packed value |
| `BitPack.UnpackRecovers` | core/src/shannon_prime.c:440-550 | Unpacking what was packed returns every code |
| `BitPack.PackersAgree` | core/src/shannon_prime_sqfree.c:617-629 | Both packers give identical bytes for the same codes |
| `Half.StoredScale` | core/include/shannon_prime.h:51-63 | The stored scale never exceeds the exact one, is within one part in 1024 of it in the normal range, is zero below it and non-finite above |
| `Half.NormalBits` | core/include/shannon_prime.h:25-63 | A number (1 + m/1024) 2^(e-15) is stored as the word with exponent field e and fraction field m and read back unchanged, and the sign bit negates it |
| `BandCodec.SizeNonNegative` | core/include/shannon_prime.h:250-256 | Bands tile the vector: each starts where the last ended and the last ends at head_dim |
| `BandCodec.ValueError` | core/src/shannon_prime.c:349-470 | One coefficient through encoder and decoder: with stored step t the error is at most t/2 for x up to (qoffset - 1/2) t, beyond that x - (qoffset - 1) t, below the lowest level the distance to it, for ternary bands max(t/2, distance past the outer levels); for normal, flushed and overflowed scales |
| `BandCodec.BestCode` | core/src/shannon_prime.c:384-453 | No code decodes nearer to the coefficient than the one written; ties go away from zero in signed bands and to zero in ternary ones |
| `BandCodec.NormalBound` | core/src/shannon_prime.c:349-470 | For scales in the normal range: half a step (a whole step in the top half step) plus one part in 1024 of the peak, and half the peak for ternary bands |
| `BandRecords.QuantizeBand` | core/src/shannon_prime.c:355-468 | A band is written as its truncated scale, low byte first, and its packed codes; no other code in its place would decode nearer to its coefficient |
| `BandRecords.RecordIsBest` | core/src/shannon_prime.c:355-468 | The same for every record of a band: each stored code is a nearest one |
| `BandRecords.BandQuantize` | core/src/shannon_prime.c:349-470 | The encoder writes an encoding of the vector in exactly total_bytes; every record of it is one of nearest codes |
| `BandRecords.BandDequantizePartial` | core/src/shannon_prime.c:554-634 | The decoder returns the first max_bands bands of the buffer and zeros after them; the bound is clamped |
| `BandRecords.DecodeError` | core/src/shannon_prime.c:349-634 | Decoding an encoding is within the rounding bound of its own value at every coefficient, and within its own absolute value where a band was not read |
| `BandRecords.DecodedPrefix` | core/src/shannon_prime.c:554-634 | A partial decode depends on the bytes of the records it reads only |
| `Compression.RestoreKeepsDistance` | core/src/shannon_prime.c:928-1007 | Reading back is an isometry undoing the write: the distance to the written vector equals the distance between decoded and encoded coefficients |
| `Compression.DecodeBudget` | core/src/shannon_prime.c:928-1007 | The squared codec error is at most the sum of the squared bounds of the coefficients |
| `Compression.ReadBackError` | core/src/shannon_prime.c:928-1007 | A vector read back from its bytes is within that budget |
| `Compression.CoefficientError` | core/src/shannon_prime.c:928-1007 | Transforming what was read back gives, coefficient by coefficient, the transform of the vector written up to the rounding bound of that coefficient, and zero for those of bands not read |
| `RankSort.RankDescending` | core/src/shannon_prime.c:1362-1374 | The insertion sort leaves a permutation sorted by descending score, ties by index |
| `RankSort.RankedIsDescending` | core/src/shannon_prime.c:1362-1374 | Being ranked means: of two places the earlier has the larger score, or the same score and the smaller index |
| `ShadowCaches.SlotInjective` | core/src/shannon_prime.c:947-948 | Different layers and heads have different slots |
| `ShadowCaches.ShadowCache.WriteK` | core/src/shannon_prime.c:928-950 | The cache stands for its log with the vector under the written key; no other key or value changes |
| `ShadowCaches.ShadowCache.WriteV` | core/src/shannon_prime.c:952-967 | The same for values, which are stored in natural order |
| `ShadowCaches.ShadowCache.ReadKPartial` | core/src/shannon_prime.c:976-1007 | A read returns the restored decoding of its entry, within budget of the last vector written under the key; the transform of the result is zero at every coefficient of a band not read; a negative or too large bound reads everything |
| `ShadowCaches.ShadowCache.ReadK` | core/src/shannon_prime.c:1029-1033 | A full read: the same with every band |
| `ShadowCaches.ShadowCache.ReadVPartial` | core/src/shannon_prime.c:1009-1027 | The same for values, in natural order |
| `ShadowCaches.ShadowCache.CalibrateEnd` | core/src/shannon_prime.c:1356-1391 | The ranked permutation replaces the order; nothing is promised any more about keys written before, values keep their log |
| `ShadowRuns.HeldIsLastWrite` | core/src/shannon_prime.c:928-1007 | What a run holds under a key is the last write under it with no calibration after |
| `ShadowRuns.RunThenRead` | core/src/shannon_prime.c:928-1007 | After any sequence of writes, reads and calibrations, reading any key with any number of bands is within budget of what the run holds under it; the recorded lengths never change |
| `CacheFiles.HeaderRoundTrip` | core/src/shannon_prime.c:1514-1535 | Header words come back from their little-endian bytes |
| `CacheFiles.SaveLayer` | core/src/shannon_prime.c:1636-1716 | The position count given, or the recorded length where it is not positive; without either the layer is skipped; otherwise up to seven bands are saved band by band, more as whole entries, for all heads and positions, with matching headers |
| `CacheLayout.HeaderLayout` | core/src/shannon_prime.c:1482-1535 | A header begins with the bytes 32 54 48 56 and the version; words at 8, 12, 16, 20, 24 and 28 are record size, positions, heads, kind and the two halves of the hash |
| `CacheLayout.BandMajorLayout` | core/src/shannon_prime.c:1512-1716 | Byte k of band b of head h and position p of a band-major file is at 64 + offset(b) n_pos heads + size(b) (n_pos h + p) + k, and the word at 36 + 4 b is where that band begins modulo 2^32 |
| `CacheLayout.LegacyLayout` | core/src/shannon_prime.c:1636-1716 | Byte k of the entry of head h and position p of a legacy file is at 64 + total_bytes (n_pos h + p) + k |
| `CacheLayout.VerdictInBytes` | core/src/shannon_prime.c:1536-1628 | A file is bad exactly when it is short or has other magic or version bytes, refused exactly when a strict check compares two different non-zero hashes |
| `CacheFiles.OffsetsExact` | core/src/shannon_prime.c:1681-1687 | The recorded run offsets are right for the first m bands if and only if the last of them starts below 2^32 |
| `CacheFiles.LargeLayerOverflows` | core/src/shannon_prime.c:1681-1687 | With 64 heads, 2^21 positions and bands of 5, 5, 4 and 3 bits the first two bands of a file can be found by its offsets and the third cannot |
| `CacheFiles.LoadLayer` | core/src/shannon_prime.c:1724-1838 | Bad, refused and mismatching files change nothing and give their codes; otherwise the records of the first bands are restored, the others cleared, and later positions untouched |
| `ProgressiveLoad.PathsAgree` | core/src/shannon_prime.c:1790-1835 | Decoding a partially loaded entry in full is decoding the saved entry in part |
| `ProgressiveLoad.FullLoad` | core/src/shannon_prime.c:1724-1838 | Loading every band restores every byte |
| `ProgressiveLoad.SaveThenLoad` | core/src/shannon_prime.c:1632-1838 | Save, then load in part and in full: at every head and position the two progressive paths decode to the same vector and the full load has the saved bytes |
| `CachePersistence.SaveK` | core/src/shannon_prime.c:1636-1716 | Saving a layer of a cache writes its heads; with no position count it depends on the recorded length, and skips the layer when that is zero too |
| `CachePersistence.RunThenSave` | core/src/shannon_prime.c:928-1007 | After any run of writes, reads and calibrations on a cache nothing was loaded into, saving without a position count saves nothing |
| `CachePersistence.LoadK` | core/src/shannon_prime.c:1846-1872 | Loading a layer sets its recorded length exactly when positions were loaded, forgets what was promised about these positions and keeps every other promise of the cache |
| `CachePersistence.LoadAndRead` | core/src/shannon_prime.c:976-1033 | Loading m bands and reading in full, and loading in full and reading m bands, both give the first m bands of the saved entry |
| `CachePersistence.SaveLoadRead` | core/src/shannon_prime.c:1626-1872 | A key written in one cache, saved, loaded in part into another cache and read is within budget of the vector written, and equals a full load read in part |
| `KnightMasks.PickSkeleton` | core/src/shannon_prime_sqfree.c:169-234 | The skeleton is strictly increasing, has min(sk_k, pad_dim) indices, and every chosen index is preferred to every other: squarefree first, then variance, then index |
| `KnightMasks.SkeletonIsBest` | core/src/shannon_prime_sqfree.c:169-234 | Against an index left out, a chosen index is squarefree where the other is not, or of the same kind with a larger score, or with the same score and smaller |
| `KnightMasks.KnightMask.constructor` | core/src/shannon_prime_sqfree.c:169-305 | The residual is exactly the indices with mu = 0 outside the skeleton, and the offsets and terms of both passes are those of the divisor rows |
| `KnightMasks.OrphansExist` | core/src/shannon_prime_sqfree.c:169-252 | Some index is in neither the skeleton nor the residual if and only if sk_k is less than the number of squarefree numbers up to pad_dim |
| `KnightMasks.DefaultMaskHasOrphan` | core/src/shannon_prime_sqfree.c:169-252 | With pad_dim 6 and half of it as skeleton there is such an index |
| `KnightMasks.RowAt` | core/src/shannon_prime_sqfree.c:255-302 | The counting and the filling pass agree: each row lies between its offsets |
| `KnightMasks.RowPredicts` | core/src/shannon_prime_sqfree.c:576-585 | A row is the sum over all d up to n, where n is the index plus one, of mu(d) v[n/d] where d divides n and n/d is in the skeleton |
| `ResidualQuantizer.QuantizeError` | core/src/shannon_prime_sqfree.c:329-356 | For every magnitude the encoder stores a deviation is off by at most max(step / 2, absolute deviation - saturation), or the stretched form of that at magnitude 1e-12 with two bits or more |
| `ResidualQuantizer.SaturatedLimit` | core/src/shannon_prime_sqfree.c:329-356 | That limit in closed form: max(mag nbits / (2^nbits - 1), absolute deviation - mag nbits) |
| `ResidualQuantizer.SaturatingBoundIff` | core/src/shannon_prime_sqfree.c:329-356 | The bound max(step / 2, absolute deviation - saturation) holds for every deviation if and only if the magnitude is above 1e-12 or levels have one bit |
| `ResidualQuantizer.TinyValueIsStretched` | core/src/shannon_prime_sqfree.c:329-356 | Otherwise the deviation 1e-12 itself breaks it: it is decoded nbits times as large |
| `ResidualQuantizer.DeviationIsLeast` | core/src/shannon_prime_sqfree.c:594-605 | With the spinor the deviation is the smaller of a - p and a + p in absolute value |
| `SqfreeCodecs.Deviate` | core/src/shannon_prime_sqfree.c:587-605 | Deviations and sheet bits of all residuals; the sheet bytes are the base-256 digits of the bits |
| `SqfreeCodecs.SqfreeCodec.Compress` | core/src/shannon_prime_sqfree.c:550-645 | The record holds the encoded skeleton, the magnitude, the packed levels and the sheet bits; exactly its length is written |
| `SqfreeCodecs.StoredMean` | core/src/shannon_prime_sqfree.c:587-616 | Where the format keeps the mean, the number stored, times the number of residuals, is the sum of the distances of the residuals from their predictions (with the spinor, from the nearer of prediction and its negative), and lies between the least and the greatest of them |
| `SqfreeCodecs.SheetInRecord` | core/src/shannon_prime_sqfree.c:587-645 | Bit i of the sheet bytes is set exactly when the negated prediction is strictly nearer |
| `SqfreeCodecs.SqfreeCodec.Reconstruct` | core/src/shannon_prime_sqfree.c:648-735 | The decoder reads exactly as many bytes as the encoder wrote and returns the coefficients they stand for; indices in neither set are zero |
| `SqfreeCodecs.OrphanIsLost` | core/src/shannon_prime_sqfree.c:648-735 | A squarefree coefficient outside the skeleton is reconstructed as zero; there is one if and only if sk_k is less than the number of squarefree indices |
| `SqfreeCodecs.SqfreeCodec.RecordFits` | core/src/shannon_prime_sqfree.c:423-432 | A record fits its allocation, and fills it exactly when there are residuals |
| `SqfreeCodecs.ResidualAccuracy` | core/src/shannon_prime_sqfree.c:501-742 | Residual coefficients are off by at most the errors of the skeleton values in their row plus the error limit of the quantiser, whichever sheet was chosen, for every stored magnitude and number of bits |
| `SqfreeCodecs.ResidualAccuracyByMean` | core/src/shannon_prime_sqfree.c:501-742 | The same in terms of that mean: the slack of the row plus max(mean nbits / (2^nbits - 1), distance - mean nbits) |
| `SqfreeCodecs.SkeletonAccuracy` | core/src/shannon_prime_sqfree.c:550-570 | Skeleton coefficients are within the bound of their band |
| `SqfreeCodecs.PredictionError` | core/src/shannon_prime_sqfree.c:576-585 | A prediction from other skeleton values is off by at most the sum of their differences over its row |
| `Kronecker.FilterKeeps` | core/src/shannon_prime_sqfree.c:994-1009 | The mixed-radix digit filter keeps every index below the sub-dimension and none between it and the product of all primes |
| `Kronecker.SubIndices` | core/src/shannon_prime_sqfree.c:981-1015 | The kept indices are exactly the prefix [0, min(p0 ... p(level-1), pad_dim)), in order; bad levels are refused |
| `Kronecker.SplitIndices` | core/src/shannon_prime_sqfree.c:1039-1063 | Skeleton and targets split the index range into a prefix and the rest |
| `Speculative.BeastArgmax` | desktop/beast_canyon/sp_beast_canyon.c:1175-1179 | The first index of the largest logit |
| `Speculative.GreedyToken` | desktop/beast_canyon/sp_beast_canyon.c:1953-2054 | Every token of the greedy stream is the argmax after the prompt and the tokens before it |
| `Speculative.VerifyDrafts` | desktop/beast_canyon/sp_beast_canyon.c:1982-2009 | The agreeing draft prefix is kept; no token kept before the last one ends the text; keeping stops only at a disagreement, an end token, the limit or the end of the drafts |
| `Speculative.Generate` | desktop/beast_canyon/sp_beast_canyon.c:1953-2054 | For any drafter the output is a prefix of the greedy stream, made by the one run of rounds the drafts allow; it contains the plain text as a prefix, and equals it if and only if no drafted token kept before the last place was an end token |
| `Speculative.RunUnique` | desktop/beast_canyon/sp_beast_canyon.c:1953-2054 | The rounds of a run and its length are determined by the greedy stream and the answers of the drafter |
| `Speculative.RunAgainstText` | desktop/beast_canyon/sp_beast_canyon.c:1953-2054 | A run is at least as long as the plain text, and of the same length if and only if no drafted token kept before the last place ends the text |
| `Speculative.NoDraftedEnd` | desktop/beast_canyon/sp_beast_canyon.c:1953-2054 | If the drafter never offers an end token the output is exactly the plain one |
| `Speculative.RunsPastEnd` | desktop/beast_canyon/sp_beast_canyon.c:1982-2009 | A run that goes past the end of its text |
| `Cauchy.EmaWithin` | core/src/shannon_prime_cauchy.c:113-118 | The drift average stays between bounds on its samples |
| `Cauchy.EmaIsWeighted` | core/src/shannon_prime_cauchy.c:113-118 | The drift average is the sum of the samples weighted by alpha (1 - alpha)^age, the first by the rest |
| `Cauchy.StableNeverRecommended` | core/src/shannon_prime_cauchy.c:103-135 | Ratios within the criticality of one never lead to a recommendation |
| `Cauchy.RicciSentinel.Check` | core/src/shannon_prime_cauchy.c:103-135 | A recommendation is exactly: more than warmup_samples samples since the reset, and the average has drifted |
| `Cauchy.MertensOracle.constructor` | core/src/shannon_prime_cauchy.c:308-324 | The risk cache is the pointwise maximum of the decayed risks of the scheduled positions within eight |
| `Cauchy.MertensOracle.Risk` | core/src/shannon_prime_cauchy.c:345-373 | Inside the cached range the peak risk, outside it the risk at the neighbour the binary search finds |
| `Cauchy.SearchedIsPeak` | core/src/shannon_prime_cauchy.c:345-373 | The searched risk is the peak if and only if no scheduled position within reach has a greater decayed risk than that neighbour |
| `Cauchy.SearchMissesPeak` | core/src/shannon_prime_cauchy.c:345-373 | With risks 0.1 at 99 and 1 at 100, the search at 101 gives 0.075 and the peak is 0.875 |
| `Cauchy.MertensOracle.NextRisk` | core/src/shannon_prime_cauchy.c:375-385 | The least position in the window that the schedule index has not passed, or -1 exactly when there is none; once the index has not passed the position asked for, of the whole schedule |
| `Cauchy.CauchyCtrl.Check` | core/src/shannon_prime_cauchy.c:412-461 | When each kind of reset is asked for, mode by mode, behind the cooldown |
| `Cauchy.SpacedAreFew` | core/src/shannon_prime_cauchy.c:412-476 | Positions a gap apart within a span number at most 1 + span / gap |
| `Cauchy.Run` | core/src/shannon_prime_cauchy.c:412-476 | Over any run with non-decreasing positions resets are at least 64 apart, at least fixed_n in mode 1, and number at most 1 + span / gap |
| `BitBudget.Rebalance` | bridge/tools/sp_auto_bands.py:128-141 | The result stays within the limits, every entry has moved once per visit as far as its room went, the total is hit if and only if the drift is at most the sum of min(4, room), and always with at most four bits between the limits and a reachable total |
| `BitBudget.NarrowRangeIsExact` | bridge/tools/sp_auto_bands.py:128-141 | With at most four bits between the limits the entries always have room for the drift of a reachable total |
| `BitBudget.WideRangeMisses` | bridge/tools/sp_auto_bands.py:128-141 | Two bands with energies a factor 2^9 apart get 1 and 11 of 12 bits by rounding; with limits 1 and 6 they are clipped to 1 and 6 and have room for four of the five bits left |
| `BitBudget.WideRangeRun` | bridge/tools/sp_auto_bands.py:128-141 | The loop ends one bit short of that total, in either order |
| `Heartbeats.StateNext` | bridge/heartbeat/sp_bridge_heartbeat.c:97-145 | How the history function moves with one beat |
| `Heartbeats.SinceIsLast` | bridge/heartbeat/sp_bridge_heartbeat.c:97-145 | The beats that count are those after the last three acks in a row |
| `Heartbeats.NoSuddenOffline` | bridge/heartbeat/sp_bridge_heartbeat.c:97-145 | Online never turns offline in one beat |
| `Heartbeats.Heartbeat.Beat` | bridge/heartbeat/sp_bridge_heartbeat.c:97-145 | The counters keep the state equal to a function of the ack/miss history; the callback sees exactly the changes; acks + misses = beats |
| `Heartbeats.Run` | bridge/heartbeat/sp_bridge_heartbeat.c:97-178 | After any beats from the start the state is online if no two misses in a row occurred since the last three acks, offline if five did, else degraded |

## Left out

- IEEE rounding in sums, products, square roots, exponentials and the conversion of q_max to float: reals instead; the
  claims about the residue product are about exact discretisation.
- Flattened row-major indexing of matrices: two-dimensional arrays are used.
- 32-bit overflow of p * p in `sp_mobius_val` for n from 46340^2 on, of positions near the integer limits in the reset
  controller, and of the heartbeat counters.
- The shifts and masks of the half-precision conversions: they are given on the values they denote, and `NormalBits`
  gives the words; the normalising loop for denormals appears as its value, and the encoder takes non-negative scales only, which is all it is given.
- HierPredictors.HierPredictor.CalibrateEnd: the narrowing of the ridge weights to half precision is an arbitrary function,
  because weights of either sign, infinite ones included, are not among the values the half-precision model covers.
- ResidueMatmul.Multiply: takes inner dimensions up to half the modulus product only, because `sp_burnhard_safe_q_max`
  is not safe beyond, as SafeQMax states.
- CacheFiles.LoadLayer: says nothing about the contents of cells a truncated file does not reach.
- Opening, naming and closing files and the loops over the layers of a cache: `SaveK` and `LoadK` are one layer of keys,
  and value files, which leave `seq_len` alone, go through the same `SaveLayer` and `LoadLayer`.
- Measuring band energies and taking their logarithms in the bit allocation: it starts from any rounded shares.
- Mertens schedule generation, the zeta approximation, Ricci thresholds from model size, and stats printing.
- `sp_hier_calibrate_end_blend`, the hierarchical cache's own record format, and the squarefree cache's calibration and
  file format.
- FP16 and SIMD variants of the transform, the dense Vilenkin basis, GPU back ends, hardware probes, sockets, threads,
  memory mapping, logging, environment variables and allocation failure.
- Forward passes that fail during generation: the abstract model always succeeds.
- The model forward pass, tokenisation, quantised weight formats and sidecar wire formats.
- Model presets, run modes, scaling-law formulas and wrappers: table lookups and delegation.
