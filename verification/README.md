# GNFS cores in Dafny

This project models the self-contained algorithmic cores of an integer factorisation system and
proves what they are for. `dafny verify dfyconfig.toml` checks the whole project (Dafny 4.11).

## What is modelled

* **Dependencies over GF(2).** `Words`, `PackedMatrix` and `BlockLanczos` hold the word-packed matrix, serial
  elimination and elimination on a thread pool in which threads interleave word by word. They refine the boolean
  matrices of `GF2` and the column scan of `Elimination`, whose invariant `Dependencies` turns into soundness,
  independence, exact number and completeness of the result. `DependencySolver` adds the loop itself,
  the checkpoint file with crashes at any column and saves that are written, refused or torn, extraction and dispatch.
* **Factor base.** `NumberTheory`, `Polynomials`, `FieldRoots`, `ModularPoly` and `RootFinder` carry root finding modulo a
  prime, from Fermat's little theorem to recursive random splitting in which every draw is arbitrary. `Sieve` has both
  sieves, the segmented one with arbitrarily interleaved writes. `FactorBases`, `FactorBaseBuilder` and `FactorBaseWire`
  (with `TrialDivision` and `ByteEncoding`) have the container, its chunked construction and its file format.
* **Release protocol.** `ReleaseProtocol` is a state machine with one phase per request; any number of clients share
  one server, and each request may be answered, refused, or carried out with its answer lost. `PublicationCount` has the
  exact number of successful PATCH requests overlapping runs can reach. `ReleaseClient` has the two procedures as code over
  a server object that serves any other clients between two requests, proved to be one client of such an interleaving.
* **Polynomial selection.** `BaseM` has the expansion, the irreducibility filter and the selection. The filter rests on
  Rabin's test (`Irreducibility`), proved exact from the factors of polynomials modulo p (`PolyFactors`) and the finite
  field of residues modulo an irreducible polynomial (`ResidueRings`). In the same field `FiniteFields` has the Frobenius
  map, the test for squares and the square root of Tonelli and Shanks.
* **Complete factorisation** (`Factorizer`, `Sorting`), **threaded sparse products** (`SpMV`, with `Scheduling` for the
  work split), **the campaign driver, its evidence and its validators** (`Campaign`, `CampaignEvidence`) and **cofactor
  identities and draw streams** (`Cofactor`).

## Results that differ from the documentation

* `find_dependencies` returns no dependency for a matrix without columns although every vector is one.
  `DependencySolver.AnswerCorrectExactly` gives the exact condition.
* The dispatcher's nullity estimate m - n + 8 is too small for some matrices of low rank.
  `DependencySolver.EstimateExactly` says for which ones dependencies are lost that the other caps allow.
* Not every failure of the campaign driver yields a diagnostic its own validator accepts. `Campaign.Accepted` is the exact
  condition on the inputs (`Campaign.Driver.Execute`). It fails in four ways. The driver runs on any POSIX host, but the
  validator knows only linux and darwin, so on any other host every diagnostic, and every artifact, is refused. The clock can
  run backwards between start and completion. The summary parser bounds every number by 64 bits while the ratio of two 64-bit
  numbers in parts per million is not bounded by it (`Campaign.OverflowingRatio`). And the first error can have an empty
  text (`Campaign.EmptyText`).
* At most one successful PATCH is not guaranteed when publications overlap. `PublicationCount.OnePatchExactly` says exactly
  when it is: `MaxPatches`, the largest number over all interleavings, is the number recorded before plus, as long as the
  release is not public and is complete or a preparer can complete it, the number of publishers that expect its id.

## Conventions

* Threads are modelled by a loop that lets any unfinished thread make its next access. What a thread does between accesses to
  shared data is one step.
* Environment choices (random draws, schedules, answers of the splitter, fates of saves, rankings) are unconstrained
  nondeterministic values.
* Integers are unbounded. Widths are explicit where the source depends on them: 64-bit words, 32-bit counts and
  keys, byte encodings, the last stream ordinal. Intermediate products of the modular arithmetic are exact
  because the source uses 128-bit products.
* `hide` statements only keep definitions out of a proof that does not need them.

## Model

| member | source | states |
|---|---|---|
| Elimination.StepKeepsInvariant | src/linalg/block_lanczos.cpp:208-299 | one pivot column keeps: every right half is the combination of input rows its left half names, the left half stays invertible, the pivot columns are reduced |
| Elimination.StartInvariant | src/linalg/block_lanczos.cpp:121-134 | the augmented matrix [I &#124; M] satisfies the invariant |
| Elimination.FinishInvariant | src/linalg/block_lanczos.cpp:208-324 | the invariant holds where the scan ends |
| Elimination.SwapIsThreeXors | src/linalg/block_lanczos.cpp:56-62 | a row swap is three row additions, so everything row additions keep, swaps keep |
| Dependencies.DependenciesCorrect | src/linalg/block_lanczos.cpp:332-346 | the extracted vectors are nonzero, independent left-null vectors, exactly min(cap, m - rank) of them, and span the whole left null space when m - rank fits the cap |
| Dependencies.RankUnique | src/linalg/block_lanczos.cpp:332-346 | the rank in that statement is well defined (Steinitz exchange over GF(2)) |
| Dependencies.SurplusRows | src/linalg/block_lanczos.cpp:382-416 | with more rows than columns at least min(cap, m - n) dependencies exist |
| Dependencies.PivotBound | src/linalg/block_lanczos.cpp:158-163 | a reduced state never has more pivots than scanned columns |
| PackedMatrix.MaskedWordZero | src/linalg/block_lanczos.cpp:69-80 | the two masks select exactly the columns of the range, at unaligned and same-word boundaries |
| PackedMatrix.PackedGF2Matrix.constructor | src/linalg/block_lanczos.cpp:32-34 | a new matrix is zero in every bit |
| PackedMatrix.PackedGF2Matrix.Set | src/linalg/block_lanczos.cpp:36-40 | sets exactly one bit of the boolean matrix |
| PackedMatrix.PackedGF2Matrix.Test | src/linalg/block_lanczos.cpp:42-46 | reads the bit of the boolean matrix |
| PackedMatrix.PackedGF2Matrix.XorRows | src/linalg/block_lanczos.cpp:48-54 | adds one row of the boolean matrix to another, for every column count |
| PackedMatrix.PackedGF2Matrix.SwapRows | src/linalg/block_lanczos.cpp:56-62 | swaps two rows of the boolean matrix |
| PackedMatrix.PackedGF2Matrix.IsZeroRange | src/linalg/block_lanczos.cpp:64-82 | true exactly when all bits of the column range are clear, for any start and end |
| PackedMatrix.PackedGF2Matrix.ExtractBits | src/linalg/block_lanczos.cpp:84-93 | the first bits of a row of the boolean matrix |
| BlockLanczos.BuildAugmented | src/linalg/block_lanczos.cpp:121-130 | packs [I &#124; M], ignoring column indices out of range |
| BlockLanczos.EliminateSerially | src/linalg/block_lanczos.cpp:291-295 | the serial row loop is elimination of the column on the boolean matrix |
| BlockLanczos.EliminateInParallel | src/linalg/block_lanczos.cpp:250-277 | chunked elimination adds the pivot row to exactly the collected rows, whatever the interleaving of the threads word by word |
| BlockLanczos.RowsAddedIsEliminate | src/linalg/block_lanczos.cpp:226-296 | adding the pivot row to the collected rows is the same as the serial loop |
| DependencySolver.FindPivot | src/linalg/block_lanczos.cpp:209-215 | the first row at or below the pivot row with a one in the column |
| DependencySolver.EliminateColumn | src/linalg/block_lanczos.cpp:226-296 | all three code paths give the same matrix |
| DependencySolver.ScanColumn | src/linalg/block_lanczos.cpp:208-299 | one loop iteration on packed words is one step of the specification |
| DependencySolver.GenuineIsAccepted | src/linalg/block_lanczos.cpp:152-163 | every checkpoint the loop saves passes all tests of the loader, pivot_row <= cur_col - rows included |
| DependencySolver.StepStaysOnTheWay | src/linalg/block_lanczos.cpp:208-299 | continuing from a saved state ends where the uninterrupted scan ends |
| DependencySolver.TryResume | src/linalg/block_lanczos.cpp:152-177 | resumes exactly from checkpoints bound to this matrix; anything else is removed and the scan starts afresh |
| DependencySolver.Solve | src/linalg/block_lanczos.cpp:109-366 | a process that is not killed returns the specified dependencies; one that is killed leaves a usable or rejected checkpoint and, when no save fails, loses fewer pivots than the save interval |
| DependencySolver.SolveWithCrashes | src/linalg/block_lanczos.cpp:152-324 | any number of crashes followed by one complete run gives the uninterrupted answer, whatever happened to the saves |
| DependencySolver.GaussianFitsExactly | src/linalg/block_lanczos.cpp:408-414 | the division test accepts exactly the matrices whose packed augmented form takes at most 4 GiB: m (m + n) <= 8 * 2^32 |
| DependencySolver.FindDependencies | src/linalg/block_lanczos.cpp:371-421 | handed over exactly when m, n > 0 and m (m + n) > 8 * 2^32; otherwise a correct dependency list for its cap, with at least min(max_deps, 64, m - n) entries when m > n > 0 |
| DependencySolver.DispatchSurplus | src/linalg/block_lanczos.cpp:382-416 | on the Gaussian path with m > n > 0 at least min(max_deps, 64, m - n) dependencies come back |
| DependencySolver.EstimateExactly | src/linalg/block_lanczos.cpp:382-416 | with rows and columns, the answer is a correct dependency list for the cap min(max_deps, 64) if and only if not (m > n, n - rank > 8 and the cap exceeds m - n + 8): only then does the nullity estimate lose dependencies |
| DependencySolver.AnswerCorrectExactly | src/linalg/block_lanczos.cpp:118-119 | the answer is a correct dependency list if and only if the matrix has a column, or no row, or the cap is zero: the early return hides the dependencies of a matrix without columns |
| NumberTheory.Fermat | src/factor_base/builder.cpp:719-734 | Fermat's little theorem, by the binomial theorem |
| NumberTheory.FermatInverse | src/factor_base/builder.cpp:719-734 | x^(p-2) is the inverse of x modulo a prime p |
| NumberTheory.PowerMod | src/factor_base/builder.cpp:722-733 | square-and-multiply computes the power modulo p |
| FieldRoots.RootsBound | src/factor_base/builder.cpp:789-800 | a polynomial of degree d with invertible leading coefficient has at most d roots modulo a prime |
| FieldRoots.FactorsSplit | src/factor_base/builder.cpp:768-786 | factor and quotient of a polynomial with distinct roots have distinct roots, and share none |
| FieldRoots.DivisorOfFrobenius | src/factor_base/builder.cpp:680-703 | a divisor of x^p - x has as many distinct roots as its degree |
| ModularPoly.MulRaw | include/gnfs/sqrt/modular_poly.hpp:119-148 | the product modulo p, in normal form |
| ModularPoly.Reduce | include/gnfs/sqrt/modular_poly.hpp:159-216 | the normal form is congruent modulo f and p and shorter than f |
| ModularPoly.Power | include/gnfs/sqrt/modular_poly.hpp:218-243 | the power modulo f and p |
| ModularPoly.Gcd | include/gnfs/sqrt/modular_poly.hpp:245-268 | a monic greatest common divisor: it divides both, and every common divisor divides it |
| ModularPoly.DivMod | include/gnfs/sqrt/modular_poly.hpp:270-319 | a = q b + r modulo p with r shorter than b; it fails exactly when b vanishes modulo p |
| RootFinder.PolyDivMod | src/factor_base/builder.cpp:803-852 | the quotient satisfies a = q b + r modulo p with r shorter than b |
| RootFinder.ExactDivision | src/factor_base/builder.cpp:803-852 | when b divides a, the remainder vanishes: a = q b modulo p |
| RootFinder.BruteForceRoots | src/factor_base/builder.cpp:789-800 | the early-stopping search lists every root exactly once |
| RootFinder.ExtractRoots | src/factor_base/builder.cpp:708-800 | for every outcome of the random draws the recursion ends and, on a polynomial with as many distinct roots as its degree, lists each root exactly once |
| RootFinder.EvaluateMod | include/gnfs/core/polynomial_context.hpp:118-150 | Horner evaluation modulo p |
| RootFinder.FrobeniusGcd | src/factor_base/builder.cpp:680-703 | gcd(x^p - x, f) has the roots of f and splits into distinct linear factors |
| RootFinder.FindRootsUnchecked | src/factor_base/builder.cpp:644-704 | all roots exactly once; refused exactly when p >= 64 and the polynomial vanishes modulo p |
| RootFinder.FindRoots | src/factor_base/builder.cpp:636-642 | the same behind the primality check |
| Sieve.CrossOut | src/factor_base/builder.cpp:465-467 | crosses out exactly the multiples from the square on |
| Sieve.SimpleSieve | src/factor_base/builder.cpp:455-470 | entry k is true exactly when k is prime |
| Sieve.FirstMultiple | src/factor_base/builder.cpp:522-529 | the first multiple of p in a segment that is not below p squared |
| Sieve.FinishSegment | src/factor_base/builder.cpp:513-537 | a thread that has used all primes on its segment leaves no composite in it |
| Sieve.WriteKeepsInvariant | src/factor_base/builder.cpp:532-534 | writes of other threads never undo what a thread has done, and never hit a prime |
| Sieve.CrossOutSegments | src/factor_base/builder.cpp:491-545 | for every assignment of segments to threads and every interleaving of their writes exactly the primes remain |
| Sieve.SegmentedSieve | src/factor_base/builder.cpp:473-552 | entry k is true exactly when k is prime |
| Sieve.EratosthenesSieve | src/factor_base/builder.cpp:446-553 | both sieves give the same bits |
| TrialDivision.IntegerSqrt | include/gnfs/util/primes.hpp:111-121 | the floor square root from any initial guess |
| TrialDivision.IsPrimeU32 | include/gnfs/util/primes.hpp:125-142 | the wheel test decides primality |
| FactorBases.FactorBase.AddRational | include/gnfs/factor_base/factor_base.hpp:123-131 | appends, up to 2^32 - 1 entries, and keeps the table exact |
| FactorBases.FactorBase.AddAlgebraic | include/gnfs/factor_base/factor_base.hpp:134-143 | appends, up to 2^32 - 1 entries, and keeps the table exact |
| FactorBases.FactorBase.SetSieveCount | include/gnfs/factor_base/factor_base.hpp:82-85 | sets the count, zero meaning unset, and changes nothing else |
| FactorBases.FactorBase.BuildIndex | include/gnfs/factor_base/factor_base.hpp:164-188 | both tables lead from a key to its last entry, and to nothing else |
| FactorBases.FactorBase.FindRational | include/gnfs/factor_base/factor_base.hpp:97-103 | finds the last entry with the prime, or reports that there is none |
| FactorBases.FactorBase.FindAlgebraic | include/gnfs/factor_base/factor_base.hpp:106-113 | finds the last entry with the prime and root, or reports that there is none |
| FactorBaseBuilder.BalancedChunks | src/factor_base/builder.cpp:46-53 | the chunks follow each other, cover all primes and differ in size by at most one |
| FactorBaseBuilder.FillChunks | src/factor_base/builder.cpp:44-70 | under every schedule each worker fills its buffer with the entries of its own primes; it fails exactly when some prime has no root list |
| FactorBaseBuilder.AppendInChunks | src/factor_base/builder.cpp:37-79 | the appended entries are those of the primes in order, for every number of workers |
| FactorBaseBuilder.CollectPrimes | src/factor_base/builder.cpp:593-600 | the primes of a range that do not divide n, ascending |
| FactorBaseBuilder.FindRationalPrimes | src/factor_base/builder.cpp:555-581 | the rational side is exactly the usable primes, ascending; it never overflows |
| FactorBaseBuilder.Reserve | src/factor_base/builder.cpp:404-411 | accepted exactly when the estimates and the product of the algebraic one with the degree fit 64 bits and the counts fit 32; the division test never misjudges the product |
| FactorBaseBuilder.Build | src/factor_base/builder.cpp:384-437 | succeeds exactly for buildable inputs and then yields the specified base |
| FactorBaseBuilder.BuildableExactly | src/factor_base/builder.cpp:384-437 | the build fails exactly when the estimates cannot be reserved, f vanishes modulo a usable prime of at least 64 in the range, or there are more than 2^32 - 1 pairs of a prime and a root |
| FactorBaseBuilder.BuiltBaseAcceptable | src/factor_base/builder.cpp:384-437 | whatever is built passes every check of the loader |
| FactorBaseBuilder.BuiltBaseExact | src/factor_base/builder.cpp:384-437 | bounds, scale and large-prime bound of the options (100 times the rational bound for 0); the primes up to the rational bound that do not divide n, ascending; for such primes up to the larger algebraic bound each root of f once, and the projective one exactly where p divides the leading coefficient; logarithms and degrees; the sieve count separates the primes up to the algebraic bound |
| FactorBaseBuilder.BuildSaveLoad | src/factor_base/builder.cpp:183-437 | built, saved and loaded again the base is unchanged |
| ByteEncoding.DecodeInverse | src/factor_base/builder.cpp:86-115 | decoding inverts encoding, in both byte orders |
| ByteEncoding.DecodeOnto | src/factor_base/builder.cpp:86-115 | encoding inverts decoding, in both byte orders |
| FactorBaseWire.HeaderUnambiguous | src/factor_base/builder.cpp:254-273 | no header can be read in both byte orders |
| FactorBaseWire.Save | src/factor_base/builder.cpp:183-236 | writes exactly the little-endian encoding; refused exactly when the sieve count exceeds the list |
| FactorBaseWire.EncodedHead | src/factor_base/builder.cpp:197-226 | magic, version 1, bounds, scale, sieve-count field and both counts at their offsets; an explicit zero is 2^63 |
| FactorBaseWire.EncodedEntries | src/factor_base/builder.cpp:219-235 | rational entry i at 37 + 8 i, algebraic entry i at 41 + 8 r + 13 i, field by field |
| FactorBaseWire.LoadBase | src/factor_base/builder.cpp:238-370 | succeeds exactly on streams that start with an encoding of an acceptable base in little-endian or host order, and returns that base |
| FactorBaseWire.Load | src/factor_base/builder.cpp:238-370 | the same as an object with rebuilt lookup tables |
| FactorBaseWire.EncodingsPrefixFree | src/factor_base/builder.cpp:183-370 | two acceptable bases never have encodings that start the same stream |
| FactorBaseWire.SaveThenLoad | src/factor_base/builder.cpp:183-370 | load undoes save, the three sieve-count states included, whatever follows in the stream |
| FactorBaseWire.LoadThenSave | src/factor_base/builder.cpp:183-370 | saving what was loaded from a little-endian stream gives back the bytes consumed |
| ReleaseProtocol.StepKeepsGood | scripts/release_contract.py:2644-3034 | every request of every client, answered, refused or lost, keeps the server in a good state and takes nothing back |
| ReleaseProtocol.EveryInterleaving | scripts/release_contract.py:2676-3034 | in every interleaving of any number of preparers and publishers: at most one creation, no asset twice, assets only grow and match local bytes, a public release has exactly the local asset set |
| ReleaseProtocol.ReportsAreTrue | scripts/release_contract.py:2676-3034 | whatever the server held at the start, a client that reports success is right: the exact release with exactly the local files and bytes, and, if it recovered or published, public, immutable, tagged with the target and of the expected id |
| ReleaseProtocol.OnlyGoodIsMutated | scripts/release_contract.py:563-608 | a client mutates only a free tag or an exact draft |
| ReleaseProtocol.ForeignServer | scripts/release_contract.py:563-608 | a server in any other state is left untouched by every interleaving |
| ReleaseProtocol.SessionsSafe | scripts/release_contract.py:2676-3034 | runs that do not overlap, each cut off anywhere: one creation, one upload per asset, one PATCH at most; nothing is mutated once the release is public |
| ReleaseProtocol.AloneCompletes | scripts/release_contract.py:2676-3034 | a run left alone ends in success within a bounded number of requests |
| ReleaseProtocol.PairPublishes | scripts/release_contract.py:2676-3034 | from every good state an uncut preparation and publication end in the one exact public release |
| PublicationCount.PatchesBounded | scripts/release_contract.py:2926-3034 | in no interleaving do more PATCH requests succeed than were recorded before plus, while the release is not public and can be completed, the number of publishers that expect its id |
| PublicationCount.PatchesReached | scripts/release_contract.py:2926-3034 | some interleaving reaches that number |
| PublicationCount.OnePatchExactly | scripts/release_contract.py:2926-3034 | at most one PATCH succeeds in every interleaving if and only if the recorded ones and the publishers that can still succeed are together at most one |
| PublicationCount.DoublePublication | scripts/release_contract.py:2990-3008 | two publishers of one complete draft that overlap can both succeed |
| ReleaseClient.ReleaseServer.Post | scripts/release_contract.py:3776-3796 | creates an empty draft with the metadata under the next id and counts it, or answers 422 and changes nothing |
| ReleaseClient.ReleaseServer.UploadAsset | scripts/release_contract.py:3798-3820 | adds the asset with its bytes and keeps the others, or answers 404 or 422 and changes nothing |
| ReleaseClient.ReleaseServer.Patch | scripts/release_contract.py:3758-3774 | publishes the release with its assets and creates its tag, or answers 404 and changes nothing |
| ReleaseClient.World.OthersMove | scripts/release_contract.py:2676-3034 | any requests of other clients are one more piece of the same interleaving and take nothing back |
| ReleaseClient.VerifyReleaseState | scripts/release_contract.py:563-608 | classifies the tag as the state machine does, whatever other clients do between its requests |
| ReleaseClient.VerifyFrozen | scripts/release_contract.py:2891-2923 | re-reads every public representation as the state machine does, among other clients |
| ReleaseClient.FindOrCreateDraft | scripts/release_contract.py:2716-2775 | finds or creates the draft, and after status 422 works on the one somebody else created |
| ReleaseClient.EnsureAsset | scripts/release_contract.py:2775-2806 | one upload round; after status 422 the exact bytes must be on the server |
| ReleaseClient.PrepareDraftRelease | scripts/release_contract.py:2676-2822 | among any other clients the run is one client of an interleaving of the state machine, both 422 branches included; what it says it created and uploaded was, and alone it did nothing else |
| ReleaseClient.PublishVerifiedRelease | scripts/release_contract.py:2926-3034 | among any other clients the run is one client of an interleaving of the state machine; alone it mutates nothing without its evidence, and otherwise sends one PATCH unless it recovers |
| ReleaseClient.ClaimsAreTrue | scripts/release_contract.py:2676-3034 | whatever the other clients did and whatever the server held at the start, a procedure that reports success is right in the same sense |
| ReleaseClient.PrepareAndPublish | scripts/release_contract.py:2676-3034 | one preparation and one publication end in the exact public release |
| BaseM.ConstructBaseM | src/polynomial/base_m.cpp:16-34 | f(m) = n for every integer n and m > 1, digits below m in size and of the sign of n; refused exactly for m <= 1 |
| BaseM.ExpansionUnique | src/polynomial/base_m.cpp:16-34 | there is only one such expansion |
| BaseM.LeadingPositive | src/polynomial/base_m.cpp:16-34 | the degree is exact if and only if n is at least m to the degree |
| BaseM.EisensteinIrreducible | src/polynomial/base_m.cpp:44-81 | Eisenstein's criterion excludes every factorisation into two integer polynomials of positive degree |
| BaseM.SmallPrimesComplete | src/polynomial/base_m.cpp:44-81 | the criterion is tried for every prime below 32 |
| BaseM.TestPrimesComplete | src/polynomial/base_m.cpp:98-113 | the reduction is tried for every prime below 48 |
| BaseM.WindowIs | src/polynomial/base_m.cpp:134-149 | the window is 5, 50, 200 or 500, by n below 2^45, 2^150 and 2^250 |
| BaseM.EisensteinCheck | src/polynomial/base_m.cpp:44-81 | answers yes exactly when the criterion holds for some prime below 32 |
| BaseM.ReductionKeepsFactors | src/polynomial/base_m.cpp:101-113 | a factorisation over the integers survives reduction modulo a prime that does not divide the leading coefficient |
| PolyFactors.IrreducibleIsPrime | include/gnfs/sqrt/modular_poly.hpp:391-396 | a polynomial irreducible modulo p that divides a product divides a factor |
| ResidueRings.Ring.PowerPlus | include/gnfs/sqrt/modular_poly.hpp:391-396 | modulo f and p, the p-th power of a sum is the sum of the p-th powers |
| ResidueRings.Ring.RootsAtMostDegree | include/gnfs/sqrt/modular_poly.hpp:391-396 | over the field of residues modulo an irreducible polynomial, a polynomial has no more roots than its degree |
| ResidueRings.Ring.NoShorterPeriod | include/gnfs/sqrt/modular_poly.hpp:391-396 | for irreducible f, x^(p^j) is not x modulo f for any positive j below the degree |
| ResidueRings.Ring.DegreeIsPeriod | include/gnfs/sqrt/modular_poly.hpp:391-396 | for irreducible f of degree d, x^(p^d) is x modulo f |
| Irreducibility.PrimeDivisors | include/gnfs/sqrt/modular_poly.hpp:413-426 | lists exactly the primes that divide the degree |
| Irreducibility.FrobeniusPowers | include/gnfs/sqrt/modular_poly.hpp:428-439 | entry k is x^(p^k) modulo f |
| Irreducibility.RabinSound | include/gnfs/sqrt/modular_poly.hpp:391-396 | the two conditions of the test exclude every factorisation modulo p |
| Irreducibility.IsIrreducible | include/gnfs/sqrt/modular_poly.hpp:391-457 | the test answers yes exactly for polynomials of positive exact degree that are irreducible modulo the prime p |
| FiniteFields.Frobenius | include/gnfs/sqrt/modular_poly.hpp:320-344 | substituting x^p for x modulo f and p gives the p-th power |
| FiniteFields.EulerCriterion | include/gnfs/sqrt/modular_poly.hpp:347-388 | in the field of an odd prime and an irreducible polynomial, a nonzero element is a square if and only if its power to half the number of nonzero elements is one |
| FiniteFields.IsSquare | include/gnfs/sqrt/modular_poly.hpp:347-388 | answers whether the residue is a square; refused exactly for a modulus without exact positive degree |
| FiniteFields.EnumerateNonSquare | include/gnfs/sqrt/modular_poly.hpp:558-580 | the base-p counter over all nonzero elements meets a non-square before it wraps |
| FiniteFields.FindNonSquare | include/gnfs/sqrt/modular_poly.hpp:519-580 | all three searches together always find a non-square |
| FiniteFields.TonelliStep | include/gnfs/sqrt/modular_poly.hpp:592-615 | one round keeps r^2 = a t, t^(2^(m-1)) = 1 and c^(2^(m-1)) = -1 |
| FiniteFields.TonelliLoop | include/gnfs/sqrt/modular_poly.hpp:592-615 | ends with a square root of a; the exit that gives up is not reached |
| FiniteFields.SqrtTonelliShanks | include/gnfs/sqrt/modular_poly.hpp:459-626 | a square gets a root, anything else zero; refused exactly for a modulus without exact positive degree; neither the search nor the final comparison fails |
| BaseM.CheckIrreducible | src/polynomial/base_m.cpp:85-115 | a yes is always right, and is given exactly for degree at most one, by the criterion for a prime below 32, or when f is irreducible modulo a prime below 48 |
| BaseM.TryCandidate | src/polynomial/base_m.cpp:158-171 | accepts exactly the m whose expansion has exact degree and passes the filter; it is then irreducible |
| BaseM.FallbackExact | src/polynomial/base_m.cpp:173-181 | the fallback keeps the exact degree because of the floor root |
| BaseM.Select | src/polynomial/base_m.cpp:121-236 | selection succeeds exactly when degree > 0 and n >= 2^degree; all three return paths give m > 1, exact degree, f(m) = n and digits in [0, m); the fallback is taken exactly when nothing in the window passes the filter, and a small window yields its first candidate that does |
| Factorizer.IsValidSplit | src/api/factorizer.cpp:105-117 | accepts exactly the proper factorisations into at least two factors |
| Factorizer.WeightBelowProduct | src/api/factorizer.cpp:243-247 | an accepted split weighs less than its product: the termination measure |
| Factorizer.FactorizationUnique | src/api/factorizer.cpp:251-262 | two ascending prime lists with the same product are equal |
| Sorting.SortFacts | src/api/factorizer.cpp:251-252 | the sorted list is an ascending permutation |
| Factorizer.FactorizeCompletely | src/api/factorizer.cpp:179-264 | ends for every splitter; success is the ascending prime factorisation; failure names a composite divisor; the final product check never fails |
| Factorizer.TwoRuns | src/api/factorizer.cpp:179-264 | two splitters that succeed give the same list, and an honest one succeeds |
| SpMV.GatherRow | bench/microbench/spmv_neon_gate.cpp:31-47 | the prefetching loop and the tail loop together visit each entry once |
| SpMV.SpmvForward | bench/microbench/spmv_neon_gate.cpp:31-70 | every output element is the sum of the input elements its row names, in every lane |
| SpMV.SpmvScratch.Ensure | bench/microbench/spmv_neon_gate.cpp:74-91 | whatever earlier calls left, the accumulators in use start at zero |
| SpMV.SpmvTranspose | bench/microbench/spmv_neon_gate.cpp:94-138 | for every thread count and schedule the result is the transposed product |
| SpMV.TotalIsScatter | bench/microbench/spmv_neon_gate.cpp:131-137 | the accumulators of consecutive chunks add up to all rows |
| SpMV.GatherLane | bench/microbench/spmv_neon_gate.cpp:148-185 | a forward product of several lanes is as many independent 64-bit products |
| SpMV.ScatterLane | bench/microbench/spmv_neon_gate.cpp:198-308 | a transposed product of several lanes is as many independent 64-bit products |
| SpMV.Adjoint | bench/microbench/spmv_neon_gate.cpp:31-138 | forward and transposed products are adjoint, in each bit position |
| SpMV.GatherIsDot | bench/microbench/spmv_neon_gate.cpp:31-47 | the forward product is the boolean matrix times the vector |
| SpMV.ScatterIsDot | bench/microbench/spmv_neon_gate.cpp:94-138 | the transposed product is the boolean vector times the matrix |
| CampaignEvidence.BalancedSchedule | scripts/run_50d_route_campaign.py:608-612 | every prefix of even length runs both routes equally often |
| CampaignEvidence.ScheduleByBits | scripts/run_50d_route_campaign.py:608-612 | place i runs the legacy route exactly when i mod 8 has an even number of binary ones |
| CampaignEvidence.StableMeansEqual | scripts/run_50d_route_campaign.py:1003-1034 | no mismatch is reported exactly when every sample agrees with the first in every stability field |
| CampaignEvidence.RatioIsCeiling | scripts/run_50d_route_campaign.py:996-1000 | the ratio in parts per million is rounded up |
| CampaignEvidence.MedianByOrder | scripts/run_50d_route_campaign.py:987-993 | twice the median is the sum of the two middle elements of any ascending permutation |
| CampaignEvidence.BudgetExactly | scripts/run_50d_route_campaign.py:1037-1102 | the budget passes exactly when the routes are stable, every structured record has a positive delta, all records name one usable backend and hold peak values, and the medians of wall time, peak and nonzeros stay within 1.2, 1.6 and 30 times nonzero legacy ones; it is unavailable exactly when it does not pass and the backend condition fails |
| CampaignEvidence.RatiosFitExactly | scripts/run_50d_route_campaign.py:996-1102 | the ratios of a budget fit 64 bits exactly when 10^6 times the structured median is at most (2^64 - 1) times the legacy one, for each reported ratio of the records |
| CampaignEvidence.StabilityExactly | scripts/run_50d_route_campaign.py:1003-1034 | no mismatch is reported exactly when, on both routes, every record has the stability fields of the first |
| CampaignEvidence.IdentityExactly | scripts/run_50d_route_campaign.py:1656-1674 | passing slots have one identity exactly when their records do |
| Campaign.BudgetSamples | scripts/run_50d_route_campaign.py:1037-1102 | a complete schedule counts every structured sample; a passing budget meets all limits |
| Campaign.RunSlot | scripts/run_50d_route_campaign.py:1856-1968 | a slot passes exactly when the route ends, its record is valid and its directory is cleaned up; a failed slot is named by its error |
| Campaign.Driver.RunSlots | scripts/run_50d_route_campaign.py:1855-1968 | completes exactly when every slot succeeds; otherwise only the last slot can have failed, and the active ordinal is the next slot |
| Campaign.Driver.Evaluate | scripts/run_50d_route_campaign.py:1970-1984 | identity, stability and budget are those the validators rebuild |
| Campaign.ArtifactValidates | scripts/run_50d_route_campaign.py:1411-1468 | an artifact made after a passing budget passes its closed validator if and only if the host is one the validator knows and the times are in order |
| Campaign.StoppedRebuilds | scripts/run_50d_route_campaign.py:1389-1530 | in every state the outer handler can see, the slots rebuild exactly when no slot failed or its error has a text, and the failure ordinal fits |
| Campaign.Verdict | scripts/run_50d_route_campaign.py:1471-1530 | a diagnostic passes its closed validator if and only if the host is known, the times are in order, the ratios fit 64 bits and the error has a text |
| Campaign.SummaryFits | scripts/run_50d_route_campaign.py:1163-1246 | the rebuilt summary parses exactly when the reported ratios fit 64 bits |
| Campaign.PublishableExactly | scripts/run_50d_route_campaign.py:1829-2075 | a run has no error exactly when every slot leaves valid evidence, records agree in identity and stability, the budget is met, and provenance, clock and file system do not stand in the way |
| Campaign.TextlessExactly | scripts/run_50d_route_campaign.py:1829-2075 | the first error has no text exactly where an empty message of the environment is reported as it is |
| Campaign.ArtifactMeans | scripts/run_50d_route_campaign.py:1411-1468 | an accepted artifact holds every slot in its place with a record that parses and meets its contract, one identity, stable routes, a budget that is met, and a summary of just that |
| Campaign.DiagnosticMeans | scripts/run_50d_route_campaign.py:1471-1530 | an accepted diagnostic holds slots in their places, all but the last with their evidence, and names the slot that failed or was to come next |
| Campaign.Driver.Execute | scripts/run_50d_route_campaign.py:1829-2075 | an artifact is published exactly when the inputs are publishable, is valid and holds the records of the events; a diagnostic carries the first error of the inputs and is valid if and only if they meet Accepted: known host, times in order, first error with a text, and ratios that fit 64 bits when the budget is reached |
| Campaign.OverflowingRatio | scripts/run_50d_route_campaign.py:1188-1205 | for every parser: any four accepted records that agree, with legacy routes of one millisecond and structured ones of 2^64 - 1, end in a refused diagnostic on a known host |
| Campaign.EmptyText | scripts/run_50d_route_campaign.py:1471-1530 | a first route without a record whose error has no text ends in a refused diagnostic |
| Cofactor.EncodeU64Be | src/cofactor/attempt_context.cpp:21-28 | the eight bytes, most significant first |
| Cofactor.MagnitudeInverse | src/cofactor/attempt_context.cpp:60-77 | the magnitude bytes are minimal and decode to the number |
| Cofactor.MagnitudeLength | src/cofactor/attempt_context.cpp:65-76 | the reserved byte count is exactly the number of bytes written |
| Cofactor.ExportUnsignedMagnitude | src/cofactor/attempt_context.cpp:60-77 | the minimal bytes of the absolute value; the internal error never occurs |
| Cofactor.CanonicalDigest | src/cofactor/attempt_context.cpp:89-102 | hashes exactly the canonical bytes; refused exactly for an unknown side or an overlong input |
| Cofactor.PreimageInjective | src/cofactor/attempt_context.cpp:89-102 | the hashed bytes determine the side and the absolute value, and nothing else |
| Cofactor.PreimagePrefixFree | src/cofactor/attempt_context.cpp:89-102 | no canonical input starts with another one |
| Cofactor.PreimageFields | src/cofactor/attempt_context.cpp:89-102 | the canonical bytes field by field: domain text, side tag, length, minimal magnitude of the absolute value |
| Cofactor.BlockFields | src/cofactor/attempt_context.cpp:104-112 | what is hashed for a draw: domain text, seed, ordinal in eight bytes, most significant first |
| Cofactor.BlocksDiffer | src/cofactor/attempt_context.cpp:104-112 | without hash collisions two blocks of 32-byte seeds are equal only for one seed and one ordinal |
| Cofactor.StreamNeverCanonical | src/cofactor/attempt_context.cpp:89-112 | no draw of any stream hashes the canonical input of any cofactor |
| Cofactor.DrawsDiffer | src/cofactor/attempt_context.cpp:118-139 | without hash collisions no two block draws of one stream are equal; a word draw is the first eight bytes of its block |
| Cofactor.OrdinalsDiffer | src/cofactor/attempt_context.cpp:104-112 | different ordinals hash different messages |
| Cofactor.FirstU64Be | src/cofactor/attempt_context.cpp:79-85 | the big-endian value of the first eight bytes |
| Cofactor.Seed256Stream.NextBlock | src/cofactor/attempt_context.cpp:121-129 | uses the next ordinal, once |
| Cofactor.Seed256Stream.NextU64 | src/cofactor/attempt_context.cpp:131-139 | uses the next ordinal, once |
| Cofactor.Seed256Stream.Advance | src/cofactor/attempt_context.cpp:145-151 | the position moves on by one, past 2^64 - 1 into exhaustion |
| Cofactor.DrawMix | src/cofactor/attempt_context.cpp:118-151 | any mix of draws uses every ordinal from the initial one to 2^64 - 1 exactly once and then yields nothing; without hash collisions all its blocks differ |

## Left out

- Block Wiedemann: the dispatcher hands over to it (`None` in `DependencySolver.FindDependencies`); its source is not part of this model.
- BaseM.CheckIrreducible: how often an irreducible polynomial gets no, because it splits modulo every test prime, is not stated.
- Irreducibility.IsIrreducible: p is prime, as for every caller modelled here; the length error above 2^31 - 1 coefficients and 32-bit overflow in the trial division of such degrees are not modelled.
- FiniteFields.SqrtTonelliShanks: the modulus is irreducible when it has exact positive degree, as the source demands; its length errors are not modelled.
- FactorBaseBuilder.Build: the prime-count estimates behind the reservation are an arbitrary function, as they use floating point, and a shortage of memory is not modelled; the fixed-point logarithm is an arbitrary function.
- FactorBaseBuilder.AppendInChunks: root finding enters as a pure function of the prime with the contract of `RootFinder.FindRootsUnchecked`, as its random generator is seeded by the prime alone.
- Sieve.SegmentedSieve: the floating-point square root is an integer whose square is at least the bound.
- DependencySolver.Solve: a process dies between columns, where every observable state of the file occurs; SHA-256 fingerprints are taken to identify the matrix, and the bytes of a checkpoint file are not modelled (a corrupt file is one that does not load).
- Factorizer.FactorizeCompletely: the probable-prime test is exact primality; statistics, logging and progress callbacks are not modelled.
- ReleaseProtocol.EveryInterleaving: size and digest of an asset stand for its content; HTTP, pagination, the other fields of release records and the evidence checks on rulesets and CI runs are one request that may fail.
- BaseM.Select: the ranking by Murphy score is an arbitrary choice among the candidates.
- SpMV.SpmvTranspose: accumulators are sequences private to a thread, so the interleaving is by rows; prefetching has no effect.
- Campaign.RunSlot: the field checks of the route record and of provenance texts are fixed arbitrary predicates, summaries are records of values rather than text, and signals arrive only at the modelled points.
- Cofactor.CanonicalDigest: SHA-256 is an arbitrary function; a digest identifies the input only as far as it has no collisions.
- GMP, NTL, Metal and NEON code, timings, memory figures and the command line.
- The relation filters, lattice sieve, ECM, SQUFOF, SIQS and, beyond square roots in a finite field, the square root step.
