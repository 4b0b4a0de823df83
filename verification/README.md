# PAE: models and proofs of the portfolio engine's cores

These Dafny modules model five independent cores of the PAE portfolio engine and its analytics server, and
prove what they promise for all inputs, all runs, or all reachable states.

- **Linear-algebra analytics** (`Vectors`, `Samples`, `FactorRegression`, `Optimize`, `RiskParity`,
  `TwoAssetRiskParity`, `Frontier`): least-squares factor decomposition, closed-form minimum-variance and tangency
  mixes, the risk-parity iteration with its inverse-volatility fallback and when it converges, and the efficient
  frontier. A vector is a sequence of reals, a matrix the sequence of its rows; unless two assets are named,
  everything holds for every number of assets and observations.
- **Version store** (`Versions`, `VersionStore`, `SnapshotViews`, `SnapshotEngine`, `CrashRecovery`, `ReachedStates`):
  hash-chained histories in memory and in SQLite, point-in-time snapshots, diffs, a state machine of
  persist, acknowledge, refuse, crash and reopen, and what holds in every state its runs reach. The write
  lock is held across write and push, so appends are serialised steps.
- **Bond mathematics** (`Bonds`, `BondCurvature`, `PaymentPeriods`): yield bisection, durations, convexity, and the
  second-order law that connects them with the price. The discount factor is a parameter with four laws, which
  `PaymentPeriods` proves of powers of an m-th root at multiples of 1/m, that is, for annual, semi-annual and
  monthly legs alike.
- **Risk statistics** (`ColumnMajor`, `NumKernels`, `Correlation`, `PortfolioSeries`, `Drawdown`, `RankStatistics`,
  `MonteCarlo`, `Brinson`): column-major covariance and correlation kernels against the pairwise reference,
  drawdowns, historical value at risk, Monte Carlo bands, and return attribution.
- **Text and byte loops** (`Utf8`, `ChunkedBody`, `TruncatedBody`, `PythonText`, `ChunkText`, `TextCuts`, `KnowledgeRows`,
  `KeywordRanking`, `KnowledgeStore`, `VectorFreshness`): the chunked body decoder, the text splitter, and the encrypted knowledge store.

`Reals`, `Results` and `Ordering` hold what the others share: order facts about products and quotients of
reals, option and result types, and the stable sort behind every library sort. Code that changes state in
place is modelled by classes, arrays and loops that are proved against functions of their inputs; the
results about those functions are lemmas.

Numbers are reals: sums, products and quotients are exact, and there is no NaN, infinity or rounding. A square
root is a parameter `sqrt` with `sqrt(x) >= 0` and `sqrt(x) * sqrt(x) == x`, a matrix inverse a parameter that returns
a true inverse whenever there is one, a hash any function (where a lemma needs it, without a collision among
the inputs at hand), AES-GCM a pair of functions of which decryption undoes encryption, the numerical solver
any function, and the random source any table of draws.

## Where the code and its documentation differ

The model follows the code.

- `brinson.py:17-23` says that allocation measures the over- or underweight of a one-sided segment and that
  selection and interaction collapse to zero on the missing side. For a portfolio-only segment the code
  gives allocation 0 and puts everything into interaction; for a benchmark-only one selection and
  interaction cancel without vanishing (`Brinson.PortfolioOnly`, `Brinson.BenchmarkOnly`). Lines 13-15 say that totals
  sum to the active return; `Brinson.TotalsIdentity` says when.
- `types.rs:65` calls a version tamper-evident. A hash covers its own version only, so a tip hash commits to the
  contents of its chain exactly when there is a single version (`Versions.TipDoesNotCommit`,
  `Versions.TipCommitsIffSingle`). Its preimage has no separators: two ids share preimages exactly when one is a
  proper prefix of the other (`Versions.PreimagesClashIffRelated`), and a run of appends can then drive the store
  into a state that refuses a valid one (`ReachedStates.ClashReached`).
- `verify_chain` is documented as verifying the whole chain but ignores ids and version
  numbers (`Versions.VerifyIgnoresNumbering`).
- A diff names added entities without their hashes, so it is not a patch by itself (`SnapshotViews.AddedHashUnknown`).
- `optimize.py:426` says that equal weights stand when the variance is not positive. They do exactly when the
  variance at equal weights is not positive (`RiskParity.DegenerateExit`); on a later pass another iterate stands
  (`RiskParity.DegenerateExitLater`). `optimize` raises small eigenvalues before it calls the loop, so this concerns
  the loop as a function of its own.
- `optimize.py:410-414` blames non-convergence on an asset of almost no variance with negative covariances. For
  uncorrelated assets of ordinary variances the loop alternates between two vectors for ever, unless the
  inverse-variance weights are within the tolerance of equal weights (`RiskParity.IterateAlternates`,
  `RiskParity.DiagonalStops`). For two assets the docstring is right about negative correlation, which clamps a
  marginal unless the volatilities are equal (`TwoAssetRiskParity.NegativeCorrelationClamps`); without it, and with
  volatilities that are not tiny, the loop settles exactly when the correlation is positive or the volatilities
  are equal (`TwoAssetRiskParity.SettlesIffCorrelated`).
- `correlation.rs:28-29` says that equal-length series reproduce the pairwise computation exactly. They do unless
  a series varies by less than 1e-12 of the largest variance (`Correlation.NativeMatchesPairwise`,
  `Correlation.TinySeriesLosesCorrelation`). Lines 85-86 claim the same for a common window below two observations;
  it holds exactly when every pair is uncorrelated over its own window or has no window of two
  (`Correlation.ShortWindowAgrees`), and one short history blanks every other pair
  (`Correlation.ShortHistoryBlanksAll`). The pairwise fallback of `compute_matrix` is never reached.
- `store.py:335-336` says that `add_chunks` returns the number of chunks stored. It returns the number it was given;
  as many rows come in exactly when the chunks differ in source and first 200 characters joined by a colon, and
  none was there before (`KnowledgeRows.IngestionStoresAll`, `KnowledgeRows.KeysEqual`).
- Section 7.1.1 of RFC 9112 lets white space stand before the semicolon of a chunk extension, and sections 5.5 and
  5.6.4 of RFC 9110 let bytes above 0x7F stand in trailer fields and quoted strings. The reader takes an encoding if
  and only if no extension has white space before it and all extensions and trailers are UTF-8
  (`ChunkedBody.ReadIffPlain`, `ChunkedBody.SpaceBeforeExtensionRefused`, `ChunkedBody.ObsTextRefused`). It does not
  look at the two bytes that end a chunk (`ChunkedBody.TerminatorUnchecked`). A truncated body passes for complete
  from the last chunk on, and also where it stops within leading zeros of a chunk size (`TruncatedBody.CutRead`,
  `TruncatedBody.NothingLost`).
- A version query can name an entity type (`types.rs:88`), which is not looked at (`VersionStores.TypeIgnored`).

## Model

| member | source | states |
|---|---|---|
| FactorRegression.ResidualsOrthogonal | analytics/pae/models/factor.py:131-155 | The residuals of the fit are orthogonal to every column of the design matrix, for any number of observations and factors, whenever inv returns a true inverse of X'X. |
| FactorRegression.ErrorDecomposes | analytics/pae/models/factor.py:131-156 | Any other coefficient vector has the fit's residual sum of squares plus the square of X times the difference. |
| FactorRegression.LeastSquares | analytics/pae/models/factor.py:131-156 | No coefficient vector has a smaller residual sum of squares, and only the fit attains it. |
| FactorRegression.FullColumnRank | analytics/pae/models/factor.py:131-141 | If X'X has an inverse, only zero coefficients combine the columns to zero: a collinear design never passes the inversion. |
| FactorRegression.RSquaredIsShare | analytics/pae/models/factor.py:123-158 | Because of the intercept column the residuals sum to 0 and R-squared lies in [0, 1], also when the portfolio never varies. |
| FactorRegression.TotalSumOfSquares | analytics/pae/models/factor.py:153-158 | The total sum of squares is the residual one plus that of the centred fitted values. |
| FactorRegression.ContributionsExplainRSquared | analytics/pae/models/factor.py:168-181 | For pairwise uncorrelated factors the accumulated contributions add up to exactly R-squared. |
| FactorRegression.ValidateReturns | analytics/pae/models/factor.py:50-94 | No fault exactly when there is a factor, at least two more observations than factors, and all series have the length of the portfolio; otherwise which of these fails, in the order of the code. |
| FactorRegression.FirstMismatch | analytics/pae/models/factor.py:50-94 | No mismatch exactly when every factor series has the length of the portfolio; otherwise the first that differs is named. |
| FactorRegression.ReportsOptimal | analytics/pae/models/factor.py:97-203 | A reported decomposition carries the only least-squares optimum as alpha and betas, and an R-squared in [0, 1]. |
| FactorRegression.InverseDiagonalPositive | analytics/pae/models/factor.py:160-166 | The diagonal of the inverse of X'X is positive, so the guard against a negative one never acts over the reals. |
| FactorRegression.TStatMeaning | analytics/pae/models/factor.py:160-195 | The square of every reported t-statistic, times the residual sum of squares and the diagonal entry of the inverse, is the square of the coefficient times n - k - 1; it has the coefficient's sign; a perfect fit reports 0. |
| FactorRegression.SharesMeaning | analytics/pae/models/factor.py:153-203 | 1 - R-squared is the residual part of the sum of squares about the mean; each factor is named and its percentage is 100 times the square of its beta times its own sum of squares over the portfolio's; the residual percentage is what these leave of 100, at least 0; a portfolio that never varies reports R-squared and percentages of 0. |
| FactorRegression.Exposures | analytics/pae/models/factor.py:168-191 | The exposure loop yields one record per factor in order and the running total of the contributions. |
| FactorRegression.Regress | analytics/pae/models/factor.py:123-203 | Everything after the inversion: the report holds what the regression defines. |
| FactorRegression.Decompose | analytics/pae/models/factor.py:97-203 | decompose refuses exactly the invalid and the singular inputs; any other report is the unique least-squares optimum with R-squared in [0, 1]. |
| Optimize.CleanWeightsProject | analytics/pae/models/optimize.py:281-290 | _clean_weights always lands on the simplex, and is the identity exactly on vectors that are non-negative and sum to 1. |
| Optimize.CleanWeightsEntries | analytics/pae/models/optimize.py:281-290 | Cleaning gives equal weights if nothing is positive; otherwise what is not positive becomes 0 and the positive weights keep their proportions. |
| Optimize.CleanedClose | analytics/pae/models/optimize.py:281-290 | Cleaning a vector that sums to 1 and has no weight below -eps moves no weight by more than n * eps. |
| Optimize.MinVarianceConjugate | analytics/pae/models/optimize.py:326-339 | The minimum-variance solution sums to 1 and is conjugate under the covariance to every direction that sums to 0. |
| Optimize.MinVarianceOptimal | analytics/pae/models/optimize.py:326-339 | For a positive-definite covariance no vector summing to 1, long-only or not, has a smaller variance, and no other has an equal one. |
| Optimize.MinVarianceMixOptimal | analytics/pae/models/optimize.py:326-342 | The reported closed-form mix is on the simplex, and it minimises the variance over all vectors summing to 1 if and only if the raw solution has no negative weight (entries in [-1e-9, 0) are accepted but clipped). |
| Optimize.MinVarianceAnswers | analytics/pae/models/optimize.py:326-342 | The closed form answers exactly when the covariance has an inverse, the solution of cov * raw = 1 has a sum other than 0, and no weight of that solution scaled to sum 1 is below -1e-9; the answer is within n * 1e-9 of the scaled solution in every weight, and equal to it if none is negative. |
| Optimize.TangencyConjugate | analytics/pae/models/optimize.py:307-320 | The tangency solution turns the excess return of any vector into its covariance with the solution. |
| Optimize.TangencyOptimal | analytics/pae/models/optimize.py:307-320 | For a positive-definite covariance no vector has a larger Sharpe ratio than the tangency solution (square-root-free form). |
| Optimize.TangencyUnique | analytics/pae/models/optimize.py:307-320 | It is the only fully invested vector with that property. |
| Optimize.MaxSharpeMixOptimal | analytics/pae/models/optimize.py:296-323 | The reported closed-form tangency mix is on the simplex, and has the largest Sharpe ratio of all vectors if and only if the raw solution has no negative weight. |
| Optimize.MaxSharpeAnswers | analytics/pae/models/optimize.py:296-323 | The same for the tangency mix and the solution of cov * raw = mu - riskFree, which must have a positive sum; no answer if no asset beats the risk-free rate. |
| Optimize.ReportedSharpeLargest | analytics/pae/models/optimize.py:260-278 | The Sharpe ratio _stats reports for such a mix is at least the one it reports for any fully invested vector, if the mix's volatility clears the 1e-12 floor. |
| Optimize.StatsMeaning | analytics/pae/models/optimize.py:260-278 | What _stats reports: the return, a volatility whose square is the variance, and a Sharpe ratio that times the volatility is the excess return; 0 at a volatility of at most 1e-12. |
| RiskParity.Step | analytics/pae/models/optimize.py:424-436 | One pass of the loop keeps every weight strictly positive and the sum at 1. |
| RiskParity.StepEqualises | analytics/pae/models/optimize.py:429-431 | One pass makes new weight times clamped old marginal the same number for every asset. |
| RiskParity.MarginalDrift | analytics/pae/models/optimize.py:429-432 | Weights that moved by at most tol move each marginal by at most tol times the absolute row sum of the covariance. |
| RiskParity.ContributionNearCommon | analytics/pae/models/optimize.py:429-435 | After a pass that moved no weight by more than tol, from marginals above 1e-16, each risk contribution is within tol times the row bound of one common value. |
| RiskParity.ContributionsEqualised | analytics/pae/models/optimize.py:429-435 | Hence any two risk contributions differ by at most 2 * tol * (largest absolute row sum), and by nothing at an exact fixed point. |
| RiskParity.FixedPointEqualIffUnclamped | analytics/pae/models/optimize.py:429-435 | At an exact fixed point an asset carries the risk of an unclamped asset if and only if its own marginal was not clamped. |
| RiskParity.FallbackContributions | analytics/pae/models/optimize.py:437-442 | Inverse-volatility weights give two assets equal risk exactly when their correlations with all assets sum to the same number. |
| RiskParity.DiagonalRowSum | analytics/pae/models/optimize.py:437-442 | For a diagonal covariance that sum is 1 exactly when the asset's variance was not floored. |
| RiskParity.FallbackExactForDiagonal | analytics/pae/models/optimize.py:416-442 | For a diagonal covariance with a positive variance, the fallback is exact risk parity if and only if every variance is at least 1e-12 of every other. |
| RiskParity.FallbackInverseVolatility | analytics/pae/models/optimize.py:437-442 | For any covariance with a positive variance the fallback has weight^2 times variance the same for all assets, where a variance counts as at least 1e-12 of the largest. |
| RiskParity.FallbackWithoutVariance | analytics/pae/models/optimize.py:437-442 | Where no variance is positive the fallback is equal weights. |
| RiskParity.Iterate | analytics/pae/models/optimize.py:420-436 | Every iterate from equal weights is strictly positive and sums to 1. |
| RiskParity.InverseVarianceWeights | analytics/pae/models/optimize.py:424-436 | What one pass from equal weights gives for uncorrelated assets: positive, summing to 1. |
| RiskParity.FirstStep | analytics/pae/models/optimize.py:424-436 | For uncorrelated assets with variances of at least n * 1e-16 the first pass leads from equal weights to inverse-variance weights, and no marginal is clamped at either. |
| RiskParity.StepTwice | analytics/pae/models/optimize.py:424-436 | On a diagonal covariance two passes without clamping lead back to where they started, from any positive weights. |
| RiskParity.IterateAlternates | analytics/pae/models/optimize.py:420-436 | So the iterates alternate between equal and inverse-variance weights. |
| RiskParity.DiagonalStops | analytics/pae/models/optimize.py:410-436 | Every pass stops or none does: exactly when the inverse-variance weights are within the tolerance of equal weights. |
| RiskParity.TwoAssetsNeverSettle | analytics/pae/models/optimize.py:398-436 | Two uncorrelated assets with variances 1 and 4 never settle at the tolerance of 1e-12. |
| RiskParity.DegenerateExit | analytics/pae/models/optimize.py:424-427 | A loop that ends at a variance that is not positive leaves equal weights exactly when the variance at equal weights is not positive. |
| RiskParity.DegenerateExitLater | analytics/pae/models/optimize.py:424-427 | On a semidefinite covariance the loop ends so on its second pass, at weights 1/3 and 2/3. |
| RiskParity.RiskParityWeights | analytics/pae/models/optimize.py:398-443 | _risk_parity_weights: positive weights on the simplex; converged exactly when some pass within the limit stops, and then the iterate of the first such pass; otherwise the inverse-volatility weights. For uncorrelated assets above the clamp: converged exactly when inverse-variance weights are within the tolerance of equal ones, and otherwise exact risk parity if and only if no variance is floored. |
| RiskParity.ConvergedIsRiskParity | analytics/pae/models/optimize.py:398-443 | A converged result from an iterate of positive variance and unclamped marginals is equal-risk within 2 * tol * (largest absolute row sum). |
| TwoAssetRiskParity.TiltStep | analytics/pae/models/optimize.py:424-436 | For two assets of correlation rho, a pass from unclamped marginals turns the tilt (the relative difference of the two volatility shares) around and scales it by (1 - rho) / (1 + rho). |
| TwoAssetRiskParity.PassContracts | analytics/pae/models/optimize.py:424-436 | So a pass comes closer to risk parity exactly when rho is positive, unless it is there already. |
| TwoAssetRiskParity.TiltAfter | analytics/pae/models/optimize.py:420-436 | After k passes without clamping the tilt is that of equal weights times the k-th power of minus that factor. |
| TwoAssetRiskParity.NeverClamped | analytics/pae/models/optimize.py:424-436 | Without negative correlation no marginal is ever clamped, if the cube of the smaller volatility is at least 1e-16 times their sum. |
| TwoAssetRiskParity.NegativeCorrelationClamps | analytics/pae/models/optimize.py:410-414 | With negative correlation and different volatilities some pass meets a marginal below the clamp. |
| TwoAssetRiskParity.PositiveCorrelationSettles | analytics/pae/models/optimize.py:424-436 | With positive correlation some pass stops, whatever the tolerance. |
| TwoAssetRiskParity.NoCorrelationNeverSettles | analytics/pae/models/optimize.py:424-436 | Without correlation and with different volatilities there is a tolerance at which none ever does. |
| TwoAssetRiskParity.SettlesIffCorrelated | analytics/pae/models/optimize.py:410-436 | Without negative correlation the loop settles at every tolerance if and only if the assets are correlated or equally volatile. |
| Frontier.SlotsOnSimplex | analytics/pae/models/optimize.py:601-639 | Whatever the numerical solver returns, the maximum-Sharpe and minimum-variance slots lie on the simplex; if no asset beats the risk-free rate the former carries the latter's weights. |
| Frontier.MinVarianceSlotHolds | analytics/pae/models/optimize.py:629-639 | The slot holds the closed form, within n * 1e-9 of the scaled solution, exactly when the covariance has an inverse and no scaled weight is below -1e-9; otherwise the solver's answer, cleaned, or the failure. |
| Frontier.MaxSharpeSlotHolds | analytics/pae/models/optimize.py:601-628 | The same for the tangency mix; it holds the minimum-variance mix, marked as fallback, exactly when no asset beats the risk-free rate. |
| Frontier.ArgMax | analytics/pae/models/optimize.py:496 | np.argmax: the first index of the largest entry. |
| Frontier.BestAssetReturn | analytics/pae/models/optimize.py:496-500 | No mix on the simplex earns more than everything in the best asset. |
| Frontier.EfficientFrontier | analytics/pae/models/optimize.py:480-524 | The frontier loop: both ends as documented, two points on a degenerate range, each inner point the solver's answer for its own evenly spaced target from the point before (or that point carried forward); all points on the simplex, none earning more than the last. |
| Frontier.Target | analytics/pae/models/optimize.py:509 | The k-th target divides the range of returns in n - 1 equal parts: (n - 1) times it is (n - 1 - k) times the low end plus k times the high end. |
| Frontier.MoreReturnMoreVariance | analytics/pae/models/optimize.py:449-477 | Above the return of the minimum-variance mix, a mix of least variance for its return has no more variance than any long-only mix of higher return. |
| Frontier.FrontierAscends | analytics/pae/models/optimize.py:480-524 | With a solver that finds least-variance long-only mixes for its targets, or fails, and a minimum-variance first point, neither return nor volatility ever falls along the frontier. |
| Frontier.MinimisesVarianceOnSimplex | analytics/pae/models/optimize.py:326-342 | A closed-form minimum-variance mix without negative weights has the least variance of all long-only mixes. |
| Frontier.FirstPointLeastVolatile | analytics/pae/models/optimize.py:480-524 | If the first point has the least variance of all long-only mixes, no frontier point has a smaller reported volatility. |
| Bonds.PresentValue | engine/c/pae_bonds.c:22-28 | The loop sums the discounted legs. |
| Bonds.NpvIsSum | engine/c/pae_bonds.c:22-28 | The value is the sum of amount times discount factor over the legs. |
| Bonds.WeightedSums | engine/c/pae_bonds.c:73-88 | One pass yields the value and both time-weighted sums. |
| Bonds.YieldToMaturity | engine/c/pae_bonds.c:36-71 | The solver answers exactly for valid legs whose price is bracketed by -0.999999 and 10; the answer reprices within 1e-12 * (1 + abs(price)) or is an end of a bracket reached by 200 halvings that still holds NPV(lo) >= price >= NPV(hi). |
| Bonds.NpvDecreasing | engine/c/pae_bonds.c:42-43 | Non-negative flows are worth no more at a higher yield, strictly less if one is positive. |
| Bonds.ExactYield | engine/c/pae_bonds.c:42-70 | For such flows an exact yield is unique, lies in every bracket of the price, and is within the final bracket width of an answer that ends a bracket. |
| Bonds.DurationBetween | engine/c/pae_bonds.c:99-106 | Macaulay duration lies between the earliest and the latest cash-flow time. |
| Bonds.DurationNonIncreasing | engine/c/pae_bonds.c:99-106 | Macaulay duration never rises with the yield. |
| Bonds.ConvexityLowerBound | engine/c/pae_bonds.c:115-123 | convexity * (1 + y)^2 >= D * (D + 1). |
| BondCurvature.FactorCurve | engine/c/pae_bonds.c:64-123 | The four discount laws imply that a factor lies below its second-order expansion at every higher yield and above it at every lower one, for every positive time. |
| BondCurvature.ConvexityBoundsPrice | engine/c/pae_bonds.c:98-123 | The expansion of the price by modified duration and convexity, value * (1 - modified * h + convexity * h^2 / 2), is not below the price at any higher yield and not above it at any lower one. |
| BondCurvature.ConvexityBetween | engine/c/pae_bonds.c:115-123 | convexity * (1 + y)^2 lies between t * (t + 1) at the earliest and at the latest time t, and so is t * (t + 1) for a single payment. |
| Bonds.ModifiedDurationBoundsPrice | engine/c/pae_bonds.c:108-113 | The tangent that modified duration gives never overstates the value at another yield. |
| Bonds.MacaulayDuration | engine/c/pae_bonds.c:99-106 | Answers exactly for valid legs of positive value, with the ratio of the sums. |
| Bonds.ModifiedDuration | engine/c/pae_bonds.c:108-113 | Answers exactly for valid legs of positive value, with duration over 1 + y. |
| Bonds.BondConvexity | engine/c/pae_bonds.c:115-123 | Answers exactly for valid legs of positive value, with the second sum over value times (1 + y)^2. |
| Bonds.ValidateBond | engine/src/api/bonds.rs:125-159 | No fault exactly when the legs number 1 to 1200 at positive times, exactly one of price and yield is given, and it is in range; otherwise what the fault says, legs looked at first and the first bad leg named. |
| Bonds.FirstBadLeg | engine/src/api/bonds.rs:132-136 | The first leg whose time is not positive. |
| Bonds.PayingBondHasValue | engine/src/api/bonds.rs:167-172 | A bond that pays something, and nothing negative, has positive value at every yield, so its durations exist. |
| Bonds.AnalyzeBond | engine/src/api/bonds.rs:124-182 | analyze_bond: faults first, in the code's order; a price fails to solve exactly when it is not bracketed; a result reports value, durations and convexity at its yield, and that yield reprices the bond within tolerance or ends a bracket of width 10.999999 / 2^200. |
| PaymentPeriods.PowersCompared | engine/c/pae_bonds.c:15-20 | For x > 0, m * x^m * (x^k - 1) >= k * (x^m - 1): the inequality behind the tangent law at fractional times. |
| PaymentPeriods.PeriodicLaws | engine/c/pae_bonds.c:15-20 | Powers of an m-th root of 1/(1 + y) satisfy, at all positive multiples of 1/m, every law the bond results assume of the discount factor. |
| PaymentPeriods.AnnualLaws | engine/c/pae_bonds.c:15-20 | In particular repeated multiplication does at whole times. |
| PaymentPeriods.MixedSignsHaveTwoYields | engine/c/pae_bonds.c:42-56 | Flows of mixed sign can have two exact yields while the bracket check refuses the price: the comment's positivity is needed. |
| Versions.PreimageInjective | engine/src/versioning/types.rs:66-72 | Unless one id is a proper prefix of the other, the hash preimage determines id, version and content. |
| Versions.PreimageAmbiguous | engine/src/versioning/types.rs:66-72 | When one id is a proper prefix of another, every version and content of the longer has the preimage of exactly one version and content of the shorter, hence its hash under every hash function. |
| Versions.PreimagesClashIffRelated | engine/src/versioning/types.rs:66-72 | So two different ids share a preimage if and only if one is a proper prefix of the other. |
| Versions.PrintableClash | engine/src/versioning/types.rs:66-72 | Version 354 of "a" with a zero byte before its content has the preimage of version 1 of "ab". |
| Versions.AppendKeepsChain | engine/src/versioning/store.rs:82-119 | Appending keeps the chain invariant: index i holds version i+1, its own hash, and the previous record's hash as parent. |
| Versions.VersionsHaveDistinctHashes | engine/src/versioning/types.rs:64-72 | Two versions of one entity share a hash only if they are the same version, or a collision of the hash. |
| Versions.TipDoesNotCommit | engine/src/versioning/types.rs:65-72 | The tip hash does not commit to the history: the first version can be rewritten and its successor relinked, and the chain verifies with the same tip hash. |
| Versions.TipFixesLastVersion | engine/src/versioning/types.rs:65-72 | Collisions aside, a tip hash does fix the length of the chain and the content of its last version. |
| Versions.TipCommitsIffSingle | engine/src/versioning/types.rs:65-72 | So a tip hash without a second preimage commits to the contents of the chain if and only if there is a single version. |
| Versions.VerifyIgnoresNumbering | engine/src/versioning/store.rs:214-236 | verify_chain does not look at ids and version numbers: any records verify once hashes and links are recomputed, and make a chain that append builds exactly when they are numbered 1, 2, 3, ... under one id. |
| Versions.LinksVerifyMeaning | engine/src/versioning/store.rs:223-235 | verify_chain accepts exactly the chains of which every hash is that of id, eight little-endian bytes of the version and content, the first has no parent, and every other has its predecessor's hash. |
| Versions.TamperDetected | engine/src/versioning/store.rs:215-236 | A verified chain no longer verifies with another content at any version, unless hashes collide; if the hash of that version is replaced too, as long as it is not the last. |
| VersionStores.Database.InsertVersionRecord | engine/src/storage/db.rs:457-495 | A row is added exactly when the write succeeds and neither its hash nor its (entity, version) is taken; otherwise the table is unchanged. |
| VersionStores.Database.LoadVersionRecords | engine/src/storage/db.rs:505-590 | All rows and no others, sorted by entity id, then version. |
| VersionStores.LoadedRowsSorted | engine/src/versioning/store.rs:58-62 | The load order already lists each entity by version, so the defensive sort changes nothing. |
| Ordering.LexMeaning | engine/src/storage/db.rs:529 | Byte strings are compared where they first differ; a prefix comes before what continues it. |
| VersionStores.GroupRows | engine/src/versioning/store.rs:51-57 | Grouping keeps each entity's rows in load order. |
| VersionStores.SortChains | engine/src/versioning/store.rs:60-62 | Every chain is sorted by version, whatever order the map yields them in. |
| VersionStores.RebuildIndex | engine/src/versioning/store.rs:51-62 | The rebuilt index has exactly the entities of the rows, each with its rows by version. |
| VersionStores.LoadedIndex | engine/src/versioning/store.rs:46-68 | Rebuilding from the ordered load is rebuilding from the table itself. |
| VersionStores.RebuiltChains | engine/src/versioning/store.rs:46-68 | Reopening reads back every chain as it is in the table. |
| VersionStores.VersionStore.InMemory | engine/src/versioning/store.rs:29-34 | A new store has no records and no backend, and is intact. |
| VersionStores.VersionStore.OpenPersistent | engine/src/versioning/store.rs:46-68 | Opening restores an index that depends on the rows of the table alone; the store is intact exactly when each entity's rows are a chain that append builds. |
| VersionStores.VersionStore.Append | engine/src/versioning/store.rs:72-120 | The record is built on the entity's chain and written first; on success table and chain both grow by it, on failure neither does; an intact store stays intact. After a success the last record of the chain carries the type, content, author, nonce, summary and tags of the draft, stamped with the time of the append; a snapshot as of an earlier time, or for other types or ids, is unchanged, and any other shows the draft in the place of what it showed of the entity. |
| Versions.NextRecordCarries | engine/src/versioning/store.rs:72-120 | The new record has the type, content, author, nonce, summary and tags of the draft, and the time of the append. |
| VersionStores.VersionStore.GetLatest | engine/src/versioning/store.rs:123-127 | The last record of the chain, if any. |
| VersionStores.TypeIgnored | engine/src/versioning/types.rs:86-93 | The entity type of a query makes no difference: an open query returns records of every type. |
| VersionStores.VersionStore.Query | engine/src/versioning/store.rs:145-174 | The last record alone, or the records of the window in version order cut to the limit. |
| VersionStores.AnswerMeaning | engine/src/versioning/store.rs:145-174 | A record of the chain is in the answer exactly when it is stamped from since to until, both included where given; the order of the chain is kept; a limit keeps the first so many; latest-only gives the last record whatever its stamp. |
| VersionStores.VersionStore.VerifyChain | engine/src/versioning/store.rs:215-236 | True exactly when every record has its own hash and its predecessor's as parent; always true of an intact store. |
| VersionStores.VersionStore.SnapshotRecords | engine/src/versioning/store.rs:180-204 | The point-in-time view: each entity at most once, in id order, whatever order the map is walked in. |
| CrashRecovery.InitialConsistent | engine/src/versioning/store.rs:29-34 | The empty state is consistent. |
| CrashRecovery.StepConsistent | engine/src/versioning/store.rs:110-118 | Each step (persist, acknowledge, refuse, crash, reopen) keeps table and memory equal up to the one record in flight, and only adds to the table and to what was acknowledged. |
| CrashRecovery.RunConsistent | engine/src/versioning/store.rs:46-120 | So does every run. |
| CrashRecovery.AcknowledgedSurvives | engine/src/versioning/store.rs:46-120 | After any run an acknowledged record is in its entity's chain at the place its version number says. |
| CrashRecovery.AppendSteps | engine/src/versioning/store.rs:72-120 | An append is a persist and an acknowledge when the table accepts the row, and one refused step otherwise. |
| CrashRecovery.CrashThenReopen | engine/src/versioning/store.rs:36-68 | A crash at any point and a reopen give back the memory chains plus the record in flight. |
| CrashRecovery.ConflictExactly | engine/src/storage/db.rs:361-375 | Collisions with a stored row aside, the table constraints refuse an append exactly when its preimage is that of a stored version of an id that continues the new one or is continued by it. |
| CrashRecovery.SamePreimageRefused | engine/src/storage/db.rs:361-375 | Under every hash function, a stored row with the preimage of the new record makes the table refuse it. |
| CrashRecovery.NoConflict | engine/src/storage/db.rs:361-375 | In particular they refuse none while no stored id is a proper prefix of the new one or the reverse. |
| ReachedStates.ReachedChainsVerify | engine/src/versioning/store.rs:46-120 | In every state that a run of appends, refusals, crashes and reopens reaches, every chain in memory is one that append builds, and verify_chain is true of it. |
| ReachedStates.MemoryChainsVerify | engine/src/versioning/store.rs:72-120 | So too after any appends to a store without a table. |
| ReachedStates.RunCarries | engine/src/versioning/store.rs:72-120 | The table is, draft by draft, what a run appended to it. |
| ReachedStates.ReachedChainsCarry | engine/src/versioning/store.rs:72-120 | After any run, over crashes and reopenings, the chain of an entity with the record in flight carries types, contents, nonces, authors, summaries, tags and stamps of the drafts accepted for it, in order. |
| ReachedStates.MemoryChainsCarry | engine/src/versioning/store.rs:72-120 | So does every chain of a store without a table, after any appends. |
| ReachedStates.ReachedSnapshot | engine/src/versioning/store.rs:176-204 | Hence so does every snapshot of a reached state. |
| ReachedStates.ReachedWindow | engine/src/versioning/snapshot.rs:46-102 | Looking later shows more entities, none at a lower version, and the diff of the window removes nothing. |
| ReachedStates.ReachedDiffsCompose | engine/src/versioning/snapshot.rs:49-102 | Consecutive diffs of a reached state compose. |
| ReachedStates.ClashReached | engine/src/storage/db.rs:361-375 | For any two ids of which one continues the other, a run reaches a state that refuses a first version of the longer: after as many versions of the shorter as the continuation spells, if that is a number of versions a store can hold. |
| ReachedStates.PrintableClashReached | engine/src/storage/db.rs:361-375 | For instance, 354 versions of "a" make the table refuse a first version of "ab". |
| SnapshotViews.LatestAtHighest | engine/src/versioning/store.rs:194-197 | The reverse search finds the highest version that satisfies the time and type filters. |
| SnapshotViews.SnapshotIsLatest | engine/src/versioning/store.rs:176-204 | A snapshot holds exactly the entities, of the ids asked for if any, with a version stamped by then of one of the types asked for, if any; each at its highest such version. |
| SnapshotViews.SnapshotMonotone | engine/src/versioning/store.rs:176-204 | Looking later shows at least as many entities and none at a lower version, with no assumption about the clock. |
| SnapshotViews.LaterAppendInvisible | engine/src/versioning/store.rs:176-204 | An append stamped after as_of never changes the snapshot at as_of; nor does a refused one. |
| SnapshotViews.AppendedView | engine/src/versioning/store.rs:72-204 | A snapshot after an append is the one before it if the append is of a later time, or of a type or id not asked for; otherwise it shows the draft for its entity, and everything else as before. |
| SnapshotViews.SortedListing | engine/src/versioning/store.rs:202-203 | Sorting any collection of a view's records lists the view. |
| SnapshotViews.ListingUnique | engine/src/versioning/store.rs:178-179 | The order is deterministic: a view has one listing only. |
| SnapshotViews.DiffIsPatch | engine/src/versioning/snapshot.rs:49-102 | Applied to the id-to-hash view of the first snapshot, with the hashes of added entities looked up, a diff gives the second; without the lookup it does so exactly when it adds nothing. |
| SnapshotViews.ChangesReported | engine/src/versioning/snapshot.rs:77-95 | A diff reports a change exactly for an entity of both views with different hashes, with the version and hash it had and those it has. |
| SnapshotViews.AddedHashUnknown | engine/src/versioning/snapshot.rs:67-71 | An added entity's hash is not in the diff: two different second snapshots give the same diff. |
| SnapshotViews.DiffReverses | engine/src/versioning/snapshot.rs:49-102 | The diff of the opposite window is the diff read backwards. |
| SnapshotViews.ForwardDiffRemovesNothing | engine/src/versioning/snapshot.rs:46-48 | With from <= to nothing is removed, whatever the clock did. |
| SnapshotViews.ForwardChangesAscend | engine/src/versioning/snapshot.rs:46-95 | And every change is to a higher version. |
| SnapshotViews.DiffsCompose | engine/src/versioning/snapshot.rs:49-102 | Consecutive diffs compose to the diff of the whole window, if no two versions of an entity are a collision. |
| SnapshotViews.SameHashSameRecord | engine/src/versioning/snapshot.rs:78-88 | Two snapshots agree on an entity's hash only by showing the same version, if no two of its versions are a collision. |
| SnapshotEngines.ById | engine/src/versioning/snapshot.rs:58-65 | Collecting a listing by id gives the view. |
| SnapshotEngines.OneSided | engine/src/versioning/snapshot.rs:67-76 | The ids on one side only, sorted. |
| SnapshotEngines.ModifiedEntities | engine/src/versioning/snapshot.rs:77-90 | Exactly the entities on both sides whose hashes differ, with both versions and hashes, sorted. |
| SnapshotEngines.SnapshotEngine.SnapshotAt | engine/src/versioning/snapshot.rs:36-42 | The listing of the view at the time asked for. |
| SnapshotEngines.SnapshotEngine.Diff | engine/src/versioning/snapshot.rs:49-102 | The diff of the two snapshots. |
| ColumnMajor.SlotInjective | engine/src/num_ffi.rs:147-152 | No two entries of a column-major buffer share a position. |
| ColumnMajor.SlotSurjective | engine/src/num_ffi.rs:147-152 | Every position of the buffer holds an entry. |
| ColumnMajor.LayoutInjective | engine/src/num_ffi.rs:156-161 | Two buffers that read back as the same matrix are the same buffer. |
| ColumnMajor.RowsAreTransposedColumns | engine/src/num_ffi.rs:156-161 | Reading rows is reading columns and transposing. |
| ColumnMajor.StoreColumns | engine/src/num_ffi.rs:268-274 | Filling the observation buffer stores series j as column j. |
| ColumnMajor.ToColMajor | engine/src/num_ffi.rs:137-154 | None exactly for an empty or ragged matrix; otherwise from_col_major gives the matrix back. |
| NumKernels.CentredCopy | engine/c/pae_num.c:96-106 | Each column of the copy is the input's column minus its mean; the input is not touched. |
| NumKernels.Multiply | engine/c/pae_num.c:108-111 | The BLAS call: entry (i, j) is the product of columns i and j. |
| NumKernels.CovarianceKernel | engine/c/pae_num.c:93-118 | The result buffer holds the sample covariance of every two columns; refused exactly for fewer than 2 rows or no column, and then left alone. |
| NumKernels.MaxVariance | engine/c/pae_num.c:123-128 | The largest diagonal entry, at least 0. |
| NumKernels.CorrelationKernel | engine/c/pae_num.c:120-160 | Every entry by the kernel's rule: unit or zero diagonal, 0 at or below 1e-12 of the largest variance, else the clamped ratio. |
| NumKernels.CovarianceMatrix | engine/src/num_ffi.rs:259-288 | Fails exactly on no series, fewer than two observations or unequal lengths; otherwise the covariance of every two series. |
| NumKernels.CovarianceSymmetric | engine/c/pae_num.c:93-118 | The covariance matrix is symmetric. |
| NumKernels.KernelSymmetric | engine/c/pae_num.c:120-160 | The correlation kernel keeps symmetry. |
| Samples.VarianceZero | engine/src/num_ffi.rs:310-313 | A series has variance 0 exactly when it is constant: over the reals the degeneracy test is exact. |
| NumKernels.CorrelationMatrix | engine/src/num_ffi.rs:301-337 | Fails exactly on incomparable series; otherwise the kernel's matrix with zero rows and columns around a unit diagonal for constant series. |
| Correlation.FormIsPortfolioVariance | engine/c/pae_num.c:93-118 | The quadratic form of the covariance at w is the variance of the portfolio that holds the series with weights w. |
| Correlation.CovarianceSemidefinite | engine/c/pae_num.c:93-118 | The covariance matrix of any series is symmetric and positive semidefinite. |
| Correlation.CorrelationViaNative | engine/src/risk/correlation.rs:67-113 | The native route always has an answer, so the fallback below it is never taken. |
| Correlation.PearsonCorrelation | engine/src/risk/correlation.rs:164-200 | One pass with three running sums gives Pearson's coefficient over the common trailing window, 0 when undefined. |
| Correlation.PairwiseMatrix | engine/src/risk/correlation.rs:119-142 | Upper triangle and mirror: each entry is the clamped coefficient of its pair. |
| Correlation.ComputeMatrix | engine/src/risk/correlation.rs:33-61 | The window is the given one, at least 2, by default 90; the matrix is the native one. |
| Correlation.PearsonBounded | engine/src/risk/correlation.rs:144-200 | Over the reals the clamp never acts (Cauchy-Schwarz), and the coefficient is 0 only for covariance 0. |
| Correlation.PearsonMeaning | engine/src/risk/correlation.rs:144-200 | The coefficient squared times both sums of squares about the mean is the square of the sum of products, whose sign it has; it is 0 if a series is constant. |
| Correlation.OnlyRecent | engine/src/risk/correlation.rs:144-160 | Only the last observations count, as many as the window or the shorter history gives; fewer than two give 0. |
| Correlation.PearsonSymmetric | engine/src/risk/correlation.rs:164-200 | The coefficient does not depend on the order of the pair. |
| Correlation.SelfCorrelation | engine/src/risk/correlation.rs:164-200 | A series that varies has coefficient 1 with itself. |
| Correlation.EntryAgrees | engine/src/risk/correlation.rs:67-200 | On aligned series a native entry equals the pairwise one exactly when neither series varies by 0 < variance <= 1e-12 of another's or the two are uncorrelated; otherwise it is 0. |
| Correlation.TinyIffBelowTolerance | engine/c/pae_num.c:118-146 | The series the kernel leaves out are those that vary by at most 1e-12 of the variance of some series. |
| Correlation.NativeMatchesPairwise | engine/src/risk/correlation.rs:12-32 | For histories of one window length the native matrix is the pairwise reference exactly when that holds of every pair. |
| Correlation.ShortHistoriesAgree | engine/src/risk/correlation.rs:69-92 | With fewer than two holdings or observations both routes give the identity. |
| Correlation.TinySeriesLosesCorrelation | engine/c/pae_num.c:129-146 | A series with variance 5e-15 beside one with variance 1/2, perfectly correlated: pairwise 1, native 0. |
| Correlation.ShortWindowAgrees | engine/src/risk/correlation.rs:84-92 | With fewer than two observations common to all, the identity is the pairwise matrix if and only if every pair has fewer than two common observations or covariance 0 over its own window. |
| Correlation.ShortHistoryBlanksAll | engine/src/risk/correlation.rs:84-92 | One history of fewer than two observations makes every native entry off the diagonal 0, also where the pairwise route finds correlation 1. |
| PortfolioSeries.PeriodReturns | analytics/pae/server.py:825-866 | The server's series: refusals in the code's order, empty histories skipped, tails weighted by renormalised market values. |
| PortfolioSeries.EngineSeriesMeaning | engine/src/risk/metrics.rs:16-36 | The engine's series has an entry for each period all histories cover, the average of that period's returns by market value; it is empty exactly if there is no holding, a history is empty or the values sum to 0. |
| PortfolioSeries.ServerSeriesMeaning | analytics/pae/server.py:825-866 | The server refuses, in this order, no holdings, no market value, no history and no value among those with a history; otherwise the series ends where the histories end, is as long as the shortest that is not empty, and averages each period over the holdings with a history. |
| PortfolioSeries.ServerIsEngineOnTails | analytics/pae/server.py:841-866 | It is the engine's series of the usable holdings, each cut to the common tail. |
| PortfolioSeries.SameLengthSameSeries | engine/src/risk/metrics.rs:16-36 | For histories of one positive length engine and server compute the same series. |
| Drawdown.MaxDrawdown | engine/src/risk/metrics.rs:164-192 | One pass with a running peak yields the largest decline from the peak so far. |
| Drawdown.WealthChanges | engine/src/risk/metrics.rs:169-174 | The return of a period is the change of the wealth over it as a share of the wealth before. |
| Drawdown.MaxDropIsMaximum | engine/src/risk/metrics.rs:176-191 | That value covers the decline at every point and is attained at one. |
| Drawdown.DrawdownIsPairLossIff | engine/src/risk/metrics.rs:158-191 | It is the largest loss between any two points in order if and only if every negative wealth, measured by any positive wealth before it, is no worse than some negative wealth measured by its own peak. |
| Drawdown.DrawdownIsLargestPairLoss | engine/src/risk/metrics.rs:158-191 | In particular if the wealth never goes negative. |
| Drawdown.MaxDrawdownIsLargestLoss | engine/src/risk/metrics.rs:164-192 | Hence for every series of returns of at least -100%. |
| Drawdown.DrawdownAtMostOne | engine/src/risk/metrics.rs:164-192 | It is never negative, and at most 1 exactly when the wealth never goes negative. |
| Drawdown.NegativeWealthPairExceeds | engine/src/risk/metrics.rs:164-192 | With a loss of more than 100% a pair can lose more than the drawdown reported (wealth 1, 1/2, -1/2), but need not (1, -1/2). |
| Drawdown.CumulativeGrowth | analytics/pae/server.py:869-875 | The growth of 1, without the starting point. |
| Drawdown.DrawdownSeries | analytics/pae/server.py:878-885 | At each period the decline from the peak since the first period. |
| Drawdown.ChartNeverDeeper | analytics/pae/server.py:878-885 | For returns of at least -100% the chart never shows a deeper drawdown than the engine reports, nor a positive one. |
| Drawdown.ChartWorstPoint | analytics/pae/server.py:878-885 | Its worst point is the engine's drawdown if and only if some period reaches that drawdown from a peak the chart, which starts after the first period, sees too. |
| Drawdown.ChartWorstPointAfterGain | analytics/pae/server.py:878-885 | In particular when the first return is not a loss. |
| RankStatistics.VarIsQuantile | engine/src/risk/metrics.rs:120-130 | For a level from 0 up to 1 at most alpha * n returns are worse than minus the value at risk, and more than alpha * n are not better. |
| RankStatistics.VarBeyondLevels | engine/src/risk/metrics.rs:120-130 | A level below 0 reads the worst return, one from 1 on the best. |
| RankStatistics.CVarAtLeastVar | engine/src/risk/metrics.rs:132-154 | Conditional value at risk is at least value at risk, for every series and level. |
| RankStatistics.VarNonIncreasing | engine/src/risk/metrics.rs:120-130 | Value at risk never rises with the level. |
| RankStatistics.CVarNonIncreasing | engine/src/risk/metrics.rs:139-154 | Nor does conditional value at risk. |
| RankStatistics.CVarIsWorstAverage | engine/src/risk/metrics.rs:132-154 | No other choice of that many returns loses more on average. |
| RankStatistics.CVarIsTailAverage | engine/src/risk/metrics.rs:132-154 | Conditional value at risk by its definition, at every level: with k the rounded-down share alpha * n, at least 1 and at most n, no k of the returns lose more on average and some k lose exactly that. |
| RankStatistics.OrderIrrelevant | engine/src/risk/metrics.rs:120-154 | Both depend on the returns only as a collection. |
| MonteCarlo.FillPaths | engine/src/risk/montecarlo.rs:87-96 | Every path by repeated clamped steps. |
| MonteCarlo.RunSimulation | engine/src/risk/montecarlo.rs:29-135 | The response for any table of draws: counts clamped to their limits (10,000 paths and 120 months by default), five series that give at every step the nearest-rank percentile of the paths, and the share of paths that end below their start. |
| MonteCarlo.PathIsGrowth | engine/src/risk/montecarlo.rs:87-96 | A path is the start times the product of 1 + r over its steps, r being mean + std * z kept between -0.99 and 10. |
| MonteCarlo.SteadyGrowth | engine/src/risk/montecarlo.rs:87-96 | Draws of 0 compound the mean. |
| MonteCarlo.DeviationMeaning | engine/src/risk/montecarlo.rs:62-77 | The square of the deviation times n - 1 is the sum of squares about the mean; a single return has deviation 0. |
| MonteCarlo.PercentileIsNearestRank | engine/src/risk/montecarlo.rs:142-148 | A percentile is the value whose rank is nearest to p * (n - 1), halves up: at most that many values are below it and more than that many are not above it. |
| MonteCarlo.PathWithinBounds | engine/src/risk/montecarlo.rs:87-96 | Whatever is drawn, a path stays positive and within 0.01^t and 11^t times its start. |
| MonteCarlo.PercentilesInOrder | engine/src/risk/montecarlo.rs:142-148 | A larger p never gives a smaller percentile. |
| MonteCarlo.PercentileBands | engine/src/risk/montecarlo.rs:105-115 | At every step p5 <= p25 <= p50 <= p75 <= p95, all within the bounds of the paths. |
| MonteCarlo.PercentileAndLosses | engine/src/risk/montecarlo.rs:117-148 | A final percentile is below the initial value if and only if more paths lose than its rank. |
| MonteCarlo.FlatWithoutReturns | engine/src/risk/montecarlo.rs:24-27 | Without usable returns every path keeps the initial value and none loses. |
| Brinson.ValidateSegments | analytics/pae/models/brinson.py:75-134 | A side is accepted exactly when it is non-empty, every entry is well formed, and the weights sum to 1 within 1e-6; otherwise the fault is that of the first faulty entry. |
| Brinson.AcceptedMeaning | analytics/pae/models/brinson.py:75-134 | A side is accepted exactly if it is not empty, every entry is a dict with a name that is not blank and not used before, a weight from 0 to 1 and a numeric return, and the weights sum to 1 within 1e-6. |
| Brinson.EntryFault | analytics/pae/models/brinson.py:89-127 | What the fault of an entry says of it; of a dict with a new name the weight is looked at before the return, and both before the range. |
| Brinson.Attribute | analytics/pae/models/brinson.py:137-206 | Refuses exactly the sides that are not accepted, the portfolio first, with the fault of the side; otherwise one row per segment of either side and the three totals. |
| Brinson.RowIdentity | analytics/pae/models/brinson.py:13-14 | The three effects of a segment add up to its share of the active return in excess of the benchmark total. |
| Brinson.EffectsMeaning | analytics/pae/models/brinson.py:169-192 | Allocation is the change in excess over the benchmark total from benchmark to portfolio weight at the benchmark's return, selection the change from benchmark to portfolio return at the benchmark's weight, interaction the rest of changing both: equal returns leave only allocation, equal weights only selection. |
| Brinson.RowShows | analytics/pae/models/brinson.py:163-173 | A row shows what each side says of the segment; a side without it has weight 0 and its own total return. |
| Brinson.ReportTotals | analytics/pae/models/brinson.py:160-206 | The totals add up the rows, the returns of the sides their segments. |
| Brinson.NamesCover | analytics/pae/models/brinson.py:165 | The list of names covers both sides and repeats none. |
| Brinson.NamesInOrder | analytics/pae/models/brinson.py:165 | Portfolio segments come first in their order, then those of the benchmark alone in theirs. |
| Brinson.TotalsIdentity | analytics/pae/models/brinson.py:194-206 | The totals add up to the active return minus B * (sum of portfolio weights - sum of benchmark weights); hence exactly, if and only if B is 0 or the sums agree. |
| Brinson.AcceptedTotals | analytics/pae/models/brinson.py:129-206 | On accepted input they are within 2e-6 * abs(B) of the active return, one-sided segments included. |
| Brinson.PortfolioOnly | analytics/pae/models/brinson.py:169-178 | A segment only the portfolio holds has no allocation effect: all of its effect is interaction. |
| Brinson.BenchmarkOnly | analytics/pae/models/brinson.py:169-178 | For a segment only the benchmark holds selection and interaction cancel, and each is 0 only if its weight is 0 or it returned what the portfolio did. |
| Utf8.DecodeAppend | engine/src/main.rs:819-824 | Valid UTF-8 decodes piece by piece. |
| Utf8.DecodeTail | engine/src/main.rs:819-824 | After valid text, what follows decides whether the whole is valid. |
| Utf8.DecodeSplit | engine/src/main.rs:819-824 | Before an ASCII byte no character goes on: the whole is valid exactly when both sides are. |
| Utf8.EncodedIsText | engine/src/main.rs:819-824 | Every sequence of code points without surrogates, encoded in the shortest forms of one to four bytes (RFC 3629, section 3), is text and decodes to itself. |
| Utf8.TextIsEncoded | engine/src/main.rs:819-824 | Text is nothing else: what decodes is that encoding of its code points. |
| Utf8.TrimMeaning | engine/src/main.rs:824 | Trimming takes off what is white at both ends and nothing else. |
| ChunkedBody.Reader.ReadLine | engine/src/main.rs:819-823 | A line up to and including the first line feed, or an error if it is not UTF-8. |
| ChunkedBody.Reader.ReadExact | engine/src/main.rs:843-851 | Exactly the bytes asked for, or an error if fewer are left. |
| ChunkedBody.ReadTrailers | engine/src/main.rs:828-838 | Skips lines up to and including the first empty one, or to the end of input. |
| ChunkedBody.ReadChunkedBody | engine/src/main.rs:814-854 | The loop over the reader is the decoder function: same body, same error, and the reader stands where the function stops. |
| ChunkedBody.SizeLineRead | engine/src/main.rs:819-826 | A size line in either hex case, with leading zeros, blanks, any extension, and CRLF or a bare line feed, is read as its size, unless the extension is not UTF-8, has blanks before it, or the size is 2^64 or more. |
| ChunkedBody.HexDigitMeaning | engine/src/main.rs:825-826 | The digits are the sixteen of either case in their order. |
| ChunkedBody.HexValueAppend | engine/src/main.rs:825-826 | A size is positional: a digit counts 16 times what the next does. |
| ChunkedBody.SizeMeaning | engine/src/main.rs:825-826 | A size may have one plus sign before its digits, and is refused from 2^64 on. |
| ChunkedBody.TrailersRead | engine/src/main.rs:827-838 | Any trailer lines are skipped to exactly after the empty line if and only if all of them are UTF-8. |
| ChunkedBody.DecodesEncoding | engine/src/main.rs:814-854 | Decoding inverts the chunked coding (section 7.1 of RFC 9112) for all non-empty chunks, hex spellings, blanks, extensions and trailers, any bytes in them, and leaves what follows untouched, up to the first line that is not UTF-8 or has blanks before its extension; its fault is then the result. |
| ChunkedBody.ReadIffPlain | engine/src/main.rs:814-854 | So an encoding is read if and only if all its extensions and trailers are UTF-8 and no extension has blanks before it. |
| ChunkedBody.HexTextIsSize | engine/src/main.rs:825-826 | Every size has a spelling, so every list of chunks has an encoding. |
| ChunkedBody.SpaceBeforeExtensionRefused | engine/src/main.rs:824-826 | White space before the semicolon, which section 7.1.1 of RFC 9112 lets stand, is refused. |
| ChunkedBody.ObsTextRefused | engine/src/main.rs:830-834 | An empty body with the trailer "X: " and the byte 0xE9, which section 5.5 of RFC 9110 lets stand, is refused. |
| ChunkedBody.TerminatorUnchecked | engine/src/main.rs:847-851 | After a size line without fault the data is taken, and the two bytes after it are skipped whatever they are. |
| ChunkedBody.EndOfInputEndsTrailers | engine/src/main.rs:835-837 | A stream that ends right after a last-chunk line without fault counts as complete. |
| TruncatedBody.TrailersCut | engine/src/main.rs:828-838 | A stream that stops anywhere in the trailers counts as complete, unless what there is of them is not UTF-8. |
| TruncatedBody.ChunkCut | engine/src/main.rs:819-851 | Inside a chunk only a stop within leading zeros of its size counts as the end. |
| TruncatedBody.CutRead | engine/src/main.rs:814-854 | Which prefixes of an encoding are taken for complete bodies, and what is then read: exactly CutBody. |
| TruncatedBody.NothingLost | engine/src/main.rs:814-854 | Without leading zeros a prefix is taken for complete exactly when it holds all chunks, none with a fault, and then valid text that shows no blanks before the last extension; then no data is missing. |
| PythonText.WordsAppend | analytics/pae/pke/ingest.py:158 | A cut next to a blank splits no word. |
| PythonText.WordsStrip | analytics/pae/pke/ingest.py:146-156 | Stripping keeps the words. |
| PythonText.StripMeaning | analytics/pae/pke/ingest.py:146-156 | Stripping takes off the blanks at both ends and nothing else. |
| PythonText.WordsOfWord | analytics/pae/pke/ingest.py:158 | A run without blanks is one word. |
| ChunkText.ParagraphsKeepWords | analytics/pae/pke/ingest.py:149 | The paragraph split keeps every word in order. |
| ChunkText.SentencesKeepWords | analytics/pae/pke/ingest.py:167 | So does the sentence split. |
| ChunkText.SentencesStripped | analytics/pae/pke/ingest.py:167 | The sentences of stripped text are stripped and not empty. |
| TextCuts.SentencesAreCut | analytics/pae/pke/ingest.py:167 | Every sentence cut takes out the whole run of blanks after a full stop, exclamation or question mark, the parts and cuts make up the text, and no such mark before a blank is left inside a part. |
| TextCuts.ParagraphsAreCut | analytics/pae/pke/ingest.py:149 | Every paragraph cut runs from the first to the last line feed of a run of blanks with two of them, the parts and cuts make up the text, and no such run is left in a part. |
| ChunkText.ChunkSentences | analytics/pae/pke/ingest.py:165-175 | Filling chunks sentence by sentence keeps what chunk_text promises, greediness included. |
| ChunkText.ChunkText | analytics/pae/pke/ingest.py:125-182 | Fails exactly on a limit below 1; otherwise the words of the chunks in order are the words of the text, no chunk is blank or padded, each is made of paragraphs after empty lines and sentences after spaces and is within the limit or a single sentence of a paragraph over it, every paragraph that fits, and every sentence of one that does not, stands whole in one chunk, and each chunk but the last was closed because the next paragraph or sentence did not fit. |
| KnowledgeRows.AddingIsPlainAdding | analytics/pae/pke/store.py:338-363 | Writing with the reader's key or without one looks, to a session with that key, like writing to a store that never encrypts. |
| KnowledgeRows.RunsRefinePlain | analytics/pae/pke/store.py:315-409 | The same over any run of batches, some by sessions with the key and some without. |
| KnowledgeRows.EncryptedEqualsClear | analytics/pae/pke/store.py:315-409 | After the same run an encrypted store read with its key and a cleartext store are the same table of texts. |
| KnowledgeRows.WithoutKey | analytics/pae/pke/store.py:302-311 | Without the key exactly the encrypted rows cannot be read; the others read as with any key. |
| KnowledgeRows.AddedIds | analytics/pae/pke/store.py:343-363 | Ids stay unique, and are the old ones and the new. |
| KnowledgeRows.CountAfterAdding | analytics/pae/pke/store.py:323-324 | The number of rows is the number of distinct ids; it stays the same exactly when every added id was known. |
| KnowledgeRows.ReingestionReplaces | analytics/pae/pke/store.py:323-363 | Ingesting the same chunks again leaves exactly what the later ingestion alone would have left. |
| KnowledgeRows.KeysEqual | analytics/pae/pke/ingest.py:198 | The text an id is a digest of is the same for two chunks exactly when source and first 200 characters are, or a colon has moved between them ("a:b", "c" and "a", "b:c"). |
| KnowledgeRows.SameSourceKeys | analytics/pae/pke/ingest.py:198 | Within a source the texts are the same for two chunks exactly when they agree on their first 200 characters. |
| KnowledgeRows.ChunkId | analytics/pae/pke/ingest.py:198-199 | An id is the first 16 characters of the digest. |
| KnowledgeRows.IngestionStoresAll | analytics/pae/pke/store.py:335-409 | Of the chunks of an ingestion as many rows come in as there are chunks if and only if those texts are pairwise different and no id was stored before (for a digest that separates them); never more. |
| KnowledgeRows.SameKeyKeepsLast | analytics/pae/pke/ingest.py:185-199 | Of two chunks with that text in common only the second stays. |
| KnowledgeStores.FindReading | analytics/pae/pke/store.py:497-501 | Looking a row up and reading it commute. |
| KnowledgeStores.GetAdded | analytics/pae/pke/store.py:338-508 | After an ingestion a get of each chunk that is the last with its id returns its source, author, date, themes and text, stamped with the time; every other id answers as before. |
| KnowledgeStores.SortReadings | analytics/pae/pke/store.py:470-475 | Ordering the table and reading it commute. |
| KnowledgeStores.PagesContinue | analytics/pae/pke/store.py:470-475 | Pages come newest first, ties by id, each as long as the limit and the rows left allow; successive pages continue each other; together they hold every row. |
| KnowledgeStores.ListingShows | analytics/pae/pke/store.py:455-488 | A listing shows every row of the page with all its fields, and its text exactly if that can be read; it fails exactly for a damaged row. |
| KeywordRanking.ScoresInUnit | analytics/pae/pke/store.py:576-577 | Every score is above 0 and at most 1. |
| KeywordRanking.SearchReturnsBest | analytics/pae/pke/store.py:607-615 | Hits come best first, and no chunk left out scores above one returned. |
| KeywordRanking.SearchAnswers | analytics/pae/pke/store.py:588-615 | A search for something ranks exactly the rows that carry a theme asked for (any row if none is) and share a token with the query, by the number of tokens shared, ties in table order; its hits are the first top_k, each with the number shared over the number of query tokens; it fails exactly if a row asked for is unreadable, with the error of the first. |
| KeywordRanking.SortRanks | analytics/pae/pke/store.py:614 | The stable sort of ascending positions ranks ties by position. |
| KnowledgeStores.KnowledgeStore.Open | analytics/pae/pke/store.py:165-170 | Opening fails exactly for a key that is not 32 bytes long. |
| KnowledgeStores.KnowledgeStore.AddChunks | analytics/pae/pke/store.py:315-409 | Rows and vectors after a call, with ids unique and indexed ids always stored; a session sees the plain rows it added, and can get each by its id as it was given. |
| KnowledgeStores.KnowledgeStore.InsertRows | analytics/pae/pke/store.py:341-363 | Each chunk's row replaces the one with its id and comes last. |
| KnowledgeStores.KnowledgeStore.IndexVectors | analytics/pae/pke/store.py:372-387 | Each non-empty vector replaces the one indexed for its chunk. |
| VectorFreshness.FreshIff | analytics/pae/pke/store.py:338-387 | If every indexed vector is the embedding of its stored text, that stays so after a call if and only if no chunk comes without a vector under an id indexed with a different one. |
| VectorFreshness.EmbeddingKeepsFresh | analytics/pae/pke/store.py:365-387 | In particular when every chunk is embedded. |
| VectorFreshness.WithoutEmbedderFreshIff | analytics/pae/pke/store.py:326-332 | A call without embeddings keeps it exactly when every id indexed already gets a text with the embedding that is indexed. |
| VectorFreshness.ChangedTailStale | analytics/pae/pke/store.py:326-332 | A chunk changed after its first 200 characters and stored without embeddings keeps its id and its old vector. |
| KnowledgeStores.KnowledgeStore.CountChunks | analytics/pae/pke/store.py:430-433 | The number of distinct ids. |
| KnowledgeStores.KnowledgeStore.GetChunk | analytics/pae/pke/store.py:490-508 | A function of what the session can read: nothing, the row, or why it cannot be read. |
| KnowledgeStores.KnowledgeStore.ListChunks | analytics/pae/pke/store.py:455-488 | A page of what the session can read, with the encrypted rows flagged; a limit below 1 or a negative offset is refused. |
| KnowledgeStores.KnowledgeStore.KeywordSearch | analytics/pae/pke/store.py:563-615 | Nothing for a query without tokens or a top_k below 1; otherwise what a search answers over what the session can read, written out in KeywordRanking.SearchAnswers. |
| KnowledgeStores.SameAnswers | analytics/pae/pke/store.py:455-615 | After the same run a store with a key and one without give the same answer to every get, listing and search. |
| KnowledgeStores.GetWithoutKey | analytics/pae/pke/store.py:490-508 | Without the key a get fails exactly on an encrypted row. |
| KnowledgeStores.ListWithoutKey | analytics/pae/pke/store.py:458-464 | Without the key a listing never fails and leaves out exactly the encrypted texts. |
| KnowledgeStores.SearchWithoutKey | analytics/pae/pke/store.py:588-610 | Without the key a search fails exactly if an encrypted row carries a theme asked for. |

## Left out

- Floating-point rounding, overflow, NaN and infinity checks, and display rounding: the model is over the reals.
- Eigenvalue regularisation of the covariance, input parsing and the single-holding shortcut of `optimize`: the mixes are stated for the covariance they are given.
- What the numerical solver (SLSQP) finds: any answer is allowed, and only what cleaning guarantees is claimed of it.
- The distribution of the t-statistics of the factor model: what is reported is stated, not how it is distributed.
- Irrational exponents of the discount factor: `pow` is a parameter with four laws, proved at rational times of a common period.
- The JSON and RFC 3339 encodings of version records: a row is the record itself.
- Poisoned locks, and the read of the latest version after an append has released its lock (`versioning_api.rs`): a returned hash and version need not belong together under concurrency.
- A chunk size above the allocation limit: growing the output buffer panics there (`main.rs:842`), where the model answers that the data is truncated.
- 64-bit overflow of version numbers and 32-bit sizes at the C boundary, except where a bound is stated.
- A distribution for the Monte Carlo draws: Box-Muller is not part of this model, any draws are allowed.
- The engine's series for histories of different length (it takes the heads, the server the tails), except `PortfolioSeries.ServerIsEngineOnTails`.
- Non-numeric entries of stored return histories: a history is its usable numbers.
- Volatility, Sharpe and Sortino ratios of the engine, stress tests and carry: single expressions.
- The tokenizer, the embedding model and the vector index: tokens and embeddings are parameters, vector search is not modelled.
- The order of rows that SQL returns without ORDER BY is taken to be table order, a replaced row coming last.
- Failures of encryption or of a transaction in the knowledge store, and the migration of old tables.
- The embedding metadata rows of the knowledge store.
- The connection pool, SQLite itself and its crash safety: an insert is one atomic step.
- HTTP handlers, proxying other than the chunked body, data adapters, importers, the user interface and the tools around them.
- RiskParity.RiskParityWeights: says exactly when the iteration converges only for uncorrelated assets whose variances are at least n * 1e-16 (and TwoAssetRiskParity for two correlated ones); for others it says what a converged result means (RiskParity.ConvergedIsRiskParity).
- TwoAssetRiskParity.SettlesIffCorrelated: assumes that the cube of the smaller volatility is at least 1e-16 times their sum, because below that a marginal can be clamped.
- Bonds.ExactYield: assumes non-negative flows, because for flows of mixed sign the yield is not unique (PaymentPeriods.MixedSignsHaveTwoYields).
- Correlation.NativeMatchesPairwise: compares the routes for histories of one window length only, because for others the pairwise route uses a window per pair.
