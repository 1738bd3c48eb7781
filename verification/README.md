# Verified models of the ANN-E runtime

A Dafny 4.11 model of the parts of the ANN-E runtime that hold most of its logic: the exact
numerics behind its tools, the concurrent protocols between desktop, runtime host and workers, the
state that must agree with a store, and the pipeline that carries a tool call from proposal to
audit record.  `dafny verify dfyconfig.toml` checks everything.

**Numerics.** `Fourier`, `Inversion`, `Interpolation`, `Spline`, `InterpolationTool`, `Determinants`, `Matrices`,
`Regression`, `Roots`, `Cubics`, `Quadrature` and `DifferentialEquations` (with `Vectors` below
them) take floating-point numbers as exact reals and keep every branch, loop and tolerance of the
source.  cos, sin, square root and `ulp` are parameters; the first three come with their laws only.
Loops over lists are methods with invariants; each is tied to a reference definition: the transform
to its defining sum and to its inverse, divided differences to the unique interpolating polynomial, elimination to the
determinant by cofactor expansion, the sweep to the tridiagonal system.

**Protocols.** `Multiplexer` is `manager.rs` as a state machine over the critical sections of all
its threads, with every interleaving; `RuntimeManager` is the object itself, whose methods take
those steps.  `WorkerProtocol` is the parent and child of `worker_process.py` over two queues.
`Supervisor` is the execution supervisor with its enforcement handles and the supervised execution
on top of it.

**Stores.** `SessionPersistence` is the relational session store, `SessionManager` the
write-through cache over it, `AuditLog` the hash-chained log.

**Pipeline.** `Policy`, `ToolContracts` (contracts, registry and resolver), `ToolExecution` (runner
and executor), `Orchestrator` (state machine, lifecycle, retry and task run) and `ContextWindow`.

Behaviour of anything outside (an executor, a child, the store, the policy, a clock) is an input of
each theorem, so the theorems hold for every such behaviour.

## What the code does differently from its intent

The models follow the code.  Where it falls short of what it is for, the exact condition is proved
beside a concrete case:

- The spline's sweep uses row `index` where the Thomas algorithm uses row `index - 1`
  (`interpolation_tool.py`, lines 257-260).  It gives the natural spline only for harmless data
  (`Spline.WrittenSolvesExactlyWhen`, `Spline.EquallySpacedExactlyWhen`, `Spline.WrittenFails`); the
  sweep with the previous row is proved correct beside it.
- A segment scan over unordered data can miss a data point; it reproduces all of them exactly when
  each x extends the range of those before it (`Interpolation.LinearHitsAllExactlyWhen`).
- Factors and pivots within 1e-15 are taken as 0 (`Matrices.InverseExactlyWhen`,
  `Matrices.DeterminantExactlyWhen`).
- The 1e-14 snap of the solvers can drop a last step (`DifferentialEquations.ReachesEndExactlyWhen`,
  `DifferentialEquations.Rk4IsExactExactlyWhen`).
- `execute` compares a result's sequence with itself; the queues make up for it
  (`WorkerProtocol.ExecuteExactlyWhen`).  `cancel` demands sequence 2
  (`WorkerProtocol.CancelExactlyWhen`).
- A second `prepare_enforcement` loses the first handle (`Supervisor.PreparingTwiceLeaks`); nothing
  else does (`Supervisor.ExecutionSupervisor.AllReleasedExactlyWhen`).
- Exceptions outside the listed ones escape `SupervisedExecution.execute` from READY and RUNNING
  and leave the record there (`Supervisor.SupervisedExecution.Execute`).
- The pending map is shared across restarts, so a reader or stop of an earlier process can fail a
  request to its successor (`Multiplexer.TakenByOthersExactlyWhen`), and a reader that gives up leaves
  its process in place and its callers waiting (`Multiplexer.StrandedExactlyWhen`).
- Appends to the audit log take no lock (`AuditLog.VerifiesExactlyWhenSerial`).
- A denial after RUNNING ends FAILED (`Orchestrator.DeniedExactlyWhen`).

## Model

| member | source | states |
|---|---|---|
| Fourier.Fft | services/runtime/src/anne_runtime/signal_processing_tool.py:283-318 | recursive even/odd transform: succeeds exactly on lengths that are powers of two, and then every coefficient is the sum the direct transform defines |
| Fourier.FillButterflies | services/runtime/src/anne_runtime/signal_processing_tool.py:303-318 | filling both halves in place from the two short spectra gives the long spectrum, at every index |
| Fourier.Butterfly | services/runtime/src/anne_runtime/signal_processing_tool.py:305-313 | for every sequence of even length, coefficients k and k + n/2 are the sum and difference of the short coefficients with one twiddle |
| Fourier.PartialSplits | services/runtime/src/anne_runtime/signal_processing_tool.py:252-318 | a partial sum of the long transform is the even partial sum plus the root times the odd one |
| Fourier.PartialPeriodic | services/runtime/src/anne_runtime/signal_processing_tool.py:252-318 | a short transform repeats after its own length |
| Fourier.Dft | services/runtime/src/anne_runtime/signal_processing_tool.py:252-280 | answers exactly the signals within the direct limit, with the spectrum that defines the transform |
| Inversion.SpectrumDeterminesSignal | services/runtime/src/anne_runtime/signal_processing_tool.py:252-280 | for signals of every length the inverse sum over the spectrum, divided by the length, gives the signal back; of the roots of unity it is only known that none turns all the way round early |
| Fourier.PowerOfTwoTest | services/runtime/src/anne_runtime/signal_processing_tool.py:248-249 | the bit trick accepts the powers of two and no other integer, negative ones and zero included |
| Fourier.RootAdds | services/runtime/src/anne_runtime/signal_processing_tool.py:305-313 | exponents of roots of unity add, from the angle-addition laws of cos and sin alone |
| Fourier.RootHalves | services/runtime/src/anne_runtime/signal_processing_tool.py:305-313 | halving size and exponent leaves a root unchanged |
| Fourier.RootLandmarks | services/runtime/src/anne_runtime/signal_processing_tool.py:305-313 | a full turn is 1, a half turn -1 |
| Fourier.MovingAverage | services/runtime/src/anne_runtime/signal_processing_tool.py:81-90 | every output is the mean of its own window, although one running sum is carried |
| Fourier.WindowSlides | services/runtime/src/anne_runtime/signal_processing_tool.py:81-90 | the running sum of a window follows from that of its neighbour by one addition and one subtraction |
| Fourier.Convolution | services/runtime/src/anne_runtime/signal_processing_tool.py:113-124 | output k is the sum of all products whose indices add to k |
| Fourier.ConvolutionMultiplies | services/runtime/src/anne_runtime/signal_processing_tool.py:113-124 | at every x the value of the result, as a polynomial, is the product of the values of its two inputs |
| InterpolationTool.PrepareData | services/runtime/src/anne_runtime/interpolation_tool.py:41-89 | each of the four errors exactly when: unequal lengths, too few points, a repeated x, a target out of range, in that order; success otherwise |
| InterpolationTool.Interpolate | services/runtime/src/anne_runtime/interpolation_tool.py:310-384 | answers exactly the prepared requests; Lagrange and Newton agree; all but the piecewise linear one return every data point's own value at that point, the linear one at every point that extends the range of those before it |
| Interpolation.Unique | services/runtime/src/anne_runtime/interpolation_tool.py:124-201 | two polynomials of degree below the number of nodes that interpolate the same data agree everywhere |
| Interpolation.TooManyZeros | services/runtime/src/anne_runtime/interpolation_tool.py:124-201 | a polynomial with more distinct zeros than its degree vanishes everywhere |
| Interpolation.NewtonIsLagrange | services/runtime/src/anne_runtime/interpolation_tool.py:124-201 | for distinct nodes in any order and any target both forms give the same number |
| Interpolation.NewtonDividedDifference | services/runtime/src/anne_runtime/interpolation_tool.py:164-201 | the in-place differences with nested evaluation return the Lagrange value, and y[k] at x[k] |
| Interpolation.DividedDifferences | services/runtime/src/anne_runtime/interpolation_tool.py:164-185 | after the descending in-place loops entry k is the divided difference of the first k + 1 nodes |
| Interpolation.NewtonHits | services/runtime/src/anne_runtime/interpolation_tool.py:164-201 | Newton's form over any run of nodes passes through each of them |
| Interpolation.Neville | services/runtime/src/anne_runtime/interpolation_tool.py:164-201 | neighbouring Newton forms blend into the next by the Aitken-Neville recurrence |
| Interpolation.HornerIsNewton | services/runtime/src/anne_runtime/interpolation_tool.py:187-193 | the nested evaluation and the sum form agree at every stage |
| Interpolation.Lagrange | services/runtime/src/anne_runtime/interpolation_tool.py:124-161 | the double loop returns the Lagrange sum, and y[k] at x[k] |
| Interpolation.LagrangeHits | services/runtime/src/anne_runtime/interpolation_tool.py:124-161 | the Lagrange sum reproduces every data point |
| Interpolation.Linear | services/runtime/src/anne_runtime/interpolation_tool.py:92-121 | the scan answers by the chord of the first segment that spans the target |
| Interpolation.ChordIsLine | services/runtime/src/anne_runtime/interpolation_tool.py:113-114 | the answer on a segment is the one value on the straight line through its two data points |
| Interpolation.LinearLocates | services/runtime/src/anne_runtime/interpolation_tool.py:92-121 | between the least and the greatest x some segment is always found, whatever the order |
| Interpolation.LinearAtNode | services/runtime/src/anne_runtime/interpolation_tool.py:92-121 | whatever the y values, the scan answers y[k] at x[k] if and only if x[k] lies strictly above, or strictly below, every x before it |
| Interpolation.LinearHitsAllExactlyWhen | services/runtime/src/anne_runtime/interpolation_tool.py:92-121 | all data points are reproduced, whatever the y values, if and only if every node is a new minimum or maximum; sorted data, in either direction, are |
| Interpolation.LinearMissesNode | services/runtime/src/anne_runtime/interpolation_tool.py:92-121 | unordered data on which the scan misses a data point |
| Spline.CubicSpline | services/runtime/src/anne_runtime/interpolation_tool.py:204-307 | unordered data are sorted into knots, the answer comes from a piece over an interval that holds the target, with the moments of the sweep as written; data points are hit |
| Spline.EliminateInPlace | services/runtime/src/anne_runtime/interpolation_tool.py:257-260 | the in-place loop leaves exactly the pivots and right-hand sides of the sweep as written |
| Spline.SolveMoments | services/runtime/src/anne_runtime/interpolation_tool.py:257-268 | back substitution over them gives the moments of the sweep as written |
| Spline.FindInterval | services/runtime/src/anne_runtime/interpolation_tool.py:283-292 | the first interval that holds the target, and the last interval at the right end |
| Spline.EvaluatePiece | services/runtime/src/anne_runtime/interpolation_tool.py:270-300 | the four coefficients and powers of dx are the piece's value |
| Spline.PieceExpands | services/runtime/src/anne_runtime/interpolation_tool.py:270-300 | slope and curvature of a piece are the derivatives of its value |
| Spline.WrittenPositive | services/runtime/src/anne_runtime/interpolation_tool.py:257-268 | no pivot of the sweep is zero or negative, so nothing divides by zero |
| Spline.AnyMomentsAreContinuous | services/runtime/src/anne_runtime/interpolation_tool.py:270-300 | whatever the moments, every knot is hit and values and second derivatives agree across it |
| Spline.SmoothExactlyWhenRow | services/runtime/src/anne_runtime/interpolation_tool.py:227-300 | first derivatives agree at a knot if and only if the moments satisfy that knot's tridiagonal row |
| Spline.NaturalEnds | services/runtime/src/anne_runtime/interpolation_tool.py:256-300 | both sweeps leave zero curvature at both ends |
| Spline.TextbookSolves | services/runtime/src/anne_runtime/interpolation_tool.py:227-268 | the sweep with the previous row's entries satisfies every row |
| Spline.SolutionIsUnique | services/runtime/src/anne_runtime/interpolation_tool.py:227-268 | and nothing else does |
| Spline.TextbookIsSmooth | services/runtime/src/anne_runtime/interpolation_tool.py:227-300 | so it is the natural cubic spline, smooth at every inner knot |
| Spline.WrittenRow | services/runtime/src/anne_runtime/interpolation_tool.py:257-268 | row by row, the moments as written satisfy a row exactly when the misfit of using the row's own entries vanishes there |
| Spline.WrittenSolvesExactlyWhen | services/runtime/src/anne_runtime/interpolation_tool.py:257-268 | the sweep as written solves the system if and only if the natural spline's moments, a function of the data, are harmless at every inner knot |
| Spline.WrittenIsSmoothExactlyWhen | services/runtime/src/anne_runtime/interpolation_tool.py:257-300 | and is smooth at every inner knot under the same condition and no other |
| Spline.EquallySpacedExactlyWhen | services/runtime/src/anne_runtime/interpolation_tool.py:224-268 | over equally spaced knots the sweep as written gives the natural spline if and only if all second differences of y vanish but the last two, and the last is four times the one before |
| Spline.HarmlessStartsFlat | services/runtime/src/anne_runtime/interpolation_tool.py:257-268 | in particular the natural spline must have no curvature at the first inner knot |
| Spline.WrittenFails | services/runtime/src/anne_runtime/interpolation_tool.py:257-268 | x = 0,1,2,3 and y = 0,1,0,0: first moment -1.92 in place of -1.8, and a jump of the first derivative |
| Spline.SortOrders | services/runtime/src/anne_runtime/interpolation_tool.py:211-213 | sorting pairs with distinct x gives strictly increasing knots |
| Matrices.MatrixInverse | services/runtime/src/anne_runtime/matrix_math_tool.py:276-330 | malformed, non-square and singular input each fail in their own way; otherwise the reduction's right half |
| Matrices.InverseOf | services/runtime/src/anne_runtime/matrix_math_tool.py:285-330 | the pivoting loops over the work array compute the reduction turn by turn |
| Matrices.ClearColumn | services/runtime/src/anne_runtime/matrix_math_tool.py:314-326 | in place, every other row loses its factor times the pivot row, as that row stands |
| Matrices.NormalizePivot | services/runtime/src/anne_runtime/matrix_math_tool.py:304-312 | in place, the chosen row is brought up and divided by its pivot |
| Matrices.LeftHalfIsProduct | services/runtime/src/anne_runtime/matrix_math_tool.py:276-330 | whatever was skipped, result times original is the left half that remains |
| Matrices.InverseExactlyWhen | services/runtime/src/anne_runtime/matrix_math_tool.py:276-330 | a result returned is a left inverse if and only if every skipped factor was exactly 0, and it is then a right inverse too |
| Matrices.ReduceReflects | services/runtime/src/anne_runtime/matrix_math_tool.py:314-326 | a run that ends with its left half reduced skipped no factor but 0 and had its columns cleared from the stage it began with |
| Matrices.InverseIsTwoSided | services/runtime/src/anne_runtime/matrix_math_tool.py:276-330 | if every skipped factor is exactly 0 the result is the two-sided inverse, for every size |
| Matrices.SkippedFactorFails | services/runtime/src/anne_runtime/matrix_math_tool.py:318-321 | a nonzero factor within the tolerance leaves a result that is not the inverse |
| Matrices.MatrixDeterminant | services/runtime/src/anne_runtime/matrix_math_tool.py:237-273 | malformed and non-square input fail; otherwise the product the elimination accumulates |
| Matrices.DeterminantOf | services/runtime/src/anne_runtime/matrix_math_tool.py:246-273 | the pivoting loops compute that product with its sign changes |
| Matrices.EliminateBelow | services/runtime/src/anne_runtime/matrix_math_tool.py:264-271 | in place, every lower row loses its factor times the pivot row, right of the pivot |
| Matrices.EliminationIsDet | services/runtime/src/anne_runtime/matrix_math_tool.py:246-273 | for every stage of the elimination: what is still to come is the determinant, by cofactor expansion, of the trailing block |
| Matrices.DeterminantExactlyWhen | services/runtime/src/anne_runtime/matrix_math_tool.py:237-273 | the result is the determinant exactly when no pivot was a nonzero number within the tolerance, or the determinant is 0 |
| Matrices.UncleanIsZero | services/runtime/src/anne_runtime/matrix_math_tool.py:257-258 | a nonzero pivot within the tolerance makes the result 0 |
| Matrices.TinyDeterminantFails | services/runtime/src/anne_runtime/matrix_math_tool.py:257-258 | a matrix whose determinant is not 0 but reported as 0 |
| Matrices.Lockstep | services/runtime/src/anne_runtime/matrix_math_tool.py:237-330 | both eliminations choose the same pivots all along, so one stops exactly when the other answers 0 |
| Matrices.SingularExactlyWhen | services/runtime/src/anne_runtime/matrix_math_tool.py:237-330 | with exact skips the inverse is refused exactly when the determinant is reported as 0; and with clean pivots exactly when it is 0 |
| Matrices.MultiplyAssociates | services/runtime/src/anne_runtime/matrix_math_tool.py:151-174 | products of compatible matrices associate |
| Matrices.SumsExchange | services/runtime/src/anne_runtime/matrix_math_tool.py:151-174 | the double sum behind it taken in either order |
| Matrices.MultipliesExactly | services/runtime/src/anne_runtime/matrix_math_tool.py:151-174 | which products are formed, each error exactly, and every entry of one |
| Matrices.IdentityIsNeutral | services/runtime/src/anne_runtime/matrix_math_tool.py:151-174 | the identity is neutral on both sides |
| Determinants.DetIsLinear | services/runtime/src/anne_runtime/matrix_math_tool.py:237-273 | the reference determinant is linear in each row |
| Determinants.SwapWithFirst | services/runtime/src/anne_runtime/matrix_math_tool.py:260-262 | it changes sign when any row is exchanged with the first |
| Determinants.AddFirst | services/runtime/src/anne_runtime/matrix_math_tool.py:267-271 | it keeps its value when a multiple of the first row is added to another |
| Determinants.DetOfCleared | services/runtime/src/anne_runtime/matrix_math_tool.py:264-271 | with a cleared column it is the pivot times the minor |
| Regression.ModelIsLeastSquares | services/runtime/src/anne_runtime/regression_tool.py:74-145 | a model exists exactly for prepared data with x variance; fitted plus residual is y; residuals sum to 0 and are orthogonal to x; no line has a smaller residual sum of squares; R squared lies in [0, 1] |
| Regression.LeastSquares | services/runtime/src/anne_runtime/regression_tool.py:74-145 | the fitted line minimises the residual sum of squares over all lines and is the only one that does |
| Regression.ResidualsAreOrthogonal | services/runtime/src/anne_runtime/regression_tool.py:98-109 | residuals are orthogonal to the constant, to the centred and to the given x values |
| Regression.VarianceExactlyWhen | services/runtime/src/anne_runtime/regression_tool.py:83-91 | x variance vanishes exactly when all x values are equal |
| Regression.RSquaredIsOneExactlyWhen | services/runtime/src/anne_runtime/regression_tool.py:111-124 | R squared is 1 if and only if every residual is 0 |
| Regression.RSquaredIsCorrelationSquared | services/runtime/src/anne_runtime/regression_tool.py:74-180 | with variance in both variables R squared is the square of the correlation, which lies in [-1, 1] |
| Regression.CorrelationFollowsSlope | services/runtime/src/anne_runtime/regression_tool.py:148-180 | the correlation is positive, zero or negative exactly when the fitted slope is, and exchanging x and y keeps it |
| Regression.CorrelationOnLine | services/runtime/src/anne_runtime/regression_tool.py:148-180 | it is 1 exactly for data on a rising line and -1 exactly for data on a falling one |
| Roots.Bisection | services/runtime/src/anne_runtime/numerical_methods_tool.py:229-274 | each error and each exit exactly when; a success is the middle of the first accepted bracket |
| Roots.HalvingKeepsBracket | services/runtime/src/anne_runtime/numerical_methods_tool.py:229-274 | every bracket changes sign, lies inside the one before and is exactly (b - a) / 2^n wide |
| Roots.BisectionFindsRoot | services/runtime/src/anne_runtime/numerical_methods_tool.py:229-274 | a returned point has a value within the tolerance or a sign change within the tolerance |
| Roots.BisectionConverges | services/runtime/src/anne_runtime/numerical_methods_tool.py:229-274 | (b - a) / 2^(N - 1) within the tolerance suffices for success, whatever the function |
| Roots.Brent | services/runtime/src/anne_runtime/numerical_methods_tool.py:280-364 | each error and each exit exactly when; the last branch of the loop cannot be reached |
| Roots.Propose | services/runtime/src/anne_runtime/numerical_methods_tool.py:317-344 | the next point is the middle or the zero of the chord, lies strictly inside the bracket, and a hundredth of the tolerance from its ends while the bracket is wider than the tolerance |
| Roots.CandidateIsInside | services/runtime/src/anne_runtime/numerical_methods_tool.py:317-344 | the candidate lies strictly inside the bracket, and a hundredth of the tolerance from its ends while the bracket is wider than the tolerance |
| Roots.CandidateIsSecantExactlyWhen | services/runtime/src/anne_runtime/numerical_methods_tool.py:317-344 | the chord's zero is taken exactly when it lies inside the bracket by more than the margin, otherwise the middle |
| Roots.NarrowingKeepsBracket | services/runtime/src/anne_runtime/numerical_methods_tool.py:280-364 | every bracket changes sign, holds its candidate and shrinks strictly, by a hundredth of the tolerance at least |
| Roots.BrentFindsRoot | services/runtime/src/anne_runtime/numerical_methods_tool.py:280-364 | a returned point has a value within the tolerance or a sign change within the tolerance |
| Roots.BrentConverges | services/runtime/src/anne_runtime/numerical_methods_tool.py:280-364 | enough iterations always succeed, with an explicit bound |
| Quadrature.Simpson | services/runtime/src/anne_runtime/numerical_methods_tool.py:519-559 | odd step counts are refused; otherwise the weighted loop is the rule, with 0 steps on an empty interval |
| Quadrature.SimpsonIsExactOnCubics | services/runtime/src/anne_runtime/numerical_methods_tool.py:519-559 | for every cubic, every even step count and any bounds, the integral |
| Quadrature.SimpsonFlips | services/runtime/src/anne_runtime/numerical_methods_tool.py:519-559 | exchanged bounds change the sign, for every integrand |
| Quadrature.SimpsonExtrapolatesTrapezoidal | services/runtime/src/anne_runtime/numerical_methods_tool.py:486-559 | for every integrand the rule extrapolates the trapezoidal one |
| Quadrature.Trapezoidal | services/runtime/src/anne_runtime/numerical_methods_tool.py:486-516 | the loop is the rule, with 0 steps on an empty interval |
| Quadrature.TrapezoidalIsExactOnLines | services/runtime/src/anne_runtime/numerical_methods_tool.py:486-516 | for every straight line, step count and bounds, the integral |
| Quadrature.TrapezoidalFlips | services/runtime/src/anne_runtime/numerical_methods_tool.py:486-516 | exchanged bounds change the sign |
| Cubics.PanelIsExact | services/runtime/src/anne_runtime/numerical_methods_tool.py:519-559 | one panel of Simpson's rule integrates every cubic |
| DifferentialEquations.SolveRk4 | services/runtime/src/anne_runtime/differential_equations_tool.py:327-378 | lands on tf with the value of the step sequence, shortened last step included |
| DifferentialEquations.SolveEuler | services/runtime/src/anne_runtime/differential_equations_tool.py:296-324 | the same with Euler's step |
| DifferentialEquations.StepsAreBounded | services/runtime/src/anne_runtime/differential_equations_tool.py:248-271 | a run takes no more than ceil(distance / step) steps, hence no more than the validated estimate |
| DifferentialEquations.ValidatesExactly | services/runtime/src/anne_runtime/differential_equations_tool.py:248-271 | the estimate is the least number of steps that covers the distance, refused exactly when it is over the limit or the step is not positive |
| DifferentialEquations.EndIsUnique | services/runtime/src/anne_runtime/differential_equations_tool.py:296-378 | a run ends after one number of steps only |
| DifferentialEquations.Rk4IsExactOnCubics | services/runtime/src/anne_runtime/differential_equations_tool.py:327-378 | on a cubic of the time the result is the exact integral whenever the snap drops nothing, otherwise the integral up to the time reached |
| DifferentialEquations.Rk4IsExactExactlyWhen | services/runtime/src/anne_runtime/differential_equations_tool.py:327-378 | the result is the exact integral for every cubic of the time if and only if the snap drops nothing |
| DifferentialEquations.Rk4ValueIsExact | services/runtime/src/anne_runtime/differential_equations_tool.py:327-378 | the same at every step |
| DifferentialEquations.ReachesEndExactlyWhen | services/runtime/src/anne_runtime/differential_equations_tool.py:327-378 | the steps cover the whole interval exactly when the snap drops nothing |
| DifferentialEquations.SnapLosesRemainder | services/runtime/src/anne_runtime/differential_equations_tool.py:327-378 | a run in which the snap drops a remainder and the result is off |
| DifferentialEquations.Rk4OnExponential | services/runtime/src/anne_runtime/differential_equations_tool.py:343-369 | one step on y' = rate * y multiplies by the exponential series to its fourth power |
| DifferentialEquations.EulerValueOnConstant | services/runtime/src/anne_runtime/differential_equations_tool.py:296-324 | Euler follows every straight line to the time reached |
| DifferentialEquations.EulerIsLeftSum | services/runtime/src/anne_runtime/differential_equations_tool.py:296-324 | on a slope that depends on the time alone Euler is the left sum over its steps |
| DifferentialEquations.EulerOnExponential | services/runtime/src/anne_runtime/differential_equations_tool.py:312-314 | one step on y' = rate * y multiplies by 1 + step * rate |
| Multiplexer.EveryRunIsSafe | apps/desktop/src-tauri/src/runtime/manager.rs:197-284 | over every interleaving of callers, readers, time-outs, failed writes, restarts and stops: a request leaves the pending map at most once, its channel gets at most one message, an answer answers that very request, no channel is found disconnected, and issued = pending + removed |
| Multiplexer.RunKeepsInv | apps/desktop/src-tauri/src/runtime/manager.rs:341-445 | the invariant behind it holds along every run |
| Multiplexer.StepKeepsInv | apps/desktop/src-tauri/src/runtime/manager.rs:459-593 | and is kept by every single step of every thread |
| Multiplexer.WaitingIsOwed | apps/desktop/src-tauri/src/runtime/manager.rs:258-284 | a waiting caller is pending, or its message is under way or there |
| Multiplexer.StepKeepsReturned | apps/desktop/src-tauri/src/runtime/manager.rs:197-445 | a request once removed never comes back, and what a caller returned never changes |
| Multiplexer.RunKeepsReturned | apps/desktop/src-tauri/src/runtime/manager.rs:459-593 | so nothing that happens later reaches a call that has returned |
| Multiplexer.UnknownResponseChangesNothing | apps/desktop/src-tauri/src/runtime/manager.rs:556-566 | a line for a request that is not pending changes no caller, entry or message |
| Multiplexer.AnswerReachesCaller | apps/desktop/src-tauri/src/runtime/manager.rs:549-576 | a line read for a pending request is returned to its waiting caller if and only if it answers the request; otherwise the caller leaves with an error |
| Multiplexer.JudgesExactly | apps/desktop/src-tauri/src/runtime/manager.rs:564-574 | a line earns the request it names itself when it answers the request, and an error otherwise |
| Multiplexer.ValidatesExactly | apps/desktop/src-tauri/src/runtime/manager.rs:610-692 | validation accepts exactly the objects with the six fields that name this request and task, a known status and an object payload |
| Multiplexer.OldReaderFailsNewRequest | apps/desktop/src-tauri/src/runtime/manager.rs:578-593 | the pending map outlives a process: a run in which the reader of a stopped process fails a request to its successor |
| Multiplexer.TakenByOthersExactlyWhen | apps/desktop/src-tauri/src/runtime/manager.rs:341-593 | a pending request can be taken out without its own caller, its process's reader or a new start or stop if and only if a reader of another process is active or a stop is still open |
| Multiplexer.EarlierStopFailsNewRequest | apps/desktop/src-tauri/src/runtime/manager.rs:341-361 | a run in which a stop that took the previous process fails a request to its successor |
| Multiplexer.StrandedRequestsOnlyTimeOut | apps/desktop/src-tauri/src/runtime/manager.rs:459-555 | once a reader has left its loop over a process that lives on, a waiting request can only time out until the next start or stop |
| Multiplexer.StrandedExactlyWhen | apps/desktop/src-tauri/src/runtime/manager.rs:258-284 | from every reachable state, a waiting caller without a message can still get one before the next start or stop if and only if it is not stranded: some reader is active, some stop is open, or its message is on the way |
| Multiplexer.ReaderFailureStrands | apps/desktop/src-tauri/src/runtime/manager.rs:459-555 | a run that gets there |
| RuntimeManager.RuntimeManager.Start | apps/desktop/src-tauri/src/runtime/manager.rs:49-152 | refused while a process is stored; otherwise the new process is stored, its reader begins and nothing else changes |
| RuntimeManager.RuntimeManager.Register | apps/desktop/src-tauri/src/runtime/manager.rs:215-246 | the fresh request becomes pending with an empty channel |
| RuntimeManager.RuntimeManager.AbandonWrite | apps/desktop/src-tauri/src/runtime/manager.rs:248-253 | a failed write takes exactly this request out again, and the call returns the write error |
| RuntimeManager.RuntimeManager.RemovePendingRequest | apps/desktop/src-tauri/src/runtime/manager.rs:419-423 | exactly that request leaves the map |
| RuntimeManager.RuntimeManager.WaitForResponse | apps/desktop/src-tauri/src/runtime/manager.rs:258-284 | the outcome by what the channel holds; an answer is one to this request; the request is no longer pending |
| RuntimeManager.RuntimeManager.Send | apps/desktop/src-tauri/src/runtime/manager.rs:568-574 | exactly the one channel gets exactly that message |
| RuntimeManager.RuntimeManager.SendAll | apps/desktop/src-tauri/src/runtime/manager.rs:438-442 | every drained request and no other gets the error |
| RuntimeManager.RuntimeManager.FailPending | apps/desktop/src-tauri/src/runtime/manager.rs:425-445 | the map is emptied and exactly the requests that were in it get the error |
| RuntimeManager.RuntimeManager.Stop | apps/desktop/src-tauri/src/runtime/manager.rs:341-361 | no process, an empty map, the flag of the old process raised, its requests failed |
| RuntimeManager.RuntimeManager.ReadOnce | apps/desktop/src-tauri/src/runtime/manager.rs:459-576 | one turn of the reader: when it goes on, what it removes, and who is sent the line, an error, or nothing |
| RuntimeManager.RuntimeManager.Route | apps/desktop/src-tauri/src/runtime/manager.rs:549-575 | exactly the entry named leaves the map; its caller is sent the line itself when it answers the request and an error otherwise; nobody else is sent anything |
| RuntimeManager.RuntimeManager.ResponseReaderLoop | apps/desktop/src-tauri/src/runtime/manager.rs:459-576 | over all its reads: a pending request is sent the first line that names it when that line answers it, an error when it does not; if no line names it, the error of the read that broke the loop, or it is still pending; nobody else is sent anything; with the flag set the first turn ends the loop and changes nothing |
| WorkerProtocol.ReadyIsInStep | services/runtime/src/anne_runtime/worker_process.py:241-350 | over every sequence of calls and faults: whenever the parent is READY both queues are empty and a live child expects the parent's next sequence |
| WorkerProtocol.RunKeepsInv | services/runtime/src/anne_runtime/worker_process.py:182-399 | the invariant behind it holds in every run |
| WorkerProtocol.CallKeepsInv | services/runtime/src/anne_runtime/worker_process.py:182-399 | and is kept by every call, whatever happens to child and queues meanwhile |
| WorkerProtocol.StartKeepsInv | services/runtime/src/anne_runtime/worker_process.py:241-320 | in particular by start with all its failures |
| WorkerProtocol.StartExactlyWhen | services/runtime/src/anne_runtime/worker_process.py:241-320 | start returns exactly when worker, START, process and both messages are in order, and then leaves the parent READY in step with the child |
| WorkerProtocol.ExecuteExactlyWhen | services/runtime/src/anne_runtime/worker_process.py:322-335 | execute returns exactly when message, handler and reply get through, and then the reply is the one to that very EXECUTE, although line 333 compares its sequence with itself |
| WorkerProtocol.ExecuteLeaves | services/runtime/src/anne_runtime/worker_process.py:322-335 | after a normal execute the next can follow at once; after any other the parent is one sequence ahead and crashed unless the message was never sent or the reply late |
| WorkerProtocol.CancelExactlyWhen | services/runtime/src/anne_runtime/worker_process.py:337-350 | cancel demands sequence 2, so it returns exactly after one completed execute when message and reply get through |
| WorkerProtocol.CancelLeaves | services/runtime/src/anne_runtime/worker_process.py:337-350 | a normal cancel leaves STOPPED and a child gone cleanly; any other a parent that can only be terminated |
| WorkerProtocol.CancelFollowsOneExecute | services/runtime/src/anne_runtime/worker_process.py:337-350 | in every run a cancel that returns follows exactly one completed execute |
| WorkerProtocol.AbandonedIsNotCancelled | services/runtime/src/anne_runtime/worker_process.py:337-350 | a CANCEL over an execute that did not return is never answered |
| WorkerProtocol.TerminateEnds | services/runtime/src/anne_runtime/worker_process.py:352-386 | whatever happens meanwhile, no live child is left; CRASHED exactly when the child had already died uncleanly, STOPPED otherwise |
| WorkerProtocol.TerminatedForGood | services/runtime/src/anne_runtime/worker_process.py:352-386 | in every run, after a terminate no child ever lives and no start, execute or cancel succeeds |
| WorkerProtocol.WorkerProcess.RunChild | services/runtime/src/anne_runtime/worker_process.py:70-180 | the child's loop over its queue, message by message, and its death |
| WorkerProtocol.WorkerProcess.StartWorker | services/runtime/src/anne_runtime/worker_process.py:241-320 | start over the fields, step by step, is its specification |
| WorkerProtocol.WorkerProcess.ExecuteWorker | services/runtime/src/anne_runtime/worker_process.py:322-335 | execute over the fields is its specification |
| WorkerProtocol.WorkerProcess.CancelWorker | services/runtime/src/anne_runtime/worker_process.py:337-350 | cancel over the fields is its specification |
| WorkerProtocol.WorkerProcess.TerminateWorker | services/runtime/src/anne_runtime/worker_process.py:352-386 | terminate over the fields is its specification; it leaves no live child, and the state by how the child had died |
| WorkerProtocol.WorkerProcess.SendMessage | services/runtime/src/anne_runtime/worker_process.py:401-411 | a send puts the message behind all others, or leaves both queues alone; it crashes the parent exactly when the pipe breaks |
| WorkerProtocol.WorkerProcess.ReceiveMessage | services/runtime/src/anne_runtime/worker_process.py:413-436 | exactly the oldest message is consumed; a time-out finds the queue empty and changes nothing; all else crashes the parent |
| WorkerProtocol.WorkerProcess.ValidateResponse | services/runtime/src/anne_runtime/worker_process.py:438-456 | taken exactly when well formed, of this worker, request and task, and of the type and sequence awaited; well formed but not awaited crashes the parent, ill formed does not |
| WorkerProtocol.WorkerProcess.ConsumeSequence | services/runtime/src/anne_runtime/worker_process.py:458-461 | sequences are handed out one by one |
| Supervisor.PathsAreShort | services/runtime/src/anne_runtime/execution_supervisor.py:38-51 | every path of allowed transitions loses rank at each step, so none is longer than nine states |
| Supervisor.TerminalIsReachable | services/runtime/src/anne_runtime/execution_supervisor.py:38-51 | from every state TERMINAL can be reached |
| Supervisor.ReleasedExactlyOnce | services/runtime/src/anne_runtime/execution_supervisor.py:98-330 | when nothing is held any more, every handle issued was either released exactly once or lost; so all were released exactly once if and only if none was lost |
| Supervisor.ExecutionSupervisor.AllReleasedExactlyWhen | services/runtime/src/anne_runtime/execution_supervisor.py:98-330 | in every reachable supervisor that holds nothing, all handles were released exactly once if and only if every preparation found its record without one; issued = released + repeated preparations |
| Supervisor.ReleaseKeepsSound | services/runtime/src/anne_runtime/execution_supervisor.py:275-288 | releasing keeps the ledger sound: no handle is both held and released, none released twice |
| Supervisor.PrepareKeepsSound | services/runtime/src/anne_runtime/execution_supervisor.py:98-129 | preparing keeps it sound, counting a handle that is overwritten as lost |
| Supervisor.ChangeKeepsSound | services/runtime/src/anne_runtime/execution_supervisor.py:299-303 | a transition keeps it sound |
| Supervisor.PreparingTwiceLeaks | services/runtime/src/anne_runtime/execution_supervisor.py:98-129 | two preparations of one execution lose the first handle for good |
| Supervisor.ExecutionSupervisor.Authorize | services/runtime/src/anne_runtime/execution_supervisor.py:290-297 | a new AUTHORIZED record exactly when granted and matched |
| Supervisor.ExecutionSupervisor.Transition | services/runtime/src/anne_runtime/execution_supervisor.py:299-303 | succeeds exactly along allowed edges and changes nothing but the state |
| Supervisor.ExecutionSupervisor.PrepareEnforcement | services/runtime/src/anne_runtime/execution_supervisor.py:98-129 | succeeds exactly for an AUTHORIZED record with a willing adapter, and then holds its handle; a handle held before is lost and counted |
| Supervisor.ExecutionSupervisor.StartWorker | services/runtime/src/anne_runtime/execution_supervisor.py:131-215 | in literal states: READY with handle and worker when nothing fails; TERMINAL, complete, with neither when the start fails; STARTING without the handle when the release fails too; unchanged when no handle can be prepared; with each error |
| Supervisor.ExecutionSupervisor.Begin | services/runtime/src/anne_runtime/execution_supervisor.py:151-215 | the same after the preparation |
| Supervisor.ExecutionSupervisor.ExecuteWorker | services/runtime/src/anne_runtime/execution_supervisor.py:217-273 | COMPLETED, TIMING_OUT or CRASHED by what the worker raised, and what is raised on |
| Supervisor.StartAndExecute | services/runtime/src/anne_runtime/execution_supervisor.py:131-273 | a start and an execute that meet no fault complete the execution, its handle still held |
| Supervisor.ExecutionSupervisor.ReleaseEnforcement | services/runtime/src/anne_runtime/execution_supervisor.py:275-288 | the record lets go of its handle first; the handle is released once, even when the adapter raises |
| Supervisor.ExecutionSupervisor.Cleanup | services/runtime/src/anne_runtime/execution_supervisor.py:305-330 | a cleanup that returns leaves TERMINAL, complete, no handle, no worker, and other records untouched; a repeated one changes nothing |
| Supervisor.ClosesExactlyWhen | services/runtime/src/anne_runtime/execution_supervisor.py:305-330 | the states from which a cleanup can close a record |
| Supervisor.ExecutionSupervisor.Complete | services/runtime/src/anne_runtime/execution_supervisor.py:70-73 | TERMINAL and complete |
| Supervisor.SupervisedExecution.Execute | services/runtime/src/anne_runtime/supervised_execution.py:45-107 | returns exactly when what was raised, in the state it was raised in, can recover; then the record is TERMINAL, cleanup complete and the worker gone; any other exception escapes and the record's state is exact |
| Supervisor.SupervisedExecution.Attempt | services/runtime/src/anne_runtime/supervised_execution.py:62-84 | how far the body gets and what stops it |
| Supervisor.SupervisedExecution.Handle | services/runtime/src/anne_runtime/supervised_execution.py:85-144 | what each except clause makes of it |
| Supervisor.SupervisedExecution.Finish | services/runtime/src/anne_runtime/supervised_execution.py:146-176 | to TERMINAL exactly when the record may go to CLEANUP, releasing a held handle; otherwise nothing changes |
| Supervisor.SupervisedExecution.Cancel | services/runtime/src/anne_runtime/supervised_execution.py:109-126 | unknown and unregistered executions, states that cannot be cancelled, and where a failing cancel stops, each with its error and the exact record |
| SessionManager.ConversationSessionManager.CreateSession | services/runtime/src/anne_runtime/conversation_session_manager.py:59-81 | every result and the new cache and store, a failing save rolled back |
| SessionManager.ConversationSessionManager.GetSession | services/runtime/src/anne_runtime/conversation_session_manager.py:83-122 | the answer is the lookup's, and a success is cached and within all bounds |
| SessionManager.LooksUpExactlyWhen | services/runtime/src/anne_runtime/conversation_session_manager.py:83-122 | the cached conversation, or else the stored one message by message; missing, unreadable and full each exactly |
| SessionManager.ConversationSessionManager.AppendMessage | services/runtime/src/anne_runtime/conversation_session_manager.py:133-175 | the stored conversation is the cached one with exactly the normalized message added; on any failure the store and the cached messages are as before |
| SessionManager.AppendsExactlyWhen | services/runtime/src/anne_runtime/conversation_session_manager.py:133-175 | an append succeeds exactly when the message is accepted, the session found, message and characters within the bounds and the store saves |
| SessionManager.ConversationSessionManager.ClearSession | services/runtime/src/anne_runtime/conversation_session_manager.py:177-190 | empty in both, or as before in both |
| SessionManager.ConversationSessionManager.DeleteSession | services/runtime/src/anne_runtime/conversation_session_manager.py:192-221 | gone from both, or as before in both, and exactly when |
| SessionManager.ConversationSessionManager.HasSession | services/runtime/src/anne_runtime/conversation_session_manager.py:223-235 | true exactly for cached or stored sessions; a store that fails counts as no |
| SessionManager.HydrateSession | services/runtime/src/anne_runtime/conversation_session_manager.py:83-122 | the loading loop accepts exactly what fits the bounds |
| SessionManager.HydratesExactlyWhen | services/runtime/src/anne_runtime/conversation_session_manager.py:83-122 | a stored conversation loads exactly when each message is accepted and all together are within the bounds, and as those messages |
| SessionManager.TotalSplits | services/runtime/src/anne_runtime/conversation_session_manager.py:150-162 | the characters counted are those of the contents, part by part |
| SessionManager.FreshManagerAgrees | services/runtime/src/anne_runtime/conversation_session_manager.py:83-122 | over the same store and bounds a manager that has cached nothing sees what every other sees, unless the other is full; exactly when it is full |
| SessionManager.GoodHydrates | services/runtime/src/anne_runtime/conversation_session_manager.py:296-325 | a conversation within the bounds loads as itself |
| SessionManager.HydrateIsGood | services/runtime/src/anne_runtime/conversation_session_manager.py:296-325 | whatever loads is within the bounds |
| SessionManager.NormalizeIsIdempotent | services/runtime/src/anne_runtime/conversation_session_manager.py:243-294 | a normalized message is within the bounds and normalizes to itself |
| SessionManager.NormalizesExactlyWhen | services/runtime/src/anne_runtime/conversation_session_manager.py:243-294 | which messages are accepted and as what: role, content and name with the spaces around them gone, none blank, the content not too long |
| Strings.StripSettles | services/runtime/src/anne_runtime/conversation_session_manager.py:243-294 | stripping settles: no space is left at either end and a stripped string stays |
| Strings.StripsExactlyWhen | services/runtime/src/anne_runtime/conversation_session_manager.py:243-294 | a string strips to m exactly when it is m with spaces around it and m has none at its ends |
| SessionPersistence.SavedReads | services/runtime/src/anne_runtime/sqlite_conversation_session_persistence.py:78-212 | the two tables after a save read back the very conversation, and hold no other row than before for other sessions |
| SessionPersistence.OthersRead | services/runtime/src/anne_runtime/sqlite_conversation_session_persistence.py:78-244 | a session whose rows are untouched reads as before |
| SessionPersistence.ReadsExactlyWhen | services/runtime/src/anne_runtime/sqlite_conversation_session_persistence.py:78-137 | each answer of a load exactly: unknown, wrong version, a row that is no object, or the rows decoded one by one |
| SessionPersistence.Codec.DecodesWhatItEncoded | services/runtime/src/anne_runtime/sqlite_conversation_session_persistence.py:78-212 | decoding the rows of an encoded conversation gives the conversation |
| SessionPersistence.SessionStore.Load | services/runtime/src/anne_runtime/sqlite_conversation_session_persistence.py:78-137 | the stored conversation with each way of being invalid |
| SessionPersistence.SessionStore.Select | services/runtime/src/anne_runtime/sqlite_conversation_session_persistence.py:103-111 | the rows of one session in index order |
| SessionPersistence.SessionStore.Save | services/runtime/src/anne_runtime/sqlite_conversation_session_persistence.py:139-212 | reads back what was saved; other sessions kept; a failing save changes nothing |
| SessionPersistence.SessionStore.Clear | services/runtime/src/anne_runtime/sqlite_conversation_session_persistence.py:214-228 | an existing session reads as empty; other sessions kept |
| SessionPersistence.SessionStore.Delete | services/runtime/src/anne_runtime/sqlite_conversation_session_persistence.py:230-244 | the session is gone with its messages; other sessions kept |
| AuditLog.VerifiesExactlyWhenSerial | services/runtime/src/anne_runtime/audit.py:35-117 | over every interleaving of appends with unique ids the log verifies if and only if no other write fell between an append's reading and its own write |
| AuditLog.LastHashDeterminesLog | services/runtime/src/anne_runtime/audit.py:87-117 | two verifying logs that end in the same hash are equal record by record, whatever their lengths |
| AuditLog.PrefixVerifies | services/runtime/src/anne_runtime/audit.py:87-117 | a log cut short still verifies, so only its last hash tells |
| AuditLog.ExtensionVerifies | services/runtime/src/anne_runtime/audit.py:87-117 | one more record keeps the log verifying exactly when it continues it |
| AuditLog.AppendOnlyAuditLog.Append | services/runtime/src/anne_runtime/audit.py:35-73 | exactly one record is added, chained to the last one; alone, an append keeps the log verifying |
| AuditLog.AppendOnlyAuditLog.Write | services/runtime/src/anne_runtime/audit.py:37-73 | the record written carries the hash of its own contents |
| AuditLog.AppendOnlyAuditLog.ReadLastHash | services/runtime/src/anne_runtime/audit.py:75-85 | the hash of the last record, or GENESIS |
| AuditLog.AppendOnlyAuditLog.VerifyChain | services/runtime/src/anne_runtime/audit.py:87-117 | true exactly for the logs in which every record continues the one before and carries its own hash |
| AuditLog.RacingAppendsBreakChain | services/runtime/src/anne_runtime/runtime_host.py:87-97 | two of the host's workers that append at once leave a log that does not verify |
| Orchestrator.TaskStateMachine.Transition | services/runtime/src/anne_runtime/state_machine.py:60-70 | moves exactly along the table's edges and stays otherwise |
| Orchestrator.TaskLifecycle.Transition | services/runtime/src/anne_runtime/lifecycle.py:43-63 | an allowed transition adds exactly one event with the next number; a refused one adds none; the events are always a legal path |
| Orchestrator.RunWithRetry | services/runtime/src/anne_runtime/retry.py:27-50 | the result is that of the first attempt that does not time out, or of the last allowed |
| Orchestrator.TaskOrchestrator.Run | services/runtime/src/anne_runtime/orchestrator.py:47-371 | whatever executor, checks and audit log do: the run ends in a terminal state along allowed edges with events numbered 1 to n, and the log grows by exactly the records of that course |
| Orchestrator.CourseEndsTerminal | services/runtime/src/anne_runtime/orchestrator.py:62-371 | every course is a legal path to a terminal state; through the handler it ends FAILED |
| Orchestrator.DeniedExactlyWhen | services/runtime/src/anne_runtime/orchestrator.py:62-371 | a task ends DENIED exactly when the preflight denies it; a denial after RUNNING, raised or returned, ends FAILED |
| Orchestrator.StopsExactlyWhen | services/runtime/src/anne_runtime/orchestrator.py:62-349 | CANCELLED and TIMED_OUT exactly: cancelled before or while running, by the watchdog, by a time-out of the last attempt, or by the status returned |
| Orchestrator.FailsExactlyWhen | services/runtime/src/anne_runtime/orchestrator.py:62-349 | FAILED exactly when a check raises anything but a cancellation or denial, the timeout is not positive, an attempt is denied or raises anything else, or the result is invalid, denied or says so |
| Orchestrator.ReportsExactly | services/runtime/src/anne_runtime/orchestrator.py:62-371 | the result is the accepted status, and the error code is fixed by the final state |
| Orchestrator.SucceedsExactlyWhen | services/runtime/src/anne_runtime/orchestrator.py:62-371 | a task ends SUCCEEDED exactly when all checks pass and the decisive attempt says so |
| Orchestrator.OneRecordPerRun | services/runtime/src/anne_runtime/orchestrator.py:62-371 | with a working log there is exactly one record and it names the final state; with failing writes, exactly when it does not, what run then returns and when it raises |
| Orchestrator.TaskOrchestrator.Pursue | services/runtime/src/anne_runtime/orchestrator.py:62-336 | the try block takes the course, or raises one state before its end |
| Orchestrator.TaskOrchestrator.Conclude | services/runtime/src/anne_runtime/orchestrator.py:172-336 | the same from the outcome of the attempts on |
| Orchestrator.TaskOrchestrator.Handle | services/runtime/src/anne_runtime/orchestrator.py:338-371 | FAILED unless terminal already, and one record |
| ToolContracts.ValidatesExactly | services/runtime/src/anne_runtime/tool_contracts.py:90-125 | the schema check accepts exactly the arguments with every required name, no unknown name and the declared types |
| ToolContracts.TypesExactly | services/runtime/src/anne_runtime/tool_contracts.py:110-125 | which declared types accept a value |
| ToolContracts.CheckDescriptor | services/runtime/src/anne_runtime/tool_contracts.py:65-167 | accepts exactly the descriptors with nonblank id, version, domain and argument names, a positive timeout, and no repeated argument, capability, software, artifact type or permission |
| ToolContracts.InvocationStaysWithin | services/runtime/src/anne_runtime/tool_contracts.py:235-267 | an invocation is accepted exactly when it names the tool, the same permissions, a timeout no longer than the descriptor's, a key, and arguments that fit |
| ToolContracts.ToolRegistry.Register | services/runtime/src/anne_runtime/tool_registry.py:15-27 | exactly this entry is set, exactly when it is new or may be replaced |
| ToolContracts.ToolRegistry.Unregister | services/runtime/src/anne_runtime/tool_registry.py:29-33 | exactly this entry goes |
| ToolContracts.ResolvesExactlyWhen | services/runtime/src/anne_runtime/intelligence_tool_authority.py:74-114 | a proposal resolves exactly when its tool is registered and its completed arguments fit; the call carries ids, operation and arguments of the proposal and takes all authority from the descriptor |
| ToolContracts.CompletesExactly | services/runtime/src/anne_runtime/intelligence_tool_authority.py:80-96 | the arguments are those proposed, each unchanged, and an operation filled in exactly when the descriptor requires one and none was given |
| Policy.EvaluatesExactly | services/runtime/src/anne_runtime/policy.py:37-84 | the decision is that of the deciding rule, which exists whenever any rule applies; otherwise DENY |
| Policy.OneRuleDecides | services/runtime/src/anne_runtime/policy.py:37-84 | a single rule decides exactly when class, pattern and expiry say it applies, and ALLOW needs a rule that allows without approval |
| ToolExecution.HandlerOnlyWhenAllowed | services/runtime/src/anne_runtime/tool_executor.py:57-382 | whatever call and authorization come in, a handler starts only for a call within its descriptor with every permission allowed; at most twice, and at most once unless descriptor and call are SAFE |
| ToolExecution.ResolvedCallIsNeverRejected | services/runtime/src/anne_runtime/tool_executor.py:94-142 | a call made by the resolver and authorized by the runner on the same registry never ends INVALID_INVOCATION or AUTHORIZATION_MISMATCH |
| ToolExecution.ExecutesExactlyWhen | services/runtime/src/anne_runtime/tool_executor.py:57-382 | every execution ends in exactly one way: cancelled, one of three rejections, denied or sent for approval by the first permission not allowed, or as its attempts do |
| ToolExecution.AttemptsEndExactlyWhen | services/runtime/src/anne_runtime/tool_executor.py:209-382 | cancelled, timed out, failed, invalid or succeeded by the attempt that counts, with the exact number of handler starts |
| ToolExecution.NestedRetriesExecuteOnce | services/runtime/src/anne_runtime/tool_executor.py:230-382 | no TimeoutError leaves the executor, so through both retry loops the handler starts at most twice, and once unless both are SAFE |
| ToolExecution.AttemptsAreRecorded | services/runtime/src/anne_runtime/tool_executor.py:230-382 | handler starts never exceed attempts, and the audit events tell of each start and of the one end |
| ToolExecution.AttemptIsAccountable | services/runtime/src/anne_runtime/tool_executor.py:221-380 | an attempt goes unanswered exactly when handler or validator raised other than by time-out or cancellation and another attempt is left; the handler starts at most once and only after the attempt is recorded; the closing event says retrying, succeeded, timed out or cancelled exactly when the answer does |
| ToolExecution.ToolExecutor.Execute | services/runtime/src/anne_runtime/tool_executor.py:57-382 | the audit list, reply and handler starts are exactly those of the specification |
| ToolExecution.ToolExecutor.RunAttempts | services/runtime/src/anne_runtime/tool_executor.py:209-382 | the loop with its early returns records, starts and answers as the specification of all attempts |
| ToolExecution.RequestsAgreeExactlyWhen | services/runtime/src/anne_runtime/tooling.py:54-67 | the runner's requests are the executor's exactly when call and descriptor list the same permissions and the executor acts as the runner's principal |
| ToolExecution.AuthorizesExactlyWhen | services/runtime/src/anne_runtime/tooling.py:69-76 | the runner authorizes exactly the calls all of whose permissions are allowed, one request each |
| ContextWindow.BuildContext | services/runtime/src/anne_runtime/context_manager.py:105-182 | fails exactly when a message cannot be normalized, with that error; otherwise the snapshot of the greedy selection in original order |
| ContextWindow.Choose | services/runtime/src/anne_runtime/context_manager.py:151-169 | the loop with break and continue computes the greedy selection and its size |
| ContextWindow.GreedyFits | services/runtime/src/anne_runtime/context_manager.py:151-169 | the selection is within both budgets |
| ContextWindow.GreedyIsGreatest | services/runtime/src/anne_runtime/context_manager.py:151-169 | every other selection within the budgets is below it, compared newest first |
| ContextWindow.KeepsAllExactlyWhen | services/runtime/src/anne_runtime/context_manager.py:151-182 | nothing is dropped exactly when everything fits |
| ContextWindow.SelectionIsIdempotent | services/runtime/src/anne_runtime/context_manager.py:151-182 | the snapshot is the greedy selection with its counts; selecting again changes nothing; kept + dropped = total; truncated exactly when not everything fits |
| ContextWindow.BuildIsIdempotent | services/runtime/src/anne_runtime/context_manager.py:105-182 | building from a context's own messages gives them back with nothing dropped |
| ContextWindow.NormalizeIsIdempotent | services/runtime/src/anne_runtime/context_manager.py:185-226 | a normalized message normalizes to itself |
| ContextWindow.NormalizesExactlyWhen | services/runtime/src/anne_runtime/context_manager.py:185-226 | which messages are accepted, and that role, content and name come through unchanged |

## Left out

- Floating-point rounding, overflow, NaN and the magnitude and length caps of the numeric tools (the caps on direct transforms and on step counts are kept).
- The cancellation callback inside `_fft`; serialization of spectra and results; the expression language of the numeric tools, whose functions are taken as arbitrary total functions.
- Root mean square, peaks, differences, Newton's and the secant method, difference quotients, matrix addition, scaling and transposition: each follows from one line.
- Sorting inside `_cubic_spline` is an insertion sort with the sorted result proved; Python's own sort is not modelled.
- In `manager.rs`: lock poisoning, the checks on blank operations and non-object payloads, `is_running`, process spawning, pipes and the wait for the child; a line that is not UTF-8 or JSON is a failed read with its text, and the wording of a rejected response's error is one constant.
- RuntimeManager.RuntimeManager: its methods take the steps of one thread at a time; the interleavings are those of `Multiplexer`.
- In `worker_process.py`: message encoding (a message fits its size limit or not), snapshots, and parent calls made at the same time by several threads.
- In the supervisor: telemetry that raises, resource figures, checks of single worker messages, and concurrent calls; process ends that raise are modelled for the supervisor but not for `SupervisedExecution`.
- In the session manager: the conversation objects handed out are values, so a caller that changes one in place is not captured; concurrent calls; SQLite transactions are atomic, and statements that fail halfway are rolled back by assumption.
- AuditLog: the hash is an injective function that never gives GENESIS; malformed and blank lines, torn writes and the details of events are not modelled.
- Orchestrator.TaskOrchestrator.Run: lifecycle listeners, timestamps, the watchdog's thread and `cancel` are inputs of the run.
- ToolExecution: the thread pool and deadlines of `_run_handler` are inputs; a handler that itself raises TimeoutError counts as overrunning its deadline, which is what the polling loop makes of it.
- Policy: `fnmatch` patterns and expiry dates are parameters of a rule.
- JSON Schema validation, the capability catalogue's snapshot, context budget aliases and summaries, model providers, the user interface and the formula-only tools.
