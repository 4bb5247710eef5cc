# hedge core in Dafny

This project models parts of hedge, a discontinuous Galerkin (DG) finite-element framework written in Python. It covers five source files.

- **Poisson and Helmholtz operators** (`hedge/models/poisson.py`).
  - The operator template that `op_template` assembles from the LDG (local DG) second-derivative scheme.
  - The two boundary-condition getters the scheme asks for boundary data.
  - The diffusion-tensor choice.
  - `bind` with its checks.
  - The bound operator: `shape`, `op` with the Poincaré mean-value correction, and `prepare_rhs`.
  - The Helmholtz shift by k² u or k² M u.
- **Strong-form wave operator** (`examples/wave/wave.py`).
  - The central and upwind fluxes, evaluated pointwise at one face node.
  - Rejection of unknown flux types.
  - The mirror boundary state.
  - Injection of the source term into `rhs`.
- **Diagonalised 1-D wave operator** (`examples/wave/diagwave.py`).
  - The signed characteristic flux and the indicator functions.
  - The radiation boundary state that `rhs` stores in `rad_bc`.
  - The change of variables V.
  - The construction checks.
- **Visualisation connectivity** (`src/python/visualization.py`).
  - Padding points and vectors to three components.
  - The global polygon list, built by shifting each element's local sub-mesh.
  - The dimension-major Silo coordinates and the zone list.
- **Jacobi polynomials** (`src/polynomial.py`).
  - The orthonormal three-term recurrence of `jacobi_polynomial`, over exact reals.
  - Repeated differentiation.
  - The Legendre wrappers.
  - The Vandermonde matrices.

Module layout, one file per module:

- `common.dfy`: errors, `Result`/`Option`, boundary tags and the coverage condition.
- `fields.dfy`: per-node fields and their elementwise arithmetic.
- `optemplate.dfy`: the symbolic operator-template expressions, the boundary-condition getters and `SecondDerivativeTarget`, which the scheme fills in place.
- `poisson.dfy`, `wave.dfy`, `diagwave.dfy`, `visualization.dfy`, `polynomial.dfy`: one per source file.

Not part of this model: library code the operators call but whose source is not modelled, namely:

- `hedge.second_order`;
- `discr.compile`;
- the mass, inverse-mass and nabla operators;
- `get_flux_operator`;
- `boundarize_volume_field`;
- `check_bc_coverage`;
- the interpolants.

These appear as uninterpreted function-valued fields of a discretization datatype. They are constrained by the sizes of what they return, and by two further facts: the Poisson discretization's `mesh_volume` is positive, and the discretization of diagwave is one-dimensional, so that `nabla` is the single derivative `nabla0` and the transport term has exactly two components. The LDG scheme's result is a symbolic node (`LdgGrad`, `LdgDiv`) that records:

- its operand;
- the boundary data the scheme obtained from the getter.

The model assumes the scheme's protocol: the gradient asks for Dirichlet data only, and the divergence asks for Dirichlet and then Neumann data.

A Jacobi polynomial is a coefficient sequence. The recurrence is a generic `Recurrence`, that is P_0, P_1 and coefficient functions a and b. For step i (building P_(i+1)), a_old is a(i−1), a_new is a(i) and b_new is b(i). `JacobiRecurrence` instantiates it with the source's formulas, so a(0) is the `aold` set before the loop and a(i) is the `anew` of step i. `sqrt`, `scipy.special.gamma` and `2**x` are parameters (`Special`), known only by their signs. `pymbolic.compile` becomes Horner evaluation (`Eval`).

## Model

| member | source | states |
|---|---|---|
| OpTemplate.FieldTensorEntry | hedge/models/poisson.py:73-75 | entry (i, j) of the "diffusion" field reshaped to d×d is component i·d + j, always one of the d² components |
| OpTemplate.ReshapeIsBijective | hedge/models/poisson.py:73-75 | every component k < d² appears at exactly one entry, (k / d, k % d) |
| OpTemplate.BcGetter.Ask | hedge/models/poisson.py:61-90 | the gradient getter answers exactly the Dirichlet tag with dir_bc. The divergence getter answers the Dirichlet tag with dir_bc first, then the Neumann tag with neu_bc. Every other tag is an AssertionError |
| OpTemplate.AskAll | hedge/models/poisson.py:64-67 | asking tag by tag succeeds iff every single request succeeds, and then returns the answers in tag order |
| OpTemplate.GradAllSingle | hedge/models/poisson.py:61-67 | with the one Dirichlet tag, the gradient node holds dir_bc as its only boundary data |
| OpTemplate.DivAllSingle | hedge/models/poisson.py:83-95 | the divergence node holds dir_bc for the Dirichlet tag. It holds neu_bc for the Neumann tag, or dir_bc again when the two tags are equal |
| OpTemplate.SecondDerivativeTarget.constructor | hedge/models/poisson.py:57-59 | a new target has its dimensions, strong-form flag and operand, and no results yet |
| OpTemplate.SchemeGrad | hedge/models/poisson.py:57-67 | grad fills the target in place with all and minv_all = M⁻¹ all, or fails as the getter does and leaves the target unchanged |
| OpTemplate.SchemeDiv | hedge/models/poisson.py:79-95 | div fills the target in place the same way, or fails as the getter does |
| Poisson.Identity | hedge/models/poisson.py:127-128 | the default tensor is the d×d identity |
| Poisson.NewPoissonOperator | hedge/models/poisson.py:114-129 | defaults: identity tensor, zero constant boundary data, tags "dirichlet" and "neumann". Supplied arguments are kept unchanged |
| Poisson.NewHelmholtzOperator | hedge/models/poisson.py:249-251 | a Helmholtz operator is the Poisson operator with the same arguments, plus k |
| Poisson.SymDiffTensor | hedge/models/poisson.py:69-77 | a constant tensor is used as it is. Otherwise the tensor is the field "diffusion" reshaped row by row to d×d: entry (i, j) is component i·d + j, and the template reads "diffusion" (for d > 0) |
| Poisson.SymDiffTensorUsesEveryComponent | hedge/models/poisson.py:73-75 | every component k < d² of "diffusion" is entry (k / d, k % d) of the variable tensor, and no other entry |
| Poisson.LaplacianTemplate | hedge/models/poisson.py:37-100 | op_template never fails: each getter is asked only for tags it answers |
| Poisson.BuildLaplacianTemplate | hedge/models/poisson.py:49-100 | the imperative template construction, with two targets filled in place, yields LaplacianTemplate |
| Poisson.HelmholtzTemplate | hedge/models/poisson.py:253-264 | the Helmholtz template never fails |
| Poisson.Template | hedge/models/poisson.py:253-258 | op_template dispatched on the operator's class never fails |
| Poisson.OmittedArgumentsAreNamedFields | hedge/models/poisson.py:52-54 | omitting u, dir_bc or neu_bc is the same as passing the fields "u", "dir_bc", "neu_bc" |
| Poisson.MinvAllIsInverseMassOfAll | hedge/models/poisson.py:97-100 | apply_minv=True gives minv_all, which is the inverse mass applied to the apply_minv=False result all |
| Poisson.LaplacianTemplateNodes | hedge/models/poisson.py:57-100 | the template is div(K M⁻¹ grad u) with the boundary data per tag, wrapped in M⁻¹ iff apply_minv |
| Poisson.LaplacianTemplateFields | hedge/models/poisson.py:52-100 | the template reads exactly the fields of u and dir_bc, those of neu_bc unless both tags are equal, and "diffusion" for a variable tensor |
| Poisson.TemplateFields | hedge/models/poisson.py:253-264 | the same holds for the Helmholtz template |
| Poisson.HelmholtzShift | hedge/models/poisson.py:260-264 | Helmholtz = Laplacian + k² u with apply_minv, and + k² M u without |
| Poisson.HelmholtzShiftFields | hedge/models/poisson.py:260-264 | the shift reads no field besides u |
| Poisson.CompiledTemplatesSkipInverseMass | hedge/models/poisson.py:154-156 | neither compiled template applies the inverse mass last (the outermost node only; LaplacianTemplateNodes gives the whole template) |
| Poisson.OperatorTemplateFields | hedge/models/poisson.py:154-155 | the homogeneous template reads "u" and, for a variable tensor, "diffusion" |
| Poisson.BoundaryTemplateFields | hedge/models/poisson.py:156 | the boundary template also reads "dir_bc", and "neu_bc" unless both tags are equal |
| Poisson.TensorFieldsAtMostDiffusion | hedge/models/poisson.py:69-77 | the tensor reads at most "diffusion", and only when it is variable |
| Poisson.PoincareFlagMeansPureNeumann | hedge/models/poisson.py:164-170 | with Neumann nodes among the boundary nodes, the flag (equal node counts) holds iff the Neumann boundary is the whole boundary |
| Poisson.BoundPoissonOperator.constructor | hedge/models/poisson.py:148-170 | the bound operator compiles both templates, interpolates a variable tensor, and sets the Poincaré flag |
| Poisson.BoundPoissonOperator.Shape | hedge/models/poisson.py:176-179 | shape is (n, n), with n the node count |
| Poisson.BoundPoissonOperator.Op | hedge/models/poisson.py:181-193 | op returns one value per node, and exactly the compiled result when the flag is off |
| Poisson.BoundPoissonOperator.PrepareRhs | hedge/models/poisson.py:197-243 | prepare_rhs returns one value per node |
| Poisson.Bind | hedge/models/poisson.py:132-140 | bind succeeds iff the dimensions agree and the two tags cover the boundary. A dimension mismatch is an AssertionError, otherwise the coverage error. The result is the constructed operator |
| Poisson.MeanValueCorrectionPinsConstants | hedge/models/poisson.py:188-191 | with the flag set, a linear integral and a compiled operator blind to constants, op(u + c) = op(u) − c·mass_ones |
| Poisson.PrepareRhsReducesBoundaryValueProblem | hedge/models/poisson.py:197-243 | for an operator without the Poincaré flag, and given that the compiled boundary template at u splits into the compiled operator at u plus the compiled boundary template at zero u: op(u) = prepare_rhs(f) iff the full inhomogeneous operator at u equals M f, which is the rearrangement (*) of the docstring |
| Poisson.HelmholtzWithZeroWaveNumberIsPoisson | hedge/models/poisson.py:260-264 | when compilation is linear, the bound Helmholtz operator with k = 0 applies exactly as the Poisson operator |
| Poisson.OpContextBindsTemplateFields | hedge/models/poisson.py:182-186 | op's arguments bind every field its compiled template reads |
| Poisson.PrepareRhsAsWrittenLacksDiffusion | hedge/models/poisson.py:237-243 | as written, prepare_rhs does not bind "diffusion" although the boundary template reads it (variable tensor, d > 0) |
| Poisson.BcContextBindsTemplateFields | hedge/models/poisson.py:237-243 | with "diffusion" added, prepare_rhs binds every field the boundary template reads |
| Wave.ParseFluxType | examples/wave/wave.py:45-53 | "central" and "upwind" are accepted. Anything else is ValueError("invalid flux type") |
| Wave.WeakFluxEntries | examples/wave/wave.py:41-51 | the weak flux is (v.avg·n, u.avg n), plus half the jump of every component for upwind |
| Wave.StrongFluxEntries | examples/wave/wave.py:55-57 | the strong flux is (v.int·n, u.int n) minus the weak flux, component by component |
| Wave.UpwindAddsHalfJump | examples/wave/wave.py:47-51 | upwind minus central is exactly 0.5 (w.int − w.ext) |
| Wave.UpwindIsCentralWithoutJump | examples/wave/wave.py:45-51 | with equal traces, the two flux types coincide |
| Wave.StrongFluxVanishesWithoutJump | examples/wave/wave.py:41-57 | the strong flux is zero where the field is continuous (consistency) |
| Wave.CentralStrongFluxIsHalfJump | examples/wave/wave.py:41-57 | the central strong flux is half the jump of the physical flux |
| Wave.CentralFluxIsConservative | examples/wave/wave.py:41-43 | swapping the traces and reversing the normal negates the central flux |
| Wave.WeakFluxIsConservative | examples/wave/wave.py:41-51 | both flux types are conservative between neighbouring elements |
| Wave.MirrorImposesZeroU | examples/wave/wave.py:71-73 | against the mirror state, u.avg = 0 and v.avg = v: the v-part of the flux vanishes, and only upwind adds u to the u-part |
| Wave.Boundarized | examples/wave/wave.py:71-73 | each component is restricted to the boundary |
| Wave.MirrorBc | examples/wave/wave.py:71-73 | at every boundary node the boundary state is (−u, v) of the boundary values |
| Wave.NablaDot | examples/wave/wave.py:76 | dot(nabla, v) is a volume field |
| Wave.SpatialRhs | examples/wave/wave.py:75-78 | the right-hand side has 1 + dim components of n nodes |
| Wave.StrongWaveOperator.constructor | examples/wave/wave.py:29-31 | the operator keeps its discretization, source and flux type |
| Wave.NewStrongWaveOperator | examples/wave/wave.py:29-59 | an omitted flux type is upwind. Construction succeeds iff the flux type is omitted or known, else ValueError |
| Wave.StrongWaveOperator.Rhs | examples/wave/wave.py:65-83 | rhs is the spatial operator, with the source added to component 0 only, and only when there is a source |
| DiagWave.DiagStrongFluxIsHalfJump | examples/wave/diagwave.py:43-47 | c times the strong flux is, per component, half the jump, signed by coeff_sign and scaled by c·n0 |
| DiagWave.Indicators | examples/wave/diagwave.py:77-78 | the indicators sum to 1. n = 1 gives (1, 0) and n = −1 gives (0, 1) |
| DiagWave.RadiationAtRightEnd | examples/wave/diagwave.py:77-91 | at n = 1 the radiation state is (s0, 0), and the outgoing component has no flux |
| DiagWave.RadiationAtLeftEnd | examples/wave/diagwave.py:77-91 | at n = −1 the radiation state is (0, s1), and the outgoing component has no flux |
| DiagWave.RadiationBc | examples/wave/diagwave.py:75-91 | rad_bc = ind_right (s0, 0) + ind_left (0, s1), node by node |
| DiagWave.Transpose | examples/wave/diagwave.py:63 | v.T swaps rows and columns |
| DiagWave.Apply2 | examples/wave/diagwave.py:62-63 | a 2×2 matrix applied to a two-component state, node by node |
| DiagWave.VIsSymmetric | examples/wave/diagwave.py:60-63 | Vt equals V |
| DiagWave.VRoundTrip | examples/wave/diagwave.py:60-63 | with the scale factor squared equal to 1/2, V V w = w, so s = Vt w is inverted by V |
| DiagWave.VDiagonalizesWaveCoupling | examples/wave/diagwave.py:94-102 | for every speed c, with s = V (u_x, v_x): the s-space transport (−c s0, c s1), mapped by V, is u_t = −c v_x and v_t = −c u_x |
| DiagWave.DefaultTagsCover | examples/wave/diagwave.py:15-32 | the default tags (TAG_ALL, TAG_NONE, TAG_NONE) pass the coverage check on every mesh (an instance of Common.TagAllCovers) |
| DiagWave.Diagonalized1DWaveOperator.constructor | examples/wave/diagwave.py:13-53 | the operator keeps c, its tags and the radiation normals, and has no rad_bc yet |
| DiagWave.NewDiagonalized1DWaveOperator | examples/wave/diagwave.py:13-32 | construction succeeds iff c > 0 and the tags cover the boundary. c ≤ 0 fails first (AssertionError); then coverage. The operator keeps c, discr, source_f and the defaulted tags, and nothing in it depends on flux_type |
| DiagWave.Diagonalized1DWaveOperator.SpatialRhs | examples/wave/diagwave.py:94-100 | the s-space right-hand side has two components of n nodes |
| DiagWave.Diagonalized1DWaveOperator.Rhs | examples/wave/diagwave.py:65-106 | rhs stores the radiation state in rad_bc and returns V times the s-space result, with the source added to component 0 only |
| DiagWave.RhsIsDiagonalRhsInWVariables | examples/wave/diagwave.py:70-102 | mapping the w-space result back by Vt recovers the s-space result (VRoundTrip for this state) |
| DiagWave.Diagonalized1DWaveOperator.MaxEigenvalue | examples/wave/diagwave.py:108-109 | the maximum eigenvalue is the positive wave speed c |
| Common.TagAllCovers | examples/wave/diagwave.py:15-32 | any tag list containing TAG_ALL covers every mesh |
| Visualization.ThreeVector | src/python/visualization.py:1-7 | lengths 1, 2 and 3 are padded with zeros to 3, keeping x as the prefix. Any other length gives no result |
| Visualization.ThreeVectorIdempotent | src/python/visualization.py:1-7 | padding a padded vector changes nothing |
| Visualization.ThreeVectorRoundTrip | src/python/visualization.py:1-7 | the first len(x) components of the padded vector are x |
| Visualization.ElementPolygons | src/python/visualization.py:23-24 | each global index minus el_start is the local sub-mesh index, polygon by polygon |
| Visualization.BuildPolygons | src/python/visualization.py:20-24 | the nested loops produce exactly the group-by-group, element-by-element list |
| Visualization.GroupPolygonsLength | src/python/visualization.py:22-24 | each element contributes one polygon per sub-mesh polygon |
| Visualization.AllPolygonsCount | src/python/visualization.py:56-60 | the number of polygons is the sum of the sub-mesh counts over all elements |
| Visualization.GroupPolygonsAt | src/python/visualization.py:22-24 | polygon t of element k sits at k·|submesh| + t (element order, then sub-mesh order) |
| Visualization.GroupPolygonsInNodes | src/python/visualization.py:22-24 | when the sub-mesh fits inside each element's node range, every global index is a node number |
| Visualization.AllPolygonsInNodes | src/python/visualization.py:56-60 | the same holds for every group |
| Visualization.FlattenOfTriangles | src/python/visualization.py:62 | flattening triangles gives three entries per triangle, in order |
| Visualization.TriangleZoneList | src/python/visualization.py:62-66 | with triangular sub-meshes, nodelist holds nodes 3z..3z+2 for zone z, consistent with shapesize [3] and nzones |
| Visualization.Coords | src/python/visualization.py:49-50 | the Silo coordinates have dims·N entries |
| Visualization.CoordsAt | src/python/visualization.py:49-50 | coords[d·N + i] = points[i][d] (dimension-major) |
| Visualization.VtkVisualizer.constructor | src/python/visualization.py:14-26 | the points are the padded discretization points, and the polygons are the global list |
| Visualization.VectorData | src/python/visualization.py:32-37 | every value of every vector field is `_three_vector` of it: padded with zeros to 3 components for lengths 1 to 3, None otherwise. Each field keeps its name and its number of values |
| Visualization.SiloVisualizer.constructor | src/python/visualization.py:45-67 | coords are dimension-major, nodelist is the flattened polygon list, shapesize [3], nshapetypes 1, nzones = shapecounts[0] = number of polygons, ndims = dimensions |
| Polynomial.CoeffDerivative | src/polynomial.py:68 | the coefficient of x^k in p' is (k+1) times that of x^(k+1) in p |
| Polynomial.DerivativeOfSum | src/polynomial.py:68 | differentiation is additive |
| Polynomial.IterDerivativeLength | src/polynomial.py:67-68 | each derivative lowers the degree by one, down to the zero polynomial |
| Polynomial.IterDerivativeCompose | src/polynomial.py:67-68 | differentiating a times and then b times is differentiating a + b times |
| Polynomial.Gamma0 | src/polynomial.py:25-26 | gamma0 > 0 for every admissible (alpha, beta), including alpha + beta + 1 < 0 |
| Polynomial.Gamma1 | src/polynomial.py:33 | gamma1 > 0 |
| Polynomial.P0 | src/polynomial.py:27 | P_0 is a positive constant |
| Polynomial.P1 | src/polynomial.py:34 | P_1 has degree 1 with a positive leading coefficient, and is odd when alpha = beta |
| Polynomial.ARadicandPositive | src/polynomial.py:45-46 | the radicand of a_new is positive for i ≥ 1 |
| Polynomial.ANew | src/polynomial.py:44-46 | a_new > 0 |
| Polynomial.AInit | src/polynomial.py:40 | the a_old before the loop is > 0 |
| Polynomial.A | src/polynomial.py:40-50 | every recurrence coefficient a_i is > 0 |
| Polynomial.AInitIsRecurrenceAtZero | src/polynomial.py:40-46 | the a_old before the loop is the a_new formula at i = 0 |
| Polynomial.StepAt | src/polynomial.py:48 | the new polynomial has the coefficients of (−a_old P_(i−1) + (x − b_new) P_i)/a_new, and length max(len P_(i−1), len P_i + 1), which is one degree more than P_i whenever len P_(i−1) ≤ len P_i + 1, as for consecutive terms |
| Polynomial.StepFormula | src/polynomial.py:48 | the step is that polynomial expression, built from scaling, sums and multiplication by x |
| Polynomial.StepDegree | src/polynomial.py:48 | from degrees k−2 and k−1 the step gives degree exactly k, with a positive leading coefficient |
| Polynomial.Term | src/polynomial.py:23-52 | P_k has degree exactly k and a positive leading coefficient |
| Polynomial.TermNext | src/polynomial.py:43-50 | step i builds P_(i+1) from P_(i−1), P_i, a(i−1), a(i), b(i) (Term's definition re-indexed to the loop variable) |
| Polynomial.ExtendTerms | src/polynomial.py:48 | appending P_(i+1) to P_0..P_i gives P_0..P_(i+1) |
| Polynomial.RunRecurrence | src/polynomial.py:23-52 | the list loop returns P_n: P_0 for N = 0, P_1 for N = 1, else N − 1 steps |
| Polynomial.JacobiRecurrence | src/polynomial.py:23-50 | the Jacobi coefficients form a valid recurrence (positive P_0, P_1 leading coefficients and a_i) |
| Polynomial.JacobiPolynomial | src/polynomial.py:9-52 | jacobi_polynomial returns the n-th term of that recurrence |
| Polynomial.StepParity | src/polynomial.py:48 | with b_new = 0, parities i−1 and i give parity i+1 |
| Polynomial.TermParity | src/polynomial.py:43-50 | with P_1 odd and all b zero, P_k is even or odd as k is |
| Polynomial.SymmetricJacobiParity | src/polynomial.py:34-50 | for alpha = beta, P_k has only powers of the parity of k |
| Polynomial.EvalParity | src/polynomial.py:59 | a polynomial of parity d evaluates to an even (d even) or odd (d odd) function |
| Polynomial.SymmetricJacobiFunction | src/polynomial.py:57-59 | for alpha = beta, P_n(−x) = (−1)^n P_n(x) |
| Polynomial.LegendreFunctionSymmetry | src/polynomial.py:93-95 | the Legendre function of degree n is even or odd as n |
| Polynomial.NumeratorsAgreeForLegendre | src/polynomial.py:47 | the written and intended b_new numerators agree for alpha = beta = 0 |
| Polynomial.BNewAsWrittenBreaksSymmetry | src/polynomial.py:47 | at alpha = beta = 1, the written numerator is 2 and gives P_2 a nonzero x coefficient, which the intended one does not |
| Polynomial.DiffJacobiPolynomial | src/polynomial.py:65-69 | the loop differentiates exactly `derivative` times (0 times returns P_n), leaving degree n − derivative |
| Polynomial.LegendrePolynomial | src/polynomial.py:81-82 | Legendre is Jacobi with alpha = beta = 0: degree n, positive leading coefficient, parity of n |
| Polynomial.DiffLegendrePolynomial | src/polynomial.py:87-88 | its derivative has degree n − derivative, and is zero beyond n |
| Polynomial.DiffLegendreFunctionIgnoresDerivative | src/polynomial.py:100-102 | at N = 1 and derivative = 2 the written function is the nonzero first derivative; the corrected one is 0 |
| Polynomial.DiffLegendreFunctionEvaluates | src/polynomial.py:100-102 | the corrected function evaluates the derivative of the requested order (an unfolding of its definition) |
| Polynomial.DiffLegendreFunctionVanishesAboveDegree | src/polynomial.py:100-102 | a corrected derivative of order above n is the zero function |
| Polynomial.GenericVandermonde | src/polynomial.py:107-112 | a fresh len(points)×len(functions) matrix whose entry [i, j] is functions[j](points[i]) for every i, j |
| Polynomial.LegendreVandermonde | src/polynomial.py:117-119 | N + 1 columns, where column j holds the Legendre function of degree j at each point |

## Left out

- Floating point: every field and coefficient is an exact real, and rounding is not modelled.
- `sqrt`, `scipy.special.gamma` and `2**x` in `jacobi_polynomial` are parameters. Only their signs are known: sqrt > 0 and 2**x > 0; gamma > 0 on (0, ∞) and < 0 on (−1, 0). No value of a normalisation constant is computed.
- The factor 1/sqrt(2) of V in diagwave is a positive parameter whose square is 1/2.
- `num` is never imported in `src/polynomial.py`, so `generic_vandermonde` would fail at its first line. `Polynomial.GenericVandermonde` models the evident intent, a zero matrix filled entry by entry.
- `FunctionValueCache` memoisation is transparent and left out.
- `pymbolic.compile` is modelled as Horner evaluation. `pymbolic.differentiate` is modelled as the coefficient-wise derivative.
- Polynomial.JacobiPolynomial: the steps are computed coefficient by coefficient. `Polynomial.StepFormula` proves the result equals the source's expression 1/a_new (−a_old P_(i−1) + (x − b_new) P_i). Its loop runs in `Polynomial.RunRecurrence`, with the a and b coefficients taken from `JacobiRecurrence` instead of the local variables `aold`, `anew`, `bnew`.
- Polynomial.BNewNumeratorAsWritten: modelled on integers only. For a float alpha or beta (even an integer-valued one such as 1.0), Python's `^` raises TypeError, and that error path is not modelled.
- `hedge.second_order` (the LDG scheme) is not part of this model. Its output is a symbolic node recording the operand and the boundary data, and its numerics are absent.
- The other library services are uninterpreted fields of the discretization datatypes, constrained by output sizes and, for the Poisson discretization, by `mesh_volume` > 0. These are:
  - `discr.compile`;
  - `MassOperator`;
  - `discr.integral`, `mesh_volume` and `_mass_ones`;
  - `boundary_interpolant` and `volume_interpolant`;
  - `get_flux_operator` and `nabla`;
  - the inverse mass;
  - `boundarize_volume_field` and `boundary_normals`.
- `check_bc_coverage` is modelled as the condition it checks: every boundary face carries one of the listed tags.
- The compiled flux operators are uninterpreted. The numerical fluxes are proved pointwise on one face node's traces.
- Poisson.BoundPoissonOperator.Op: the Poincaré property is proved under two assumptions, linearity of `integral` and a compiled operator that ignores constants, because both belong to unseen library code.
- Poisson.PrepareRhsReducesBoundaryValueProblem: assumes the compiled boundary template is affine in u, splitting into the compiled homogeneous operator at u plus the compiled boundary template at u = 0. This belongs to the unseen compile and scheme code. The lemma also covers only operators without the Poincaré flag; with the flag, op subtracts the mean-value term that prepare_rhs does not.
- Poisson.HelmholtzWithZeroWaveNumberIsPoisson: assumes `discr.compile` respects sums and scalings.
- The `dtype` property of `BoundPoissonOperator` and the `scheme` argument are left out. The scheme is always the LDG one.
- `radn_outer_radn` (diagwave, lines 54-58) is computed but never used by `rhs`, so it is left out. The same goes for the `nabla`, `mass` and `m_inv` attributes, which the discretization record replaces.
- `main()` in `examples/wave/wave.py` and `doc/multirate-ab/generate-mrab-diagrams.py` are left out. They are mesh generation, time stepping and file I/O.
- The `__call__` methods of `VtkVisualizer` and `SiloVisualizer` write files through pyvtk and `hedge._silo`, which is foreign I/O. Only the vector padding is modelled (`Visualization.VectorData`). Scalar fields, the description and the file name are left out.
- `_three_vector` returns a tuple, or its argument for length 3. Both become a sequence. Its integer `0` in the length-1 case becomes 0.0.
- The loop variables `el` and `el_stop` are never read by the polygon loops. They appear only through `zip`'s truncation to the shorter of `members` and `ranges`.

## Findings

| source | as written | input that shows it | evidently intended | confidence | as-written member | corrected member |
|---|---|---|---|---|---|---|
| hedge/models/poisson.py:237-243 | `prepare_rhs` calls `compiled_bc_op` with `u`, `dir_bc` and `neu_bc` only | a variable diffusion tensor (not a numpy array) with dimensions ≥ 1: the boundary template reads the field "diffusion", which this call leaves unbound | pass `diffusion=self.diffusion` as `op` does (lines 182-184) | not executed | Poisson.PrepareRhsAsWrittenLacksDiffusion | Poisson.BcContextBindsTemplateFields |
| src/polynomial.py:47 | `alpha^2-beta^2` is bitwise exclusive or, parsed as alpha ^ (2 − beta) ^ 2 | alpha = beta = 1, N = 2: the numerator is 2 instead of 0, so P_2^(1,1) gets a nonzero x coefficient although it must be even | alpha² − beta² | not executed | Polynomial.BNewAsWrittenBreaksSymmetry | Polynomial.SymmetricJacobiParity |
| src/polynomial.py:100-102 | `diff_legendre_function` does not pass `derivative` on, so the first derivative is always compiled | N = 1, derivative = 2: returns the nonzero constant P_1' instead of 0 | `diff_jacobi_polynomial(0, 0, N, derivative)` | not executed | Polynomial.DiffLegendreFunctionIgnoresDerivative | Polynomial.DiffLegendreFunctionVanishesAboveDegree |

The as-written definitions are:

- `Poisson.BoundPoissonOperator.BcContextAsWritten`;
- `Polynomial.BNewNumeratorAsWritten`;
- `Polynomial.DiffLegendreFunctionAsWritten`.

The rest of the model uses the corrected definitions:

- `Poisson.BoundPoissonOperator.BcContext`, through `PrepareRhs`;
- `Polynomial.BNewNumerator`, through `Jacobi`;
- `Polynomial.DiffLegendreFunction`.
