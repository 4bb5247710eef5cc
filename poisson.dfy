/** hedge.models.poisson: the LDG Poisson and Helmholtz operators, their
    operator templates, and the operator bound to a discretization that an
    iterative solver calls. */
module Poisson {
  import opened Common
  import opened Fields
  import opened OpTemplate

  /** hedge.data given functions, used as boundary data and as variable
      diffusion coefficients. */
  datatype GivenFunction = ConstantGivenFunction(value: real) | UserFunction(name: string)

  /** A diffusion tensor is a constant numpy matrix or anything else that can
      be interpolated onto the volume. */
  datatype DiffusionTensor =
    | ConstantTensor(matrix: seq<seq<real>>)
    | VariableTensor(f: GivenFunction)

  /** The configuration of a PoissonOperator; a HelmholtzOperator is the same
      configuration with a wave number k. */
  datatype LaplacianOperator = LaplacianOperator(
    dimensions: nat,
    diffusionTensor: DiffusionTensor,
    dirichletBc: GivenFunction,
    dirichletTag: Tag,
    neumannBc: GivenFunction,
    neumannTag: Tag,
    helmholtzK: Option<real>)

  /** The d-by-d identity matrix, numpy.eye(d). */
  function Identity(d: nat): (m: seq<seq<real>>)
    ensures |m| == d
    ensures forall i | 0 <= i < d :: |m[i]| == d
    ensures forall i, j | 0 <= i < d && 0 <= j < d :: m[i][j] == if i == j then 1.0 else 0.0
  {
    seq(d, i => seq(d, j => if i == j then 1.0 else 0.0))
  }

  /** PoissonOperator.__init__ with its defaults: no diffusion tensor means
      the identity, boundary data defaults to the zero constant, tags to
      "dirichlet" and "neumann". */
  function NewPoissonOperator(
    dimensions: nat, diffusionTensor: Option<DiffusionTensor>,
    dirichletBc: Option<GivenFunction>, dirichletTag: Option<Tag>,
    neumannBc: Option<GivenFunction>, neumannTag: Option<Tag>): (op: LaplacianOperator)
    ensures op.dimensions == dimensions && op.helmholtzK == None
    ensures diffusionTensor == None ==>
              op.diffusionTensor.ConstantTensor? && op.diffusionTensor.matrix == Identity(dimensions)
    ensures diffusionTensor.Some? ==> op.diffusionTensor == diffusionTensor.value
    ensures op.dirichletTag == dirichletTag.GetOr(Named("dirichlet"))
    ensures op.neumannTag == neumannTag.GetOr(Named("neumann"))
    ensures op.dirichletBc == dirichletBc.GetOr(ConstantGivenFunction(0.0))
    ensures op.neumannBc == neumannBc.GetOr(ConstantGivenFunction(0.0))
  {
    LaplacianOperator(
      dimensions,
      diffusionTensor.GetOr(ConstantTensor(Identity(dimensions))),
      dirichletBc.GetOr(ConstantGivenFunction(0.0)),
      dirichletTag.GetOr(Named("dirichlet")),
      neumannBc.GetOr(ConstantGivenFunction(0.0)),
      neumannTag.GetOr(Named("neumann")),
      None)
  }

  /** HelmholtzOperator.__init__: a Poisson operator that remembers k. */
  function NewHelmholtzOperator(
    k: real, dimensions: nat, diffusionTensor: Option<DiffusionTensor>,
    dirichletBc: Option<GivenFunction>, dirichletTag: Option<Tag>,
    neumannBc: Option<GivenFunction>, neumannTag: Option<Tag>): (op: LaplacianOperator)
    ensures op.helmholtzK == Some(k)
    ensures op.(helmholtzK := None) ==
              NewPoissonOperator(dimensions, diffusionTensor, dirichletBc, dirichletTag, neumannBc, neumannTag)
  {
    NewPoissonOperator(dimensions, diffusionTensor, dirichletBc, dirichletTag, neumannBc, neumannTag)
      .(helmholtzK := Some(k))
  }

  /** The tensor as it appears in the template: the constant matrix itself,
      or the field "diffusion" with d*d components reshaped to d-by-d. */
  function SymDiffTensor(op: LaplacianOperator): (t: SymTensor)
    ensures op.diffusionTensor.ConstantTensor? ==> t == ConstTensor(op.diffusionTensor.matrix)
    ensures op.diffusionTensor.VariableTensor? ==>
              TensorFields(t) == (if op.dimensions > 0 then {"diffusion"} else {})
    ensures op.diffusionTensor.VariableTensor? ==>
              t.FieldTensor? && t.dimensions == op.dimensions &&
              forall i: nat, j: nat | i < op.dimensions && j < op.dimensions ::
                FieldTensorEntry(t.name, t.dimensions, i, j) ==
                VectorFieldComponent("diffusion", i * op.dimensions + j)
  {
    match op.diffusionTensor
    case ConstantTensor(m) => ConstTensor(m)
    case VariableTensor(_) => FieldTensor("diffusion", op.dimensions)
  }

  /** A variable tensor uses every one of the d*d components of "diffusion":
      component k is entry (k / d, k % d), and no other entry. */
  lemma SymDiffTensorUsesEveryComponent(op: LaplacianOperator, k: nat)
    requires op.diffusionTensor.VariableTensor? && k < op.dimensions * op.dimensions
    ensures var t, d := SymDiffTensor(op), op.dimensions;
            k / d < d && FieldTensorEntry(t.name, d, k / d, k % d) == VectorFieldComponent("diffusion", k)
    ensures var t, d := SymDiffTensor(op), op.dimensions;
            forall i: nat, j: nat | i < d && j < d && FieldTensorEntry(t.name, d, i, j).index == k ::
              i == k / d && j == k % d
  {
    ReshapeIsBijective("diffusion", op.dimensions, k);
  }

  /** LaplacianOperatorBase.op_template. */
  function LaplacianTemplate(op: LaplacianOperator, applyMinv: bool,
                             u: Option<Expr>, dirBc: Option<Expr>, neuBc: Option<Expr>): (r: Result<Expr>)
    ensures r.Ok?
  {
    var u' := u.GetOr(Field("u"));
    var dir := dirBc.GetOr(Field("dir_bc"));
    var neu := neuBc.GetOr(Field("neu_bc"));
    match GradAll(u', true, GradBcGetter(op.dirichletTag, dir), [op.dirichletTag])
    case Err(e) => Err(e)
    case Ok(grad) =>
      var weighted := MatVec(SymDiffTensor(op), InverseMass(grad));
      match DivAll(weighted, false, DivBcGetter(op.dirichletTag, op.neumannTag, dir, neu),
                   [op.dirichletTag], [op.neumannTag])
      case Err(e) => Err(e)
      case Ok(all) => Ok(if applyMinv then InverseMass(all) else all)
  }

  /** LaplacianOperatorBase.op_template as the source runs it: two
      second-derivative targets filled in place by the scheme. */
  method BuildLaplacianTemplate(op: LaplacianOperator, applyMinv: bool,
                                u: Option<Expr>, dirBc: Option<Expr>, neuBc: Option<Expr>)
    returns (r: Result<Expr>)
    ensures r == LaplacianTemplate(op, applyMinv, u, dirBc, neuBc)
  {
    var u' := if u.None? then Field("u") else u.value;
    var dir := if dirBc.None? then Field("dir_bc") else dirBc.value;
    var neu := if neuBc.None? then Field("neu_bc") else neuBc.value;

    var gradTgt := new SecondDerivativeTarget(op.dimensions, true, u');
    var grad := SchemeGrad(gradTgt, GradBcGetter(op.dirichletTag, dir), [op.dirichletTag], [op.neumannTag]);
    if grad.Err? {
      return grad;
    }

    var divTgt := new SecondDerivativeTarget(op.dimensions, false,
                                             MatVec(SymDiffTensor(op), gradTgt.minvAll.value));
    var div := SchemeDiv(divTgt, DivBcGetter(op.dirichletTag, op.neumannTag, dir, neu),
                         [op.dirichletTag], [op.neumannTag]);
    if div.Err? {
      return div;
    }

    if applyMinv {
      r := Ok(divTgt.minvAll.value);
    } else {
      r := Ok(divTgt.all.value);
    }
  }

  /** HelmholtzOperator.op_template: the Laplacian template shifted by
      k^2 u, or by k^2 M u when the inverse mass is not applied. */
  function HelmholtzTemplate(op: LaplacianOperator, k: real, applyMinv: bool,
                             u: Option<Expr>, dirBc: Option<Expr>, neuBc: Option<Expr>): (r: Result<Expr>)
    ensures r.Ok?
  {
    var u' := u.GetOr(Field("u"));
    match LaplacianTemplate(op, applyMinv, Some(u'), dirBc, neuBc)
    case Err(e) => Err(e)
    case Ok(result) =>
      if applyMinv then Ok(Add(result, Scale(k * k, u')))
      else Ok(Add(result, Scale(k * k, Mass(u'))))
  }

  /** op_template as dispatched on the operator's class. */
  function Template(op: LaplacianOperator, applyMinv: bool,
                    u: Option<Expr>, dirBc: Option<Expr>, neuBc: Option<Expr>): (r: Result<Expr>)
    ensures r.Ok?
  {
    match op.helmholtzK
    case None => LaplacianTemplate(op, applyMinv, u, dirBc, neuBc)
    case Some(k) => HelmholtzTemplate(op, k, applyMinv, u, dirBc, neuBc)
  }

  /** Leaving out u, dir_bc or neu_bc is the same as passing the fields
      named "u", "dir_bc" and "neu_bc". */
  lemma OmittedArgumentsAreNamedFields(op: LaplacianOperator, applyMinv: bool,
                                       u: Option<Expr>, dirBc: Option<Expr>, neuBc: Option<Expr>)
    ensures Template(op, applyMinv, u, dirBc, neuBc) ==
            Template(op, applyMinv, Some(u.GetOr(Field("u"))), Some(dirBc.GetOr(Field("dir_bc"))),
                     Some(neuBc.GetOr(Field("neu_bc"))))
  {
  }

  /** With apply_minv the template is minv_all, without it is all; the two
      differ exactly by the inverse mass operator. */
  lemma MinvAllIsInverseMassOfAll(op: LaplacianOperator, u: Option<Expr>, dirBc: Option<Expr>, neuBc: Option<Expr>)
    ensures LaplacianTemplate(op, true, u, dirBc, neuBc).value ==
            InverseMass(LaplacianTemplate(op, false, u, dirBc, neuBc).value)
  {
  }

  /** The Laplacian template reads u, the Dirichlet data, the Neumann data
      unless both tags are the same (the Dirichlet answer wins then) and, for a
      variable tensor, the field "diffusion"; nothing else. */
  lemma LaplacianTemplateFields(op: LaplacianOperator, applyMinv: bool, u: Expr, dirBc: Expr, neuBc: Expr)
    ensures FreeFields(LaplacianTemplate(op, applyMinv, Some(u), Some(dirBc), Some(neuBc)).value) ==
            FreeFields(u) + FreeFields(dirBc) + (if op.dirichletTag != op.neumannTag then FreeFields(neuBc) else {})
            + TensorFields(SymDiffTensor(op))
  {
    var neu := if op.dirichletTag == op.neumannTag then dirBc else neuBc;
    var all := LaplacianTemplateNodes(op, applyMinv, u, dirBc, neuBc);
    SchemeNodeFields(SymDiffTensor(op), u, dirBc, neu);
  }

  lemma SchemeNodeFields(t: SymTensor, u: Expr, dirBc: Expr, neu: Expr)
    ensures FreeFields(LdgDiv(MatVec(t, InverseMass(LdgGrad(u, true, [dirBc]))), false, [dirBc], [neu])) ==
            FreeFields(u) + FreeFields(dirBc) + FreeFields(neu) + TensorFields(t)
  {
    var grad := LdgGrad(u, true, [dirBc]);
    var weighted := MatVec(t, InverseMass(grad));
    GradFieldsOfSingleton(u, true, dirBc);
    DivFieldsOfSingletons(weighted, false, dirBc, neu);
    WeightedFields(t, grad);
    UnionRegroup(FreeFields(u), FreeFields(dirBc), FreeFields(neu), TensorFields(t),
                 FreeFields(grad), FreeFields(weighted), FreeFields(LdgDiv(weighted, false, [dirBc], [neu])));
  }

  lemma WeightedFields(t: SymTensor, e: Expr)
    ensures FreeFields(MatVec(t, InverseMass(e))) == TensorFields(t) + FreeFields(e)
  {
    assert FreeFields(InverseMass(e)) == FreeFields(e);
  }

  lemma UnionRegroup<T>(u: set<T>, d: set<T>, n: set<T>, t: set<T>, g: set<T>, w: set<T>, r: set<T>)
    requires g == u + d && w == t + g && r == w + d + n
    ensures r == u + d + n + t
  {
  }

  /** The scheme nodes the Laplacian template is made of, for explicit arguments. */
  lemma LaplacianTemplateNodes(op: LaplacianOperator, applyMinv: bool, u: Expr, dirBc: Expr, neuBc: Expr)
    returns (all: Expr)
    ensures all == LdgDiv(MatVec(SymDiffTensor(op), InverseMass(LdgGrad(u, true, [dirBc]))), false,
                          [dirBc], [if op.dirichletTag == op.neumannTag then dirBc else neuBc])
    ensures LaplacianTemplate(op, applyMinv, Some(u), Some(dirBc), Some(neuBc)).value ==
            if applyMinv then InverseMass(all) else all
  {
    var weighted := MatVec(SymDiffTensor(op), InverseMass(LdgGrad(u, true, [dirBc])));
    all := LdgDiv(weighted, false, [dirBc], [if op.dirichletTag == op.neumannTag then dirBc else neuBc]);
    GradAllSingle(u, true, op.dirichletTag, dirBc);
    DivAllSingle(weighted, false, op.dirichletTag, op.neumannTag, dirBc, neuBc);
  }

  /** The same holds for the Helmholtz template, whose shift reads only u. */
  lemma TemplateFields(op: LaplacianOperator, applyMinv: bool, u: Expr, dirBc: Expr, neuBc: Expr)
    ensures FreeFields(Template(op, applyMinv, Some(u), Some(dirBc), Some(neuBc)).value) ==
            FreeFields(u) + FreeFields(dirBc) + (if op.dirichletTag != op.neumannTag then FreeFields(neuBc) else {})
            + TensorFields(SymDiffTensor(op))
  {
    LaplacianTemplateFields(op, applyMinv, u, dirBc, neuBc);
    if op.helmholtzK.Some? {
      HelmholtzShiftFields(op, op.helmholtzK.value, applyMinv, u, dirBc, neuBc);
    }
  }

  lemma HelmholtzShiftFields(op: LaplacianOperator, k: real, applyMinv: bool, u: Expr, dirBc: Expr, neuBc: Expr)
    ensures FreeFields(HelmholtzTemplate(op, k, applyMinv, Some(u), Some(dirBc), Some(neuBc)).value) ==
            FreeFields(LaplacianTemplate(op, applyMinv, Some(u), Some(dirBc), Some(neuBc)).value) + FreeFields(u)
  {
    HelmholtzShift(op, k, applyMinv, u, dirBc, neuBc);
    var shift := Scale(k * k, if applyMinv then u else Mass(u));
    assert FreeFields(shift) == FreeFields(u);
  }

  /** The Helmholtz template is the Laplacian template plus k^2 u, or plus
      k^2 M u when the inverse mass is left out. */
  lemma HelmholtzShift(op: LaplacianOperator, k: real, applyMinv: bool, u: Expr, dirBc: Expr, neuBc: Expr)
    ensures HelmholtzTemplate(op, k, applyMinv, Some(u), Some(dirBc), Some(neuBc)).value ==
            Add(LaplacianTemplate(op, applyMinv, Some(u), Some(dirBc), Some(neuBc)).value,
                Scale(k * k, if applyMinv then u else Mass(u)))
  {
  }

  /** The numerical services a discretization offers to the bound operator. */
  datatype Discretization = Discretization(
    dimensions: nat,
    nodeCount: nat,                                   // len(discr)
    mesh: Mesh,
    boundaryNodes: Tag -> set<nat>,                   // get_boundary(tag).nodes
    compile: Expr -> (Env -> Vec),                    // discr.compile
    mass: Vec -> Vec,                                 // MassOperator().apply(discr, .)
    integral: Vec -> real,                            // discr.integral
    meshVolume: real,                                 // discr.mesh_volume()
    massOnes: Vec,                                    // discr._mass_ones()
    boundaryInterpolant: (GivenFunction, Tag) -> Vec, // f.boundary_interpolant(discr, tag)
    volumeInterpolant: GivenFunction -> Vec)          // f.volume_interpolant(discr)
  {
    /** Every volume result has one value per node and the mesh has volume. */
    ghost predicate Valid() {
      && meshVolume > 0.0
      && |massOnes| == nodeCount
      && (forall e, env :: |compile(e)(env)| == nodeCount)
      && (forall f :: |mass(f)| == nodeCount)
    }
  }

  /** The values bound to template fields when a compiled template is called. */
  type Env = map<string, Vec>

  /** True when the Neumann boundary has as many nodes as the whole boundary:
      pure Neumann or periodic problems, whose operator is singular. */
  predicate PoincareFlag(discr: Discretization, neumannTag: Tag) {
    |discr.boundaryNodes(TagAll)| == |discr.boundaryNodes(neumannTag)|
  }

  /** When the Neumann nodes are boundary nodes, the flag holds exactly when
      the Neumann boundary is the whole boundary. */
  lemma PoincareFlagMeansPureNeumann(discr: Discretization, neumannTag: Tag)
    requires discr.boundaryNodes(neumannTag) <= discr.boundaryNodes(TagAll)
    ensures PoincareFlag(discr, neumannTag) <==> discr.boundaryNodes(neumannTag) == discr.boundaryNodes(TagAll)
  {
    var n, a := discr.boundaryNodes(neumannTag), discr.boundaryNodes(TagAll);
    if n != a {
      var x :| x in a && x !in n;
      assert n <= a - {x};
      SubsetCard(n, a - {x});
    }
  }

  lemma {:induction false} SubsetCard(s: set<nat>, t: set<nat>)
    requires s <= t
    ensures |s| <= |t|
    decreases |t|
  {
    if s != {} {
      var x :| x in s;
      SubsetCard(s - {x}, t - {x});
    }
  }

  /** The template of the homogeneous operator: boundary data set to 0. */
  function OperatorTemplate(op: LaplacianOperator): Expr {
    Template(op, false, None, Some(Zero), Some(Zero)).value
  }

  /** The template that also reads the boundary data fields. */
  function BoundaryTemplate(op: LaplacianOperator): Expr {
    Template(op, false, None, None, None).value
  }

  /** Both compiled templates leave the inverse mass out, so that the system
      matrix stays symmetric. Only the outermost node is inspected here;
      LaplacianTemplateNodes gives the whole template. */
  lemma CompiledTemplatesSkipInverseMass(op: LaplacianOperator)
    ensures !OperatorTemplate(op).InverseMass? && !BoundaryTemplate(op).InverseMass?
  {
  }

  /** BoundPoissonOperator: everything it holds is fixed in its constructor. */
  class BoundPoissonOperator {
    const discr: Discretization
    const poissonOp: LaplacianOperator
    const compiledOp: Env -> Vec
    const compiledBcOp: Env -> Vec
    const diffusion: Option<Vec>
    const poincareMeanValueHack: bool

    ghost predicate Valid() {
      && discr.Valid()
      && compiledOp == discr.compile(OperatorTemplate(poissonOp))
      && compiledBcOp == discr.compile(BoundaryTemplate(poissonOp))
      && diffusion == (if poissonOp.diffusionTensor.VariableTensor?
                       then Some(discr.volumeInterpolant(poissonOp.diffusionTensor.f)) else None)
      && poincareMeanValueHack == PoincareFlag(discr, poissonOp.neumannTag)
    }

    constructor (pop: LaplacianOperator, discr: Discretization)
      requires discr.Valid()
      ensures Valid() && this.discr == discr && poissonOp == pop
    {
      this.discr := discr;
      poissonOp := pop;
      var op := Template(pop, false, None, Some(Zero), Some(Zero)).value;
      var bcOp := Template(pop, false, None, None, None).value;
      compiledOp := discr.compile(op);
      compiledBcOp := discr.compile(bcOp);
      diffusion := if pop.diffusionTensor.VariableTensor?
                   then Some(discr.volumeInterpolant(pop.diffusionTensor.f)) else None;
      poincareMeanValueHack := PoincareFlag(discr, pop.neumannTag);
    }

    /** The operator is square, one row and one column per node. */
    function Shape(): (r: (nat, nat))
      ensures r.0 == r.1 == discr.nodeCount
    {
      (discr.nodeCount, discr.nodeCount)
    }

    function OpContext(u: Vec): Env {
      if diffusion.Some? then map["u" := u, "diffusion" := diffusion.value] else map["u" := u]
    }

    /** op: the compiled homogeneous operator, minus the mean of u times the
        mass-ones vector when the system is singular. */
    function Op(u: Vec): (r: Vec)
      requires Valid()
      ensures |r| == Shape().0
      ensures !poincareMeanValueHack ==> r == compiledOp(OpContext(u))
    {
      var result := compiledOp(OpContext(u));
      if poincareMeanValueHack then
        var meanState := discr.integral(u) / discr.meshVolume;
        VSub(result, VScale(meanState, discr.massOnes))
      else
        result
    }

    /** The arguments prepare_rhs passes to the compiled boundary template,
        as written: u = 0 and the interpolated boundary data, no "diffusion". */
    function BcContextAsWritten(): Env {
      map["u" := Constant(0.0, discr.nodeCount),
          "dir_bc" := discr.boundaryInterpolant(poissonOp.dirichletBc, poissonOp.dirichletTag),
          "neu_bc" := discr.boundaryInterpolant(poissonOp.neumannBc, poissonOp.neumannTag)]
    }

    /** The same arguments, with "diffusion" added as op adds it. */
    function BcContext(): Env {
      if diffusion.Some? then BcContextAsWritten()["diffusion" := diffusion.value] else BcContextAsWritten()
    }

    /** prepare_rhs: M f minus the boundary forcing; never the inverse mass. */
    function PrepareRhs(rhs: Vec): (r: Vec)
      requires Valid()
      ensures |r| == Shape().0
    {
      VSub(discr.mass(rhs), compiledBcOp(BcContext()))
    }

    /** The full inhomogeneous operator's arguments at u. */
    function FullContext(u: Vec): Env {
      BcContext()["u" := u]
    }
  }

  /** PoissonOperator.bind: the dimensions must agree and the Dirichlet and
      Neumann tags must cover the boundary. */
  predicate CanBind(pop: LaplacianOperator, discr: Discretization) {
    pop.dimensions == discr.dimensions && Covers(discr.mesh, [pop.dirichletTag, pop.neumannTag])
  }

  method Bind(pop: LaplacianOperator, discr: Discretization) returns (r: Result<BoundPoissonOperator>)
    requires discr.Valid()
    ensures r.Ok? <==> CanBind(pop, discr)
    ensures pop.dimensions != discr.dimensions ==> r.Err? && r.error.AssertionError?
    ensures pop.dimensions == discr.dimensions && !CanBind(pop, discr) ==> r == Err(BcCoverageError)
    ensures r.Ok? ==> r.value.Valid() && r.value.poissonOp == pop && r.value.discr == discr
  {
    if pop.dimensions != discr.dimensions {
      return Err(AssertionError("dimension mismatch"));
    }
    if !Covers(discr.mesh, [pop.dirichletTag, pop.neumannTag]) {
      return Err(BcCoverageError);
    }
    var b := new BoundPoissonOperator(pop, discr);
    r := Ok(b);
  }

  /** With the correction on, adding a constant c to u shifts op(u) by
      -c times the mass-ones vector, provided the compiled operator ignores
      constants and the integral is linear: constants leave the kernel. */
  lemma MeanValueCorrectionPinsConstants(b: BoundPoissonOperator, u: Vec, c: real)
    requires b.Valid() && b.poincareMeanValueHack && |u| == b.discr.nodeCount
    requires b.compiledOp(b.OpContext(VAdd(u, Constant(c, |u|)))) == b.compiledOp(b.OpContext(u))
    requires b.discr.integral(VAdd(u, Constant(c, |u|))) == b.discr.integral(u) + c * b.discr.meshVolume
    ensures b.Op(VAdd(u, Constant(c, |u|))) == VSub(b.Op(u), VScale(c, b.discr.massOnes))
  {
    var d := b.discr;
    var u' := VAdd(u, Constant(c, |u|));
    var m := d.integral(u) / d.meshVolume;
    var m' := d.integral(u') / d.meshVolume;
    assert m' == m + c by {
      assert d.integral(u') == (m + c) * d.meshVolume;
    }
    var result := b.compiledOp(b.OpContext(u));
    assert |result| == |d.massOnes|;
    forall i | 0 <= i < |result|
      ensures VSub(result, VScale(m', d.massOnes))[i] ==
              VSub(VSub(result, VScale(m, d.massOnes)), VScale(c, d.massOnes))[i]
    {
      assert m' * d.massOnes[i] == m * d.massOnes[i] + c * d.massOnes[i];
    }
  }

  /** Solving op(u) = prepare_rhs(f) is solving the inhomogeneous problem
      M f = (A M^-1 C + B) u + A M^-1 g + h, when the compiled boundary
      template splits into its homogeneous part and its boundary forcing. */
  lemma PrepareRhsReducesBoundaryValueProblem(b: BoundPoissonOperator, u: Vec, f: Vec)
    requires b.Valid() && !b.poincareMeanValueHack
    requires b.compiledBcOp(b.FullContext(u)) ==
             VAdd(b.compiledOp(b.OpContext(u)), b.compiledBcOp(b.BcContext()))
    ensures b.Op(u) == b.PrepareRhs(f) <==> b.compiledBcOp(b.FullContext(u)) == b.discr.mass(f)
  {
    var a := b.compiledOp(b.OpContext(u));
    var g := b.compiledBcOp(b.BcContext());
    var mf := b.discr.mass(f);
    if a == VSub(mf, g) {
      assert VAdd(a, g) == mf;
    }
    if VAdd(a, g) == mf {
      assert a == VSub(mf, g);
    }
  }

  /** A compilation that respects sums and scalings of templates. */
  ghost predicate CompileIsLinear(d: Discretization)
    requires d.Valid()
  {
    && (forall x, y, env :: d.compile(Add(x, y))(env) == VAdd(d.compile(x)(env), d.compile(y)(env)))
    && (forall c, x, env :: d.compile(Scale(c, x))(env) == VScale(c, d.compile(x)(env)))
  }

  /** A Helmholtz operator with k = 0 applies exactly as the Poisson
      operator with the same parameters. */
  lemma HelmholtzWithZeroWaveNumberIsPoisson(h: BoundPoissonOperator, p: BoundPoissonOperator, u: Vec)
    requires h.Valid() && p.Valid() && h.discr == p.discr && CompileIsLinear(h.discr)
    requires p.poissonOp.helmholtzK == None && h.poissonOp == p.poissonOp.(helmholtzK := Some(0.0))
    ensures h.Op(u) == p.Op(u)
  {
    var d := h.discr;
    var lap := OperatorTemplate(p.poissonOp);
    var shift := Scale(0.0 * 0.0, Mass(Field("u")));
    assert OperatorTemplate(h.poissonOp) == Add(lap, shift);
    var env := h.OpContext(u);
    assert env == p.OpContext(u);
    AddScaledZero(d.compile(lap)(env), d.compile(Mass(Field("u")))(env));
  }

  /** The homogeneous template reads u and, for a variable tensor, "diffusion". */
  lemma OperatorTemplateFields(op: LaplacianOperator)
    ensures FreeFields(OperatorTemplate(op)) == {"u"} + TensorFields(SymDiffTensor(op))
  {
    OmittedArgumentsAreNamedFields(op, false, None, Some(Zero), Some(Zero));
    TemplateFields(op, false, Field("u"), Zero, Zero);
  }

  /** The boundary template reads u, "dir_bc", "neu_bc" unless the two tags
      coincide, and, for a variable tensor, "diffusion". */
  lemma BoundaryTemplateFields(op: LaplacianOperator)
    ensures FreeFields(BoundaryTemplate(op)) ==
            {"u", "dir_bc"} + (if op.dirichletTag != op.neumannTag then {"neu_bc"} else {})
            + TensorFields(SymDiffTensor(op))
  {
    OmittedArgumentsAreNamedFields(op, false, None, None, None);
    TemplateFields(op, false, Field("u"), Field("dir_bc"), Field("neu_bc"));
  }

  /** The tensor reads "diffusion" at most, and only when it is variable. */
  lemma TensorFieldsAtMostDiffusion(op: LaplacianOperator)
    ensures TensorFields(SymDiffTensor(op)) <= (if op.diffusionTensor.VariableTensor? then {"diffusion"} else {})
  {
  }

  /** As written, prepare_rhs gives the compiled boundary template no
      "diffusion" although, for a variable tensor, the template reads it. */
  lemma PrepareRhsAsWrittenLacksDiffusion(b: BoundPoissonOperator)
    requires b.Valid() && b.poissonOp.diffusionTensor.VariableTensor? && b.poissonOp.dimensions > 0
    ensures "diffusion" in FreeFields(BoundaryTemplate(b.poissonOp))
    ensures "diffusion" !in b.BcContextAsWritten()
  {
    BoundaryTemplateFields(b.poissonOp);
  }

  /** The context op passes binds every field its compiled template reads. */
  lemma OpContextBindsTemplateFields(b: BoundPoissonOperator, u: Vec)
    requires b.Valid()
    ensures FreeFields(OperatorTemplate(b.poissonOp)) <= b.OpContext(u).Keys
  {
    OperatorTemplateFields(b.poissonOp);
    TensorFieldsAtMostDiffusion(b.poissonOp);
  }

  /** The corrected prepare_rhs context binds every field the compiled
      boundary template reads. */
  lemma BcContextBindsTemplateFields(b: BoundPoissonOperator)
    requires b.Valid()
    ensures FreeFields(BoundaryTemplate(b.poissonOp)) <= b.BcContext().Keys
  {
    BoundaryTemplateFields(b.poissonOp);
    TensorFieldsAtMostDiffusion(b.poissonOp);
  }
}
