/** Symbolic operator templates (hedge.optemplate) and the second-derivative
    scheme interface (hedge.second_order) that the elliptic operators are
    built from. The scheme's numerics are not modelled: its results are the
    symbolic nodes LdgGrad and LdgDiv, recording the operand and the boundary
    data the scheme obtained from its boundary-condition getter. */
module OpTemplate {
  import opened Common

  /** An operator-template expression. */
  datatype Expr =
    | Field(name: string)                              // Field("u")
    | VectorFieldComponent(name: string, index: nat)   // make_vector_field(name, n)[index]
    | Zero                                             // the literal 0
    | Mass(operand: Expr)                              // MassOperator()(e)
    | InverseMass(operand: Expr)                       // InverseMassOperator()(e)
    | Add(left: Expr, right: Expr)
    | Scale(factor: real, operand: Expr)
    | MatVec(tensor: SymTensor, operand: Expr)         // numpy.dot(tensor, v)
    | LdgGrad(operand: Expr, strongForm: bool, dirichletBcs: seq<Expr>)
    | LdgDiv(operand: Expr, strongForm: bool, dirichletBcs: seq<Expr>, neumannBcs: seq<Expr>)

  /** A d-by-d tensor inside a template: either a constant matrix, or the
      d*d components of a vector field reshaped row by row into d rows. */
  datatype SymTensor =
    | ConstTensor(rows: seq<seq<real>>)
    | FieldTensor(name: string, dimensions: nat)

  /** Entry (i, j) of a reshaped vector-field tensor. */
  function FieldTensorEntry(name: string, d: nat, i: nat, j: nat): (r: Expr)
    requires i < d && j < d
    ensures r.VectorFieldComponent? && r.name == name && r.index < d * d
  {
    assert i * d + j < d * d by {
      assert i * d <= (d - 1) * d;
    }
    VectorFieldComponent(name, i * d + j)
  }

  /** The row-major reshape uses every component of the d*d vector field
      exactly once. */
  lemma ReshapeIsBijective(name: string, d: nat, k: nat)
    requires k < d * d
    ensures k / d < d && FieldTensorEntry(name, d, k / d, k % d) == VectorFieldComponent(name, k)
    ensures forall i: nat, j: nat | i < d && j < d && FieldTensorEntry(name, d, i, j).index == k ::
              i == k / d && j == k % d
  {
    assert d > 0;
    DivModUnique(k, d, k / d, k % d);
    forall i: nat, j: nat | i < d && j < d && FieldTensorEntry(name, d, i, j).index == k
      ensures i == k / d && j == k % d
    {
      assert k == i * d + j;
      DivModUnique(k, d, i, j);
    }
  }

  lemma DivModUnique(k: nat, d: nat, q: nat, r: nat)
    requires r < d && k == q * d + r
    ensures q == k / d && r == k % d
  {
    var q', r' := k / d, k % d;
    assert k == q' * d + r';
    assert (q - q') * d == r' - r;
    if q > q' {
      MulAtLeast(q - q', d);
    } else if q < q' {
      MulAtLeast(q' - q, d);
    }
  }

  lemma MulAtLeast(x: int, d: nat)
    requires x >= 1
    ensures x * d >= d
  {
  }

  /** The names of the fields a template reads; compiling and evaluating
      a template needs a value for each of them. */
  function FreeFields(e: Expr): set<string>
    decreases e
  {
    match e
    case Field(name) => {name}
    case VectorFieldComponent(name, _) => {name}
    case Zero => {}
    case Mass(a) => FreeFields(a)
    case InverseMass(a) => FreeFields(a)
    case Add(a, b) => FreeFields(a) + FreeFields(b)
    case Scale(_, a) => FreeFields(a)
    case MatVec(t, a) => TensorFields(t) + FreeFields(a)
    case LdgGrad(a, _, ds) => FreeFields(a) + BcFields(ds)
    case LdgDiv(a, _, ds, ns) => FreeFields(a) + BcFields(ds) + BcFields(ns)
  }

  /** The fields read by a list of boundary data. */
  function BcFields(bcs: seq<Expr>): set<string>
    decreases bcs
  {
    if bcs == [] then {} else FreeFields(bcs[0]) + BcFields(bcs[1..])
  }

  function TensorFields(t: SymTensor): set<string> {
    match t
    case ConstTensor(_) => {}
    case FieldTensor(name, d) => if d > 0 then {name} else {}
  }

  /** Fields read by scheme nodes holding one piece of boundary data each. */
  lemma GradFieldsOfSingleton(a: Expr, strongForm: bool, d: Expr)
    ensures FreeFields(LdgGrad(a, strongForm, [d])) == FreeFields(a) + FreeFields(d)
  {
    BcFieldsOfSingleton(d);
  }

  lemma DivFieldsOfSingletons(a: Expr, strongForm: bool, d: Expr, n: Expr)
    ensures FreeFields(LdgDiv(a, strongForm, [d], [n])) == FreeFields(a) + FreeFields(d) + FreeFields(n)
  {
    BcFieldsOfSingleton(d);
    BcFieldsOfSingleton(n);
  }

  lemma BcFieldsOfSingleton(d: Expr)
    ensures BcFields([d]) == FreeFields(d)
  {
    assert [d][1..] == [];
  }

  /** The boundary-condition getters handed to the scheme, as data: the two
      closures defined inside LaplacianOperatorBase.op_template. */
  datatype BcGetter =
    | GradBcGetter(dirichletTag: Tag, dirBc: Expr)
    | DivBcGetter(dirichletTag: Tag, neumannTag: Tag, dirBc: Expr, neuBc: Expr)
  {
    /** Answer the scheme's request for the boundary data on faces tagged `tag`. */
    function Ask(tag: Tag): (r: Result<Expr>)
      ensures GradBcGetter? ==> (r.Ok? <==> tag == dirichletTag)
      ensures GradBcGetter? && r.Ok? ==> r.value == dirBc
      ensures DivBcGetter? ==> (r.Ok? <==> tag == dirichletTag || tag == neumannTag)
      ensures DivBcGetter? && tag == dirichletTag ==> r == Ok(dirBc)
      ensures DivBcGetter? && tag != dirichletTag && tag == neumannTag ==> r == Ok(neuBc)
      ensures r.Err? ==> r.error.AssertionError?
    {
      match this
      case GradBcGetter(dt, d) =>
        if tag == dt then Ok(d) else Err(AssertionError("grad bc getter"))
      case DivBcGetter(dt, nt, d, n) =>
        if tag == dt then Ok(d)
        else if tag == nt then Ok(n)
        else Err(AssertionError("divergence bc getter asked for an unknown tag"))
    }
  }

  /** The scheme asks the getter once per tag, in order; the first failing
      request aborts it. */
  function AskAll(g: BcGetter, tags: seq<Tag>): (r: Result<seq<Expr>>)
    ensures r.Ok? <==> forall i | 0 <= i < |tags| :: g.Ask(tags[i]).Ok?
    ensures r.Ok? ==> |r.value| == |tags| &&
                      forall i | 0 <= i < |tags| :: r.value[i] == g.Ask(tags[i]).value
  {
    if tags == [] then Ok([])
    else
      match g.Ask(tags[0])
      case Err(e) => Err(e)
      case Ok(bc) =>
        match AskAll(g, tags[1..])
        case Err(e) => Err(e)
        case Ok(rest) => Ok([bc] + rest)
  }

  /** The gradient the scheme produces: boundary data is requested only
      for the Dirichlet tags (on Neumann faces the interior trace is used). */
  function GradAll(operand: Expr, strongForm: bool, g: BcGetter, dirichletTags: seq<Tag>): Result<Expr> {
    match AskAll(g, dirichletTags)
    case Err(e) => Err(e)
    case Ok(bcs) => Ok(LdgGrad(operand, strongForm, bcs))
  }

  /** The divergence the scheme produces: boundary data is requested for the
      Dirichlet tags, then for the Neumann tags. */
  function DivAll(operand: Expr, strongForm: bool, g: BcGetter, dirichletTags: seq<Tag>, neumannTags: seq<Tag>): Result<Expr> {
    match AskAll(g, dirichletTags)
    case Err(e) => Err(e)
    case Ok(ds) =>
      match AskAll(g, neumannTags)
      case Err(e) => Err(e)
      case Ok(ns) => Ok(LdgDiv(operand, strongForm, ds, ns))
  }

  /** With one Dirichlet tag, the gradient holds the getter's one answer. */
  lemma GradAllSingle(operand: Expr, strongForm: bool, dirichletTag: Tag, dirBc: Expr)
    ensures GradAll(operand, strongForm, GradBcGetter(dirichletTag, dirBc), [dirichletTag]) ==
            Ok(LdgGrad(operand, strongForm, [dirBc]))
  {
    var asked := AskAll(GradBcGetter(dirichletTag, dirBc), [dirichletTag]);
    assert asked.Ok? && asked.value == [dirBc];
  }

  /** With one Dirichlet and one Neumann tag, the divergence holds the
      Dirichlet data, and the Neumann data unless the tags coincide. */
  lemma DivAllSingle(operand: Expr, strongForm: bool, dirichletTag: Tag, neumannTag: Tag, dirBc: Expr, neuBc: Expr)
    ensures DivAll(operand, strongForm, DivBcGetter(dirichletTag, neumannTag, dirBc, neuBc), [dirichletTag], [neumannTag]) ==
            Ok(LdgDiv(operand, strongForm, [dirBc], [if dirichletTag == neumannTag then dirBc else neuBc]))
  {
    var g := DivBcGetter(dirichletTag, neumannTag, dirBc, neuBc);
    var askedD, askedN := AskAll(g, [dirichletTag]), AskAll(g, [neumannTag]);
    assert askedD.Ok? && askedD.value == [dirBc];
    assert askedN.Ok? && askedN.value == [if dirichletTag == neumannTag then dirBc else neuBc];
  }

  /** hedge.second_order.SecondDerivativeTarget: created with its operand,
      filled in place by the scheme with `all` (the un-inverted result) and
      `minv_all` (the same with the inverse mass applied). */
  class SecondDerivativeTarget {
    const dimensions: nat
    const strongForm: bool
    const operand: Expr
    var minvAll: Option<Expr>
    var all: Option<Expr>

    constructor (dimensions: nat, strongForm: bool, operand: Expr)
      ensures this.dimensions == dimensions && this.strongForm == strongForm
      ensures this.operand == operand
      ensures minvAll == None && all == None
    {
      this.dimensions := dimensions;
      this.strongForm := strongForm;
      this.operand := operand;
      minvAll := None;
      all := None;
    }
  }

  /** LDGSecondDerivative.grad: fills the target, or fails as the getter does. */
  method SchemeGrad(tgt: SecondDerivativeTarget, g: BcGetter, dirichletTags: seq<Tag>, neumannTags: seq<Tag>)
    returns (r: Result<Expr>)
    modifies tgt
    ensures r == GradAll(tgt.operand, tgt.strongForm, g, dirichletTags)
    ensures r.Ok? ==> tgt.all == Some(r.value) && tgt.minvAll == Some(InverseMass(r.value))
    ensures r.Err? ==> tgt.all == old(tgt.all) && tgt.minvAll == old(tgt.minvAll)
  {
    r := GradAll(tgt.operand, tgt.strongForm, g, dirichletTags);
    if r.Ok? {
      tgt.all := Some(r.value);
      tgt.minvAll := Some(InverseMass(r.value));
    }
  }

  /** LDGSecondDerivative.div: fills the target, or fails as the getter does. */
  method SchemeDiv(tgt: SecondDerivativeTarget, g: BcGetter, dirichletTags: seq<Tag>, neumannTags: seq<Tag>)
    returns (r: Result<Expr>)
    modifies tgt
    ensures r == DivAll(tgt.operand, tgt.strongForm, g, dirichletTags, neumannTags)
    ensures r.Ok? ==> tgt.all == Some(r.value) && tgt.minvAll == Some(InverseMass(r.value))
    ensures r.Err? ==> tgt.all == old(tgt.all) && tgt.minvAll == old(tgt.minvAll)
  {
    r := DivAll(tgt.operand, tgt.strongForm, g, dirichletTags, neumannTags);
    if r.Ok? {
      tgt.all := Some(r.value);
      tgt.minvAll := Some(InverseMass(r.value));
    }
  }
}
