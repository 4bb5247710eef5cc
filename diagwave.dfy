/** examples/wave/diagwave.py: the one-dimensional wave equation written in
    the characteristic variables s = Vt w, where each component is transported
    with speed c in one direction. The flux is evaluated pointwise; the
    discretization's operators are uninterpreted, and the factor 1/sqrt(2) of
    V is a parameter whose square is 1/2. */
module DiagWave {
  import opened Common
  import opened Fields

  /** coeff_sign: component 0 of s moves right, component 1 moves left. */
  const CoeffSign: seq<real> := [1.0, -1.0]

  /** The weak flux s.avg * n0 * coeff_sign at one face node. */
  function DiagWeakFlux(sI: seq<real>, sE: seq<real>, n0: real): (f: seq<real>)
    requires |sI| == |sE| == 2
    ensures |f| == 2
  {
    var avg := VScale(0.5, VAdd(sI, sE));
    [avg[0] * n0 * CoeffSign[0], avg[1] * n0 * CoeffSign[1]]
  }

  /** The flux the operator compiles: c times (coeff_sign * s.int * n0 minus
      the weak flux). */
  function DiagStrongFlux(c: real, sI: seq<real>, sE: seq<real>, n0: real): (f: seq<real>)
    requires |sI| == |sE| == 2
    ensures |f| == 2
  {
    var physical := [CoeffSign[0] * sI[0] * n0, CoeffSign[1] * sI[1] * n0];
    VScale(c, VSub(physical, DiagWeakFlux(sI, sE, n0)))
  }

  /** Each component's flux is half its jump, signed by its direction of
      travel and scaled by c; it vanishes without a jump. */
  lemma DiagStrongFluxIsHalfJump(c: real, sI: seq<real>, sE: seq<real>, n0: real)
    requires |sI| == |sE| == 2
    ensures DiagStrongFlux(c, sI, sE, n0) == [0.5 * c * n0 * (sI[0] - sE[0]), -0.5 * c * n0 * (sI[1] - sE[1])]
  {
    var f := DiagStrongFlux(c, sI, sE, n0);
    assert f[0] == c * (sI[0] * n0 - 0.5 * (sI[0] + sE[0]) * n0);
    assert f[1] == c * (-1.0 * sI[1] * n0 - 0.5 * (sI[1] + sE[1]) * n0 * -1.0);
  }

  /** The indicator functions of the normal: (ind_right, ind_left). */
  function Indicators(n0: real): (r: (real, real))
    ensures r.0 + r.1 == 1.0
    ensures n0 == 1.0 ==> r == (1.0, 0.0)
    ensures n0 == -1.0 ==> r == (0.0, 1.0)
  {
    ((n0 + 1.0) / 2.0, -(n0 - 1.0) / 2.0)
  }

  /** The radiation exterior state at one boundary node:
      ind_right * (s0, 0) + ind_left * (0, s1). */
  function RadiationNodeBc(s: seq<real>, n0: real): (e: seq<real>)
    requires |s| == 2
    ensures |e| == 2
  {
    var (right, left) := Indicators(n0);
    [right * s[0] + left * 0.0, right * 0.0 + left * s[1]]
  }

  /** At a right end (n0 = 1) the radiation state keeps the outgoing s0,
      so its flux vanishes, and sets the incoming s1 to zero. */
  lemma RadiationAtRightEnd(c: real, s: seq<real>)
    requires |s| == 2
    ensures RadiationNodeBc(s, 1.0) == [s[0], 0.0]
    ensures DiagStrongFlux(c, s, RadiationNodeBc(s, 1.0), 1.0)[0] == 0.0
  {
    assert Indicators(1.0) == (1.0, 0.0);
    var e := RadiationNodeBc(s, 1.0);
    assert e[0] == 1.0 * s[0] + 0.0 * 0.0 && e[1] == 1.0 * 0.0 + 0.0 * s[1];
    assert e == [s[0], 0.0];
    DiagStrongFluxIsHalfJump(c, s, e, 1.0);
  }

  /** At a left end (n0 = -1) the radiation state keeps the outgoing s1,
      so its flux vanishes, and sets the incoming s0 to zero. */
  lemma RadiationAtLeftEnd(c: real, s: seq<real>)
    requires |s| == 2
    ensures RadiationNodeBc(s, -1.0) == [0.0, s[1]]
    ensures DiagStrongFlux(c, s, RadiationNodeBc(s, -1.0), -1.0)[1] == 0.0
  {
    assert Indicators(-1.0) == (0.0, 1.0);
    var e := RadiationNodeBc(s, -1.0);
    assert e[0] == 0.0 * s[0] + 1.0 * 0.0 && e[1] == 0.0 * 0.0 + 1.0 * s[1];
    assert e == [0.0, s[1]];
    DiagStrongFluxIsHalfJump(c, s, e, -1.0);
  }

  /** The radiation boundary state for the whole radiation boundary, from
      the boundary values of s and the first normal component there. */
  function RadiationBc(radS: State, radN0: Vec): (bc: State)
    requires IsState(radS, 2, |radN0|)
    ensures IsState(bc, 2, |radN0|)
    ensures forall j | 0 <= j < |radN0| ::
              [bc[0][j], bc[1][j]] == RadiationNodeBc([radS[0][j], radS[1][j]], radN0[j])
  {
    var right := seq(|radN0|, j requires 0 <= j < |radN0| => Indicators(radN0[j]).0);
    var left := seq(|radN0|, j requires 0 <= j < |radN0| => Indicators(radN0[j]).1);
    var zeros := Constant(0.0, |radN0|);
    var bc := [VAdd(VMul(right, radS[0]), VMul(left, zeros)), VAdd(VMul(right, zeros), VMul(left, radS[1]))];
    assert forall j | 0 <= j < |radN0| ::
             [bc[0][j], bc[1][j]] == RadiationNodeBc([radS[0][j], radS[1][j]], radN0[j]) by {
      forall j | 0 <= j < |radN0|
        ensures [bc[0][j], bc[1][j]] == RadiationNodeBc([radS[0][j], radS[1][j]], radN0[j])
      {
        assert right[j] == Indicators(radN0[j]).0 && left[j] == Indicators(radN0[j]).1;
        assert bc[0][j] == right[j] * radS[0][j] + left[j] * 0.0;
        assert bc[1][j] == right[j] * 0.0 + left[j] * radS[1][j];
        var e := RadiationNodeBc([radS[0][j], radS[1][j]], radN0[j]);
        assert e[0] == Indicators(radN0[j]).0 * radS[0][j] + Indicators(radN0[j]).1 * 0.0;
        assert e[1] == Indicators(radN0[j]).0 * 0.0 + Indicators(radN0[j]).1 * radS[1][j];
        assert e == [e[0], e[1]];
        assert bc[0][j] == e[0];
        assert bc[1][j] == e[1];
      }
    }
    bc
  }

  /** V = sigma [[1, 1], [1, -1]], sigma standing for 1/sqrt(2). */
  function VMatrix(sigma: real): (m: seq<seq<real>>)
    ensures |m| == 2 && |m[0]| == 2 && |m[1]| == 2
  {
    [[sigma, sigma], [sigma, -sigma]]
  }

  function Transpose(m: seq<seq<real>>): (t: seq<seq<real>>)
    requires |m| == 2 && |m[0]| == 2 && |m[1]| == 2
    ensures |t| == 2 && |t[0]| == 2 && |t[1]| == 2
    ensures forall i, j | 0 <= i < 2 && 0 <= j < 2 :: t[i][j] == m[j][i]
  {
    [[m[0][0], m[1][0]], [m[0][1], m[1][1]]]
  }

  /** V is symmetric, so Vt is V itself. */
  lemma VIsSymmetric(sigma: real)
    ensures Transpose(VMatrix(sigma)) == VMatrix(sigma)
  {
  }

  /** A 2-by-2 matrix applied to a two-component state (ArithmeticListMatrix). */
  function Apply2(m: seq<seq<real>>, w: State): (r: State)
    requires |m| == 2 && |m[0]| == 2 && |m[1]| == 2
    requires |w| == 2 && |w[0]| == |w[1]|
    ensures IsState(r, 2, |w[0]|)
    ensures forall j | 0 <= j < |w[0]| :: r[0][j] == m[0][0] * w[0][j] + m[0][1] * w[1][j]
    ensures forall j | 0 <= j < |w[0]| :: r[1][j] == m[1][0] * w[0][j] + m[1][1] * w[1][j]
  {
    [VAdd(VScale(m[0][0], w[0]), VScale(m[0][1], w[1])), VAdd(VScale(m[1][0], w[0]), VScale(m[1][1], w[1]))]
  }

  /** With sigma^2 = 1/2, V undoes V: mapping w to s and back returns w. */
  lemma {:induction false} VRoundTrip(sigma: real, w: State)
    requires sigma * sigma == 0.5
    requires |w| == 2 && |w[0]| == |w[1]|
    ensures Apply2(VMatrix(sigma), Apply2(VMatrix(sigma), w)) == w
  {
    var v := VMatrix(sigma);
    var s := Apply2(v, w);
    var r := Apply2(v, s);
    forall j | 0 <= j < |w[0]|
      ensures r[0][j] == w[0][j] && r[1][j] == w[1][j]
    {
      VTwiceNode(sigma, w, j);
      MulBy(sigma * sigma, 0.5, 2.0 * w[0][j]);
      MulBy(sigma * sigma, 0.5, 2.0 * w[1][j]);
    }
    assert r[0] == w[0];
    assert r[1] == w[1];
  }

  /** Applying V twice multiplies each node value by 2 sigma^2. */
  lemma VTwiceNode(sigma: real, w: State, j: nat)
    requires |w| == 2 && |w[0]| == |w[1]| && j < |w[0]|
    ensures Apply2(VMatrix(sigma), Apply2(VMatrix(sigma), w))[0][j] == (sigma * sigma) * (2.0 * w[0][j])
    ensures Apply2(VMatrix(sigma), Apply2(VMatrix(sigma), w))[1][j] == (sigma * sigma) * (2.0 * w[1][j])
  {
    var m := VMatrix(sigma);
    assert m[0][0] == sigma && m[0][1] == sigma && m[1][0] == sigma && m[1][1] == -sigma;
    var s := Apply2(m, w);
    var r := Apply2(m, s);
    var x, y := w[0][j], w[1][j];
    var s0, s1 := s[0][j], s[1][j];
    assert s0 == sigma * x + sigma * y && s1 == sigma * x + -sigma * y;
    assert r[0][j] == sigma * s0 + sigma * s1 && r[1][j] == sigma * s0 + -sigma * s1;
    VTwiceAt(sigma, x, y, s0, s1, r[0][j], r[1][j]);
  }

  /** The round trip at one node: s = V (x, y) and r = V s. */
  lemma VTwiceAt(sigma: real, x: real, y: real, s0: real, s1: real, r0: real, r1: real)
    requires s0 == sigma * x + sigma * y && s1 == sigma * x + -sigma * y
    requires r0 == sigma * s0 + sigma * s1 && r1 == sigma * s0 + -sigma * s1
    ensures r0 == (sigma * sigma) * (2.0 * x) && r1 == (sigma * sigma) * (2.0 * y)
  {
    assert s0 + s1 == 2.0 * (sigma * x);
    assert s0 - s1 == 2.0 * (sigma * y);
    MulBy(s0 + s1, 2.0 * (sigma * x), sigma);
    MulBy(s0 - s1, 2.0 * (sigma * y), sigma);
  }

  lemma MulBy(a: real, b: real, x: real)
    requires a == b
    ensures a * x == b * x
  {
  }

  /** V diagonalizes the coupling: with s = V (a, b) the characteristic
      variables of (u_x, v_x) = (a, b), the s-space transport (-c s0, c s1)
      mapped back by V is (-c b, -c a), i.e. u_t = -c v_x and v_t = -c u_x. */
  lemma VDiagonalizesWaveCoupling(sigma: real, c: real, a: real, b: real)
    requires sigma * sigma == 0.5
    ensures var v := VMatrix(sigma);
            var s0, s1 := v[0][0] * a + v[0][1] * b, v[1][0] * a + v[1][1] * b;
            v[0][0] * (-c * s0) + v[0][1] * (c * s1) == -c * b &&
            v[1][0] * (-c * s0) + v[1][1] * (c * s1) == -c * a
  {
    var s0, s1 := sigma * a + sigma * b, sigma * a + -sigma * b;
    assert sigma * (-c * s0) + sigma * (c * s1) == -2.0 * c * ((sigma * sigma) * b);
    assert sigma * (-c * s0) + -sigma * (c * s1) == -2.0 * c * ((sigma * sigma) * a);
    MulBy(sigma * sigma, 0.5, a);
    MulBy(sigma * sigma, 0.5, b);
  }

  /** The services of the one-dimensional discretization the operator uses.
      With one dimension, discr.nabla has the single component nabla0, so
      c * nabla * s[0] is one field and the transport has two components. */
  datatype DiagDiscretization = DiagDiscretization(
    dimensions: nat,
    nodeCount: nat,
    mesh: Mesh,
    boundaryNodeCount: Tag -> nat,
    nabla0: Vec -> Vec,                                // discr.nabla[0] * f
    boundarize: (Vec, Tag) -> Vec,                     // boundarize_volume_field(f, tag)
    boundaryNormals: Tag -> seq<Vec>,                  // boundary_normals(tag)
    interiorFlux: (real, State) -> State,              // flux * s, flux compiled from c * strong flux
    boundaryFlux: (real, State, State, Tag) -> State,  // flux * pair_with_boundary(s, bc, tag)
    inverseMass: State -> State)                       // m_inv * .
  {
    /** Every operator returns fields of the expected sizes. */
    ghost predicate Valid() {
      && dimensions == 1
      && (forall f | |f| == nodeCount :: |nabla0(f)| == nodeCount)
      && (forall f, tag | |f| == nodeCount :: |boundarize(f, tag)| == boundaryNodeCount(tag))
      && (forall tag :: IsState(boundaryNormals(tag), dimensions, boundaryNodeCount(tag)))
      && (forall c, s | IsState(s, 2, nodeCount) :: IsState(interiorFlux(c, s), 2, nodeCount))
      && (forall c, s, bc, tag | IsState(s, 2, nodeCount) && IsState(bc, 2, boundaryNodeCount(tag)) ::
            IsState(boundaryFlux(c, s, bc, tag), 2, nodeCount))
      && (forall s | IsState(s, 2, nodeCount) :: IsState(inverseMass(s), 2, nodeCount))
    }
  }

  /** The default tags pass the coverage check: an instance of
      Common.TagAllCovers for the default Dirichlet tag TAG_ALL. */
  lemma DefaultTagsCover(mesh: Mesh)
    ensures Covers(mesh, [TagAll, TagNone, TagNone])
  {
    TagAllCovers(mesh, [TagAll, TagNone, TagNone]);
  }

  /** Diagonalized1DWaveOperator: its fields are set at construction, except
      rad_bc, which every call of rhs overwrites. */
  class Diagonalized1DWaveOperator {
    const c: real
    const discr: DiagDiscretization
    const sourceF: Option<real -> Vec>
    const dirichletTag: Tag
    const neumannTag: Tag
    const radiationTag: Tag
    const radiationNormals: seq<Vec>
    const sigma: real
    var radBc: Option<State>

    ghost predicate Valid() {
      && c > 0.0
      && discr.Valid()
      && sigma * sigma == 0.5 && sigma > 0.0
      && radiationNormals == discr.boundaryNormals(radiationTag)
      && (sourceF.Some? ==> forall t :: |sourceF.value(t)| == discr.nodeCount)
    }

    constructor (c: real, discr: DiagDiscretization, sourceF: Option<real -> Vec>,
                 dirichletTag: Tag, neumannTag: Tag, radiationTag: Tag, sigma: real)
      requires c > 0.0 && discr.Valid() && sigma * sigma == 0.5 && sigma > 0.0
      requires sourceF.Some? ==> forall t :: |sourceF.value(t)| == discr.nodeCount
      ensures Valid()
      ensures this.c == c && this.discr == discr && this.sourceF == sourceF && this.sigma == sigma
      ensures this.dirichletTag == dirichletTag && this.neumannTag == neumannTag
      ensures this.radiationTag == radiationTag && radBc == None
    {
      this.c := c;
      this.discr := discr;
      this.sourceF := sourceF;
      this.dirichletTag := dirichletTag;
      this.neumannTag := neumannTag;
      this.radiationTag := radiationTag;
      this.radiationNormals := discr.boundaryNormals(radiationTag);
      this.sigma := sigma;
      radBc := None;
    }

    function V(): seq<seq<real>> {
      VMatrix(sigma)
    }

    /** The characteristic variables s = Vt w. */
    function Diagonal(w: State): (s: State)
      requires Valid() && IsState(w, 2, discr.nodeCount)
      ensures IsState(s, 2, discr.nodeCount)
    {
      Apply2(Transpose(V()), w)
    }

    /** rad_bc for the characteristic state s. */
    function RadiationBcOf(s: State): (bc: State)
      requires Valid() && IsState(s, 2, discr.nodeCount)
      ensures IsState(bc, 2, discr.boundaryNodeCount(radiationTag))
    {
      var radS := [discr.boundarize(s[0], radiationTag), discr.boundarize(s[1], radiationTag)];
      RadiationBc(radS, radiationNormals[0])
    }

    /** The s-space right-hand side: (-c d/dx s0, c d/dx s1) plus the lifted
        fluxes against the neighbours and against the radiation state. */
    function SpatialRhs(s: State, bc: State): (r: State)
      requires Valid() && IsState(s, 2, discr.nodeCount)
      requires IsState(bc, 2, discr.boundaryNodeCount(radiationTag))
      ensures IsState(r, 2, discr.nodeCount)
    {
      var transport := [VScale(-1.0, VScale(c, discr.nabla0(s[0]))), VScale(-1.0, VScale(-c, discr.nabla0(s[1])))];
      var lifted := discr.inverseMass(SAdd(discr.interiorFlux(c, s), discr.boundaryFlux(c, s, bc, radiationTag)));
      SAdd(transport, lifted)
    }

    /** rhs: stores the radiation state in rad_bc, maps the s-space result
        back by V and adds the source to the u component only. */
    method Rhs(t: real, w: State) returns (r: State)
      requires Valid() && IsState(w, 2, discr.nodeCount)
      modifies this
      ensures radBc == Some(RadiationBcOf(Diagonal(w)))
      ensures IsState(r, 2, discr.nodeCount)
      ensures var back := Apply2(V(), SpatialRhs(Diagonal(w), RadiationBcOf(Diagonal(w))));
              r[1] == back[1] &&
              r[0] == if sourceF.Some? then VAdd(back[0], sourceF.value(t)) else back[0]
    {
      var s := Apply2(Transpose(V()), w);
      var radS := [discr.boundarize(s[0], radiationTag), discr.boundarize(s[1], radiationTag)];
      var radN := radiationNormals;
      var bc := RadiationBc(radS, radN[0]);
      radBc := Some(bc);
      var rhs := SpatialRhs(s, bc);
      r := Apply2(V(), rhs);
      if sourceF.Some? {
        r := r[0 := VAdd(r[0], sourceF.value(t))];
      }
    }

    /** The wave speed bounds the spectrum. */
    function MaxEigenvalue(): (r: real)
      requires Valid()
      ensures r == c && r > 0.0
    {
      c
    }
  }

  /** Without a source, rhs is the s-space right-hand side seen in w
      variables: applying Vt to it gives the s-space result back. This is
      VRoundTrip (with VIsSymmetric) applied to that one state. */
  lemma RhsIsDiagonalRhsInWVariables(op: Diagonalized1DWaveOperator, w: State)
    requires op.Valid() && IsState(w, 2, op.discr.nodeCount)
    ensures var s := op.Diagonal(w);
            var rhs := op.SpatialRhs(s, op.RadiationBcOf(s));
            Apply2(Transpose(op.V()), Apply2(op.V(), rhs)) == rhs
  {
    var s := op.Diagonal(w);
    VIsSymmetric(op.sigma);
    VRoundTrip(op.sigma, op.SpatialRhs(s, op.RadiationBcOf(s)));
  }

  /** Diagonalized1DWaveOperator.__init__: the wave speed must be positive,
      then the three tags must cover the boundary; flux_type is not read. */
  method NewDiagonalized1DWaveOperator(
    c: real, discr: DiagDiscretization, sourceF: Option<real -> Vec>, fluxType: string,
    dirichletTag: Option<Tag>, neumannTag: Option<Tag>, radiationTag: Option<Tag>, sigma: real)
    returns (r: Result<Diagonalized1DWaveOperator>)
    requires discr.Valid() && sigma * sigma == 0.5 && sigma > 0.0
    requires sourceF.Some? ==> forall t :: |sourceF.value(t)| == discr.nodeCount
    ensures var tags := [dirichletTag.GetOr(TagAll), neumannTag.GetOr(TagNone), radiationTag.GetOr(TagNone)];
            && (r.Ok? <==> c > 0.0 && Covers(discr.mesh, tags))
            && (c <= 0.0 ==> r.Err? && r.error.AssertionError?)
            && (c > 0.0 && !Covers(discr.mesh, tags) ==> r == Err(BcCoverageError))
    ensures r.Ok? ==> r.value.Valid() && r.value.c == c && r.value.radBc == None
    ensures r.Ok? ==> r.value.discr == discr && r.value.sourceF == sourceF && r.value.sigma == sigma
    ensures r.Ok? ==> r.value.dirichletTag == dirichletTag.GetOr(TagAll) &&
                      r.value.neumannTag == neumannTag.GetOr(TagNone) &&
                      r.value.radiationTag == radiationTag.GetOr(TagNone)
  {
    if !(c > 0.0) {
      return Err(AssertionError("wave speed has to be positive"));
    }
    var dt := if dirichletTag.None? then TagAll else dirichletTag.value;
    var nt := if neumannTag.None? then TagNone else neumannTag.value;
    var rt := if radiationTag.None? then TagNone else radiationTag.value;
    if !Covers(discr.mesh, [dt, nt, rt]) {
      return Err(BcCoverageError);
    }
    var op := new Diagonalized1DWaveOperator(c, discr, sourceF, dt, nt, rt, sigma);
    r := Ok(op);
  }
}
