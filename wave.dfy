/** examples/wave/wave.py: the strong-form DG operator for the first-order
    wave equation in the state w = (u, v), u a scalar and v a d-vector. The
    numerical flux is evaluated pointwise on face traces; the discretization's
    derivative, boundary, flux-lifting and inverse-mass operators are
    uninterpreted. */
module Wave {
  import opened Common
  import opened Fields

  datatype FluxType = Central | Upwind

  /** The flux_type argument: "central" or "upwind"; anything else is a
      ValueError. */
  function ParseFluxType(name: string): (r: Result<FluxType>)
    ensures r == Ok(Central) <==> name == "central"
    ensures r == Ok(Upwind) <==> name == "upwind"
    ensures r.Err? <==> name != "central" && name != "upwind"
    ensures r.Err? ==> r.error == ValueError("invalid flux type")
  {
    if name == "central" then Ok(Central)
    else if name == "upwind" then Ok(Upwind)
    else Err(ValueError("invalid flux type"))
  }

  /** A trace of the state at one face node: u at index 0, v after it, one
      entry per component of the normal. */
  predicate IsTrace(w: seq<real>, n: seq<real>) {
    |w| == 1 + |n|
  }

  function Avg(a: seq<real>, b: seq<real>): (r: seq<real>)
    requires |a| == |b|
    ensures |r| == |a|
    ensures forall i | 0 <= i < |a| :: r[i] == 0.5 * (a[i] + b[i])
  {
    VScale(0.5, VAdd(a, b))
  }

  /** The central weak flux (v.avg . n, u.avg n). */
  function CentralWeakFlux(wI: seq<real>, wE: seq<real>, n: seq<real>): (f: seq<real>)
    requires IsTrace(wI, n) && IsTrace(wE, n)
    ensures |f| == |wI|
  {
    var avg := Avg(wI, wE);
    [Dot(avg[1..], n)] + VScale(avg[0], n)
  }

  /** The weak flux of the chosen type: upwind adds half the jump of every
      component to the central flux. */
  function WeakFlux(kind: FluxType, wI: seq<real>, wE: seq<real>, n: seq<real>): (f: seq<real>)
    requires IsTrace(wI, n) && IsTrace(wE, n)
    ensures |f| == |wI|
  {
    var central := CentralWeakFlux(wI, wE, n);
    match kind
    case Central => central
    case Upwind => VAdd(central, VScale(0.5, VSub(wI, wE)))
  }

  /** The strong flux (v.int . n, u.int n) minus the weak flux. */
  function StrongFlux(kind: FluxType, wI: seq<real>, wE: seq<real>, n: seq<real>): (f: seq<real>)
    requires IsTrace(wI, n) && IsTrace(wE, n)
    ensures |f| == |wI|
  {
    VSub([Dot(wI[1..], n)] + VScale(wI[0], n), WeakFlux(kind, wI, wE, n))
  }

  /** The upwind correction of component c: half its jump, or nothing. */
  function UpwindTerm(kind: FluxType, wI: seq<real>, wE: seq<real>, c: nat): real
    requires c < |wI| == |wE|
  {
    if kind == Upwind then 0.5 * (wI[c] - wE[c]) else 0.0
  }

  /** The u-part of the weak flux. */
  lemma WeakFluxHead(kind: FluxType, wI: seq<real>, wE: seq<real>, n: seq<real>)
    requires IsTrace(wI, n) && IsTrace(wE, n)
    ensures WeakFlux(kind, wI, wE, n)[0] == Dot(Avg(wI, wE)[1..], n) + UpwindTerm(kind, wI, wE, 0)
  {
  }

  /** Component c of the v-part of the weak flux. */
  lemma WeakFluxAt(kind: FluxType, wI: seq<real>, wE: seq<real>, n: seq<real>, c: nat)
    requires IsTrace(wI, n) && IsTrace(wE, n) && 1 <= c < |wI|
    ensures WeakFlux(kind, wI, wE, n)[c] == 0.5 * (wI[0] + wE[0]) * n[c - 1] + UpwindTerm(kind, wI, wE, c)
  {
    var central := CentralWeakFlux(wI, wE, n);
    var avg := Avg(wI, wE);
    var tail := VScale(avg[0], n);
    assert central == [Dot(avg[1..], n)] + tail;
    assert central[c] == tail[c - 1];
    assert tail[c - 1] == 0.5 * (wI[0] + wE[0]) * n[c - 1];
    match kind
    case Central =>
      assert WeakFlux(kind, wI, wE, n) == central;
    case Upwind =>
      var jump := VScale(0.5, VSub(wI, wE));
      assert WeakFlux(kind, wI, wE, n) == VAdd(central, jump);
      assert jump[c] == 0.5 * (wI[c] - wE[c]);
  }

  /** The weak flux component by component. */
  lemma WeakFluxEntries(kind: FluxType, wI: seq<real>, wE: seq<real>, n: seq<real>)
    requires IsTrace(wI, n) && IsTrace(wE, n)
    ensures WeakFlux(kind, wI, wE, n)[0] == Dot(Avg(wI, wE)[1..], n) + UpwindTerm(kind, wI, wE, 0)
    ensures forall c | 1 <= c < |wI| ::
              WeakFlux(kind, wI, wE, n)[c] == 0.5 * (wI[0] + wE[0]) * n[c - 1] + UpwindTerm(kind, wI, wE, c)
  {
    WeakFluxHead(kind, wI, wE, n);
    forall c | 1 <= c < |wI|
      ensures WeakFlux(kind, wI, wE, n)[c] == 0.5 * (wI[0] + wE[0]) * n[c - 1] + UpwindTerm(kind, wI, wE, c)
    {
      WeakFluxAt(kind, wI, wE, n, c);
    }
  }

  /** The u-part of the strong flux. */
  lemma StrongFluxHead(kind: FluxType, wI: seq<real>, wE: seq<real>, n: seq<real>)
    requires IsTrace(wI, n) && IsTrace(wE, n)
    ensures StrongFlux(kind, wI, wE, n)[0] ==
            Dot(wI[1..], n) - Dot(Avg(wI, wE)[1..], n) - UpwindTerm(kind, wI, wE, 0)
  {
    WeakFluxHead(kind, wI, wE, n);
  }

  /** The strong flux component by component. */
  lemma StrongFluxEntries(kind: FluxType, wI: seq<real>, wE: seq<real>, n: seq<real>)
    requires IsTrace(wI, n) && IsTrace(wE, n)
    ensures StrongFlux(kind, wI, wE, n)[0] ==
            Dot(wI[1..], n) - Dot(Avg(wI, wE)[1..], n) - UpwindTerm(kind, wI, wE, 0)
    ensures forall c | 1 <= c < |wI| ::
              StrongFlux(kind, wI, wE, n)[c] ==
              wI[0] * n[c - 1] - 0.5 * (wI[0] + wE[0]) * n[c - 1] - UpwindTerm(kind, wI, wE, c)
  {
    StrongFluxHead(kind, wI, wE, n);
    var physical := [Dot(wI[1..], n)] + VScale(wI[0], n);
    forall c | 1 <= c < |wI|
      ensures StrongFlux(kind, wI, wE, n)[c] ==
              wI[0] * n[c - 1] - 0.5 * (wI[0] + wE[0]) * n[c - 1] - UpwindTerm(kind, wI, wE, c)
    {
      WeakFluxAt(kind, wI, wE, n, c);
      assert physical[c] == wI[0] * n[c - 1];
    }
  }

  /** The upwind flux exceeds the central one by half the jump. */
  lemma UpwindAddsHalfJump(wI: seq<real>, wE: seq<real>, n: seq<real>)
    requires IsTrace(wI, n) && IsTrace(wE, n)
    ensures VSub(WeakFlux(Upwind, wI, wE, n), WeakFlux(Central, wI, wE, n)) == VScale(0.5, VSub(wI, wE))
  {
    WeakFluxEntries(Upwind, wI, wE, n);
    WeakFluxEntries(Central, wI, wE, n);
  }

  /** Without a jump the two flux types coincide. */
  lemma UpwindIsCentralWithoutJump(w: seq<real>, n: seq<real>)
    requires IsTrace(w, n)
    ensures WeakFlux(Upwind, w, w, n) == WeakFlux(Central, w, w, n)
  {
    WeakFluxEntries(Upwind, w, w, n);
    WeakFluxEntries(Central, w, w, n);
  }

  lemma AvgOfEqual(w: seq<real>)
    ensures Avg(w, w) == w
  {
  }

  /** The strong flux is consistent: it vanishes where the field is continuous. */
  lemma StrongFluxVanishesWithoutJump(kind: FluxType, w: seq<real>, n: seq<real>)
    requires IsTrace(w, n)
    ensures StrongFlux(kind, w, w, n) == Constant(0.0, |w|)
  {
    AvgOfEqual(w);
    StrongFluxEntries(kind, w, w, n);
  }

  /** The central strong flux is half the jump of the physical flux. */
  lemma {:induction false} CentralStrongFluxIsHalfJump(wI: seq<real>, wE: seq<real>, n: seq<real>)
    requires IsTrace(wI, n) && IsTrace(wE, n)
    ensures StrongFlux(Central, wI, wE, n) ==
            [0.5 * Dot(VSub(wI[1..], wE[1..]), n)] + VScale(0.5 * (wI[0] - wE[0]), n)
  {
    var f := StrongFlux(Central, wI, wE, n);
    var g := [0.5 * Dot(VSub(wI[1..], wE[1..]), n)] + VScale(0.5 * (wI[0] - wE[0]), n);
    CentralStrongFluxHead(wI, wE, n);
    StrongFluxEntries(Central, wI, wE, n);
    forall c | 1 <= c < |wI|
      ensures f[c] == g[c]
    {
      assert g[c] == 0.5 * (wI[0] - wE[0]) * n[c - 1];
    }
    assert |f| == |g|;
  }

  /** The u-part of the central strong flux: half the jump of v . n. */
  lemma CentralStrongFluxHead(wI: seq<real>, wE: seq<real>, n: seq<real>)
    requires IsTrace(wI, n) && IsTrace(wE, n)
    ensures StrongFlux(Central, wI, wE, n)[0] == 0.5 * Dot(VSub(wI[1..], wE[1..]), n)
  {
    var vI, vE := wI[1..], wE[1..];
    StrongFluxHead(Central, wI, wE, n);
    assert Avg(wI, wE)[1..] == VAdd(VScale(0.5, vI), VScale(0.5, vE));
    DotLinearLeft(0.5, vI, 0.5, vE, n);
    assert VSub(vI, vE) == VAdd(VScale(1.0, vI), VScale(-1.0, vE));
    DotLinearLeft(1.0, vI, -1.0, vE, n);
    assert VScale(1.0, vI) == vI;
  }

  lemma AvgIsSymmetric(a: seq<real>, b: seq<real>)
    requires |a| == |b|
    ensures Avg(a, b) == Avg(b, a)
  {
  }

  /** The weak flux is conservative: seen from the neighbouring element, with
      the traces swapped and the normal reversed, it is the negated flux. */
  lemma {:induction false} WeakFluxIsConservative(kind: FluxType, wI: seq<real>, wE: seq<real>, n: seq<real>)
    requires IsTrace(wI, n) && IsTrace(wE, n)
    ensures WeakFlux(kind, wE, wI, VScale(-1.0, n)) == VScale(-1.0, WeakFlux(kind, wI, wE, n))
  {
    var central := CentralWeakFlux(wI, wE, n);
    CentralFluxIsConservative(wI, wE, n);
    if kind == Upwind {
      var jump := VScale(0.5, VSub(wI, wE));
      JumpIsAntisymmetric(wI, wE);
      ScaleDistributes(-1.0, central, jump);
    }
  }

  lemma CentralFluxIsConservative(wI: seq<real>, wE: seq<real>, n: seq<real>)
    requires IsTrace(wI, n) && IsTrace(wE, n)
    ensures CentralWeakFlux(wE, wI, VScale(-1.0, n)) == VScale(-1.0, CentralWeakFlux(wI, wE, n))
  {
    var avg := Avg(wI, wE);
    AvgIsSymmetric(wI, wE);
    DotScaleRight(avg[1..], -1.0, n);
    ScalesCommute(avg[0], -1.0, n);
    ScaleCons(-1.0, Dot(avg[1..], n), VScale(avg[0], n));
    var x, x' := Dot(avg[1..], n), Dot(avg[1..], VScale(-1.0, n));
    var v, v' := VScale(avg[0], n), VScale(avg[0], VScale(-1.0, n));
    assert x' == -1.0 * x;
    assert v' == VScale(-1.0, v);
    assert [x'] + v' == [-1.0 * x] + VScale(-1.0, v);
    assert CentralWeakFlux(wE, wI, VScale(-1.0, n)) == [x'] + v';
  }

  lemma JumpIsAntisymmetric(wI: seq<real>, wE: seq<real>)
    requires |wI| == |wE|
    ensures VScale(0.5, VSub(wE, wI)) == VScale(-1.0, VScale(0.5, VSub(wI, wE)))
  {
    var l, r := VScale(0.5, VSub(wE, wI)), VScale(-1.0, VScale(0.5, VSub(wI, wE)));
    forall i | 0 <= i < |wI|
      ensures l[i] == r[i]
    {
      assert l[i] == 0.5 * (wE[i] - wI[i]) && r[i] == -1.0 * (0.5 * (wI[i] - wE[i]));
    }
  }

  /** The exterior trace of the mirror boundary: u negated, v copied. */
  function MirrorTrace(w: seq<real>): (m: seq<real>)
    requires |w| > 0
    ensures |m| == |w|
  {
    [-w[0]] + w[1..]
  }

  /** Against its mirror image a trace has u.avg = 0 and v.avg = v: the weak
      flux imposes u = 0 on the boundary, its v-part vanishes, and only the
      upwind flux adds u to the u-part. */
  lemma MirrorImposesZeroU(kind: FluxType, w: seq<real>, n: seq<real>)
    requires IsTrace(w, n)
    ensures WeakFlux(kind, w, MirrorTrace(w), n)[0] == Dot(w[1..], n) + (if kind == Upwind then w[0] else 0.0)
    ensures forall c | 1 <= c < |w| :: WeakFlux(kind, w, MirrorTrace(w), n)[c] == 0.0
  {
    var m := MirrorTrace(w);
    assert Avg(w, m)[1..] == w[1..];
    WeakFluxEntries(kind, w, m, n);
  }

  /** The services of the discretization the operator uses. */
  datatype WaveDiscretization = WaveDiscretization(
    dimensions: nat,
    nodeCount: nat,
    boundaryNodeCount: nat,
    nabla: (nat, Vec) -> Vec,                         // discr.nabla[i] * f
    boundarize: Vec -> Vec,                           // boundarize_volume_field
    interiorFlux: (FluxType, State) -> State,         // flux * w
    boundaryFlux: (FluxType, State, State) -> State,  // flux * pair_with_boundary(w, bc)
    inverseMass: State -> State)                      // m_inv * .
  {
    /** Every operator returns fields of the expected sizes. */
    ghost predicate Valid() {
      && (forall i, f | |f| == nodeCount :: |nabla(i, f)| == nodeCount)
      && (forall f | |f| == nodeCount :: |boundarize(f)| == boundaryNodeCount)
      && (forall k, w | IsState(w, 1 + dimensions, nodeCount) ::
            IsState(interiorFlux(k, w), 1 + dimensions, nodeCount))
      && (forall k, w, bc | IsState(w, 1 + dimensions, nodeCount) && IsState(bc, 1 + dimensions, boundaryNodeCount) ::
            IsState(boundaryFlux(k, w, bc), 1 + dimensions, nodeCount))
      && (forall w | IsState(w, 1 + dimensions, nodeCount) :: IsState(inverseMass(w), 1 + dimensions, nodeCount))
    }
  }

  /** The values of every component of `s` at node `j`. */
  function NodeTrace(s: State, j: nat): (r: seq<real>)
    requires forall c | 0 <= c < |s| :: j < |s[c]|
    ensures |r| == |s|
    ensures forall c | 0 <= c < |s| :: r[c] == s[c][j]
  {
    seq(|s|, c requires 0 <= c < |s| => s[c][j])
  }

  /** Every component of a volume state restricted to the boundary. */
  function Boundarized(d: WaveDiscretization, w: State): (r: State)
    requires d.Valid() && IsState(w, 1 + d.dimensions, d.nodeCount)
    ensures IsState(r, 1 + d.dimensions, d.boundaryNodeCount)
    ensures forall c | 0 <= c < |w| :: r[c] == d.boundarize(w[c])
  {
    seq(|w|, c requires 0 <= c < |w| => d.boundarize(w[c]))
  }

  /** The mirror boundary state bc = (-u, v) on the boundary: at every
      boundary node it is the mirror trace of the boundary values. */
  function MirrorBc(d: WaveDiscretization, w: State): (bc: State)
    requires d.Valid() && IsState(w, 1 + d.dimensions, d.nodeCount)
    ensures IsState(bc, 1 + d.dimensions, d.boundaryNodeCount)
    ensures forall j | 0 <= j < d.boundaryNodeCount ::
              NodeTrace(bc, j) == MirrorTrace(NodeTrace(Boundarized(d, w), j))
  {
    var b := Boundarized(d, w);
    var bc := [VScale(-1.0, b[0])] + b[1..];
    assert forall j | 0 <= j < d.boundaryNodeCount ::
             NodeTrace(bc, j) == MirrorTrace(NodeTrace(b, j));
    bc
  }

  /** dot(nabla, v): the sum of the i-th derivatives of the components v_i. */
  function NablaDot(d: WaveDiscretization, v: State): (r: Vec)
    requires d.Valid() && forall i | 0 <= i < |v| :: |v[i]| == d.nodeCount
    ensures |r| == d.nodeCount
  {
    if |v| == 0 then Constant(0.0, d.nodeCount)
    else VAdd(NablaDot(d, v[..|v| - 1]), d.nabla(|v| - 1, v[|v| - 1]))
  }

  /** The right-hand side without the source:
      (div v, grad u) - M^-1 (flux w + flux (w, mirror bc)). */
  function SpatialRhs(d: WaveDiscretization, kind: FluxType, w: State): (r: State)
    requires d.Valid() && IsState(w, 1 + d.dimensions, d.nodeCount)
    ensures IsState(r, 1 + d.dimensions, d.nodeCount)
  {
    var u, v := w[0], w[1..];
    var volume := [NablaDot(d, v)] + seq(d.dimensions, i requires 0 <= i => d.nabla(i, u));
    var lifted := d.inverseMass(SAdd(d.interiorFlux(kind, w), d.boundaryFlux(kind, w, MirrorBc(d, w))));
    SSub(volume, lifted)
  }

  /** StrongWaveOperator: its discretization, source and flux are fixed at
      construction. */
  class StrongWaveOperator {
    const discr: WaveDiscretization
    const sourceF: Option<real -> Vec>
    const fluxType: FluxType

    ghost predicate Valid() {
      discr.Valid() && (sourceF.Some? ==> forall t :: |sourceF.value(t)| == discr.nodeCount)
    }

    constructor (discr: WaveDiscretization, sourceF: Option<real -> Vec>, fluxType: FluxType)
      ensures this.discr == discr && this.sourceF == sourceF && this.fluxType == fluxType
    {
      this.discr := discr;
      this.sourceF := sourceF;
      this.fluxType := fluxType;
    }

    /** rhs: the spatial right-hand side, with the source added to the u
        component only, and only when there is a source. */
    method Rhs(t: real, w: State) returns (r: State)
      requires Valid() && IsState(w, 1 + discr.dimensions, discr.nodeCount)
      ensures IsState(r, 1 + discr.dimensions, discr.nodeCount)
      ensures r[1..] == SpatialRhs(discr, fluxType, w)[1..]
      ensures sourceF.None? ==> r[0] == SpatialRhs(discr, fluxType, w)[0]
      ensures sourceF.Some? ==> r[0] == VAdd(SpatialRhs(discr, fluxType, w)[0], sourceF.value(t))
    {
      r := SpatialRhs(discr, fluxType, w);
      if sourceF.Some? {
        r := r[0 := VAdd(r[0], sourceF.value(t))];
      }
    }
  }

  /** StrongWaveOperator.__init__: an omitted flux type is "upwind"; an
      unknown one fails with a ValueError. */
  method NewStrongWaveOperator(discr: WaveDiscretization, sourceF: Option<real -> Vec>, fluxType: Option<string>)
    returns (r: Result<StrongWaveOperator>)
    ensures r.Ok? <==> fluxType.None? || fluxType.value == "central" || fluxType.value == "upwind"
    ensures r.Err? ==> r.error == ValueError("invalid flux type")
    ensures r.Ok? ==> r.value.discr == discr && r.value.sourceF == sourceF
    ensures r.Ok? && fluxType.None? ==> r.value.fluxType == Upwind
    ensures r.Ok? && fluxType.Some? ==> Ok(r.value.fluxType) == ParseFluxType(fluxType.value)
  {
    match ParseFluxType(fluxType.GetOr("upwind"))
    case Err(e) =>
      r := Err(e);
    case Ok(kind) =>
      var op := new StrongWaveOperator(discr, sourceF, kind);
      r := Ok(op);
  }
}
