/** src/python/visualization.py: the connectivity and coordinate arrays the
    VTK and Silo writers are given. Every element group has a local
    sub-mesh (polygons over the element's own node numbers) and a node
    range per element; the global polygons are the sub-mesh shifted by each
    element's first node. Writing the files is not modelled. */
module Visualization {
  import opened Common

  /** _three_vector: a point or vector of 1, 2 or 3 components padded with
      zeros to 3 components; any other length falls through to None. */
  function ThreeVector(x: seq<real>): (r: Option<seq<real>>)
    ensures r.Some? <==> 1 <= |x| <= 3
    ensures r.Some? ==> |r.value| == 3 && r.value[..|x|] == x
    ensures r.Some? ==> forall k | |x| <= k < 3 :: r.value[k] == 0.0
  {
    if |x| == 3 then Some(x)
    else if |x| == 2 then Some([x[0], x[1], 0.0])
    else if |x| == 1 then Some([x[0], 0.0, 0.0])
    else None
  }

  /** Padding is idempotent: a padded vector is already three-dimensional. */
  lemma ThreeVectorIdempotent(x: seq<real>)
    requires ThreeVector(x).Some?
    ensures ThreeVector(ThreeVector(x).value) == ThreeVector(x)
  {
  }

  /** Padding loses nothing: the first |x| components give x back. */
  lemma ThreeVectorRoundTrip(x: seq<real>)
    requires 1 <= |x| <= 3
    ensures ThreeVector(x).value[..|x|] == x
  {
  }

  /** An element group: the polygons of its local sub-mesh, its elements
      and the node range [el_start, el_stop) of each element. The loop
      visits zip(members, ranges). */
  datatype ElementGroup = ElementGroup(submesh: seq<seq<int>>, members: seq<nat>, ranges: seq<(int, int)>)
  {
    /** The number of pairs zip(members, ranges) yields. */
    function ElementCount(): nat {
      if |members| < |ranges| then |members| else |ranges|
    }
  }

  /** The sub-mesh polygons of one element: every local index shifted by
      the element's first node. */
  function ElementPolygons(start: int, submesh: seq<seq<int>>): (r: seq<seq<int>>)
    ensures |r| == |submesh|
    ensures forall t | 0 <= t < |submesh| :: |r[t]| == |submesh[t]|
    ensures forall t, j | 0 <= t < |submesh| && 0 <= j < |submesh[t]| :: r[t][j] - start == submesh[t][j]
  {
    seq(|submesh|, t requires 0 <= t < |submesh| =>
      seq(|submesh[t]|, j requires 0 <= j < |submesh[t]| => start + submesh[t][j]))
  }

  /** The polygons of the first e elements of a group, in element order. */
  function GroupPolygons(eg: ElementGroup, e: nat): seq<seq<int>>
    requires e <= eg.ElementCount()
  {
    if e == 0 then []
    else GroupPolygons(eg, e - 1) + ElementPolygons(eg.ranges[e - 1].0, eg.submesh)
  }

  /** The polygons of every element of every group, group by group. */
  function AllPolygons(groups: seq<ElementGroup>): seq<seq<int>> {
    if |groups| == 0 then []
    else
      var last := groups[|groups| - 1];
      AllPolygons(groups[..|groups| - 1]) + GroupPolygons(last, last.ElementCount())
  }

  /** The number of sub-mesh polygons summed over every element of every group. */
  function PolygonCount(groups: seq<ElementGroup>): nat {
    if |groups| == 0 then 0
    else
      var last := groups[|groups| - 1];
      PolygonCount(groups[..|groups| - 1]) + last.ElementCount() * |last.submesh|
  }

  /** The connectivity loop shared by both visualizers' constructors: for
      every group and every element, append the shifted sub-mesh. */
  method BuildPolygons(groups: seq<ElementGroup>) returns (polygons: seq<seq<int>>)
    ensures polygons == AllPolygons(groups)
  {
    polygons := [];
    for g := 0 to |groups|
      invariant polygons == AllPolygons(groups[..g])
    {
      var eg := groups[g];
      ghost var before := polygons;
      for e := 0 to eg.ElementCount()
        invariant polygons == before + GroupPolygons(eg, e)
      {
        var elStart := eg.ranges[e].0;
        polygons := polygons + ElementPolygons(elStart, eg.submesh);
      }
      assert groups[..g + 1][..g] == groups[..g];
    }
    assert groups[..|groups|] == groups;
  }

  lemma MulStep(e: nat, s: nat)
    requires e >= 1
    ensures (e - 1) * s + s == e * s
  {
  }

  /** Each element contributes one polygon per sub-mesh polygon. */
  lemma {:induction false} GroupPolygonsLength(eg: ElementGroup, e: nat)
    requires e <= eg.ElementCount()
    ensures |GroupPolygons(eg, e)| == e * |eg.submesh|
  {
    if e > 0 {
      GroupPolygonsLength(eg, e - 1);
      MulStep(e, |eg.submesh|);
    }
  }

  /** The polygon count is the sum of the sub-mesh counts over all elements. */
  lemma {:induction false} AllPolygonsCount(groups: seq<ElementGroup>)
    ensures |AllPolygons(groups)| == PolygonCount(groups)
  {
    if |groups| > 0 {
      var last := groups[|groups| - 1];
      AllPolygonsCount(groups[..|groups| - 1]);
      GroupPolygonsLength(last, last.ElementCount());
    }
  }

  lemma MulMono(k: nat, m: nat, s: nat, t: nat)
    requires k < m && t < s
    ensures k * s + t < m * s
  {
    assert (k + 1) * s <= m * s by {
      MulLe(k + 1, m, s);
    }
  }

  lemma MulLe(a: nat, b: nat, s: nat)
    requires a <= b
    ensures a * s <= b * s
  {
  }

  /** Polygons come in element order: polygon t of element k sits at
      k * |submesh| + t, shifted by that element's first node. */
  lemma {:induction false} GroupPolygonsAt(eg: ElementGroup, e: nat, k: nat, t: nat)
    requires e <= eg.ElementCount() && k < e && t < |eg.submesh|
    ensures k * |eg.submesh| + t < |GroupPolygons(eg, e)|
    ensures GroupPolygons(eg, e)[k * |eg.submesh| + t] == ElementPolygons(eg.ranges[k].0, eg.submesh)[t]
  {
    var s := |eg.submesh|;
    GroupPolygonsLength(eg, e - 1);
    GroupPolygonsLength(eg, e);
    if k < e - 1 {
      MulMono(k, e - 1, s, t);
      GroupPolygonsAt(eg, e - 1, k, t);
    } else {
      assert k * s + t - |GroupPolygons(eg, e - 1)| == t;
    }
  }

  /** Every local index of the sub-mesh addresses a node of each element:
      0 <= index < el_stop - el_start, and the ranges lie in [0, nodes). */
  predicate GroupFits(eg: ElementGroup, nodes: int) {
    && (forall e | 0 <= e < eg.ElementCount() :: 0 <= eg.ranges[e].0 && eg.ranges[e].1 <= nodes)
    && (forall e, t, j | 0 <= e < eg.ElementCount() && 0 <= t < |eg.submesh| && 0 <= j < |eg.submesh[t]| ::
          0 <= eg.submesh[t][j] < eg.ranges[e].1 - eg.ranges[e].0)
  }

  /** A polygon every index of which is a node number in [0, nodes). */
  predicate InNodes(polygon: seq<int>, nodes: int) {
    forall j | 0 <= j < |polygon| :: 0 <= polygon[j] < nodes
  }

  /** When the sub-mesh fits each element, every global index names a node
      of the discretization, inside the element it came from. */
  lemma {:induction false} GroupPolygonsInNodes(eg: ElementGroup, e: nat, nodes: int)
    requires e <= eg.ElementCount() && GroupFits(eg, nodes)
    ensures forall p | p in GroupPolygons(eg, e) :: InNodes(p, nodes)
  {
    if e > 0 {
      GroupPolygonsInNodes(eg, e - 1, nodes);
      var start := eg.ranges[e - 1].0;
      var shifted := ElementPolygons(start, eg.submesh);
      forall p | p in shifted
        ensures InNodes(p, nodes)
      {
        var t :| 0 <= t < |shifted| && shifted[t] == p;
        forall j | 0 <= j < |p|
          ensures 0 <= p[j] < nodes
        {
          assert p[j] == start + eg.submesh[t][j];
          assert 0 <= eg.submesh[t][j] < eg.ranges[e - 1].1 - start;
        }
      }
    }
  }

  lemma {:induction false} AllPolygonsInNodes(groups: seq<ElementGroup>, nodes: int)
    requires forall g | 0 <= g < |groups| :: GroupFits(groups[g], nodes)
    ensures forall p | p in AllPolygons(groups) :: InNodes(p, nodes)
  {
    if |groups| > 0 {
      var last := groups[|groups| - 1];
      AllPolygonsInNodes(groups[..|groups| - 1], nodes);
      GroupPolygonsInNodes(last, last.ElementCount(), nodes);
    }
  }

  /** pytools.flatten: the concatenation of a list of lists. */
  function Flatten<T>(xs: seq<seq<T>>): seq<T> {
    if |xs| == 0 then [] else Flatten(xs[..|xs| - 1]) + xs[|xs| - 1]
  }

  /** The flattened list holds every entry of every list, in order, so
      with triangles only it has three nodes per zone. */
  lemma {:induction false} FlattenOfTriangles<T>(xs: seq<seq<T>>)
    requires forall i | 0 <= i < |xs| :: |xs[i]| == 3
    ensures |Flatten(xs)| == 3 * |xs|
    ensures forall i, j | 0 <= i < |xs| && 0 <= j < 3 :: Flatten(xs)[3 * i + j] == xs[i][j]
  {
    if |xs| > 0 {
      var init := xs[..|xs| - 1];
      FlattenOfTriangles(init);
      forall i, j | 0 <= i < |xs| && 0 <= j < 3
        ensures Flatten(xs)[3 * i + j] == xs[i][j]
      {
        if i < |xs| - 1 {
          assert Flatten(xs)[3 * i + j] == Flatten(init)[3 * i + j];
          assert init[i] == xs[i];
        }
      }
    }
  }

  /** Every polygon of every local sub-mesh is a triangle. */
  predicate Triangles(groups: seq<ElementGroup>) {
    forall g, t | 0 <= g < |groups| && 0 <= t < |groups[g].submesh| :: |groups[g].submesh[t]| == 3
  }

  lemma {:induction false} GroupPolygonsAreTriangles(eg: ElementGroup, e: nat)
    requires e <= eg.ElementCount()
    requires forall t | 0 <= t < |eg.submesh| :: |eg.submesh[t]| == 3
    ensures forall i | 0 <= i < |GroupPolygons(eg, e)| :: |GroupPolygons(eg, e)[i]| == 3
  {
    if e > 0 {
      GroupPolygonsAreTriangles(eg, e - 1);
    }
  }

  /** With triangular sub-meshes the zone list is consistent with
      shapesize = [3]: the nodelist holds three nodes per zone, zone z
      being nodes 3z, 3z + 1, 3z + 2. */
  lemma {:induction false} TriangleZoneList(groups: seq<ElementGroup>)
    requires Triangles(groups)
    ensures forall z | 0 <= z < |AllPolygons(groups)| :: |AllPolygons(groups)[z]| == 3
    ensures |Flatten(AllPolygons(groups))| == 3 * |AllPolygons(groups)|
    ensures forall z, j | 0 <= z < |AllPolygons(groups)| && 0 <= j < 3 ::
              Flatten(AllPolygons(groups))[3 * z + j] == AllPolygons(groups)[z][j]
  {
    AllPolygonsAreTriangles(groups);
    FlattenOfTriangles(AllPolygons(groups));
  }

  lemma {:induction false} AllPolygonsAreTriangles(groups: seq<ElementGroup>)
    requires Triangles(groups)
    ensures forall i | 0 <= i < |AllPolygons(groups)| :: |AllPolygons(groups)[i]| == 3
  {
    if |groups| > 0 {
      var last := groups[|groups| - 1];
      assert Triangles(groups[..|groups| - 1]);
      AllPolygonsAreTriangles(groups[..|groups| - 1]);
      GroupPolygonsAreTriangles(last, last.ElementCount());
    }
  }

  /** The discretization as the visualizers see it: its dimension, the
      coordinates of its nodes and its element groups. */
  datatype VisDiscretization = VisDiscretization(dimensions: nat, points: seq<seq<real>>, groups: seq<ElementGroup>)
  {
    /** Every point has a coordinate in each dimension. */
    predicate Valid() {
      forall i | 0 <= i < |points| :: |points[i]| >= dimensions
    }
  }

  /** The Silo coordinate list: all x coordinates, then all y coordinates,
      and so on (dimension-major). */
  function Coords(points: seq<seq<real>>, dims: nat): (c: seq<real>)
    requires forall i | 0 <= i < |points| :: |points[i]| >= dims
    ensures |c| == dims * |points|
  {
    if dims == 0 then []
    else
      MulStep(dims, |points|);
      Coords(points, dims - 1) + seq(|points|, i requires 0 <= i < |points| => points[i][dims - 1])
  }

  /** Coordinate d of point i sits at d * N + i, N the number of points. */
  lemma {:induction false} CoordsAt(points: seq<seq<real>>, dims: nat, d: nat, i: nat)
    requires forall i | 0 <= i < |points| :: |points[i]| >= dims
    requires d < dims && i < |points|
    ensures d * |points| + i < |Coords(points, dims)|
    ensures Coords(points, dims)[d * |points| + i] == points[i][d]
  {
    var n := |points|;
    var prefix := Coords(points, dims - 1);
    if d < dims - 1 {
      MulMono(d, dims - 1, n, i);
      CoordsAt(points, dims - 1, d, i);
      assert Coords(points, dims)[d * n + i] == prefix[d * n + i];
    } else {
      assert d * n + i - |prefix| == i;
    }
  }

  /** VtkVisualizer: the points padded to three dimensions and the global
      polygons, the PolyData structure it writes. */
  class VtkVisualizer {
    const points: seq<Option<seq<real>>>
    const polygons: seq<seq<int>>

    constructor (discr: VisDiscretization)
      ensures |points| == |discr.points|
      ensures forall i | 0 <= i < |points| :: points[i] == ThreeVector(discr.points[i])
      ensures polygons == AllPolygons(discr.groups)
    {
      points := seq(|discr.points|, i requires 0 <= i < |discr.points| => ThreeVector(discr.points[i]));
      var built := BuildPolygons(discr.groups);
      polygons := built;
    }
  }

  /** The vector data of VtkVisualizer.__call__: every value of every named
      vector field padded with zeros to three components, or None when it
      has no or more than three components. */
  function VectorData(vectors: seq<(string, seq<seq<real>>)>): (r: seq<(string, seq<Option<seq<real>>>)>)
    ensures |r| == |vectors|
    ensures forall f | 0 <= f < |vectors| :: r[f].0 == vectors[f].0 && |r[f].1| == |vectors[f].1|
    ensures forall f, i | 0 <= f < |vectors| && 0 <= i < |vectors[f].1| && 1 <= |vectors[f].1[i]| <= 3 ::
              r[f].1[i].Some? && |r[f].1[i].value| == 3 && r[f].1[i].value[..|vectors[f].1[i]|] == vectors[f].1[i]
    ensures forall f, i | 0 <= f < |vectors| && 0 <= i < |vectors[f].1| ::
              r[f].1[i].None? <==> !(1 <= |vectors[f].1[i]| <= 3)
    ensures forall f, i, k | 0 <= f < |vectors| && 0 <= i < |vectors[f].1| && r[f].1[i].Some? &&
                             |vectors[f].1[i]| <= k < 3 ::
              r[f].1[i].value[k] == 0.0
    ensures forall f, i | 0 <= f < |vectors| && 0 <= i < |vectors[f].1| :: r[f].1[i] == ThreeVector(vectors[f].1[i])
  {
    seq(|vectors|, f requires 0 <= f < |vectors| =>
      (vectors[f].0, seq(|vectors[f].1|, i requires 0 <= i < |vectors[f].1| => ThreeVector(vectors[f].1[i]))))
  }

  /** SiloVisualizer: the coordinates and the zone list it writes. */
  class SiloVisualizer {
    const coords: seq<real>
    const nodelist: seq<int>
    const shapesize: seq<int>
    const shapecounts: seq<nat>
    const nshapetypes: nat
    const nzones: nat
    const ndims: nat

    constructor (discr: VisDiscretization)
      requires discr.Valid()
      ensures coords == Coords(discr.points, discr.dimensions)
      ensures nodelist == Flatten(AllPolygons(discr.groups))
      ensures shapesize == [3] && nshapetypes == 1
      ensures nzones == |AllPolygons(discr.groups)| == PolygonCount(discr.groups)
      ensures shapecounts == [nzones]
      ensures ndims == discr.dimensions
    {
      coords := Coords(discr.points, discr.dimensions);
      var polygons := BuildPolygons(discr.groups);
      nodelist := Flatten(polygons);
      shapesize := [3];
      shapecounts := [|polygons|];
      nshapetypes := 1;
      nzones := |polygons|;
      ndims := discr.dimensions;
      AllPolygonsCount(discr.groups);
    }
  }
}
