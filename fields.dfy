/** Discrete fields: one real value per node, with the elementwise
    arithmetic numpy applies to them. */
module Fields {

  type Vec = seq<real>

  /** A field of `n` nodes, all holding `c` (what `volume_zeros` gives for c = 0). */
  function Constant(c: real, n: nat): (r: Vec)
    ensures |r| == n
    ensures forall i | 0 <= i < n :: r[i] == c
  {
    seq(n, i => c)
  }

  function VAdd(a: Vec, b: Vec): (r: Vec)
    requires |a| == |b|
    ensures |r| == |a|
    ensures forall i | 0 <= i < |a| :: r[i] == a[i] + b[i]
  {
    seq(|a|, i requires 0 <= i < |a| => a[i] + b[i])
  }

  function VSub(a: Vec, b: Vec): (r: Vec)
    requires |a| == |b|
    ensures |r| == |a|
    ensures forall i | 0 <= i < |a| :: r[i] == a[i] - b[i]
  {
    seq(|a|, i requires 0 <= i < |a| => a[i] - b[i])
  }

  function VScale(c: real, a: Vec): (r: Vec)
    ensures |r| == |a|
    ensures forall i | 0 <= i < |a| :: r[i] == c * a[i]
  {
    seq(|a|, i requires 0 <= i < |a| => c * a[i])
  }

  /** Elementwise product (numpy.multiply). */
  function VMul(a: Vec, b: Vec): (r: Vec)
    requires |a| == |b|
    ensures |r| == |a|
    ensures forall i | 0 <= i < |a| :: r[i] == a[i] * b[i]
  {
    seq(|a|, i requires 0 <= i < |a| => a[i] * b[i])
  }

  function Dot(a: Vec, b: Vec): real
    requires |a| == |b|
  {
    if |a| == 0 then 0.0 else a[0] * b[0] + Dot(a[1..], b[1..])
  }

  /** The dot product is linear in its second factor. */
  lemma {:induction false} DotScaleRight(a: Vec, c: real, b: Vec)
    requires |a| == |b|
    ensures Dot(a, VScale(c, b)) == c * Dot(a, b)
  {
    if |a| > 0 {
      var s := VScale(c, b);
      forall i | 0 <= i < |b| - 1
        ensures s[1..][i] == VScale(c, b[1..])[i]
      {
        assert s[1..][i] == s[i + 1];
      }
      assert s[1..] == VScale(c, b[1..]);
      DotScaleRight(a[1..], c, b[1..]);
    }
  }

  /** Adding zero times a field leaves a field unchanged. */
  lemma AddScaledZero(a: Vec, b: Vec)
    requires |a| == |b|
    ensures VAdd(a, VScale(0.0, b)) == a
  {
  }

  /** The dot product is linear in its first factor. */
  lemma DotLinearLeft(p: real, a: Vec, q: real, b: Vec, n: Vec)
    requires |a| == |b| == |n|
    ensures Dot(VAdd(VScale(p, a), VScale(q, b)), n) == p * Dot(a, n) + q * Dot(b, n)
  {
    DotAddLeft(VScale(p, a), VScale(q, b), n);
    DotScaleLeft(p, a, n);
    DotScaleLeft(q, b, n);
  }

  lemma {:induction false} DotAddLeft(a: Vec, b: Vec, n: Vec)
    requires |a| == |b| == |n|
    ensures Dot(VAdd(a, b), n) == Dot(a, n) + Dot(b, n)
  {
    if |a| > 0 {
      var s := VAdd(a, b);
      assert s[1..] == VAdd(a[1..], b[1..]) by {
        forall i | 0 <= i < |a| - 1
          ensures s[1..][i] == VAdd(a[1..], b[1..])[i]
        {
          assert s[1..][i] == s[i + 1];
        }
      }
      DotAddLeft(a[1..], b[1..], n[1..]);
      AddStep(a[0], b[0], n[0], s[0], Dot(a[1..], n[1..]), Dot(b[1..], n[1..]), Dot(s[1..], n[1..]));
    }
  }

  lemma AddStep(a0: real, b0: real, n0: real, s0: real, x: real, y: real, rest: real)
    requires s0 == a0 + b0 && rest == x + y
    ensures s0 * n0 + rest == (a0 * n0 + x) + (b0 * n0 + y)
  {
  }

  lemma {:induction false} DotScaleLeft(c: real, a: Vec, n: Vec)
    requires |a| == |n|
    ensures Dot(VScale(c, a), n) == c * Dot(a, n)
  {
    if |a| > 0 {
      var s := VScale(c, a);
      assert s[1..] == VScale(c, a[1..]) by {
        forall i | 0 <= i < |a| - 1
          ensures s[1..][i] == VScale(c, a[1..])[i]
        {
          assert s[1..][i] == s[i + 1];
        }
      }
      DotScaleLeft(c, a[1..], n[1..]);
      ScaleStep(c, a[0], n[0], s[0], Dot(a[1..], n[1..]), Dot(s[1..], n[1..]));
    }
  }

  lemma ScaleStep(c: real, a0: real, n0: real, s0: real, x: real, rest: real)
    requires s0 == c * a0 && rest == c * x
    ensures s0 * n0 + rest == c * (a0 * n0 + x)
  {
  }

  lemma ScalesCommute(a: real, b: real, v: Vec)
    ensures VScale(a, VScale(b, v)) == VScale(b, VScale(a, v))
  {
    var l, r := VScale(a, VScale(b, v)), VScale(b, VScale(a, v));
    forall i | 0 <= i < |v|
      ensures l[i] == r[i]
    {
      assert l[i] == a * (b * v[i]) && r[i] == b * (a * v[i]);
    }
  }

  lemma ScaleDistributes(c: real, a: Vec, b: Vec)
    requires |a| == |b|
    ensures VScale(c, VAdd(a, b)) == VAdd(VScale(c, a), VScale(c, b))
  {
    var l, r := VScale(c, VAdd(a, b)), VAdd(VScale(c, a), VScale(c, b));
    forall i | 0 <= i < |a|
      ensures l[i] == r[i]
    {
      assert l[i] == c * (a[i] + b[i]) && r[i] == c * a[i] + c * b[i];
    }
  }

  lemma ScaleCons(c: real, x: real, v: Vec)
    ensures VScale(c, [x] + v) == [c * x] + VScale(c, v)
  {
    var l, r := VScale(c, [x] + v), [c * x] + VScale(c, v);
    forall i | 0 <= i < |l|
      ensures l[i] == r[i]
    {
      if i > 0 {
        assert ([x] + v)[i] == v[i - 1];
      }
    }
  }

  /** A state: a list of fields (ArithmeticList), one per solution component. */
  type State = seq<Vec>

  /** `w` has `components` fields of `n` nodes each. */
  predicate IsState(w: State, components: nat, n: nat) {
    |w| == components && forall i | 0 <= i < components :: |w[i]| == n
  }

  function SAdd(a: State, b: State): (r: State)
    requires |a| == |b| && forall i | 0 <= i < |a| :: |a[i]| == |b[i]|
    ensures |r| == |a|
    ensures forall i | 0 <= i < |a| :: r[i] == VAdd(a[i], b[i])
  {
    seq(|a|, i requires 0 <= i < |a| => VAdd(a[i], b[i]))
  }

  function SSub(a: State, b: State): (r: State)
    requires |a| == |b| && forall i | 0 <= i < |a| :: |a[i]| == |b[i]|
    ensures |r| == |a|
    ensures forall i | 0 <= i < |a| :: r[i] == VSub(a[i], b[i])
  {
    seq(|a|, i requires 0 <= i < |a| => VSub(a[i], b[i]))
  }
}
