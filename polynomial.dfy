/** src/polynomial.py: orthonormal Jacobi polynomials by their three-term
    recurrence, their derivatives, the Legendre special case and Vandermonde
    matrices of basis functions at points. Polynomials are coefficient
    sequences over exact reals; sqrt, the gamma function and the real power
    of 2 in the normalisation are parameters. */
module Polynomial {

  /** A polynomial in x by its coefficients, lowest power first; [] is 0. */
  type Poly = seq<real>

  /** Coefficient of x^k (0 beyond the stored ones). */
  function Coeff(p: Poly, k: nat): real {
    if k < |p| then p[k] else 0.0
  }

  function Max(a: nat, b: nat): nat {
    if a < b then b else a
  }

  function PAdd(p: Poly, q: Poly): (r: Poly)
    ensures |r| == Max(|p|, |q|)
  {
    seq(Max(|p|, |q|), k requires 0 <= k => Coeff(p, k) + Coeff(q, k))
  }

  lemma CoeffAdd(p: Poly, q: Poly, k: nat)
    ensures Coeff(PAdd(p, q), k) == Coeff(p, k) + Coeff(q, k)
  {
  }

  function PScale(c: real, p: Poly): (r: Poly)
    ensures |r| == |p|
  {
    seq(|p|, k requires 0 <= k < |p| => c * p[k])
  }

  lemma CoeffScale(c: real, p: Poly, k: nat)
    ensures Coeff(PScale(c, p), k) == c * Coeff(p, k)
  {
  }

  /** Two polynomials of the same length with the same coefficients are equal. */
  lemma CoeffExt(p: Poly, q: Poly)
    requires |p| == |q| && forall k: nat :: Coeff(p, k) == Coeff(q, k)
    ensures p == q
  {
    forall k | 0 <= k < |p|
      ensures p[k] == q[k]
    {
      assert Coeff(p, k) == Coeff(q, k);
    }
  }

  /** x times p. */
  function PMulX(p: Poly): (r: Poly)
    ensures |r| == |p| + 1
  {
    [0.0] + p
  }

  lemma CoeffMulX(p: Poly, k: nat)
    ensures Coeff(PMulX(p), k) == if k == 0 then 0.0 else Coeff(p, k - 1)
  {
  }

  /** The value of p at x, by Horner's rule. */
  function Eval(p: Poly, x: real): real {
    if |p| == 0 then 0.0 else p[0] + x * Eval(p[1..], x)
  }

  /** d/dx, as pymbolic.differentiate computes it on a polynomial: one
      degree less, the zero polynomial staying zero. */
  function Derivative(p: Poly): (r: Poly)
    ensures |r| == if |p| == 0 then 0 else |p| - 1
  {
    if |p| == 0 then []
    else seq(|p| - 1, k requires 0 <= k < |p| - 1 => (k + 1) as real * p[k + 1])
  }

  /** The coefficient of x^k in p' is (k + 1) times that of x^(k+1) in p. */
  lemma CoeffDerivative(p: Poly, k: nat)
    ensures Coeff(Derivative(p), k) == (k + 1) as real * Coeff(p, k + 1)
  {
  }

  /** The derivative of a sum is the sum of the derivatives, coefficient by
      coefficient. */
  lemma DerivativeOfSum(p: Poly, q: Poly, k: nat)
    ensures Coeff(Derivative(PAdd(p, q)), k) == Coeff(PAdd(Derivative(p), Derivative(q)), k)
  {
    var c, a, b := (k + 1) as real, Coeff(p, k + 1), Coeff(q, k + 1);
    CoeffAdd(p, q, k + 1);
    CoeffDerivative(PAdd(p, q), k);
    CoeffDerivative(p, k);
    CoeffDerivative(q, k);
    CoeffAdd(Derivative(p), Derivative(q), k);
    Distributes(c, a, b, Coeff(PAdd(p, q), k + 1));
  }

  lemma Distributes(c: real, a: real, b: real, s: real)
    requires s == a + b
    ensures c * s == c * a + c * b
  {
  }

  /** The derivative taken n times, one after the other. */
  function IterDerivative(p: Poly, n: nat): Poly {
    if n == 0 then p else Derivative(IterDerivative(p, n - 1))
  }

  /** Each derivative lowers the degree by one, down to the zero polynomial. */
  lemma {:induction false} IterDerivativeLength(p: Poly, n: nat)
    ensures |IterDerivative(p, n)| == if n <= |p| then |p| - n else 0
  {
    if n > 0 {
      IterDerivativeLength(p, n - 1);
    }
  }

  /** Differentiating a times and then b times is differentiating a + b times. */
  lemma {:induction false} IterDerivativeCompose(p: Poly, a: nat, b: nat)
    ensures IterDerivative(IterDerivative(p, a), b) == IterDerivative(p, a + b)
  {
    if b > 0 {
      IterDerivativeCompose(p, a, b - 1);
    }
  }

  /** The special functions of the normalisation: sqrt, the gamma function
      and x |-> 2**x. */
  datatype Special = Special(sqrt: real -> real, gamma: real -> real, pow2: real -> real)
  {
    /** The facts about the real functions that the recurrence relies on:
        sqrt is positive on positive arguments, gamma is positive on
        (0, inf) and negative on (-1, 0), and powers of 2 are positive. */
    ghost predicate Valid() {
      && (forall x | x > 0.0 :: sqrt(x) > 0.0)
      && (forall x | x > 0.0 :: gamma(x) > 0.0)
      && (forall x | -1.0 < x < 0.0 :: gamma(x) < 0.0)
      && (forall x :: pow2(x) > 0.0)
    }
  }

  /** The parameters jacobi_polynomial accepts: alpha, beta > -1 and
      alpha + beta != -1. */
  predicate Admissible(alpha: real, beta: real) {
    alpha > -1.0 && beta > -1.0 && alpha + beta != -1.0
  }

  lemma PosMul(x: real, y: real)
    requires x > 0.0 && y > 0.0
    ensures x * y > 0.0
  {
  }

  lemma NegMul(x: real, y: real)
    requires x < 0.0 && y > 0.0
    ensures x * y < 0.0
  {
  }

  lemma PosDiv(x: real, y: real)
    requires x > 0.0 && y > 0.0
    ensures x / y > 0.0
  {
  }

  lemma NegDivNeg(x: real, y: real)
    requires x < 0.0 && y < 0.0
    ensures x / y > 0.0
  {
  }

  lemma NegDivPos(x: real, y: real)
    requires x > 0.0 && y < 0.0
    ensures x / y < 0.0
  {
  }

  /** gamma0: the squared norm of the unnormalised P_0 under the weight. */
  function Gamma0(sp: Special, alpha: real, beta: real): (g: real)
    requires sp.Valid() && Admissible(alpha, beta)
    ensures g > 0.0
  {
    var s := alpha + beta + 1.0;
    var a, b, c, d := sp.pow2(s), sp.gamma(alpha + 1.0), sp.gamma(beta + 1.0), sp.gamma(s);
    Gamma0Positive(s, a, b, c, d);
    a / s * b * c / d
  }

  lemma Gamma0Positive(s: real, a: real, b: real, c: real, d: real)
    requires s > -1.0 && s != 0.0 && a > 0.0 && b > 0.0 && c > 0.0
    requires s > 0.0 ==> d > 0.0
    requires s < 0.0 ==> d < 0.0
    ensures d != 0.0 && a / s * b * c / d > 0.0
  {
    if s > 0.0 {
      PosDiv(a, s);
      PosMul(a / s, b);
      PosMul(a / s * b, c);
      PosDiv(a / s * b * c, d);
    } else {
      NegDivPos(a, s);
      NegMul(a / s, b);
      NegMul(a / s * b, c);
      NegDivNeg(a / s * b * c, d);
    }
  }

  /** (alpha+1)(beta+1)/(alpha+beta+3), the ratio gamma1/gamma0 and the
      radicand of the a_old value before the loop. */
  function FirstRatio(alpha: real, beta: real): (q: real)
    requires Admissible(alpha, beta)
    ensures q > 0.0
  {
    var a, b, d := alpha + 1.0, beta + 1.0, alpha + beta + 3.0;
    PosMul(a, b);
    PosDiv(a * b, d);
    a * b / d
  }

  /** gamma1 = (alpha+1)(beta+1)/(alpha+beta+3) gamma0. */
  function Gamma1(sp: Special, alpha: real, beta: real): (g: real)
    requires sp.Valid() && Admissible(alpha, beta)
    ensures g > 0.0
  {
    var q, g0 := FirstRatio(alpha, beta), Gamma0(sp, alpha, beta);
    PosMul(q, g0);
    q * g0
  }

  /** P_0 = 1/sqrt(gamma0). */
  function P0(sp: Special, alpha: real, beta: real): (p: Poly)
    requires sp.Valid() && Admissible(alpha, beta)
    ensures |p| == 1 && p[0] > 0.0
  {
    var r := sp.sqrt(Gamma0(sp, alpha, beta));
    PosDiv(1.0, r);
    [1.0 / r]
  }

  /** P_1 = ((alpha+beta+2)/2 x + (alpha-beta)/2) / sqrt(gamma1). */
  function P1(sp: Special, alpha: real, beta: real): (p: Poly)
    requires sp.Valid() && Admissible(alpha, beta)
    ensures |p| == 2 && p[1] > 0.0
    ensures alpha == beta ==> p[0] == 0.0
  {
    var r := sp.sqrt(Gamma1(sp, alpha, beta));
    PosDiv((alpha + beta + 2.0) / 2.0, r);
    [(alpha - beta) / 2.0 / r, (alpha + beta + 2.0) / 2.0 / r]
  }

  /** h1 = 2i + alpha + beta. */
  function H1(alpha: real, beta: real, i: nat): real {
    2.0 * i as real + alpha + beta
  }

  /** a b c d / e / f, the shape of the radicand of a_new. */
  function Quotient(a: real, b: real, c: real, d: real, e: real, f: real): real
    requires e != 0.0 && f != 0.0
  {
    a * b * c * d / e / f
  }

  /** The radicand of a_new at step i: with n = i + 1,
      n (n + alpha + beta) (n + alpha) (n + beta) / (h1 + 1) / (h1 + 3). */
  function ARadicand(alpha: real, beta: real, i: nat): real
    requires Admissible(alpha, beta)
  {
    Quotient(i as real + 1.0, i as real + 1.0 + alpha + beta, i as real + 1.0 + alpha, i as real + 1.0 + beta,
             H1(alpha, beta, i) + 1.0, H1(alpha, beta, i) + 3.0)
  }

  lemma ARadicandPositive(alpha: real, beta: real, i: nat)
    requires Admissible(alpha, beta) && i >= 1
    ensures ARadicand(alpha, beta, i) > 0.0
  {
    QuotientPositive(i as real + 1.0, i as real + 1.0 + alpha + beta, i as real + 1.0 + alpha, i as real + 1.0 + beta,
                     H1(alpha, beta, i) + 1.0, H1(alpha, beta, i) + 3.0);
  }

  lemma QuotientPositive(a: real, b: real, c: real, d: real, e: real, f: real)
    requires a > 0.0 && b > 0.0 && c > 0.0 && d > 0.0 && e > 0.0 && f > 0.0
    ensures Quotient(a, b, c, d, e, f) > 0.0
  {
    PosMul(a, b);
    PosMul(a * b, c);
    PosMul(a * b * c, d);
    PosDiv(a * b * c * d, e);
    PosDiv(a * b * c * d / e, f);
  }

  /** a_new at step i (a_i of the recurrence). */
  function ANew(sp: Special, alpha: real, beta: real, i: nat): (a: real)
    requires sp.Valid() && Admissible(alpha, beta) && i >= 1
    ensures a > 0.0
  {
    ARadicandPositive(alpha, beta, i);
    var r := sp.sqrt(ARadicand(alpha, beta, i));
    PosDiv(2.0, H1(alpha, beta, i) + 2.0);
    PosMul(2.0 / (H1(alpha, beta, i) + 2.0), r);
    2.0 / (H1(alpha, beta, i) + 2.0) * r
  }

  /** The a_old value before the loop ("repeat value in recurrence"). */
  function AInit(sp: Special, alpha: real, beta: real): (a: real)
    requires sp.Valid() && Admissible(alpha, beta)
    ensures a > 0.0
  {
    var r := sp.sqrt(FirstRatio(alpha, beta));
    PosDiv(2.0, 2.0 + alpha + beta);
    PosMul(2.0 / (2.0 + alpha + beta), r);
    2.0 / (2.0 + alpha + beta) * r
  }

  /** The coefficient a_i of the recurrence: the value set before the loop
      for i = 0, the a_new of step i after it. Step i uses a_(i-1) as a_old. */
  function A(sp: Special, alpha: real, beta: real, i: nat): (a: real)
    requires sp.Valid() && Admissible(alpha, beta)
    ensures a > 0.0
  {
    if i == 0 then AInit(sp, alpha, beta) else ANew(sp, alpha, beta, i)
  }

  /** The value before the loop is the a_new formula at i = 0: the
      recurrence's coefficients follow one formula from the start. */
  lemma AInitIsRecurrenceAtZero(sp: Special, alpha: real, beta: real)
    requires sp.Valid() && Admissible(alpha, beta)
    ensures AInit(sp, alpha, beta) ==
            2.0 / (H1(alpha, beta, 0) + 2.0) * sp.sqrt(ARadicand(alpha, beta, 0))
  {
    RadicandAtZero(alpha, beta);
  }

  lemma RadicandAtZero(alpha: real, beta: real)
    requires Admissible(alpha, beta)
    ensures H1(alpha, beta, 0) == alpha + beta
    ensures ARadicand(alpha, beta, 0) == FirstRatio(alpha, beta)
  {
    var f, a, b := 1.0 + alpha + beta, 1.0 + alpha, 1.0 + beta;
    var d := H1(alpha, beta, 0) + 3.0;
    assert ARadicand(alpha, beta, 0) == Quotient(1.0, f, a, b, f, d);
    CancelFactor(f, a, b, d);
  }

  /** 1 f a b / f / d = a b / d for f, d nonzero. */
  lemma CancelFactor(f: real, a: real, b: real, d: real)
    requires f != 0.0 && d != 0.0
    ensures Quotient(1.0, f, a, b, f, d) == a * b / d
  {
  }

  /** b_new at step i, for a given numerator; alpha^2 - beta^2 is meant. */
  function BNew(alpha: real, beta: real, i: nat, numerator: real): real
    requires Admissible(alpha, beta) && i >= 1
  {
    var h1 := H1(alpha, beta, i);
    -numerator / h1 / (h1 + 2.0)
  }

  /** The coefficient of x^k in (-a_old P_{i-1} + (x - b_new) P_i) / a_new. */
  function StepCoeff(prev2: Poly, prev1: Poly, aOld: real, aNew: real, bNew: real, k: nat): real
    requires aNew != 0.0
  {
    1.0 / aNew * (-aOld * Coeff(prev2, k) + ((if k == 0 then 0.0 else Coeff(prev1, k - 1)) + -bNew * Coeff(prev1, k)))
  }

  /** The coefficients of a recurrence step from x^k up. */
  function StepFrom(prev2: Poly, prev1: Poly, aOld: real, aNew: real, bNew: real, k: nat): (r: Poly)
    requires aNew != 0.0
    ensures |r| == if k <= Max(|prev2|, |prev1| + 1) then Max(|prev2|, |prev1| + 1) - k else 0
    decreases Max(|prev2|, |prev1| + 1) - k
  {
    if k >= Max(|prev2|, |prev1| + 1) then []
    else [StepCoeff(prev2, prev1, aOld, aNew, bNew, k)] + StepFrom(prev2, prev1, aOld, aNew, bNew, k + 1)
  }

  /** One recurrence step, (-a_old P_{i-1} + (x - b_new) P_i) / a_new,
      coefficient by coefficient; StepFormula shows it is that polynomial. */
  function Step(prev2: Poly, prev1: Poly, aOld: real, aNew: real, bNew: real): Poly
    requires aNew != 0.0
  {
    StepFrom(prev2, prev1, aOld, aNew, bNew, 0)
  }

  lemma {:induction false} StepFromAt(prev2: Poly, prev1: Poly, aOld: real, aNew: real, bNew: real, k: nat, j: nat)
    requires aNew != 0.0 && k <= j < Max(|prev2|, |prev1| + 1)
    ensures StepFrom(prev2, prev1, aOld, aNew, bNew, k)[j - k] == StepCoeff(prev2, prev1, aOld, aNew, bNew, j)
    decreases j - k
  {
    if k < j {
      StepFromAt(prev2, prev1, aOld, aNew, bNew, k + 1, j);
    }
  }

  /** A step has degree one more than P_i (or that of P_{i-1}), and its
      coefficients are StepCoeff, zero beyond its length. */
  lemma StepAt(prev2: Poly, prev1: Poly, aOld: real, aNew: real, bNew: real, k: nat)
    requires aNew != 0.0
    ensures |Step(prev2, prev1, aOld, aNew, bNew)| == Max(|prev2|, |prev1| + 1)
    ensures Coeff(Step(prev2, prev1, aOld, aNew, bNew), k) == StepCoeff(prev2, prev1, aOld, aNew, bNew, k)
  {
    if k < Max(|prev2|, |prev1| + 1) {
      StepFromAt(prev2, prev1, aOld, aNew, bNew, 0, k);
    } else {
      ZeroStep(1.0 / aNew, aOld, Coeff(prev2, k), if k == 0 then 0.0 else Coeff(prev1, k - 1), bNew, Coeff(prev1, k));
    }
  }

  lemma ZeroStep(s: real, aOld: real, x: real, m: real, bNew: real, y: real)
    requires x == 0.0 && m == 0.0 && (bNew == 0.0 || y == 0.0)
    ensures s * (-aOld * x + (m + -bNew * y)) == 0.0
  {
  }

  /** The step is the polynomial expression 1/a_new (-a_old P_{i-1} + (x - b_new) P_i). */
  lemma StepFormula(prev2: Poly, prev1: Poly, aOld: real, aNew: real, bNew: real)
    requires aNew != 0.0
    ensures Step(prev2, prev1, aOld, aNew, bNew) ==
            PScale(1.0 / aNew, PAdd(PScale(-aOld, prev2), PAdd(PMulX(prev1), PScale(-bNew, prev1))))
  {
    var r := Step(prev2, prev1, aOld, aNew, bNew);
    var e := PScale(1.0 / aNew, PAdd(PScale(-aOld, prev2), PAdd(PMulX(prev1), PScale(-bNew, prev1))));
    forall k: nat
      ensures Coeff(r, k) == Coeff(e, k)
    {
      StepAt(prev2, prev1, aOld, aNew, bNew, k);
      ExpressionCoeff(prev2, prev1, aOld, aNew, bNew, k);
    }
    StepAt(prev2, prev1, aOld, aNew, bNew, 0);
    CoeffExt(r, e);
  }

  lemma ExpressionCoeff(prev2: Poly, prev1: Poly, aOld: real, aNew: real, bNew: real, k: nat)
    requires aNew != 0.0
    ensures Coeff(PScale(1.0 / aNew, PAdd(PScale(-aOld, prev2), PAdd(PMulX(prev1), PScale(-bNew, prev1)))), k) ==
            StepCoeff(prev2, prev1, aOld, aNew, bNew, k)
  {
    var a, m, b := PScale(-aOld, prev2), PMulX(prev1), PScale(-bNew, prev1);
    var x := PAdd(a, PAdd(m, b));
    CoeffScale(-aOld, prev2, k);
    CoeffScale(-bNew, prev1, k);
    CoeffMulX(prev1, k);
    CoeffAdd(m, b, k);
    CoeffAdd(a, PAdd(m, b), k);
    assert Coeff(x, k) == -aOld * Coeff(prev2, k) + ((if k == 0 then 0.0 else Coeff(prev1, k - 1)) + -bNew * Coeff(prev1, k));
    CoeffScale(1.0 / aNew, x, k);
  }

  /** A three-term recurrence: its first two polynomials and its
      coefficients; step i (building P_(i+1)) uses a(i-1) as a_old, a(i) as
      a_new and b(i) as b_new. */
  datatype Recurrence = Recurrence(p0: Poly, p1: Poly, a: nat -> real, b: nat -> real)
  {
    /** P_0 and P_1 of degrees 0 and 1 with positive leading coefficients,
        and every a positive. */
    ghost predicate Valid() {
      |p0| == 1 && p0[0] > 0.0 && |p1| == 2 && p1[1] > 0.0 && forall i: nat :: a(i) > 0.0
    }
  }

  /** P_k of a recurrence: P_0, P_1, then step k - 1 from P_(k-2) and
      P_(k-1). P_k has degree exactly k, with a positive leading
      coefficient, whatever the b coefficients are. */
  function Term(rc: Recurrence, k: nat): (p: Poly)
    requires rc.Valid()
    ensures |p| == k + 1 && p[k] > 0.0
  {
    if k == 0 then rc.p0
    else if k == 1 then rc.p1
    else
      var prev2, prev1 := Term(rc, k - 2), Term(rc, k - 1);
      StepDegree(prev2, prev1, rc.a(k - 2), rc.a(k - 1), rc.b(k - 1), k);
      Step(prev2, prev1, rc.a(k - 2), rc.a(k - 1), rc.b(k - 1))
  }

  /** Step i of the recurrence builds P_(i+1) from P_(i-1) and P_i: Term's
      definition re-indexed to the source's loop variable i. */
  lemma TermNext(rc: Recurrence, i: nat)
    requires rc.Valid() && i >= 1
    ensures Term(rc, i + 1) == Step(Term(rc, i - 1), Term(rc, i), rc.a(i - 1), rc.a(i), rc.b(i))
  {
  }

  /** Appending P_(i+1) to the list P_0 .. P_i gives the list P_0 .. P_(i+1). */
  lemma ExtendTerms(rc: Recurrence, polys: seq<Poly>, i: nat, next: Poly)
    requires rc.Valid() && |polys| == i + 1 && next == Term(rc, i + 1)
    requires forall k | 0 <= k <= i :: polys[k] == Term(rc, k)
    ensures forall k | 0 <= k <= i + 1 :: (polys + [next])[k] == Term(rc, k)
  {
  }

  /** Runs the three-term recurrence up to P_n, keeping the list of every
      P_k as it goes. */
  method RunRecurrence(rc: Recurrence, n: nat) returns (p: Poly)
    requires rc.Valid()
    ensures p == Term(rc, n)
  {
    var polys: seq<Poly> := [rc.p0];
    if n == 0 {
      return polys[|polys| - 1];
    }
    polys := polys + [rc.p1];
    if n == 1 {
      return polys[|polys| - 1];
    }
    for i := 1 to n
      invariant |polys| == i + 1
      invariant forall k | 0 <= k <= i :: polys[k] == Term(rc, k)
    {
      var prev2, prev1 := polys[|polys| - 2], polys[|polys| - 1];
      var aOld, aNew, bNew := rc.a(i - 1), rc.a(i), rc.b(i);
      assert prev2 == Term(rc, i - 1) && prev1 == Term(rc, i);
      var next := Step(prev2, prev1, aOld, aNew, bNew);
      TermNext(rc, i);
      ExtendTerms(rc, polys, i, next);
      polys := polys + [next];
    }
    return polys[|polys| - 1];
  }

  /** The recurrence jacobi_polynomial runs for alpha, beta, with the given
      b_new numerator. */
  function JacobiRecurrence(sp: Special, alpha: real, beta: real, numerator: real): (rc: Recurrence)
    requires sp.Valid() && Admissible(alpha, beta)
    ensures rc.Valid()
  {
    Recurrence(P0(sp, alpha, beta), P1(sp, alpha, beta),
               (i: nat) => A(sp, alpha, beta, i),
               (i: nat) => if i == 0 then 0.0 else BNew(alpha, beta, i, numerator))
  }

  /** The b_new numerator as intended: alpha^2 - beta^2. */
  function BNewNumerator(alpha: real, beta: real): real {
    alpha * alpha - beta * beta
  }

  /** The orthonormal Jacobi polynomial P_n^(alpha, beta). */
  function Jacobi(sp: Special, alpha: real, beta: real, n: nat): Poly
    requires sp.Valid() && Admissible(alpha, beta)
  {
    Term(JacobiRecurrence(sp, alpha, beta, BNewNumerator(alpha, beta)), n)
  }

  /** A step from degrees k-2 and k-1 gives degree k, its leading
      coefficient that of P_(k-1) over a_new. */
  lemma StepDegree(prev2: Poly, prev1: Poly, aOld: real, aNew: real, bNew: real, k: nat)
    requires aNew > 0.0 && k >= 2 && |prev2| == k - 1 && |prev1| == k && prev1[k - 1] > 0.0
    ensures |Step(prev2, prev1, aOld, aNew, bNew)| == k + 1
    ensures Step(prev2, prev1, aOld, aNew, bNew)[k] > 0.0
  {
    StepAt(prev2, prev1, aOld, aNew, bNew, k);
    PosDiv(1.0, aNew);
    LeadingStep(1.0 / aNew, aOld, Coeff(prev2, k), Coeff(prev1, k - 1), bNew, Coeff(prev1, k));
  }

  lemma LeadingStep(s: real, aOld: real, x: real, m: real, bNew: real, y: real)
    requires s > 0.0 && m > 0.0 && x == 0.0 && y == 0.0
    ensures s * (-aOld * x + (m + -bNew * y)) > 0.0
  {
    PosMul(s, m);
  }

  /** p has only powers of x of the same parity as d. */
  ghost predicate HasParity(p: Poly, d: nat) {
    forall k: nat | (k + d) % 2 == 1 :: Coeff(p, k) == 0.0
  }

  /** With P_1 odd and every b zero, P_k is even or odd as k is:
      P_k(-x) = (-1)^k P_k(x). */
  lemma {:induction false} TermParity(rc: Recurrence, k: nat)
    requires rc.Valid() && rc.p1[0] == 0.0 && forall i: nat :: rc.b(i) == 0.0
    ensures HasParity(Term(rc, k), k)
  {
    if k == 0 {
      forall j: nat | (j + 0) % 2 == 1
        ensures Coeff(rc.p0, j) == 0.0
      {
      }
    } else if k == 1 {
      forall j: nat | (j + 1) % 2 == 1
        ensures Coeff(rc.p1, j) == 0.0
      {
        assert j == 0 || j >= 2;
      }
    } else {
      TermParity(rc, k - 2);
      TermParity(rc, k - 1);
      assert rc.b(k - 1) == 0.0;
      StepParity(Term(rc, k - 2), Term(rc, k - 1), rc.a(k - 2), rc.a(k - 1), k - 1);
    }
  }

  /** A step with b_new = 0 from P_{i-1} and P_i of parities i-1 and i
      gives parity i+1. */
  lemma StepParity(prev2: Poly, prev1: Poly, aOld: real, aNew: real, i: nat)
    requires aNew != 0.0 && i >= 1 && HasParity(prev2, i - 1) && HasParity(prev1, i)
    ensures HasParity(Step(prev2, prev1, aOld, aNew, 0.0), i + 1)
  {
    var r := Step(prev2, prev1, aOld, aNew, 0.0);
    forall k: nat | (k + i + 1) % 2 == 1
      ensures Coeff(r, k) == 0.0
    {
      assert (k + (i - 1)) % 2 == 1;
      StepAt(prev2, prev1, aOld, aNew, 0.0, k);
      if k > 0 {
        assert (k - 1 + i) % 2 == 1;
      }
      ZeroStep(1.0 / aNew, aOld, Coeff(prev2, k), if k == 0 then 0.0 else Coeff(prev1, k - 1), 0.0, Coeff(prev1, k));
    }
  }

  /** For alpha = beta the intended b_new vanishes, and P_k is even or odd
      as k is. */
  lemma SymmetricJacobiParity(sp: Special, alpha: real, k: nat)
    requires sp.Valid() && Admissible(alpha, alpha)
    ensures HasParity(Jacobi(sp, alpha, alpha, k), k)
  {
    var rc := JacobiRecurrence(sp, alpha, alpha, BNewNumerator(alpha, alpha));
    forall i: nat
      ensures rc.b(i) == 0.0
    {
      if i > 0 {
        assert BNewNumerator(alpha, alpha) == 0.0;
      }
    }
    TermParity(rc, k);
  }

  /** Bitwise exclusive or on Python's unbounded two's-complement integers. */
  function Xor(a: int, b: int): int
    decreases (if a < 0 then -a - 1 else a) + (if b < 0 then -b - 1 else b)
  {
    if (a == 0 || a == -1) && (b == 0 || b == -1) then
      (if a == b then 0 else -1)
    else
      (if a % 2 == b % 2 then 0 else 1) + 2 * Xor(a / 2, b / 2)
  }

  /** The b_new numerator as written: `alpha^2-beta^2` parses as
      alpha ^ (2 - beta) ^ 2 with ^ the exclusive or, defined for integers. */
  function BNewNumeratorAsWritten(alpha: int, beta: int): int {
    Xor(Xor(alpha, 2 - beta), 2)
  }

  /** The two numerators agree on alpha = beta = 0, so the Legendre
      polynomials are unaffected... */
  lemma NumeratorsAgreeForLegendre()
    ensures BNewNumeratorAsWritten(0, 0) as real == BNewNumerator(0.0, 0.0)
  {
    assert Xor(0, 2) == 2 by {
      assert Xor(0, 1) == 1;
    }
    assert Xor(2, 2) == 0 by {
      assert Xor(1, 1) == 0;
    }
  }

  /** ...but not on alpha = beta = 1, where the written numerator is 2 and
      the degree-2 polynomial gets an x term although it must be even. */
  lemma BNewAsWrittenBreaksSymmetry(sp: Special)
    requires sp.Valid()
    ensures BNewNumeratorAsWritten(1, 1) == 2 && BNewNumerator(1.0, 1.0) == 0.0
    ensures Coeff(Term(JacobiRecurrence(sp, 1.0, 1.0, BNewNumeratorAsWritten(1, 1) as real), 2), 1) != 0.0
    ensures Coeff(Jacobi(sp, 1.0, 1.0, 2), 1) == 0.0
  {
    assert Xor(1, 1) == 0;
    assert Xor(0, 2) == 2 by {
      assert Xor(0, 1) == 1;
    }
    var rc := JacobiRecurrence(sp, 1.0, 1.0, 2.0);
    var bNew := rc.b(1);
    assert H1(1.0, 1.0, 1) == 4.0;
    assert bNew == -2.0 / 4.0 / 6.0;
    var p0, p1, aOld, aNew := rc.p0, rc.p1, rc.a(0), rc.a(1);
    assert Term(rc, 2) == Step(p0, p1, aOld, aNew, bNew);
    StepAt(p0, p1, aOld, aNew, bNew, 1);
    PosDiv(1.0, aNew);
    WrittenStepCoeff(1.0 / aNew, aOld, Coeff(p0, 1), Coeff(p1, 0), bNew, Coeff(p1, 1));
    SymmetricJacobiParity(sp, 1.0, 2);
    assert (1 + 2) % 2 == 1;
  }

  lemma WrittenStepCoeff(s: real, aOld: real, x: real, m: real, bNew: real, y: real)
    requires s > 0.0 && x == 0.0 && m == 0.0 && y > 0.0 && bNew == -2.0 / 4.0 / 6.0
    ensures s * (-aOld * x + (m + -bNew * y)) > 0.0
  {
    PosMul(-bNew, y);
    PosMul(s, -bNew * y);
  }

  /** jacobi_polynomial: builds P_0, P_1 and the recurrence in a list and
      returns its last entry. */
  method JacobiPolynomial(sp: Special, alpha: real, beta: real, n: nat) returns (p: Poly)
    requires sp.Valid() && Admissible(alpha, beta)
    ensures p == Jacobi(sp, alpha, beta, n)
  {
    var rc := JacobiRecurrence(sp, alpha, beta, BNewNumerator(alpha, beta));
    p := RunRecurrence(rc, n);
  }

  /** jacobi_function: P_n compiled to a function of x. */
  function JacobiFunction(sp: Special, alpha: real, beta: real, n: nat): real -> real
    requires sp.Valid() && Admissible(alpha, beta)
  {
    var p := Jacobi(sp, alpha, beta, n);
    x => Eval(p, x)
  }

  /** diff_jacobi_polynomial: differentiates P_n `derivative` times. */
  method DiffJacobiPolynomial(sp: Special, alpha: real, beta: real, n: nat, derivative: nat) returns (p: Poly)
    requires sp.Valid() && Admissible(alpha, beta)
    ensures p == IterDerivative(Jacobi(sp, alpha, beta, n), derivative)
    ensures |p| == if derivative <= n + 1 then n + 1 - derivative else 0
  {
    p := JacobiPolynomial(sp, alpha, beta, n);
    for i := 0 to derivative
      invariant p == IterDerivative(Jacobi(sp, alpha, beta, n), i)
    {
      p := Derivative(p);
    }
    IterDerivativeLength(Jacobi(sp, alpha, beta, n), derivative);
  }

  /** diff_jacobi_function: the derivative of P_n compiled to a function of x. */
  function DiffJacobiFunction(sp: Special, alpha: real, beta: real, n: nat, derivative: nat): real -> real
    requires sp.Valid() && Admissible(alpha, beta)
  {
    var p := IterDerivative(Jacobi(sp, alpha, beta, n), derivative);
    x => Eval(p, x)
  }

  /** legendre_polynomial: the Jacobi polynomial with alpha = beta = 0, of
      degree n and as even or odd as n. */
  function LegendrePolynomial(sp: Special, n: nat): (p: Poly)
    requires sp.Valid()
    ensures |p| == n + 1 && p[n] > 0.0
    ensures HasParity(p, n)
  {
    SymmetricJacobiParity(sp, 0.0, n);
    Jacobi(sp, 0.0, 0.0, n)
  }

  /** diff_legendre_polynomial: the Jacobi derivative with alpha = beta = 0;
      of degree n - derivative, and zero once derivative exceeds n. */
  function DiffLegendrePolynomial(sp: Special, n: nat, derivative: nat): (p: Poly)
    requires sp.Valid()
    ensures |p| == if derivative <= n + 1 then n + 1 - derivative else 0
  {
    IterDerivativeLength(LegendrePolynomial(sp, n), derivative);
    IterDerivative(Jacobi(sp, 0.0, 0.0, n), derivative)
  }

  /** legendre_function: P_n compiled to a function of x. */
  function LegendreFunction(sp: Special, n: nat): real -> real
    requires sp.Valid()
  {
    var p := LegendrePolynomial(sp, n);
    x => Eval(p, x)
  }

  /** diff_legendre_function as written: the `derivative` argument is not
      passed on, so the first derivative is compiled whatever it says. */
  function DiffLegendreFunctionAsWritten(sp: Special, n: nat, derivative: nat): real -> real
    requires sp.Valid()
  {
    var p := DiffLegendrePolynomial(sp, n, 1);
    x => Eval(p, x)
  }

  /** diff_legendre_function as intended: the derivative of the order asked. */
  function DiffLegendreFunction(sp: Special, n: nat, derivative: nat): real -> real
    requires sp.Valid()
  {
    var p := DiffLegendrePolynomial(sp, n, derivative);
    x => Eval(p, x)
  }

  /** The second derivative of P_1 is zero, yet the function as written
      returns the (nonzero, constant) first derivative. */
  lemma DiffLegendreFunctionIgnoresDerivative(sp: Special, x: real)
    requires sp.Valid()
    ensures DiffLegendreFunctionAsWritten(sp, 1, 2)(x) != 0.0
    ensures DiffLegendreFunction(sp, 1, 2)(x) == 0.0
  {
    var p1 := LegendrePolynomial(sp, 1);
    assert IterDerivative(p1, 1) == Derivative(IterDerivative(p1, 0));
    var d := DiffLegendrePolynomial(sp, 1, 1);
    assert d == Derivative(p1);
    assert |d| == 1;
    assert d[0] == Coeff(d, 0) == 1.0 * Coeff(p1, 1);
    assert d[1..] == [];
    assert Eval(d, x) == d[0] + x * Eval(d[1..], x);
    assert DiffLegendreFunctionAsWritten(sp, 1, 2)(x) == Eval(d, x);
    assert |DiffLegendrePolynomial(sp, 1, 2)| == 0;
  }

  /** The corrected function evaluates the derivative of the asked order of
      the Legendre polynomial; this unfolds its definition, and
      DiffLegendreFunctionVanishesAboveDegree is what sets it apart from the
      as-written one. */
  lemma DiffLegendreFunctionEvaluates(sp: Special, n: nat, derivative: nat, x: real)
    requires sp.Valid()
    ensures DiffLegendreFunction(sp, n, derivative)(x) ==
            Eval(IterDerivative(LegendrePolynomial(sp, n), derivative), x)
  {
  }

  /** The corrected function of derivative order above n is the zero function. */
  lemma DiffLegendreFunctionVanishesAboveDegree(sp: Special, n: nat, derivative: nat, x: real)
    requires sp.Valid() && derivative > n
    ensures DiffLegendreFunction(sp, n, derivative)(x) == 0.0
  {
    assert |DiffLegendrePolynomial(sp, n, derivative)| == 0;
  }

  /** A polynomial of parity d is even (d even) or odd (d odd) as a function. */
  lemma {:induction false} EvalParity(p: Poly, d: nat, x: real)
    requires HasParity(p, d)
    ensures Eval(p, -x) == if d % 2 == 0 then Eval(p, x) else -Eval(p, x)
  {
    if |p| > 0 {
      var tail := p[1..];
      forall k: nat | (k + (d + 1)) % 2 == 1
        ensures Coeff(tail, k) == 0.0
      {
        assert Coeff(tail, k) == Coeff(p, k + 1);
      }
      EvalParity(tail, d + 1, x);
      if d % 2 == 1 {
        assert Coeff(p, 0) == 0.0;
      }
    }
  }

  /** For alpha = beta, P_n(-x) = (-1)^n P_n(x); in particular the Legendre
      functions are even or odd as their degree. */
  lemma SymmetricJacobiFunction(sp: Special, alpha: real, n: nat, x: real)
    requires sp.Valid() && Admissible(alpha, alpha)
    ensures JacobiFunction(sp, alpha, alpha, n)(-x) ==
            if n % 2 == 0 then JacobiFunction(sp, alpha, alpha, n)(x) else -JacobiFunction(sp, alpha, alpha, n)(x)
  {
    SymmetricJacobiParity(sp, alpha, n);
    EvalParity(Jacobi(sp, alpha, alpha, n), n, x);
  }

  lemma LegendreFunctionSymmetry(sp: Special, n: nat, x: real)
    requires sp.Valid()
    ensures LegendreFunction(sp, n)(-x) == if n % 2 == 0 then LegendreFunction(sp, n)(x) else -LegendreFunction(sp, n)(x)
  {
    SymmetricJacobiFunction(sp, 0.0, n, x);
  }

  /** generic_vandermonde: the matrix of functions[j](points[i]), filled
      row by row into a zero matrix. */
  method GenericVandermonde(points: seq<real>, functions: seq<real -> real>) returns (v: array2<real>)
    ensures fresh(v)
    ensures v.Length0 == |points| && v.Length1 == |functions|
    ensures forall i, j | 0 <= i < |points| && 0 <= j < |functions| :: v[i, j] == functions[j](points[i])
  {
    v := new real[|points|, |functions|]((i, j) => 0.0);
    for i := 0 to |points|
      invariant forall i', j | 0 <= i' < i && 0 <= j < |functions| :: v[i', j] == functions[j](points[i'])
    {
      for j := 0 to |functions|
        invariant forall i', j' | 0 <= i' < i && 0 <= j' < |functions| :: v[i', j'] == functions[j'](points[i'])
        invariant forall j' | 0 <= j' < j :: v[i, j'] == functions[j'](points[i])
      {
        v[i, j] := functions[j](points[i]);
      }
    }
  }

  /** legendre_vandermonde: one column per Legendre function of degree
      0..n, so n + 1 columns. */
  method LegendreVandermonde(sp: Special, points: seq<real>, n: nat) returns (v: array2<real>)
    requires sp.Valid()
    ensures fresh(v)
    ensures v.Length0 == |points| && v.Length1 == n + 1
    ensures forall i, j | 0 <= i < |points| && 0 <= j <= n :: v[i, j] == Eval(LegendrePolynomial(sp, j), points[i])
  {
    var functions := seq(n + 1, j requires 0 <= j => LegendreFunction(sp, j));
    v := GenericVandermonde(points, functions);
  }
}
