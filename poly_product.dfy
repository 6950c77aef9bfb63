/**
 * PolyMul: zero if either factor is zero, scalar multiplication when one
 * side is a scalar, and otherwise the canonical form of the cross product
 * of the monomials, `(e1 + e2, p1 * p2)` for every pair, row by row.
 */
module PolyProduct {
  import opened PolyBase
  import opened PolyScale
  import opened PolySum
  import opened PolyIdentity
  import opened PolyCanon

  /** PolyMul. Its result is canonical, which the cross products of the coefficients rely on. */
  function Mul(p: Poly, q: Poly): (r: Poly)
    requires Canonical(p) && Canonical(q)
    ensures Canonical(r)
    decreases p, q, 1
  {
    if p == Zero() || q == Zero() then Zero()
    else if p.Coeff? && q.Coeff? then Coeff(p.c * q.c)
    else if q.Coeff? then ScaleCanonical(p, q.c); Scale(p, q.c)
    else if p.Coeff? then ScaleCanonical(q, p.c); Scale(q, p.c)
    else
      var cross := Cross(p, q, |p.ms|);
      CanonCorrect(cross, []);
      Canon(cross)
  }

  /** The products of the first `n` monomials of `p` with every monomial of `q`, in loop order. */
  function Cross(p: Poly, q: Poly, n: nat): (r: seq<Mono>)
    requires Canonical(p) && Canonical(q) && p.Terms? && q.Terms?
    requires n <= |p.ms|
    ensures ValidMonos(r) && |r| == n * |q.ms|
    decreases p, q, 0, n + 2
  {
    if n == 0 then []
    else
      var r := Cross(p, q, n - 1) + Row(p, q, n - 1);
      assert |r| == (n - 1) * |q.ms| + |q.ms| == n * |q.ms|;
      r
  }

  /** The products of monomial `i` of `p` with every monomial of `q`. */
  function Row(p: Poly, q: Poly, i: nat): (r: seq<Mono>)
    requires Canonical(p) && Canonical(q) && p.Terms? && q.Terms?
    requires i < |p.ms|
    ensures |r| == |q.ms|
    ensures forall j :: 0 <= j < |q.ms| ==> r[j] == Product(p, q, i, j)
    ensures ValidMonos(r)
    decreases p, q, 0, 1
  {
    seq(|q.ms|, j requires 0 <= j < |q.ms| => Product(p, q, i, j))
  }

  /** `p_i x^(e_i) * q_j x^(f_j) = (p_i * q_j) x^(e_i + f_j)`. */
  function Product(p: Poly, q: Poly, i: nat, j: nat): (r: Mono)
    requires Canonical(p) && Canonical(q) && p.Terms? && q.Terms?
    requires i < |p.ms| && j < |q.ms|
    ensures r.exp >= 0 && Canonical(r.p)
    decreases p, q, 0, 0
  {
    CoefficientCanonical(p, i);
    CoefficientCanonical(q, j);
    Mono(p.ms[i].exp + q.ms[j].exp, Mul(p.ms[i].p, q.ms[j].p))
  }

  // ---------------------------------------------------------------------
  // Meaning.
  // ---------------------------------------------------------------------

  /** PolyMul multiplies values at every point. */
  lemma {:induction false} EvalMul(p: Poly, q: Poly, xs: seq<int>)
    requires Canonical(p) && Canonical(q)
    ensures Eval(Mul(p, q), xs) == Eval(p, xs) * Eval(q, xs)
    decreases p, q, 1
  {
    if p == Zero() || q == Zero() {
    } else if p.Coeff? && q.Coeff? {
    } else if q.Coeff? {
      EvalScale(p, q.c, xs);
    } else if p.Coeff? {
      EvalScale(q, p.c, xs);
    } else {
      var cross := Cross(p, q, |p.ms|);
      CanonCorrect(cross, xs);
      EvalCross(p, q, |p.ms|, xs);
      assert p.ms[..|p.ms|] == p.ms;
    }
  }

  lemma {:induction false} EvalCross(p: Poly, q: Poly, n: nat, xs: seq<int>)
    requires Canonical(p) && Canonical(q) && p.Terms? && q.Terms?
    requires n <= |p.ms|
    ensures Eval(Terms(Cross(p, q, n)), xs) == Eval(Terms(p.ms[..n]), xs) * Eval(q, xs)
    decreases p, q, 0, n + 2
  {
    if n == 0 {
      EvalTermsNil(xs);
    } else {
      EvalCross(p, q, n - 1, xs);
      EvalRow(p, q, n - 1, xs);
      EvalTermsAppend(Cross(p, q, n - 1), Row(p, q, n - 1), xs);
      assert p.ms[..n] == p.ms[..n - 1] + [p.ms[n - 1]];
      EvalTermsSnoc(p.ms[..n - 1], p.ms[n - 1], xs);
      Distribute(Eval(Terms(p.ms[..n - 1]), xs), MonoValue(p.ms[n - 1], xs), Eval(q, xs));
    }
  }

  lemma {:induction false} EvalRow(p: Poly, q: Poly, i: nat, xs: seq<int>)
    requires Canonical(p) && Canonical(q) && p.Terms? && q.Terms?
    requires i < |p.ms|
    ensures Eval(Terms(Row(p, q, i)), xs) == MonoValue(p.ms[i], xs) * Eval(q, xs)
    decreases p, q, 0, 1
  {
    var row := Row(p, q, i);
    var a := MonoValue(p.ms[i], xs);
    forall j | 0 <= j < |q.ms|
      ensures MonoValues(row, xs)[j] == a * MonoValues(q.ms, xs)[j]
    {
      EvalProduct(p, q, i, j, xs);
    }
    SumScaled(MonoValues(row, xs), MonoValues(q.ms, xs), a);
  }

  lemma {:induction false} EvalProduct(p: Poly, q: Poly, i: nat, j: nat, xs: seq<int>)
    requires Canonical(p) && Canonical(q) && p.Terms? && q.Terms?
    requires i < |p.ms| && j < |q.ms|
    ensures MonoValue(Product(p, q, i, j), xs) == MonoValue(p.ms[i], xs) * MonoValue(q.ms[j], xs)
    decreases p, q, 0, 0
  {
    CoefficientCanonical(p, i);
    CoefficientCanonical(q, j);
    var m, n := p.ms[i], q.ms[j];
    EvalMul(m.p, n.p, Tail(xs));
    PowAdd(Head(xs), m.exp, n.exp);
    Rearrange(Eval(m.p, Tail(xs)), Eval(n.p, Tail(xs)), Pow(Head(xs), m.exp), Pow(Head(xs), n.exp));
  }

  // ---------------------------------------------------------------------
  // Algebra.
  // ---------------------------------------------------------------------

  /** PolyMul is commutative. */
  lemma MulCommutes(p: Poly, q: Poly)
    requires Canonical(p) && Canonical(q)
    ensures Mul(p, q) == Mul(q, p)
  {
    forall xs ensures Eval(Mul(p, q), xs) == Eval(Mul(q, p), xs) {
      EvalMul(p, q, xs);
      EvalMul(q, p, xs);
    }
    AgreeEverywhereEqual(Mul(p, q), Mul(q, p));
  }

  /** PolyMul is associative. */
  lemma MulAssociates(p: Poly, q: Poly, s: Poly)
    requires Canonical(p) && Canonical(q) && Canonical(s)
    ensures Mul(Mul(p, q), s) == Mul(p, Mul(q, s))
  {
    forall xs ensures Eval(Mul(Mul(p, q), s), xs) == Eval(Mul(p, Mul(q, s)), xs) {
      EvalMul(Mul(p, q), s, xs);
      EvalMul(p, q, xs);
      EvalMul(p, Mul(q, s), xs);
      EvalMul(q, s, xs);
      MulAssoc(Eval(p, xs), Eval(q, xs), Eval(s, xs));
    }
    AgreeEverywhereEqual(Mul(Mul(p, q), s), Mul(p, Mul(q, s)));
  }

  lemma MulAssoc(a: int, b: int, c: int)
    ensures (a * b) * c == a * (b * c)
  {
  }

  /** The scalar 1 is neutral. */
  lemma MulOne(p: Poly)
    requires Canonical(p)
    ensures Mul(p, Coeff(1)) == p && Mul(Coeff(1), p) == p
  {
    ScaleOne(p);
  }

  /** Zero annihilates. */
  lemma MulZero(p: Poly)
    requires Canonical(p)
    ensures Mul(p, Zero()) == Zero() && Mul(Zero(), p) == Zero()
  {
  }
}
