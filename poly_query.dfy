/**
 * The queries on a polynomial: PolyIsEq (structural equality), PolyDeg (total
 * degree) and PolyDegBy (degree in one variable), each proved against an
 * independent description: equality of values, and the exponents that occur
 * in the non-zero terms of the expanded polynomial.
 */
module PolyQuery {
  import opened PolyBase
  import opened PolyScale
  import opened PolySum
  import opened PolyIdentity

  // ---------------------------------------------------------------------
  // PolyIsEq.
  // ---------------------------------------------------------------------

  /** PolyIsEq: equal scalars, or the same number of monomials, pairwise equal. */
  predicate IsEq(p: Poly, q: Poly)
    decreases p, 1
  {
    if p.Coeff? || q.Coeff? then p.Coeff? && q.Coeff? && p.c == q.c
    else |p.ms| == |q.ms| && forall i :: 0 <= i < |p.ms| ==> MonoIsEq(p.ms[i], q.ms[i])
  }

  /** MonoIsEq: the same exponent and equal coefficients. */
  predicate MonoIsEq(m: Mono, n: Mono)
    decreases m, 0
  {
    m.exp == n.exp && IsEq(m.p, n.p)
  }

  /** PolyIsEq is exactly equality of the representations. */
  lemma {:induction false} IsEqIff(p: Poly, q: Poly)
    ensures IsEq(p, q) <==> p == q
    decreases p, 1
  {
    if p.Terms? && q.Terms? {
      if |p.ms| == |q.ms| {
        forall i | 0 <= i < |p.ms| ensures MonoIsEq(p.ms[i], q.ms[i]) <==> p.ms[i] == q.ms[i] {
          MonoIsEqIff(p.ms[i], q.ms[i]);
        }
        if forall i :: 0 <= i < |p.ms| ==> p.ms[i] == q.ms[i] {
          assert p.ms == q.ms;
        }
      }
    }
  }

  lemma {:induction false} MonoIsEqIff(m: Mono, n: Mono)
    ensures MonoIsEq(m, n) <==> m == n
    decreases m, 0
  {
    IsEqIff(m.p, n.p);
  }

  /** On canonical polynomials PolyIsEq holds exactly when the values agree at every point. */
  lemma IsEqSemantic(p: Poly, q: Poly)
    requires Canonical(p) && Canonical(q)
    ensures IsEq(p, q) ==> forall xs :: Eval(p, xs) == Eval(q, xs)
    ensures (forall xs :: Eval(p, xs) == Eval(q, xs)) ==> IsEq(p, q)
  {
    IsEqIff(p, q);
    if forall xs :: Eval(p, xs) == Eval(q, xs) {
      AgreeEverywhereEqual(p, q);
    }
  }

  /** A clone is equal to the original. */
  lemma CloneIsEq(p: Poly)
    requires Canonical(p)
    ensures IsEq(Clone(p), p)
  {
    ScaleOne(p);
    IsEqIff(Clone(p), p);
  }

  // ---------------------------------------------------------------------
  // The exponents that occur.
  // ---------------------------------------------------------------------

  /** The expanded polynomial has a non-zero term of total degree `d`. */
  ghost predicate HasTerm(p: Poly, d: int)
    decreases p
  {
    match p
    case Coeff(c) => c != 0 && d == 0
    case Terms(ms) => exists i :: 0 <= i < |ms| && HasTerm(ms[i].p, d - ms[i].exp)
  }

  /** The expanded polynomial has a non-zero term in which variable `v` has exponent `e`. */
  ghost predicate HasPower(p: Poly, v: nat, e: int)
    decreases p
  {
    match p
    case Coeff(c) => c != 0 && e == 0
    case Terms(ms) =>
      exists i :: 0 <= i < |ms| && (if v == 0 then ms[i].exp == e else HasPower(ms[i].p, v - 1, e))
  }

  // ---------------------------------------------------------------------
  // PolyDeg.
  // ---------------------------------------------------------------------

  /** PolyDeg: -1 for zero, 0 for other scalars, otherwise the largest `exp + PolyDeg(coeff)`. */
  function Deg(p: Poly): int
    requires Canonical(p)
    decreases p, 1
  {
    if p == Zero() then -1
    else if p.Coeff? then 0
    else DegPrefix(p, |p.ms|)
  }

  /** The running `deg_max` of PolyDeg after the first `n` monomials (it starts at 0). */
  function DegPrefix(p: Poly, n: nat): (r: int)
    requires Canonical(p) && p.Terms? && n <= |p.ms|
    ensures r >= 0
    decreases p, 0, n
  {
    if n == 0 then 0
    else
      CoefficientCanonical(p, n - 1);
      Max(DegPrefix(p, n - 1), p.ms[n - 1].exp + Deg(p.ms[n - 1].p))
  }

  /** PolyDeg is -1 exactly for the zero polynomial, and at least 0 otherwise. */
  lemma DegZeroIff(p: Poly)
    requires Canonical(p)
    ensures Deg(p) >= -1
    ensures Deg(p) == -1 <==> p == Zero()
  {
  }

  lemma {:induction false} DegPrefixBound(p: Poly, n: nat, i: nat)
    requires Canonical(p) && p.Terms? && i < n <= |p.ms|
    ensures Canonical(p.ms[i].p)
    ensures p.ms[i].exp + Deg(p.ms[i].p) <= DegPrefix(p, n)
  {
    CoefficientCanonical(p, i);
    if i < n - 1 {
      DegPrefixBound(p, n - 1, i);
    }
  }

  lemma {:induction false} DegPrefixAttained(p: Poly, n: nat) returns (i: nat)
    requires Canonical(p) && p.Terms? && 1 <= n <= |p.ms|
    ensures i < n && Canonical(p.ms[i].p)
    ensures DegPrefix(p, n) == p.ms[i].exp + Deg(p.ms[i].p)
  {
    CoefficientCanonical(p, n - 1);
    DegZeroIff(p.ms[n - 1].p);
    if n == 1 || DegPrefix(p, n - 1) < p.ms[n - 1].exp + Deg(p.ms[n - 1].p) {
      i := n - 1;
    } else {
      i := DegPrefixAttained(p, n - 1);
    }
  }

  /** Every term of the expanded polynomial has total degree at most PolyDeg. */
  lemma {:induction false} DegBound(p: Poly, d: int)
    requires Canonical(p) && HasTerm(p, d)
    ensures d <= Deg(p)
    decreases p
  {
    if p.Terms? {
      var i :| 0 <= i < |p.ms| && HasTerm(p.ms[i].p, d - p.ms[i].exp);
      DegPrefixBound(p, |p.ms|, i);
      DegBound(p.ms[i].p, d - p.ms[i].exp);
    }
  }

  /** A non-zero polynomial has a term whose total degree is PolyDeg. */
  lemma {:induction false} DegAttained(p: Poly)
    requires Canonical(p) && p != Zero()
    ensures HasTerm(p, Deg(p))
    decreases p
  {
    if p.Terms? {
      var i := DegPrefixAttained(p, |p.ms|);
      CoefficientCanonical(p, i);
      DegAttained(p.ms[i].p);
      assert HasTerm(p.ms[i].p, Deg(p) - p.ms[i].exp);
    }
  }

  // ---------------------------------------------------------------------
  // PolyDegBy.
  // ---------------------------------------------------------------------

  /** PolyDegBy: -1 for zero, 0 for other scalars, otherwise the largest exponent of variable `v`. */
  function DegBy(p: Poly, v: nat): int
    requires Canonical(p)
    decreases p, 1
  {
    if p == Zero() then -1
    else if p.Coeff? then 0
    else DegByPrefix(p, v, |p.ms|)
  }

  /** The running `result` of PolyDegBy after the first `n` monomials (it starts at -1). */
  function DegByPrefix(p: Poly, v: nat, n: nat): (r: int)
    requires Canonical(p) && p.Terms? && n <= |p.ms|
    ensures r >= -1
    decreases p, 0, n
  {
    if n == 0 then -1
    else
      CoefficientCanonical(p, n - 1);
      var m := p.ms[n - 1];
      Max(DegByPrefix(p, v, n - 1), if v == 0 then m.exp else DegBy(m.p, v - 1))
  }

  /** The degree in a variable of the monomial `i` of `p`, as PolyDegBy's loop sees it. */
  function MonoDegBy(p: Poly, v: nat, i: nat): int
    requires Canonical(p) && p.Terms? && i < |p.ms|
  {
    CoefficientCanonical(p, i);
    if v == 0 then p.ms[i].exp else DegBy(p.ms[i].p, v - 1)
  }

  lemma {:induction false} DegByPrefixBound(p: Poly, v: nat, n: nat, i: nat)
    requires Canonical(p) && p.Terms? && i < n <= |p.ms|
    ensures MonoDegBy(p, v, i) <= DegByPrefix(p, v, n)
  {
    if i < n - 1 {
      DegByPrefixBound(p, v, n - 1, i);
    }
  }

  lemma {:induction false} DegByPrefixAttained(p: Poly, v: nat, n: nat) returns (i: nat)
    requires Canonical(p) && p.Terms? && 1 <= n <= |p.ms|
    ensures i < n
    ensures DegByPrefix(p, v, n) == MonoDegBy(p, v, i)
  {
    CoefficientCanonical(p, n - 1);
    if v > 0 {
      DegByZeroIff(p.ms[n - 1].p, v - 1);
    }
    if n == 1 || DegByPrefix(p, v, n - 1) < MonoDegBy(p, v, n - 1) {
      i := n - 1;
    } else {
      i := DegByPrefixAttained(p, v, n - 1);
    }
  }

  /** PolyDegBy is -1 exactly for the zero polynomial. */
  lemma {:induction false} DegByZeroIff(p: Poly, v: nat)
    requires Canonical(p)
    ensures DegBy(p, v) >= -1
    ensures DegBy(p, v) == -1 <==> p == Zero()
    decreases p
  {
    if p.Terms? {
      DegByPrefixBound(p, v, |p.ms|, 0);
      CoefficientCanonical(p, 0);
      if v > 0 {
        DegByZeroIff(p.ms[0].p, v - 1);
      }
    }
  }

  /** Every term of the expanded polynomial has variable `v` to a power at most PolyDegBy. */
  lemma {:induction false} DegByBound(p: Poly, v: nat, e: int)
    requires Canonical(p) && HasPower(p, v, e)
    ensures e <= DegBy(p, v)
    decreases p
  {
    if p.Terms? {
      var i :| 0 <= i < |p.ms| && (if v == 0 then p.ms[i].exp == e else HasPower(p.ms[i].p, v - 1, e));
      DegByPrefixBound(p, v, |p.ms|, i);
      CoefficientCanonical(p, i);
      if v > 0 {
        DegByBound(p.ms[i].p, v - 1, e);
      }
    }
  }

  /** A non-zero polynomial has a term in which variable `v` has exactly the power PolyDegBy. */
  lemma {:induction false} DegByAttained(p: Poly, v: nat)
    requires Canonical(p) && p != Zero()
    ensures HasPower(p, v, DegBy(p, v))
    decreases p
  {
    if p.Terms? {
      var i := DegByPrefixAttained(p, v, |p.ms|);
      CoefficientCanonical(p, i);
      if v > 0 {
        DegByAttained(p.ms[i].p, v - 1);
      }
      assert if v == 0 then p.ms[i].exp == DegBy(p, v) else HasPower(p.ms[i].p, v - 1, DegBy(p, v));
    }
  }

  /** In the outermost variable the degree is the leading exponent, since the monomials are sorted. */
  lemma DegByOutermost(p: Poly)
    requires Canonical(p) && p.Terms?
    ensures DegBy(p, 0) == p.ms[0].exp
  {
    var i := DegByPrefixAttained(p, 0, |p.ms|);
    DegByPrefixBound(p, 0, |p.ms|, 0);
  }

  /** The power of a variable in a term never exceeds the term's total degree. */
  lemma {:induction false} PowerBelowDeg(p: Poly, v: nat, e: int)
    requires Canonical(p) && HasPower(p, v, e)
    ensures e <= Deg(p)
    decreases p
  {
    if p.Terms? {
      var i :| 0 <= i < |p.ms| && (if v == 0 then p.ms[i].exp == e else HasPower(p.ms[i].p, v - 1, e));
      DegPrefixBound(p, |p.ms|, i);
      DegZeroIff(p.ms[i].p);
      if v > 0 {
        PowerBelowDeg(p.ms[i].p, v - 1, e);
      }
    }
  }

  /** The degree in any one variable is at most the total degree. */
  lemma DegByAtMostDeg(p: Poly, v: nat)
    requires Canonical(p)
    ensures DegBy(p, v) <= Deg(p)
  {
    if p != Zero() {
      DegByAttained(p, v);
      PowerBelowDeg(p, v, DegBy(p, v));
    }
  }
}
