/**
 * The operations built on addition and multiplication: PolyPow (repeated
 * multiplication), PolyAt (substituting a number for the outermost
 * variable) and PolyCompose (substituting polynomials for the variables),
 * as reference values, with what they mean at every point.
 */
module PolyOps {
  import opened PolyBase
  import opened PolyScale
  import opened PolySum
  import opened PolyIdentity
  import opened PolyProduct

  predicate AllCanonical(qs: seq<Poly>) {
    forall i :: 0 <= i < |qs| ==> Canonical(qs[i])
  }

  // ---------------------------------------------------------------------
  // Sums.
  // ---------------------------------------------------------------------

  /** PolyAdd adds values at every point. */
  lemma EvalAdd(p: Poly, q: Poly, xs: seq<int>)
    requires Canonical(p) && Canonical(q)
    ensures Canonical(Add(p, q))
    ensures Eval(Add(p, q), xs) == Eval(p, xs) + Eval(q, xs)
  {
    WeightedSumCanonical(p, q, 1, 1);
    EvalWeightedSum(p, q, 1, 1, xs);
  }

  /** PolySub subtracts values at every point. */
  lemma EvalSub(p: Poly, q: Poly, xs: seq<int>)
    requires Canonical(p) && Canonical(q)
    ensures Canonical(Sub(p, q))
    ensures Eval(Sub(p, q), xs) == Eval(p, xs) - Eval(q, xs)
  {
    WeightedSumCanonical(p, q, 1, -1);
    EvalWeightedSum(p, q, 1, -1, xs);
  }

  /** PolyAdd is commutative. */
  lemma AddCommutes(p: Poly, q: Poly)
    requires Canonical(p) && Canonical(q)
    ensures Add(p, q) == Add(q, p)
  {
    EvalAdd(p, q, []);
    EvalAdd(q, p, []);
    forall xs ensures Eval(Add(p, q), xs) == Eval(Add(q, p), xs) {
      EvalAdd(p, q, xs);
      EvalAdd(q, p, xs);
    }
    AgreeEverywhereEqual(Add(p, q), Add(q, p));
  }

  /** `p - q` is `p + (-q)`, and `p - p` is zero. */
  lemma SubIsAddNeg(p: Poly, q: Poly)
    requires Canonical(p) && Canonical(q)
    ensures Canonical(Neg(q))
    ensures Sub(p, q) == Add(p, Neg(q))
    ensures Sub(p, p) == Zero()
  {
    ScaleCanonical(q, -1);
    EvalSub(p, q, []);
    EvalAdd(p, Neg(q), []);
    forall xs ensures Eval(Sub(p, q), xs) == Eval(Add(p, Neg(q)), xs) {
      EvalSub(p, q, xs);
      EvalAdd(p, Neg(q), xs);
      EvalScale(q, -1, xs);
    }
    AgreeEverywhereEqual(Sub(p, q), Add(p, Neg(q)));
    EvalSub(p, p, []);
    forall xs ensures Eval(Sub(p, p), xs) == Eval(Zero(), xs) {
      EvalSub(p, p, xs);
    }
    AgreeEverywhereEqual(Sub(p, p), Zero());
  }

  // ---------------------------------------------------------------------
  // Powers.
  // ---------------------------------------------------------------------

  /** `p^n` as repeated multiplication; PolyPow computes it by squaring. */
  function PowRef(p: Poly, n: nat): (r: Poly)
    requires Canonical(p)
    ensures Canonical(r)
  {
    if n == 0 then Coeff(1) else Mul(p, PowRef(p, n - 1))
  }

  lemma {:induction false} EvalPowRef(p: Poly, n: nat, xs: seq<int>)
    requires Canonical(p)
    ensures Eval(PowRef(p, n), xs) == Pow(Eval(p, xs), n)
  {
    if n > 0 {
      EvalPowRef(p, n - 1, xs);
      EvalMul(p, PowRef(p, n - 1), xs);
    }
  }

  /** Zero to a positive power is zero, to the power 0 it is 1. */
  lemma {:induction false} PowRefZero(n: nat)
    ensures PowRef(Zero(), n) == if n == 0 then Coeff(1) else Zero()
  {
    if n > 0 {
      PowRefZero(n - 1);
    }
  }

  /** The squaring step `mul = mul * mul; exp /= 2` of PolyPow keeps `mul^exp`. */
  lemma PowRefSquare(m: Poly, n: nat)
    requires Canonical(m) && n % 2 == 0
    ensures PowRef(Mul(m, m), n / 2) == PowRef(m, n)
  {
    EvalPowRef(Mul(m, m), n / 2, []);
    EvalPowRef(m, n, []);
    forall xs ensures Eval(PowRef(Mul(m, m), n / 2), xs) == Eval(PowRef(m, n), xs) {
      EvalPowRef(Mul(m, m), n / 2, xs);
      EvalMul(m, m, xs);
      EvalPowRef(m, n, xs);
      PowSquare(Eval(m, xs), n);
    }
    AgreeEverywhereEqual(PowRef(Mul(m, m), n / 2), PowRef(m, n));
  }

  /** The step `res = res * mul; exp--` of PolyPow keeps `res * mul^exp`. */
  lemma PowRefPeel(r: Poly, m: Poly, n: nat)
    requires Canonical(r) && Canonical(m) && n >= 1
    ensures Mul(Mul(r, m), PowRef(m, n - 1)) == Mul(r, PowRef(m, n))
  {
    MulAssociates(r, m, PowRef(m, n - 1));
  }

  /** A point where a non-zero `p` does not vanish is a point where no power of `p` vanishes. */
  lemma PowNonZero(v: int, n: nat)
    requires v != 0
    ensures Pow(v, n) != 0
  {
    if n > 0 {
      PowNonZero(v, n - 1);
      NonZeroProduct(v, Pow(v, n - 1));
    }
  }

  lemma NonZeroProduct(a: int, b: int)
    requires a != 0 && b != 0
    ensures a * b != 0
  {
  }

  // ---------------------------------------------------------------------
  // Evaluation at a point.
  // ---------------------------------------------------------------------

  /** PolyAt: `p(x, x_1, x_2, ...)` as a polynomial in the remaining variables. */
  function At(p: Poly, x: int): (r: Poly)
    requires Canonical(p)
    ensures Canonical(r)
  {
    if p.Coeff? then p else AtPrefix(p, x, |p.ms|)
  }

  /** The accumulator of PolyAt after the first `n` monomials; a power equal to 0 adds nothing. */
  function AtPrefix(p: Poly, x: int, n: nat): (r: Poly)
    requires Canonical(p) && p.Terms? && n <= |p.ms|
    ensures Canonical(r)
  {
    if n == 0 then Zero()
    else
      var acc := AtPrefix(p, x, n - 1);
      var s := Pow(x, p.ms[n - 1].exp);
      if s == 0 then acc
      else
        CoefficientCanonical(p, n - 1);
        WeightedSumCanonical(acc, p.ms[n - 1].p, 1, s);
        WeightedSum(acc, p.ms[n - 1].p, 1, s)
  }

  /** PolyAt substitutes `x` for the outermost variable. */
  lemma EvalAt(p: Poly, x: int, xs: seq<int>)
    requires Canonical(p)
    ensures Eval(At(p, x), xs) == Eval(p, [x] + xs)
  {
    if p.Terms? {
      EvalAtPrefix(p, x, |p.ms|, xs);
      assert p.ms[..|p.ms|] == p.ms;
    }
  }

  lemma {:induction false} EvalAtPrefix(p: Poly, x: int, n: nat, xs: seq<int>)
    requires Canonical(p) && p.Terms? && n <= |p.ms|
    ensures Eval(AtPrefix(p, x, n), xs) == Eval(Terms(p.ms[..n]), [x] + xs)
  {
    if n == 0 {
      EvalTermsNil([x] + xs);
    } else {
      EvalAtPrefix(p, x, n - 1, xs);
      AtStep(p, x, n, xs);
      assert p.ms[..n] == p.ms[..n - 1] + [p.ms[n - 1]];
      EvalTermsSnoc(p.ms[..n - 1], p.ms[n - 1], [x] + xs);
    }
  }

  /** One step of PolyAt adds the monomial's value at `x`. */
  lemma AtStep(p: Poly, x: int, n: nat, xs: seq<int>)
    requires Canonical(p) && p.Terms? && 1 <= n <= |p.ms|
    ensures Eval(AtPrefix(p, x, n), xs) == Eval(AtPrefix(p, x, n - 1), xs) + MonoValue(p.ms[n - 1], [x] + xs)
  {
    var m := p.ms[n - 1];
    var s := Pow(x, m.exp);
    CoefficientCanonical(p, n - 1);
    if s != 0 {
      EvalWeightedSum(AtPrefix(p, x, n - 1), m.p, 1, s, xs);
    }
    MonoAt(m, x, xs);
  }

  lemma MonoAt(m: Mono, x: int, xs: seq<int>)
    ensures MonoValue(m, [x] + xs) == Pow(x, m.exp) * Eval(m.p, xs)
  {
    assert Head([x] + xs) == x && Tail([x] + xs) == xs;
  }

  // ---------------------------------------------------------------------
  // Composition.
  // ---------------------------------------------------------------------

  /**
   * PolyCompose: the outermost variable is replaced by `qs[k - 1]` and the
   * coefficients are composed with `k - 1`; once `k` is 0 every remaining
   * variable is 0, so only the exponent-0 monomial (the last one) survives.
   */
  function Compose(p: Poly, k: nat, qs: seq<Poly>): (r: Poly)
    requires Canonical(p) && k <= |qs| && AllCanonical(qs)
    ensures Canonical(r)
    decreases p, 1
  {
    if p.Coeff? then p
    else if k == 0 then
      var last := |p.ms| - 1;
      if p.ms[last].exp == 0 then
        CoefficientCanonical(p, last);
        Compose(p.ms[last].p, 0, qs)
      else Zero()
    else ComposePrefix(p, k, qs, |p.ms|)
  }

  /** The accumulator of PolyCompose after the first `n` monomials: the sum of `q[k-1]^e * compose(coeff, k-1)`. */
  function ComposePrefix(p: Poly, k: nat, qs: seq<Poly>, n: nat): (r: Poly)
    requires Canonical(p) && p.Terms? && 1 <= k <= |qs| && AllCanonical(qs) && n <= |p.ms|
    ensures Canonical(r)
    decreases p, 0, n
  {
    if n == 0 then Zero()
    else
      var res := ComposePrefix(p, k, qs, n - 1);
      CoefficientCanonical(p, n - 1);
      var p3 := Mul(PowRef(qs[k - 1], p.ms[n - 1].exp), Compose(p.ms[n - 1].p, k - 1, qs));
      WeightedSumCanonical(res, p3, 1, 1);
      Add(res, p3)
  }

  /** The point PolyCompose evaluates `p` at: variable `i` takes the value of `qs[k - 1 - i]`. */
  function Substitution(k: nat, qs: seq<Poly>, xs: seq<int>): (r: seq<int>)
    requires k <= |qs|
    ensures |r| == k
  {
    if k == 0 then [] else [Eval(qs[k - 1], xs)] + Substitution(k - 1, qs, xs)
  }

  /** The variable `i` of the substituted point is the value of `qs[k - 1 - i]`. */
  lemma {:induction false} SubstitutionAt(k: nat, qs: seq<Poly>, xs: seq<int>, i: nat)
    requires i < k <= |qs|
    ensures Substitution(k, qs, xs)[i] == Eval(qs[k - 1 - i], xs)
  {
    if i > 0 {
      SubstitutionAt(k - 1, qs, xs, i - 1);
    }
  }

  /** At the origin only the exponent-0 monomial of a canonical array counts. */
  lemma {:induction false} EvalAtOrigin(ms: seq<Mono>)
    requires |ms| > 0 && ProperMonos(ms)
    ensures Eval(Terms(ms), []) == if ms[|ms| - 1].exp == 0 then Eval(ms[|ms| - 1].p, []) else 0
  {
    EvalTermsCons(ms, []);
    PowZeroBase(ms[0].exp);
    if |ms| == 1 {
      assert ms[1..] == [];
      EvalTermsNil([]);
    } else {
      assert ms[0].exp > ms[1].exp >= 0;
      assert ProperMonos(ms[1..]);
      EvalAtOrigin(ms[1..]);
    }
  }

  /** PolyCompose evaluates `p` at the values of `qs[k - 1], ..., qs[0]`, and 0 for later variables. */
  lemma {:induction false} EvalCompose(p: Poly, k: nat, qs: seq<Poly>, xs: seq<int>)
    requires Canonical(p) && k <= |qs| && AllCanonical(qs)
    ensures Eval(Compose(p, k, qs), xs) == Eval(p, Substitution(k, qs, xs))
    decreases p, 1
  {
    if p.Coeff? {
    } else if k == 0 {
      var last := |p.ms| - 1;
      assert Substitution(0, qs, xs) == [];
      EvalAtOrigin(p.ms);
      if p.ms[last].exp == 0 {
        CoefficientCanonical(p, last);
        EvalCompose(p.ms[last].p, 0, qs, xs);
      }
    } else {
      EvalComposePrefix(p, k, qs, |p.ms|, xs);
      assert p.ms[..|p.ms|] == p.ms;
    }
  }

  lemma {:induction false} EvalComposePrefix(p: Poly, k: nat, qs: seq<Poly>, n: nat, xs: seq<int>)
    requires Canonical(p) && p.Terms? && 1 <= k <= |qs| && AllCanonical(qs) && n <= |p.ms|
    ensures Eval(ComposePrefix(p, k, qs, n), xs) == Eval(Terms(p.ms[..n]), Substitution(k, qs, xs))
    decreases p, 0, n
  {
    var ys := Substitution(k, qs, xs);
    if n == 0 {
      EvalTermsNil(ys);
    } else {
      EvalComposePrefix(p, k, qs, n - 1, xs);
      ComposeStep(p, k, qs, n, xs);
      assert p.ms[..n] == p.ms[..n - 1] + [p.ms[n - 1]];
      EvalTermsSnoc(p.ms[..n - 1], p.ms[n - 1], ys);
    }
  }

  /** One step of PolyCompose adds the monomial's value at the substituted point. */
  lemma {:induction false} ComposeStep(p: Poly, k: nat, qs: seq<Poly>, n: nat, xs: seq<int>)
    requires Canonical(p) && p.Terms? && 1 <= k <= |qs| && AllCanonical(qs) && 1 <= n <= |p.ms|
    ensures Eval(ComposePrefix(p, k, qs, n), xs)
         == Eval(ComposePrefix(p, k, qs, n - 1), xs) + MonoValue(p.ms[n - 1], Substitution(k, qs, xs))
    decreases p, 0, n, 0
  {
    var m := p.ms[n - 1];
    CoefficientCanonical(p, n - 1);
    var p3 := Mul(PowRef(qs[k - 1], m.exp), Compose(m.p, k - 1, qs));
    var prev := ComposePrefix(p, k, qs, n - 1);
    assert ComposePrefix(p, k, qs, n) == Add(prev, p3);
    EvalAdd(prev, p3, xs);
    ComposeTerm(m, k, qs, xs);
  }

  /** `q[k-1]^e * compose(coeff, k-1)` is the monomial's value at the substituted point. */
  lemma {:induction false} ComposeTerm(m: Mono, k: nat, qs: seq<Poly>, xs: seq<int>)
    requires Canonical(m.p) && m.exp >= 0 && 1 <= k <= |qs| && AllCanonical(qs)
    ensures Eval(Mul(PowRef(qs[k - 1], m.exp), Compose(m.p, k - 1, qs)), xs)
         == MonoValue(m, Substitution(k, qs, xs))
    decreases m.p, 3
  {
    var p1 := PowRef(qs[k - 1], m.exp);
    var p2 := Compose(m.p, k - 1, qs);
    PowerTerm(qs, k, m.exp, xs);
    CoefficientTerm(m.p, k, qs, xs);
    EvalMul(p1, p2, xs);
    ProductIsMonoValue(m, Substitution(k, qs, xs), Eval(p1, xs), Eval(p2, xs));
  }

  /** The power of `q[k-1]` is the power of the first substituted value. */
  lemma PowerTerm(qs: seq<Poly>, k: nat, e: nat, xs: seq<int>)
    requires 1 <= k <= |qs| && AllCanonical(qs)
    ensures Eval(PowRef(qs[k - 1], e), xs) == Pow(Head(Substitution(k, qs, xs)), e)
  {
    SubstitutionCons(k, qs, xs);
    EvalPowRef(qs[k - 1], e, xs);
  }

  /** The coefficient composed with the rest is the coefficient at the remaining substituted values. */
  lemma {:induction false} CoefficientTerm(p: Poly, k: nat, qs: seq<Poly>, xs: seq<int>)
    requires Canonical(p) && 1 <= k <= |qs| && AllCanonical(qs)
    ensures Eval(Compose(p, k - 1, qs), xs) == Eval(p, Tail(Substitution(k, qs, xs)))
    decreases p, 2
  {
    SubstitutionCons(k, qs, xs);
    EvalCompose(p, k - 1, qs, xs);
  }

  /** A product of the two factors of a monomial's value is that value. */
  lemma ProductIsMonoValue(m: Mono, ys: seq<int>, a: int, b: int)
    requires a == Pow(Head(ys), m.exp) && b == Eval(m.p, Tail(ys))
    ensures a * b == MonoValue(m, ys)
  {
    Commute(a, b, Pow(Head(ys), m.exp), Eval(m.p, Tail(ys)));
  }

  lemma Commute(a: int, b: int, c: int, d: int)
    requires a == c && b == d
    ensures a * b == d * c
  {
  }

  lemma SubstitutionCons(k: nat, qs: seq<Poly>, xs: seq<int>)
    requires 1 <= k <= |qs|
    ensures Head(Substitution(k, qs, xs)) == Eval(qs[k - 1], xs)
    ensures Tail(Substitution(k, qs, xs)) == Substitution(k - 1, qs, xs)
  {
  }
}
