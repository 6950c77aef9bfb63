/**
 * Sparse recursive multivariate polynomials: the value model of `Poly` and
 * `Mono` from poly.c, the canonical-form invariants its constructors keep,
 * and the meaning of a polynomial as a function of its variables.
 *
 * A polynomial is either a scalar coefficient (`arr == NULL` in C) or an
 * array of monomials `p * x^exp` whose coefficients `p` are polynomials in
 * the next variables.
 */
module PolyBase {

  /** Range of the C `int` used for exponents (`poly_exp_t`). */
  const INT_MIN: int := -0x8000_0000
  const INT_MAX: int := 0x7fff_ffff

  datatype Poly = Coeff(c: int) | Terms(ms: seq<Mono>)

  /** A monomial `p * x^exp`. The canonicalisers flag entries in place with a negative `exp`. */
  datatype Mono = Mono(exp: int, p: Poly)

  /** PolyZero, PolyFromCoeff, PolyIsCoeff and PolyIsZero of poly.h. */
  function Zero(): Poly { Coeff(0) }

  predicate IsCoeff(p: Poly) { p.Coeff? }

  predicate IsZero(p: Poly) { p == Coeff(0) }

  /** Invariant 1) of poly.c: exponents strictly decrease along the array. */
  predicate StrictlyDecreasing(ms: seq<Mono>) {
    forall i, j :: 0 <= i < j < |ms| ==> ms[i].exp > ms[j].exp
  }

  /** A single `(scalar, 0)` monomial, which invariant 2) of poly.c forbids. */
  predicate IsCollapsible(ms: seq<Mono>) {
    |ms| == 1 && ms[0].exp == 0 && ms[0].p.Coeff?
  }

  /** The entries a canonical non-scalar polynomial may hold. */
  predicate ProperMonos(ms: seq<Mono>)
    decreases Terms(ms), 0
  {
    StrictlyDecreasing(ms) &&
    forall i :: 0 <= i < |ms| ==> ms[i].exp >= 0 && ms[i].p != Zero() && Canonical(ms[i].p)
  }

  /** The canonical form every constructor of poly.c returns. */
  predicate Canonical(p: Poly)
    decreases p, 1
  {
    match p
    case Coeff(_) => true
    case Terms(ms) => |ms| > 0 && ProperMonos(ms) && !IsCollapsible(ms)
  }

  /** The coefficients of a canonical array are canonical and non-zero, the exponents non-negative. */
  lemma CoefficientCanonical(p: Poly, i: int)
    requires Canonical(p) && p.Terms? && 0 <= i < |p.ms|
    ensures Canonical(p.ms[i].p) && p.ms[i].p != Zero() && p.ms[i].exp >= 0
  {
  }

  /** PolyCheckIfCorrect: the partial check that poly.c asserts on its arguments. */
  predicate CheckIfCorrect(p: Poly) {
    p.Terms? ==> |p.ms| > 0 && !(p.ms[0].p.Coeff? && p.ms[0].exp == 0)
  }

  lemma CanonicalPassesCheck(p: Poly)
    requires Canonical(p)
    ensures CheckIfCorrect(p)
  {
    if p.Terms? && |p.ms| > 1 {
      assert p.ms[0].exp > p.ms[1].exp >= 0;
    }
  }

  // ---------------------------------------------------------------------
  // Meaning of a polynomial.
  // ---------------------------------------------------------------------

  /** Integer power; a non-positive exponent gives 1, as the loop in `power` does. */
  function Pow(x: int, n: int): int
    decreases n
  {
    if n <= 0 then 1 else x * Pow(x, n - 1)
  }

  function Sum(s: seq<int>): int {
    if s == [] then 0 else s[0] + Sum(s[1..])
  }

  /** Value of the outermost variable at a point; missing variables are 0. */
  function Head(xs: seq<int>): int { if |xs| > 0 then xs[0] else 0 }

  /** The point for the coefficients (the remaining variables). */
  function Tail(xs: seq<int>): seq<int> { if |xs| > 0 then xs[1..] else [] }

  /** Value of `p` at the point `xs`: `xs[0]` is the outermost variable x_0. */
  function Eval(p: Poly, xs: seq<int>): int
    decreases p, 1
  {
    match p
    case Coeff(c) => c
    case Terms(ms) => Sum(MonoValues(ms, xs))
  }

  function MonoValues(ms: seq<Mono>, xs: seq<int>): (r: seq<int>)
    ensures |r| == |ms|
    ensures forall i :: 0 <= i < |ms| ==> r[i] == MonoValue(ms[i], xs)
    decreases Terms(ms), 0
  {
    seq(|ms|, i requires 0 <= i < |ms| => MonoValue(ms[i], xs))
  }

  /** Value of one monomial at `xs`. */
  function MonoValue(m: Mono, xs: seq<int>): int
    decreases m, 0
  {
    Eval(m.p, Tail(xs)) * Pow(Head(xs), m.exp)
  }

  // ---------------------------------------------------------------------
  // Basic facts about sums and evaluation of monomial lists.
  // ---------------------------------------------------------------------

  lemma {:induction false} SumAppend(a: seq<int>, b: seq<int>)
    ensures Sum(a + b) == Sum(a) + Sum(b)
  {
    if a == [] {
      assert a + b == b;
    } else {
      assert (a + b)[1..] == a[1..] + b;
      SumAppend(a[1..], b);
    }
  }

  lemma EvalTermsNil(xs: seq<int>)
    ensures Eval(Terms([]), xs) == 0
  {
    assert MonoValues([], xs) == [];
  }

  lemma EvalTermsCons(ms: seq<Mono>, xs: seq<int>)
    requires |ms| > 0
    ensures Eval(Terms(ms), xs) == MonoValue(ms[0], xs) + Eval(Terms(ms[1..]), xs)
  {
    assert MonoValues(ms, xs)[1..] == MonoValues(ms[1..], xs);
  }

  lemma {:induction false} EvalTermsAppend(a: seq<Mono>, b: seq<Mono>, xs: seq<int>)
    ensures Eval(Terms(a + b), xs) == Eval(Terms(a), xs) + Eval(Terms(b), xs)
  {
    assert MonoValues(a + b, xs) == MonoValues(a, xs) + MonoValues(b, xs);
    SumAppend(MonoValues(a, xs), MonoValues(b, xs));
  }

  lemma EvalTermsSingle(m: Mono, xs: seq<int>)
    ensures Eval(Terms([m]), xs) == MonoValue(m, xs)
  {
    EvalTermsCons([m], xs);
    EvalTermsNil(xs);
  }

  /** Appending one monomial at the end adds its value. */
  lemma EvalTermsSnoc(ms: seq<Mono>, m: Mono, xs: seq<int>)
    ensures Eval(Terms(ms + [m]), xs) == Eval(Terms(ms), xs) + MonoValue(m, xs)
  {
    EvalTermsAppend(ms, [m], xs);
    EvalTermsSingle(m, xs);
  }

  /** A monomial with zero coefficient has value 0 everywhere. */
  lemma MonoValueZero(m: Mono, xs: seq<int>)
    requires m.p == Zero()
    ensures MonoValue(m, xs) == 0
  {
  }

  /** A monomial of exponent 0 is worth its coefficient at the remaining variables. */
  lemma MonoValueConstant(m: Mono, xs: seq<int>)
    requires m.exp == 0
    ensures MonoValue(m, xs) == Eval(m.p, Tail(xs))
  {
  }

  lemma {:induction false} PowAdd(x: int, a: nat, b: nat)
    ensures Pow(x, a + b) == Pow(x, a) * Pow(x, b)
  {
    if a > 0 {
      PowAdd(x, a - 1, b);
      assert Pow(x, a + b) == x * Pow(x, a - 1 + b);
    }
  }

  lemma {:induction false} PowMul(x: int, y: int, n: nat)
    ensures Pow(x * y, n) == Pow(x, n) * Pow(y, n)
  {
    if n > 0 {
      PowMul(x, y, n - 1);
      Rearrange(x, y, Pow(x, n - 1), Pow(y, n - 1));
    }
  }

  lemma Rearrange(a: int, b: int, c: int, d: int)
    ensures a * b * (c * d) == (a * c) * (b * d)
  {
  }

  /** Squaring the base halves an even exponent: the step `x *= x; exp /= 2` of `power`. */
  lemma PowSquare(x: int, n: nat)
    requires n % 2 == 0
    ensures Pow(x * x, n / 2) == Pow(x, n)
  {
    PowMul(x, x, n / 2);
    PowAdd(x, n / 2, n / 2);
  }

  lemma {:induction false} PowZeroBase(n: int)
    ensures Pow(0, n) == if n <= 0 then 1 else 0
  {
    if n > 0 {
      PowZeroBase(n - 1);
    }
  }

  /** Any power of 1 is 1. */
  lemma {:induction false} PowOne(n: int)
    ensures Pow(1, n) == 1
  {
    if n > 0 {
      PowOne(n - 1);
    }
  }
}
