/**
 * Scalar multiplication of polynomials (PolyMulByScalar, MonoMulByScalar,
 * PolyClone and PolyNeg of poly.c) and the two steps every array-building
 * constructor of poly.c ends with: dropping zero coefficients and collapsing
 * a single `(scalar, 0)` monomial to the scalar (invariant 2).
 */
module PolyScale {
  import opened PolyBase

  /** The monomial itself, or nothing when its coefficient is zero. */
  function Keep(m: Mono): seq<Mono> {
    if m.p == Zero() then [] else [m]
  }

  /** The monomials with a non-zero coefficient, in their original order. */
  function DropZeros(ms: seq<Mono>): (r: seq<Mono>)
    ensures |r| <= |ms|
  {
    if ms == [] then [] else DropZeros(ms[..|ms| - 1]) + Keep(ms[|ms| - 1])
  }

  /**
   * The common ending of PolyMulByScalar, PolyAddMulByScalars and the
   * canonicalisers: no monomial left is zero, a single `(scalar, 0)` is the
   * scalar, anything else is kept as an array.
   */
  function Collapse(ms: seq<Mono>): Poly {
    if |ms| == 0 then Zero()
    else if IsCollapsible(ms) then Coeff(ms[0].p.c)
    else Terms(ms)
  }

  /** PolyMulByScalar: `s * p`. */
  function Scale(p: Poly, s: int): Poly
    decreases p, 1
  {
    if s == 0 then Zero()
    else match p
      case Coeff(c) => Coeff(s * c)
      case Terms(ms) => Collapse(DropZeros(ScaleEach(ms, s)))
  }

  function ScaleEach(ms: seq<Mono>, s: int): (r: seq<Mono>)
    ensures |r| == |ms|
    ensures forall i :: 0 <= i < |ms| ==> r[i] == ScaleMono(ms[i], s)
    decreases Terms(ms), 0
  {
    seq(|ms|, i requires 0 <= i < |ms| => ScaleMono(ms[i], s))
  }

  /** MonoMulByScalar: the exponent is kept, the coefficient scaled. */
  function ScaleMono(m: Mono, s: int): Mono
    decreases m, 0
  {
    Mono(m.exp, Scale(m.p, s))
  }

  /** PolyClone. */
  function Clone(p: Poly): Poly { Scale(p, 1) }

  /** PolyNeg. */
  function Neg(p: Poly): Poly { Scale(p, -1) }

  // ---------------------------------------------------------------------
  // Dropping zeros and collapsing.
  // ---------------------------------------------------------------------

  lemma {:induction false} DropZerosAppend(a: seq<Mono>, b: seq<Mono>)
    ensures DropZeros(a + b) == DropZeros(a) + DropZeros(b)
  {
    if b == [] {
      assert a + b == a;
    } else {
      assert (a + b)[..|a + b| - 1] == a + b[..|b| - 1];
      DropZerosAppend(a, b[..|b| - 1]);
    }
  }

  /** Every monomial kept is a non-zero monomial of the input. */
  lemma {:induction false} DropZerosMembers(ms: seq<Mono>)
    ensures forall i :: 0 <= i < |DropZeros(ms)| ==> DropZeros(ms)[i] in ms && DropZeros(ms)[i].p != Zero()
  {
    if ms != [] {
      DropZerosMembers(ms[..|ms| - 1]);
      assert ms == ms[..|ms| - 1] + [ms[|ms| - 1]];
    }
  }

  /** Nothing is dropped from a list without zero coefficients. */
  lemma {:induction false} DropZerosNoZeros(ms: seq<Mono>)
    requires forall i :: 0 <= i < |ms| ==> ms[i].p != Zero()
    ensures DropZeros(ms) == ms
  {
    if ms != [] {
      DropZerosNoZeros(ms[..|ms| - 1]);
      assert ms == ms[..|ms| - 1] + [ms[|ms| - 1]];
    }
  }

  lemma {:induction false} DropZerosStrictlyDecreasing(ms: seq<Mono>)
    requires StrictlyDecreasing(ms)
    ensures StrictlyDecreasing(DropZeros(ms))
  {
    if ms != [] {
      var init, last := ms[..|ms| - 1], ms[|ms| - 1];
      DropZerosStrictlyDecreasing(init);
      DropZerosMembers(init);
      var d := DropZeros(init);
      forall i | 0 <= i < |d| ensures d[i].exp > last.exp {
        assert d[i] in init;
      }
    }
  }

  /** Dropping zeros from entries a canonical array may hold, in decreasing order, leaves proper entries. */
  lemma DropZerosProper(ms: seq<Mono>)
    requires StrictlyDecreasing(ms)
    requires forall i :: 0 <= i < |ms| ==> ms[i].exp >= 0 && Canonical(ms[i].p)
    ensures ProperMonos(DropZeros(ms))
  {
    DropZerosStrictlyDecreasing(ms);
    DropZerosMembers(ms);
    var d := DropZeros(ms);
    forall i | 0 <= i < |d| ensures d[i].exp >= 0 && d[i].p != Zero() && Canonical(d[i].p) {
      assert d[i] in ms;
      var j :| 0 <= j < |ms| && ms[j] == d[i];
    }
  }

  lemma {:induction false} EvalDropZeros(ms: seq<Mono>, xs: seq<int>)
    ensures Eval(Terms(DropZeros(ms)), xs) == Eval(Terms(ms), xs)
  {
    if ms == [] {
    } else {
      var init, last := ms[..|ms| - 1], ms[|ms| - 1];
      assert ms == init + [last];
      EvalDropZeros(init, xs);
      EvalTermsSnoc(init, last, xs);
      EvalTermsAppend(DropZeros(init), Keep(last), xs);
      if last.p == Zero() {
        EvalTermsNil(xs);
      } else {
        EvalTermsSingle(last, xs);
      }
    }
  }

  /** Collapsing does not change the value. */
  lemma EvalCollapse(ms: seq<Mono>, xs: seq<int>)
    ensures Eval(Collapse(ms), xs) == Eval(Terms(ms), xs)
  {
    if |ms| == 0 {
      EvalTermsNil(xs);
    } else if IsCollapsible(ms) {
      assert ms == [ms[0]];
      EvalTermsSingle(ms[0], xs);
    }
  }

  /** Proper entries collapse to a canonical polynomial, zero exactly when there are none. */
  lemma CollapseCanonical(ms: seq<Mono>)
    requires ProperMonos(ms)
    ensures Canonical(Collapse(ms))
    ensures Collapse(ms) == Zero() <==> ms == []
  {
  }

  /** A collapsed array is a scalar only when it was empty or a single `(scalar, 0)`. */
  lemma CollapseIsCoeff(ms: seq<Mono>)
    ensures Collapse(ms).Coeff? <==> ms == [] || IsCollapsible(ms)
  {
  }

  // ---------------------------------------------------------------------
  // Scalar multiplication.
  // ---------------------------------------------------------------------

  lemma {:induction false} SumScaled(a: seq<int>, b: seq<int>, s: int)
    requires |a| == |b|
    requires forall i :: 0 <= i < |a| ==> a[i] == s * b[i]
    ensures Sum(a) == s * Sum(b)
  {
    if a != [] {
      SumScaled(a[1..], b[1..], s);
    }
  }

  /** PolyMulByScalar computes `s * p` at every point. */
  lemma {:induction false} EvalScale(p: Poly, s: int, xs: seq<int>)
    ensures Eval(Scale(p, s), xs) == s * Eval(p, xs)
    decreases p
  {
    if s != 0 && p.Terms? {
      var ms := p.ms;
      var scaled := ScaleEach(ms, s);
      forall i | 0 <= i < |ms|
        ensures MonoValues(scaled, xs)[i] == s * MonoValues(ms, xs)[i]
      {
        EvalScale(ms[i].p, s, Tail(xs));
        var e := Pow(Head(xs), ms[i].exp);
        calc {
          MonoValues(scaled, xs)[i];
          MonoValue(ScaleMono(ms[i], s), xs);
          Eval(Scale(ms[i].p, s), Tail(xs)) * e;
          (s * Eval(ms[i].p, Tail(xs))) * e;
          s * (Eval(ms[i].p, Tail(xs)) * e);
        }
      }
      SumScaled(MonoValues(scaled, xs), MonoValues(ms, xs), s);
      EvalDropZeros(scaled, xs);
      EvalCollapse(DropZeros(scaled), xs);
    }
  }

  /** Scaling by a non-zero factor keeps a canonical `p` non-zero, and a scalar exactly when `p` is one. */
  lemma {:induction false} ScaleNonZero(p: Poly, s: int)
    requires Canonical(p) && p != Zero() && s != 0
    ensures Scale(p, s) != Zero()
    ensures Scale(p, s).Coeff? <==> p.Coeff?
    ensures p.Terms? ==> Scale(p, s) == Terms(ScaleEach(p.ms, s))
    decreases p
  {
    if p.Terms? {
      var ms := p.ms;
      var scaled := ScaleEach(ms, s);
      forall i | 0 <= i < |ms|
        ensures scaled[i].p != Zero() && (scaled[i].p.Coeff? <==> ms[i].p.Coeff?)
      {
        ScaleNonZero(ms[i].p, s);
      }
      DropZerosNoZeros(scaled);
    }
  }

  /** PolyMulByScalar keeps the canonical form. */
  lemma {:induction false} ScaleCanonical(p: Poly, s: int)
    requires Canonical(p)
    ensures Canonical(Scale(p, s))
    decreases p
  {
    if s != 0 && p.Terms? {
      var ms := p.ms;
      var scaled := ScaleEach(ms, s);
      forall i | 0 <= i < |ms| ensures Canonical(scaled[i].p) {
        ScaleCanonical(ms[i].p, s);
      }
      DropZerosProper(scaled);
      CollapseCanonical(DropZeros(scaled));
    }
  }

  /** Scaling by 1 is the identity on canonical polynomials, so PolyClone returns an equal polynomial. */
  lemma {:induction false} ScaleOne(p: Poly)
    requires Canonical(p)
    ensures Scale(p, 1) == p
    decreases p
  {
    if p.Terms? {
      var ms := p.ms;
      forall i | 0 <= i < |ms| ensures ScaleEach(ms, 1)[i] == ms[i] {
        ScaleOne(ms[i].p);
      }
      assert ScaleEach(ms, 1) == ms;
      DropZerosNoZeros(ms);
    }
  }

  /** Scaling twice is scaling by the product. */
  lemma ScaleScale(p: Poly, s: int, t: int, xs: seq<int>)
    ensures Eval(Scale(Scale(p, s), t), xs) == (t * s) * Eval(p, xs)
  {
    EvalScale(Scale(p, s), t, xs);
    EvalScale(p, s, xs);
  }
}
