/**
 * The identity theorem for canonical polynomials: two canonical polynomials
 * that agree at every point are the same value. Together with the evaluation
 * lemmas of each operation this shows that the canonical form is unique, so
 * structural equality (PolyIsEq) is equality of polynomials.
 */
module PolyIdentity {
  import opened PolyBase
  import opened PolyScale
  import opened PolySum

  // ---------------------------------------------------------------------
  // A zero difference means equal arguments.
  // ---------------------------------------------------------------------

  /** PolySub returns zero only for equal canonical arguments. */
  lemma {:induction false} SubZeroEqual(p: Poly, q: Poly)
    requires Canonical(p) && Canonical(q)
    requires WeightedSum(p, q, 1, -1) == Zero()
    ensures p == q
    decreases p, q, 2
  {
    if p.Coeff? && q.Coeff? {
    } else if q.Coeff? {
      ScaleOne(p);
      AddCoeffCanonical(p, -1 * q.c);
    } else if p.Coeff? {
      ScaleNonZero(q, -1);
      ScaleCanonical(q, -1);
      AddCoeffCanonical(Scale(q, -1), 1 * p.c);
    } else {
      MergeProper(p, q, 1, -1, 0, 0);
      CollapseCanonical(Merge(p, q, 1, -1, 0, 0));
      MergeEmptyEqual(p, q, 0, 0);
      assert p.ms[0..] == p.ms && q.ms[0..] == q.ms;
    }
  }

  /** When the merge-join of `p - q` appends nothing, the remaining monomials agree. */
  lemma {:induction false} MergeEmptyEqual(p: Poly, q: Poly, ip: nat, iq: nat)
    requires Canonical(p) && Canonical(q) && p.Terms? && q.Terms?
    requires ip <= |p.ms| && iq <= |q.ms|
    requires Merge(p, q, 1, -1, ip, iq) == []
    ensures p.ms[ip..] == q.ms[iq..]
    decreases p, q, 0, |p.ms| - ip + |q.ms| - iq
  {
    var P, Q := p.ms, q.ms;
    if ip < |P| && iq < |Q| && P[ip].exp == Q[iq].exp {
      MergeEmptyEqualHeads(p, q, ip, iq);
    } else if ip < |P| && (iq == |Q| || P[ip].exp > Q[iq].exp) {
      CoefficientCanonical(p, ip);
      ScaleOne(P[ip].p);
    } else if iq < |Q| {
      CoefficientCanonical(q, iq);
      ScaleNonZero(Q[iq].p, -1);
    }
  }

  lemma {:induction false} MergeEmptyEqualHeads(p: Poly, q: Poly, ip: nat, iq: nat)
    requires Canonical(p) && Canonical(q) && p.Terms? && q.Terms?
    requires ip < |p.ms| && iq < |q.ms| && p.ms[ip].exp == q.ms[iq].exp
    requires Merge(p, q, 1, -1, ip, iq) == []
    ensures p.ms[ip..] == q.ms[iq..]
    decreases p, q, 0, |p.ms| - ip + |q.ms| - iq, 0
  {
    var P, Q := p.ms, q.ms;
    CoefficientCanonical(p, ip);
    CoefficientCanonical(q, iq);
    assert Keep(Mono(P[ip].exp, WeightedSum(P[ip].p, Q[iq].p, 1, -1))) == [];
    SubZeroEqual(P[ip].p, Q[iq].p);
    MergeEmptyEqual(p, q, ip + 1, iq + 1);
    assert P[ip..] == [P[ip]] + P[ip + 1..];
    assert Q[iq..] == [Q[iq]] + Q[iq + 1..];
  }

  // ---------------------------------------------------------------------
  // A non-zero canonical polynomial is non-zero somewhere.
  // ---------------------------------------------------------------------

  function Abs(x: int): nat { if x < 0 then -x else x }

  /** Sum of the absolute values of the coefficients of `ms` at the point `t`. */
  function SumAbs(ms: seq<Mono>, t: seq<int>): nat {
    if ms == [] then 0 else Abs(Eval(ms[0].p, t)) + SumAbs(ms[1..], t)
  }

  lemma AbsMul(x: int, y: int)
    ensures Abs(x * y) == Abs(x) * Abs(y)
  {
  }

  lemma {:induction false} PowPositive(h: int, n: int)
    requires h >= 1
    ensures Pow(h, n) >= 1
    decreases n
  {
    if n > 0 {
      PowPositive(h, n - 1);
      MulAtLeast(h, Pow(h, n - 1));
    }
  }

  lemma MulAtLeast(a: int, b: int)
    requires a >= 1 && b >= 1
    ensures a * b >= b && a * b >= 1
  {
  }

  lemma {:induction false} PowMonotone(h: int, e: int, b: int)
    requires h >= 1 && e <= b
    ensures Pow(h, e) <= Pow(h, b)
    decreases b - e
  {
    if e < b {
      PowMonotone(h, e, b - 1);
      if b - 1 >= 0 {
        PowPositive(h, b - 1);
        MulAtLeast(h, Pow(h, b - 1));
      }
    }
  }

  lemma MulBound(a: nat, x: int, y: int)
    requires 1 <= x <= y
    ensures a * x <= a * y
  {
  }

  /** Each of the monomials of `ms`, with exponents at most `b`, is worth at most its coefficient times `h^b`. */
  lemma {:induction false} TailBound(ms: seq<Mono>, h: int, t: seq<int>, b: int)
    requires h >= 1
    requires forall i :: 0 <= i < |ms| ==> ms[i].exp <= b
    ensures Abs(Eval(Terms(ms), [h] + t)) <= SumAbs(ms, t) * Pow(h, b)
  {
    var xs := [h] + t;
    assert Head(xs) == h && Tail(xs) == t;
    if ms == [] {
      EvalTermsNil(xs);
    } else {
      EvalTermsCons(ms, xs);
      TailBound(ms[1..], h, t, b);
      var a := Eval(ms[0].p, t);
      PowPositive(h, ms[0].exp);
      PowMonotone(h, ms[0].exp, b);
      AbsMul(a, Pow(h, ms[0].exp));
      MulBound(Abs(a), Pow(h, ms[0].exp), Pow(h, b));
      assert Abs(MonoValue(ms[0], xs)) <= Abs(a) * Pow(h, b);
      Distribute(Abs(a), SumAbs(ms[1..], t), Pow(h, b));
    }
  }

  lemma Distribute(a: int, b: int, c: int)
    ensures (a + b) * c == a * c + b * c
  {
  }

  /** The leading monomial dominates: `|a * h^e| >= h^e > s * h^(e-1)` once `h = s + 1`. */
  lemma Dominates(a: int, s: nat, e: int, r: int)
    requires a != 0 && e >= 1
    requires Abs(r) <= s * Pow(s + 1, e - 1)
    ensures a * Pow(s + 1, e) + r != 0
  {
    var h := s + 1;
    var w := Pow(h, e - 1);
    PowPositive(h, e - 1);
    assert Pow(h, e) == h * w;
    AbsMul(a, h * w);
    MulAtLeast(Abs(a), h * w);
    assert Abs(a * Pow(h, e)) >= h * w;
    assert h * w == s * w + w;
  }

  /** A non-zero canonical polynomial takes a non-zero value at some point. */
  lemma {:induction false} NonZeroWitness(p: Poly) returns (xs: seq<int>)
    requires Canonical(p) && p != Zero()
    ensures Eval(p, xs) != 0
    decreases p
  {
    if p.Coeff? {
      xs := [];
    } else {
      var ms := p.ms;
      CoefficientCanonical(p, 0);
      var t := NonZeroWitness(ms[0].p);
      var s := SumAbs(ms[1..], t);
      var h := s + 1;
      xs := [h] + t;
      assert Head(xs) == h && Tail(xs) == t;
      EvalTermsCons(ms, xs);
      var a := Eval(ms[0].p, t);
      var e := ms[0].exp;
      var r := Eval(Terms(ms[1..]), xs);
      if |ms| == 1 {
        assert ms[1..] == [];
        EvalTermsNil(xs);
        PowPositive(h, e);
        MulAtLeast(Abs(a), Pow(h, e));
        AbsMul(a, Pow(h, e));
      } else {
        assert e > ms[1].exp >= 0;
        TailBound(ms[1..], h, t, e - 1);
        Dominates(a, s, e, r);
      }
    }
  }

  // ---------------------------------------------------------------------
  // The identity theorem.
  // ---------------------------------------------------------------------

  /** Canonical polynomials with the same value at every point are equal. */
  lemma AgreeEverywhereEqual(p: Poly, q: Poly)
    requires Canonical(p) && Canonical(q)
    requires forall xs :: Eval(p, xs) == Eval(q, xs)
    ensures p == q
  {
    var d := WeightedSum(p, q, 1, -1);
    WeightedSumCanonical(p, q, 1, -1);
    if d != Zero() {
      var xs := NonZeroWitness(d);
      EvalWeightedSum(p, q, 1, -1, xs);
    }
    SubZeroEqual(p, q);
  }
}
