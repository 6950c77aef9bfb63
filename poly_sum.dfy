/**
 * Adding a constant in place (PolyAddCoeff), the weighted sum
 * `sp * p + sq * q` built by a descending merge-join
 * (PolyAddMulByScalars and PolyAddMulByScalarsHandleCoeff), and the
 * sum and difference it backs (PolyAdd, PolySub).
 */
module PolySum {
  import opened PolyBase
  import opened PolyScale

  /**
   * PolyAddCoeff: adds `c` to the exponent-0 slot of a non-scalar `p`.
   * A scalar slot is updated, or removed when it cancels; a non-scalar slot
   * is updated recursively; without such a slot `(c, 0)` is appended.
   */
  function AddCoeff(p: Poly, c: int): Poly
    requires Canonical(p) && p.Terms?
    decreases p
  {
    if c == 0 then p
    else
      var n := |p.ms|;
      var last := p.ms[n - 1];
      if last.exp == 0 then
        if last.p.Coeff? then
          if last.p.c + c == 0 then Terms(p.ms[..n - 1])
          else Terms(p.ms[..n - 1] + [Mono(0, Coeff(last.p.c + c))])
        else CoefficientCanonical(p, n - 1); Terms(p.ms[..n - 1] + [Mono(0, AddCoeff(last.p, c))])
      else Terms(p.ms + [Mono(0, Coeff(c))])
  }

  /** PolyAddMulByScalarsHandleCoeff: `sp * p + sq * q` when one side is a scalar. */
  function HandleCoeff(p: Poly, q: Poly, sp: int, sq: int): Poly
    requires Canonical(p) && Canonical(q) && (p.Coeff? || q.Coeff?)
  {
    if p.Coeff? && q.Coeff? then Coeff(sp * p.c + sq * q.c)
    else if q.Coeff? then
      var r := Scale(p, sp);
      if r.Coeff? then Coeff(r.c + sq * q.c)
      else ScaleCanonical(p, sp); AddCoeff(r, sq * q.c)
    else
      var r := Scale(q, sq);
      if r.Coeff? then Coeff(r.c + sp * p.c)
      else ScaleCanonical(q, sq); AddCoeff(r, sp * p.c)
  }

  /** PolyAddMulByScalars: `sp * p + sq * q`. */
  function WeightedSum(p: Poly, q: Poly, sp: int, sq: int): Poly
    requires Canonical(p) && Canonical(q)
    decreases p, q, 1
  {
    if p.Coeff? || q.Coeff? then HandleCoeff(p, q, sp, sq)
    else Collapse(Merge(p, q, sp, sq, 0, 0))
  }

  /**
   * The monomials the merge-join of PolyAddMulByScalars appends once it has
   * consumed `ip` monomials of `p` and `iq` monomials of `q`.
   */
  function Merge(p: Poly, q: Poly, sp: int, sq: int, ip: nat, iq: nat): seq<Mono>
    requires Canonical(p) && Canonical(q) && p.Terms? && q.Terms?
    requires ip <= |p.ms| && iq <= |q.ms|
    decreases p, q, 0, |p.ms| - ip + |q.ms| - iq
  {
    if ip < |p.ms| && iq < |q.ms| then
      var m, n := p.ms[ip], q.ms[iq];
      if m.exp == n.exp then
        CoefficientCanonical(p, ip); CoefficientCanonical(q, iq);
        Keep(Mono(m.exp, WeightedSum(m.p, n.p, sp, sq))) + Merge(p, q, sp, sq, ip + 1, iq + 1)
      else if m.exp > n.exp then
        Keep(ScaleMono(m, sp)) + Merge(p, q, sp, sq, ip + 1, iq)
      else
        Keep(ScaleMono(n, sq)) + Merge(p, q, sp, sq, ip, iq + 1)
    else if ip < |p.ms| then
      Keep(ScaleMono(p.ms[ip], sp)) + Merge(p, q, sp, sq, ip + 1, iq)
    else if iq < |q.ms| then
      Keep(ScaleMono(q.ms[iq], sq)) + Merge(p, q, sp, sq, ip, iq + 1)
    else
      []
  }

  /** PolyAdd. */
  function Add(p: Poly, q: Poly): Poly
    requires Canonical(p) && Canonical(q)
  {
    WeightedSum(p, q, 1, 1)
  }

  /** PolySub. */
  function Sub(p: Poly, q: Poly): Poly
    requires Canonical(p) && Canonical(q)
  {
    WeightedSum(p, q, 1, -1)
  }

  // ---------------------------------------------------------------------
  // PolyAddCoeff.
  // ---------------------------------------------------------------------

  /** PolyAddCoeff adds `c` at every point. */
  lemma {:induction false} EvalAddCoeff(p: Poly, c: int, xs: seq<int>)
    requires Canonical(p) && p.Terms?
    ensures Eval(AddCoeff(p, c), xs) == Eval(p, xs) + c
    decreases p
  {
    if c != 0 {
      var n := |p.ms|;
      var init, last := p.ms[..n - 1], p.ms[n - 1];
      assert p.ms == init + [last];
      EvalTermsSnoc(init, last, xs);
      if last.exp == 0 {
        MonoValueConstant(last, xs);
        if last.p.Coeff? {
          if last.p.c + c != 0 {
            EvalTermsSnoc(init, Mono(0, Coeff(last.p.c + c)), xs);
            MonoValueConstant(Mono(0, Coeff(last.p.c + c)), xs);
          }
        } else {
          CoefficientCanonical(p, n - 1);
          EvalAddCoeff(last.p, c, Tail(xs));
          EvalTermsSnoc(init, Mono(0, AddCoeff(last.p, c)), xs);
          MonoValueConstant(Mono(0, AddCoeff(last.p, c)), xs);
        }
      } else {
        EvalTermsSnoc(p.ms, Mono(0, Coeff(c)), xs);
        MonoValueConstant(Mono(0, Coeff(c)), xs);
      }
    }
  }

  /** PolyAddCoeff keeps the canonical form and never turns `p` into a scalar. */
  lemma {:induction false} AddCoeffCanonical(p: Poly, c: int)
    requires Canonical(p) && p.Terms?
    ensures Canonical(AddCoeff(p, c)) && AddCoeff(p, c).Terms?
    decreases p
  {
    if c != 0 {
      var ms := p.ms;
      var n := |ms|;
      var init, last := ms[..n - 1], ms[n - 1];
      if last.exp == 0 {
        if n == 1 {
          assert !last.p.Coeff?;
        } else {
          assert init[n - 2].exp > 0;
        }
        if !last.p.Coeff? {
          AddCoeffCanonical(last.p, c);
        }
      }
    }
  }

  // ---------------------------------------------------------------------
  // The weighted sum.
  // ---------------------------------------------------------------------

  /** The exponent at the head of a merge input, or -1 when it is used up. */
  function Top(ms: seq<Mono>, i: nat): int {
    if i < |ms| then ms[i].exp else -1
  }

  function Max(a: int, b: int): int { if a >= b then a else b }

  lemma ConcatStrictlyDecreasing(a: seq<Mono>, b: seq<Mono>)
    requires StrictlyDecreasing(a) && StrictlyDecreasing(b)
    requires forall i, j :: 0 <= i < |a| && 0 <= j < |b| ==> a[i].exp > b[j].exp
    ensures StrictlyDecreasing(a + b)
  {
  }

  /** The merge-join appends proper monomials, each below the larger head exponent. */
  lemma {:induction false} MergeProper(p: Poly, q: Poly, sp: int, sq: int, ip: nat, iq: nat)
    requires Canonical(p) && Canonical(q) && p.Terms? && q.Terms?
    requires ip <= |p.ms| && iq <= |q.ms|
    ensures ProperMonos(Merge(p, q, sp, sq, ip, iq))
    ensures forall k :: 0 <= k < |Merge(p, q, sp, sq, ip, iq)| ==>
      Merge(p, q, sp, sq, ip, iq)[k].exp <= Max(Top(p.ms, ip), Top(q.ms, iq))
    decreases p, q, 0, |p.ms| - ip + |q.ms| - iq, 1
  {
    if ip < |p.ms| || iq < |q.ms| {
      var head, ip', iq' := MergeHead(p, q, sp, sq, ip, iq);
      MergeProper(p, q, sp, sq, ip', iq');
      KeepBefore(head, Merge(p, q, sp, sq, ip', iq'), Max(Top(p.ms, ip'), Top(q.ms, iq')));
    }
  }

  /** One step of the merge-join: the monomial it emits and where it goes on. */
  lemma MergeHead(p: Poly, q: Poly, sp: int, sq: int, ip: nat, iq: nat) returns (head: Mono, ip': nat, iq': nat)
    requires Canonical(p) && Canonical(q) && p.Terms? && q.Terms?
    requires ip <= |p.ms| && iq <= |q.ms| && (ip < |p.ms| || iq < |q.ms|)
    ensures ip' <= |p.ms| && iq' <= |q.ms| && ip + iq < ip' + iq'
    ensures Merge(p, q, sp, sq, ip, iq) == Keep(head) + Merge(p, q, sp, sq, ip', iq')
    ensures head.exp == Max(Top(p.ms, ip), Top(q.ms, iq)) && Max(Top(p.ms, ip'), Top(q.ms, iq')) < head.exp
    ensures head.exp >= 0 && Canonical(head.p)
    decreases p, q, 0, |p.ms| - ip + |q.ms| - iq, 0
  {
    if ip < |p.ms| {
      CoefficientCanonical(p, ip);
    }
    if iq < |q.ms| {
      CoefficientCanonical(q, iq);
    }
    if ip < |p.ms| && iq < |q.ms| && p.ms[ip].exp == q.ms[iq].exp {
      head, ip', iq' := Mono(p.ms[ip].exp, WeightedSum(p.ms[ip].p, q.ms[iq].p, sp, sq)), ip + 1, iq + 1;
      WeightedSumCanonical(p.ms[ip].p, q.ms[iq].p, sp, sq);
    } else if ip < |p.ms| && (iq == |q.ms| || p.ms[ip].exp > q.ms[iq].exp) {
      head, ip', iq' := ScaleMono(p.ms[ip], sp), ip + 1, iq;
      ScaleCanonical(p.ms[ip].p, sp);
    } else {
      head, ip', iq' := ScaleMono(q.ms[iq], sq), ip, iq + 1;
      ScaleCanonical(q.ms[iq].p, sq);
    }
  }

  /** A kept monomial above every exponent of a proper array starts a proper array. */
  lemma KeepBefore(head: Mono, rest: seq<Mono>, bound: int)
    requires head.exp >= 0 && Canonical(head.p) && bound < head.exp
    requires ProperMonos(rest) && forall k :: 0 <= k < |rest| ==> rest[k].exp <= bound
    ensures ProperMonos(Keep(head) + rest)
    ensures forall k :: 0 <= k < |Keep(head) + rest| ==> (Keep(head) + rest)[k].exp <= head.exp
  {
    ConcatStrictlyDecreasing(Keep(head), rest);
  }

  /** PolyAddMulByScalars keeps the canonical form. */
  lemma {:induction false} WeightedSumCanonical(p: Poly, q: Poly, sp: int, sq: int)
    requires Canonical(p) && Canonical(q)
    ensures Canonical(WeightedSum(p, q, sp, sq))
    decreases p, q, 1
  {
    if p.Coeff? && q.Coeff? {
    } else if q.Coeff? {
      ScaleCanonical(p, sp);
      if Scale(p, sp).Terms? {
        AddCoeffCanonical(Scale(p, sp), sq * q.c);
      }
    } else if p.Coeff? {
      ScaleCanonical(q, sq);
      if Scale(q, sq).Terms? {
        AddCoeffCanonical(Scale(q, sq), sp * p.c);
      }
    } else {
      MergeProper(p, q, sp, sq, 0, 0);
      CollapseCanonical(Merge(p, q, sp, sq, 0, 0));
    }
  }

  /** Value of a suffix: its first monomial plus the rest. */
  lemma EvalSuffixCons(ms: seq<Mono>, i: nat, xs: seq<int>)
    requires i < |ms|
    ensures Eval(Terms(ms[i..]), xs) == MonoValue(ms[i], xs) + Eval(Terms(ms[i + 1..]), xs)
  {
    EvalTermsCons(ms[i..], xs);
    assert ms[i..][1..] == ms[i + 1..];
  }

  /** Value of a kept monomial followed by more. */
  lemma EvalKeepCons(m: Mono, rest: seq<Mono>, xs: seq<int>)
    ensures Eval(Terms(Keep(m) + rest), xs) == MonoValue(m, xs) + Eval(Terms(rest), xs)
  {
    EvalTermsAppend(Keep(m), rest, xs);
    if m.p == Zero() {
      EvalTermsNil(xs);
    } else {
      EvalTermsSingle(m, xs);
    }
  }

  /** A monomial whose coefficient is a weighted sum is worth the weighted sum of the monomials. */
  lemma MonoValueWeighted(m: Mono, n: Mono, sp: int, sq: int, xs: seq<int>)
    requires Canonical(m.p) && Canonical(n.p) && m.exp == n.exp
    ensures MonoValue(Mono(m.exp, WeightedSum(m.p, n.p, sp, sq)), xs)
         == sp * MonoValue(m, xs) + sq * MonoValue(n, xs)
  {
    EvalWeightedSum(m.p, n.p, sp, sq, Tail(xs));
    WeightedProduct(sp, sq, Eval(m.p, Tail(xs)), Eval(n.p, Tail(xs)), Pow(Head(xs), m.exp));
  }

  lemma WeightedProduct(sp: int, sq: int, a: int, b: int, e: int)
    ensures (sp * a + sq * b) * e == sp * (a * e) + sq * (b * e)
  {
  }

  /** MonoMulByScalar scales the value of the monomial. */
  lemma MonoValueScaled(m: Mono, s: int, xs: seq<int>)
    ensures MonoValue(ScaleMono(m, s), xs) == s * MonoValue(m, xs)
  {
    EvalScale(m.p, s, Tail(xs));
    var e := Pow(Head(xs), m.exp);
    assert MonoValue(ScaleMono(m, s), xs) == (s * Eval(m.p, Tail(xs))) * e;
  }

  /** The appended monomials are worth `sp` times the rest of `p` plus `sq` times the rest of `q`. */
  lemma {:induction false} EvalMerge(p: Poly, q: Poly, sp: int, sq: int, ip: nat, iq: nat, xs: seq<int>)
    requires Canonical(p) && Canonical(q) && p.Terms? && q.Terms?
    requires ip <= |p.ms| && iq <= |q.ms|
    ensures Eval(Terms(Merge(p, q, sp, sq, ip, iq)), xs)
         == sp * Eval(Terms(p.ms[ip..]), xs) + sq * Eval(Terms(q.ms[iq..]), xs)
    decreases p, q, 0, |p.ms| - ip + |q.ms| - iq, 1
  {
    var P, Q := p.ms, q.ms;
    if ip < |P| && iq < |Q| && P[ip].exp == Q[iq].exp {
      EvalMergeEqual(p, q, sp, sq, ip, iq, xs);
    } else if ip < |P| && (iq == |Q| || P[ip].exp > Q[iq].exp) {
      EvalMergeFromP(p, q, sp, sq, ip, iq, xs);
    } else if iq < |Q| {
      EvalMergeFromQ(p, q, sp, sq, ip, iq, xs);
    } else {
      assert P[ip..] == [] && Q[iq..] == [];
      EvalTermsNil(xs);
    }
  }

  /** The step of EvalMerge for equal head exponents. */
  lemma {:induction false} EvalMergeEqual(p: Poly, q: Poly, sp: int, sq: int, ip: nat, iq: nat, xs: seq<int>)
    requires Canonical(p) && Canonical(q) && p.Terms? && q.Terms?
    requires ip < |p.ms| && iq < |q.ms| && p.ms[ip].exp == q.ms[iq].exp
    ensures Eval(Terms(Merge(p, q, sp, sq, ip, iq)), xs)
         == sp * Eval(Terms(p.ms[ip..]), xs) + sq * Eval(Terms(q.ms[iq..]), xs)
    decreases p, q, 0, |p.ms| - ip + |q.ms| - iq, 0
  {
    var P, Q := p.ms, q.ms;
    CoefficientCanonical(p, ip);
    CoefficientCanonical(q, iq);
    var head := Mono(P[ip].exp, WeightedSum(P[ip].p, Q[iq].p, sp, sq));
    var rest := Merge(p, q, sp, sq, ip + 1, iq + 1);
    MergeEqualUnfold(p, q, sp, sq, ip, iq);
    EvalMerge(p, q, sp, sq, ip + 1, iq + 1, xs);
    EvalKeepCons(head, rest, xs);
    MonoValueWeighted(P[ip], Q[iq], sp, sq, xs);
    EvalSuffixCons(P, ip, xs);
    EvalSuffixCons(Q, iq, xs);
    WeightedStep(Eval(Terms(Merge(p, q, sp, sq, ip, iq)), xs), MonoValue(head, xs), sp, sq,
                 MonoValue(P[ip], xs), MonoValue(Q[iq], xs),
                 Eval(Terms(P[ip + 1..]), xs), Eval(Terms(Q[iq + 1..]), xs),
                 Eval(Terms(P[ip..]), xs), Eval(Terms(Q[iq..]), xs));
  }

  /** The step of EvalMerge that takes the head of `p`. */
  lemma {:induction false} EvalMergeFromP(p: Poly, q: Poly, sp: int, sq: int, ip: nat, iq: nat, xs: seq<int>)
    requires Canonical(p) && Canonical(q) && p.Terms? && q.Terms?
    requires ip < |p.ms| && iq <= |q.ms| && (iq == |q.ms| || p.ms[ip].exp > q.ms[iq].exp)
    ensures Eval(Terms(Merge(p, q, sp, sq, ip, iq)), xs)
         == sp * Eval(Terms(p.ms[ip..]), xs) + sq * Eval(Terms(q.ms[iq..]), xs)
    decreases p, q, 0, |p.ms| - ip + |q.ms| - iq, 0
  {
    var P, Q := p.ms, q.ms;
    var head := ScaleMono(P[ip], sp);
    var rest := Merge(p, q, sp, sq, ip + 1, iq);
    MergeFromPUnfold(p, q, sp, sq, ip, iq);
    EvalMerge(p, q, sp, sq, ip + 1, iq, xs);
    EvalKeepCons(head, rest, xs);
    MonoValueScaled(P[ip], sp, xs);
    EvalSuffixCons(P, ip, xs);
    WeightedStep(Eval(Terms(Merge(p, q, sp, sq, ip, iq)), xs), MonoValue(head, xs), sp, sq,
                 MonoValue(P[ip], xs), 0, Eval(Terms(P[ip + 1..]), xs), Eval(Terms(Q[iq..]), xs),
                 Eval(Terms(P[ip..]), xs), Eval(Terms(Q[iq..]), xs));
  }

  /** The step of EvalMerge that takes the head of `q`. */
  lemma {:induction false} EvalMergeFromQ(p: Poly, q: Poly, sp: int, sq: int, ip: nat, iq: nat, xs: seq<int>)
    requires Canonical(p) && Canonical(q) && p.Terms? && q.Terms?
    requires ip <= |p.ms| && iq < |q.ms| && (ip == |p.ms| || p.ms[ip].exp < q.ms[iq].exp)
    ensures Eval(Terms(Merge(p, q, sp, sq, ip, iq)), xs)
         == sp * Eval(Terms(p.ms[ip..]), xs) + sq * Eval(Terms(q.ms[iq..]), xs)
    decreases p, q, 0, |p.ms| - ip + |q.ms| - iq, 0
  {
    var P, Q := p.ms, q.ms;
    var head := ScaleMono(Q[iq], sq);
    var rest := Merge(p, q, sp, sq, ip, iq + 1);
    MergeFromQUnfold(p, q, sp, sq, ip, iq);
    EvalMerge(p, q, sp, sq, ip, iq + 1, xs);
    EvalKeepCons(head, rest, xs);
    MonoValueScaled(Q[iq], sq, xs);
    EvalSuffixCons(Q, iq, xs);
    WeightedStep(Eval(Terms(Merge(p, q, sp, sq, ip, iq)), xs), MonoValue(head, xs), sp, sq,
                 0, MonoValue(Q[iq], xs), Eval(Terms(P[ip..]), xs), Eval(Terms(Q[iq + 1..]), xs),
                 Eval(Terms(P[ip..]), xs), Eval(Terms(Q[iq..]), xs));
  }

  /** Equal head exponents: the merge keeps their weighted sum, then merges the rest. */
  lemma MergeEqualUnfold(p: Poly, q: Poly, sp: int, sq: int, ip: nat, iq: nat)
    requires Canonical(p) && Canonical(q) && p.Terms? && q.Terms?
    requires ip < |p.ms| && iq < |q.ms| && p.ms[ip].exp == q.ms[iq].exp
    ensures Canonical(p.ms[ip].p) && Canonical(q.ms[iq].p)
    ensures Merge(p, q, sp, sq, ip, iq)
         == Keep(Mono(p.ms[ip].exp, WeightedSum(p.ms[ip].p, q.ms[iq].p, sp, sq)))
          + Merge(p, q, sp, sq, ip + 1, iq + 1)
  {
    CoefficientCanonical(p, ip);
    CoefficientCanonical(q, iq);
  }

  /** A higher head of `p`: the merge keeps it scaled by `sp`, then merges the rest. */
  lemma MergeFromPUnfold(p: Poly, q: Poly, sp: int, sq: int, ip: nat, iq: nat)
    requires Canonical(p) && Canonical(q) && p.Terms? && q.Terms?
    requires ip < |p.ms| && iq <= |q.ms| && (iq == |q.ms| || p.ms[ip].exp > q.ms[iq].exp)
    ensures Merge(p, q, sp, sq, ip, iq) == Keep(ScaleMono(p.ms[ip], sp)) + Merge(p, q, sp, sq, ip + 1, iq)
  {
  }

  /** A higher head of `q`: the merge keeps it scaled by `sq`, then merges the rest. */
  lemma MergeFromQUnfold(p: Poly, q: Poly, sp: int, sq: int, ip: nat, iq: nat)
    requires Canonical(p) && Canonical(q) && p.Terms? && q.Terms?
    requires ip <= |p.ms| && iq < |q.ms| && (ip == |p.ms| || p.ms[ip].exp < q.ms[iq].exp)
    ensures Merge(p, q, sp, sq, ip, iq) == Keep(ScaleMono(q.ms[iq], sq)) + Merge(p, q, sp, sq, ip, iq + 1)
  {
  }

  /**
   * One merge step in numbers: a head worth `sp * a + sq * b` before a rest
   * worth `sp * ra + sq * rb` is worth `sp * ea + sq * eb` for the suffixes.
   */
  lemma WeightedStep(t: int, k: int, sp: int, sq: int, a: int, b: int, ra: int, rb: int, ea: int, eb: int)
    requires t == k + (sp * ra + sq * rb) && k == sp * a + sq * b
    requires ea == a + ra && eb == b + rb
    ensures t == sp * ea + sq * eb
  {
  }

  /** PolyAddMulByScalars computes `sp * p + sq * q` at every point. */
  lemma {:induction false} EvalWeightedSum(p: Poly, q: Poly, sp: int, sq: int, xs: seq<int>)
    requires Canonical(p) && Canonical(q)
    ensures Eval(WeightedSum(p, q, sp, sq), xs) == sp * Eval(p, xs) + sq * Eval(q, xs)
    decreases p, q, 1
  {
    if p.Coeff? && q.Coeff? {
    } else if q.Coeff? {
      EvalScale(p, sp, xs);
      if Scale(p, sp).Terms? {
        ScaleCanonical(p, sp);
        EvalAddCoeff(Scale(p, sp), sq * q.c, xs);
      }
    } else if p.Coeff? {
      EvalScale(q, sq, xs);
      if Scale(q, sq).Terms? {
        ScaleCanonical(q, sq);
        EvalAddCoeff(Scale(q, sq), sp * p.c, xs);
      }
    } else {
      EvalMerge(p, q, sp, sq, 0, 0, xs);
      assert p.ms[0..] == p.ms && q.ms[0..] == q.ms;
      EvalCollapse(Merge(p, q, sp, sq, 0, 0), xs);
    }
  }
}
