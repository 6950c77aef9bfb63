/**
 * The array-filling and accumulator loops of poly.c, each proved to compute
 * its reference function: `power`, PolyMulByScalar, MonoMulByScalar,
 * PolyAddMulByScalars (with its scalar helper), PolyAdd, PolySub, PolyNeg,
 * PolyClone, PolyAt, PolyMul, PolyPow and PolyCompose.
 */
module PolyImpl {
  import opened PolyBase
  import opened PolyScale
  import opened PolySum
  import opened PolyIdentity
  import opened PolyCanon
  import opened PolyCanonImpl
  import opened PolyProduct
  import opened PolyOps

  /** `power`: square-and-multiply on integers; `result * x^exp` stays `x0^exp0`. */
  method Power(x0: int, exp0: int) returns (r: int)
    ensures r == Pow(x0, exp0)
  {
    var x, exp := x0, exp0;
    r := 1;
    while exp > 0
      invariant r * Pow(x, exp) == Pow(x0, exp0)
      decreases exp
    {
      if exp % 2 == 0 {
        PowSquare(x, exp);
        x := x * x;
        exp := exp / 2;
      }
      PowStep(r, x, exp);
      exp := exp - 1;
      r := r * x;
    }
  }

  lemma PowStep(r: int, x: int, n: int)
    requires n > 0
    ensures r * Pow(x, n) == (r * x) * Pow(x, n - 1)
  {
    MulAssoc(r, x, Pow(x, n - 1));
  }

  // ---------------------------------------------------------------------
  // Scalar multiplication.
  // ---------------------------------------------------------------------

  /** PolyMulByScalar: fills an array of `size + 1` slots with the non-zero scaled monomials. */
  method PolyMulByScalar(p: Poly, s: int) returns (r: Poly)
    requires Canonical(p)
    ensures r == Scale(p, s)
    decreases p, 2
  {
    if s == 0 {
      return Zero();
    }
    if p.Coeff? {
      return Coeff(s * p.c);
    }
    var monos, size := ScaledMonos(p, s);
    if size == 0 {
      return Zero();
    }
    if size == 1 && monos[0].p.Coeff? && monos[0].exp == 0 {
      return Coeff(monos[0].p.c);
    }
    r := Terms(monos[..size]);
  }

  /** The loop of PolyMulByScalar: each monomial scaled, the zero ones left out. */
  method ScaledMonos(p: Poly, s: int) returns (monos: array<Mono>, size: nat)
    requires Canonical(p) && p.Terms?
    ensures size <= monos.Length && monos[..size] == DropZeros(ScaleEach(p.ms, s))
    decreases p, 1
  {
    var ms := p.ms;
    monos := new Mono[|ms| + 1];
    size := 0;
    for i := 0 to |ms|
      invariant size <= i
      invariant monos[..size] == DropZeros(ScaleEach(ms[..i], s))
    {
      size := ScaleInto(p, s, i, monos, size);
    }
    assert ms[..|ms|] == ms;
  }

  /** One pass of the loop of PolyMulByScalar: monomial `i` scaled, and kept unless it became zero. */
  method ScaleInto(p: Poly, s: int, i: nat, monos: array<Mono>, size: nat) returns (size': nat)
    requires Canonical(p) && p.Terms? && size <= i < |p.ms| < monos.Length
    requires monos[..size] == DropZeros(ScaleEach(p.ms[..i], s))
    modifies monos
    ensures size' <= i + 1 && monos[..size'] == DropZeros(ScaleEach(p.ms[..i + 1], s))
    decreases p, 0
  {
    var m := p.ms[i];
    CoefficientCanonical(p, i);
    var t := PolyMulByScalar(m.p, s);
    ScaleEachSnoc(p.ms, i, s, t);
    size' := size;
    if t != Zero() {
      WriteAt(monos, size, Mono(m.exp, t));
      size' := size + 1;
    }
  }

  /** Writes `m` after the first `size` entries of `monos`. */
  method WriteAt(monos: array<Mono>, size: nat, m: Mono)
    requires size < monos.Length
    modifies monos
    ensures monos[..size + 1] == old(monos[..size]) + [m]
  {
    monos[size] := m;
    assert monos[..size + 1] == monos[..size] + [m];
  }

  lemma ScaleEachSnoc(ms: seq<Mono>, i: nat, s: int, t: Poly)
    requires i < |ms| && t == Scale(ms[i].p, s)
    ensures DropZeros(ScaleEach(ms[..i + 1], s)) ==
      DropZeros(ScaleEach(ms[..i], s)) + if t == Zero() then [] else [Mono(ms[i].exp, t)]
  {
    var a := ScaleEach(ms[..i + 1], s);
    assert a[..i] == ScaleEach(ms[..i], s);
  }

  /** MonoMulByScalar: the exponent is kept and the coefficient scaled. */
  method MonoMulByScalar(m: Mono, s: int) returns (r: Mono)
    requires Canonical(m.p)
    ensures r == ScaleMono(m, s)
  {
    var t := PolyMulByScalar(m.p, s);
    r := Mono(m.exp, t);
  }

  /** PolyClone is scaling by 1: the same polynomial. */
  method PolyClone(p: Poly) returns (r: Poly)
    requires Canonical(p)
    ensures r == Clone(p) && r == p
  {
    r := PolyMulByScalar(p, 1);
    ScaleOne(p);
  }

  /** PolyNeg is scaling by -1. */
  method PolyNeg(p: Poly) returns (r: Poly)
    requires Canonical(p)
    ensures r == Neg(p)
    ensures Canonical(r) && forall xs :: Eval(r, xs) == -Eval(p, xs)
  {
    r := PolyMulByScalar(p, -1);
    ScaleCanonical(p, -1);
    forall xs ensures Eval(r, xs) == -Eval(p, xs) {
      EvalScale(p, -1, xs);
    }
  }

  // ---------------------------------------------------------------------
  // The weighted sum.
  // ---------------------------------------------------------------------

  /** PolyAddMulByScalarsHandleCoeff: scales the non-scalar side and adds the other into its constant slot. */
  method PolyAddMulByScalarsHandleCoeff(p: Poly, q: Poly, sp: int, sq: int) returns (r: Poly)
    requires Canonical(p) && Canonical(q) && (p.Coeff? || q.Coeff?)
    ensures r == HandleCoeff(p, q, sp, sq)
  {
    if p.Coeff? && q.Coeff? {
      return Coeff(sp * p.c + sq * q.c);
    }
    if q.Coeff? {
      r := PolyMulByScalar(p, sp);
      if r.Coeff? {
        return Coeff(r.c + sq * q.c);
      }
      ScaleCanonical(p, sp);
      r := AddCoeff(r, sq * q.c);
    } else {
      r := PolyMulByScalar(q, sq);
      if r.Coeff? {
        return Coeff(r.c + sp * p.c);
      }
      ScaleCanonical(q, sq);
      r := AddCoeff(r, sp * p.c);
    }
  }

  /**
   * PolyAddMulByScalars: the merge-join over both arrays, descending by
   * exponent, into an array of `|p| + |q| + 1` slots; the monomials written so
   * far followed by what the merge still appends is always the whole merge.
   */
  method PolyAddMulByScalars(p: Poly, q: Poly, sp: int, sq: int) returns (r: Poly)
    requires Canonical(p) && Canonical(q)
    ensures r == WeightedSum(p, q, sp, sq)
    decreases p, q, 1
  {
    if p.Coeff? || q.Coeff? {
      r := PolyAddMulByScalarsHandleCoeff(p, q, sp, sq);
      return;
    }
    var P, Q := p.ms, q.ms;
    var monos := new Mono[|P| + |Q| + 1];
    var i: nat, ip: nat, iq: nat := 0, 0, 0;
    var tmp: Mono;
    while ip < |P| && iq < |Q|
      invariant ip <= |P| && iq <= |Q| && i <= ip + iq
      invariant monos[..i] + Merge(p, q, sp, sq, ip, iq) == Merge(p, q, sp, sq, 0, 0)
      decreases |P| - ip + |Q| - iq
    {
      tmp, ip, iq := MergeStep(p, q, sp, sq, ip, iq);
      i := Append(monos, i, tmp, Merge(p, q, sp, sq, ip, iq), Merge(p, q, sp, sq, 0, 0));
    }
    if ip == |P| {
      i := MergeRestOfQ(p, q, sp, sq, monos, i, iq);
    } else {
      i := MergeRestOfP(p, q, sp, sq, monos, i, ip);
    }
    if i == 0 {
      return Zero();
    }
    if i == 1 && monos[0].p.Coeff? && monos[0].exp == 0 {
      return Coeff(monos[0].p.c);
    }
    r := Terms(monos[..i]);
  }

  /** The trailing loop of PolyAddMulByScalars once `p` is used up: the rest of `q`, scaled. */
  method MergeRestOfQ(p: Poly, q: Poly, sp: int, sq: int, monos: array<Mono>, i0: nat, iq0: nat) returns (i: nat)
    requires Canonical(p) && Canonical(q) && p.Terms? && q.Terms?
    requires monos.Length == |p.ms| + |q.ms| + 1
    requires iq0 <= |q.ms| && i0 <= |p.ms| + iq0
    requires monos[..i0] + Merge(p, q, sp, sq, |p.ms|, iq0) == Merge(p, q, sp, sq, 0, 0)
    modifies monos
    ensures i <= |p.ms| + |q.ms|
    ensures monos[..i] == Merge(p, q, sp, sq, 0, 0)
    decreases p, q, 0, 1
  {
    var ip, iq := |p.ms|, iq0;
    var tmp: Mono;
    i := i0;
    while iq < |q.ms|
      invariant ip == |p.ms| && iq <= |q.ms| && i <= ip + iq
      invariant monos[..i] + Merge(p, q, sp, sq, ip, iq) == Merge(p, q, sp, sq, 0, 0)
      decreases |q.ms| - iq
    {
      tmp, ip, iq := MergeStep(p, q, sp, sq, ip, iq);
      i := Append(monos, i, tmp, Merge(p, q, sp, sq, ip, iq), Merge(p, q, sp, sq, 0, 0));
    }
    assert Merge(p, q, sp, sq, ip, iq) == [];
  }

  /** The trailing loop of PolyAddMulByScalars once `q` is used up: the rest of `p`, scaled. */
  method MergeRestOfP(p: Poly, q: Poly, sp: int, sq: int, monos: array<Mono>, i0: nat, ip0: nat) returns (i: nat)
    requires Canonical(p) && Canonical(q) && p.Terms? && q.Terms?
    requires monos.Length == |p.ms| + |q.ms| + 1
    requires ip0 <= |p.ms| && i0 <= ip0 + |q.ms|
    requires monos[..i0] + Merge(p, q, sp, sq, ip0, |q.ms|) == Merge(p, q, sp, sq, 0, 0)
    modifies monos
    ensures i <= |p.ms| + |q.ms|
    ensures monos[..i] == Merge(p, q, sp, sq, 0, 0)
    decreases p, q, 0, 1
  {
    var ip, iq := ip0, |q.ms|;
    var tmp: Mono;
    i := i0;
    while ip < |p.ms|
      invariant iq == |q.ms| && ip <= |p.ms| && i <= ip + iq
      invariant monos[..i] + Merge(p, q, sp, sq, ip, iq) == Merge(p, q, sp, sq, 0, 0)
      decreases |p.ms| - ip
    {
      tmp, ip, iq := MergeStep(p, q, sp, sq, ip, iq);
      i := Append(monos, i, tmp, Merge(p, q, sp, sq, ip, iq), Merge(p, q, sp, sq, 0, 0));
    }
    assert Merge(p, q, sp, sq, ip, iq) == [];
  }

  /**
   * One step of the merge-join: equal exponents add the coefficients
   * recursively, otherwise the larger exponent (or the only side left) is
   * scaled; the monomial may still be zero.
   */
  method MergeStep(p: Poly, q: Poly, sp: int, sq: int, ip: nat, iq: nat) returns (tmp: Mono, ip': nat, iq': nat)
    requires Canonical(p) && Canonical(q) && p.Terms? && q.Terms?
    requires ip <= |p.ms| && iq <= |q.ms| && (ip < |p.ms| || iq < |q.ms|)
    ensures ip <= ip' <= |p.ms| && iq <= iq' <= |q.ms| && ip + iq < ip' + iq' <= ip + iq + 2
    ensures ip == |p.ms| ==> ip' == ip
    ensures iq == |q.ms| ==> iq' == iq
    ensures Merge(p, q, sp, sq, ip, iq) == Keep(tmp) + Merge(p, q, sp, sq, ip', iq')
    decreases p, q, 0, 0
  {
    var P, Q := p.ms, q.ms;
    if ip < |P| && iq < |Q| && P[ip].exp == Q[iq].exp {
      CoefficientCanonical(p, ip);
      CoefficientCanonical(q, iq);
      var c := PolyAddMulByScalars(P[ip].p, Q[iq].p, sp, sq);
      tmp, ip', iq' := Mono(P[ip].exp, c), ip + 1, iq + 1;
      MergeEqualUnfold(p, q, sp, sq, ip, iq);
    } else if ip < |P| && (iq == |Q| || P[ip].exp > Q[iq].exp) {
      CoefficientCanonical(p, ip);
      tmp := MonoMulByScalar(P[ip], sp);
      ip', iq' := ip + 1, iq;
      MergeFromPUnfold(p, q, sp, sq, ip, iq);
    } else {
      CoefficientCanonical(q, iq);
      tmp := MonoMulByScalar(Q[iq], sq);
      ip', iq' := ip, iq + 1;
      MergeFromQUnfold(p, q, sp, sq, ip, iq);
    }
  }

  /** Writes `m` at `monos[i]` unless its coefficient is zero; the written prefix then grows by `Keep(m)`. */
  method Append(monos: array<Mono>, i: nat, m: Mono, ghost rest: seq<Mono>, ghost whole: seq<Mono>) returns (i': nat)
    requires i < monos.Length
    requires monos[..i] + (Keep(m) + rest) == whole
    modifies monos
    ensures i' == i + |Keep(m)|
    ensures monos[..i'] + rest == whole
  {
    i' := i;
    if m.p != Zero() {
      monos[i] := m;
      i' := i + 1;
    }
    assert monos[..i'] == old(monos[..i]) + Keep(m);
  }

  /** PolyAdd. */
  method PolyAdd(p: Poly, q: Poly) returns (r: Poly)
    requires Canonical(p) && Canonical(q)
    ensures r == Add(p, q)
  {
    r := PolyAddMulByScalars(p, q, 1, 1);
  }

  /** PolySub. */
  method PolySub(p: Poly, q: Poly) returns (r: Poly)
    requires Canonical(p) && Canonical(q)
    ensures r == Sub(p, q)
  {
    r := PolyAddMulByScalars(p, q, 1, -1);
  }

  // ---------------------------------------------------------------------
  // Evaluation at a point.
  // ---------------------------------------------------------------------

  /** PolyAt: scalars are returned as they are; otherwise `sum coeff * x^exp`, skipping zero powers. */
  method PolyAt(p: Poly, x: int) returns (r: Poly)
    requires Canonical(p)
    ensures r == At(p, x)
  {
    if p.Coeff? {
      return Coeff(p.c);
    }
    r := Zero();
    for i := 0 to |p.ms|
      invariant r == AtPrefix(p, x, i)
    {
      var s := Power(x, p.ms[i].exp);
      if s == 0 {
        continue;
      }
      CoefficientCanonical(p, i);
      r := PolyAddMulByScalars(r, p.ms[i].p, 1, s);
    }
  }

  // ---------------------------------------------------------------------
  // Multiplication.
  // ---------------------------------------------------------------------

  /** PolyMul: the cross product is written row by row into `|p| * |q|` slots and canonicalised. */
  method PolyMul(p: Poly, q: Poly) returns (r: Poly)
    requires Canonical(p) && Canonical(q)
    ensures r == Mul(p, q)
    decreases p, q, 1
  {
    if p == Zero() || q == Zero() {
      return Zero();
    }
    if p.Coeff? || q.Coeff? {
      if p.Coeff? && q.Coeff? {
        return Coeff(p.c * q.c);
      }
      if q.Coeff? {
        r := PolyMulByScalar(p, q.c);
        return;
      }
      r := PolyMulByScalar(q, p.c);
      return;
    }
    var monos := new Mono[|p.ms| * |q.ms|];
    var k: nat := 0;
    for i := 0 to |p.ms|
      invariant k == i * |q.ms| && k <= monos.Length
      invariant monos[..k] == Cross(p, q, i)
    {
      k := PolyMulRow(p, q, i, monos, k);
    }
    r := PolyAddMonos(monos[..k]);
  }

  /** The inner loop of PolyMul: the products of monomial `i` of `p` with every monomial of `q`. */
  method PolyMulRow(p: Poly, q: Poly, i: nat, monos: array<Mono>, k0: nat) returns (k: nat)
    requires Canonical(p) && Canonical(q) && p.Terms? && q.Terms? && i < |p.ms|
    requires monos.Length == |p.ms| * |q.ms| && k0 == i * |q.ms|
    requires monos[..k0] == Cross(p, q, i)
    modifies monos
    ensures k == (i + 1) * |q.ms| && k <= monos.Length
    ensures monos[..k] == Cross(p, q, i + 1)
    decreases p, q, 0
  {
    var P, Q := p.ms, q.ms;
    k := k0;
    RowEnd(i, |P|, |Q|);
    for j := 0 to |Q|
      invariant k == k0 + j && k0 + |Q| <= monos.Length
      invariant monos[..k] == Cross(p, q, i) + Row(p, q, i)[..j]
    {
      CoefficientCanonical(p, i);
      CoefficientCanonical(q, j);
      var c := PolyMul(P[i].p, Q[j].p);
      RowSnoc(p, q, i, j);
      monos[k] := Mono(P[i].exp + Q[j].exp, c);
      k := k + 1;
    }
    assert Row(p, q, i)[..|Q|] == Row(p, q, i);
  }

  lemma RowSnoc(p: Poly, q: Poly, i: nat, j: nat)
    requires Canonical(p) && Canonical(q) && p.Terms? && q.Terms?
    requires i < |p.ms| && j < |q.ms|
    ensures Canonical(p.ms[i].p) && Canonical(q.ms[j].p)
    ensures Row(p, q, i)[..j + 1] == Row(p, q, i)[..j] + [Mono(p.ms[i].exp + q.ms[j].exp, Mul(p.ms[i].p, q.ms[j].p))]
  {
    CoefficientCanonical(p, i);
    CoefficientCanonical(q, j);
    assert Row(p, q, i)[j] == Product(p, q, i, j);
  }

  lemma RowEnd(i: nat, n: nat, m: nat)
    requires i < n
    ensures i * m + m == (i + 1) * m <= n * m
  {
  }

  // ---------------------------------------------------------------------
  // Powers.
  // ---------------------------------------------------------------------

  /**
   * PolyPow: 1 for exponent 0, zero for a zero base, otherwise square and
   * multiply; a negative exponent leaves the result 1. The early return for a
   * zero factor inside the loop cannot happen: the factors stay non-zero at a
   * point where `p` is non-zero.
   */
  method PolyPow(p: Poly, exp: int) returns (r: Poly)
    requires Canonical(p)
    ensures exp >= 0 ==> r == PowRef(p, exp)
    ensures exp < 0 ==> r == if p == Zero() then Zero() else Coeff(1)
  {
    if exp == 0 {
      return Coeff(1);
    }
    if p == Zero() {
      if exp > 0 {
        PowRefZero(exp);
      }
      return Zero();
    }
    ghost var w := NonZeroWitness(p);
    r := Coeff(1);
    var mul := PolyClone(p);
    if exp > 0 {
      MulOne(PowRef(p, exp));
    }
    var e := exp;
    while e > 0
      invariant Canonical(r) && Canonical(mul)
      invariant e < 0 ==> e == exp && r == Coeff(1)
      invariant e >= 0 ==> PowKept(p, exp, r, mul, e)
      invariant Eval(mul, w) != 0 && Eval(r, w) != 0
      decreases e
    {
      if e % 2 == 0 {
        SquareStep(p, exp, r, mul, e, w);
        mul := PolyMul(mul, mul);
        e := e / 2;
      } else {
        if mul == Zero() || r == Zero() {
          assert false;
        }
        PeelStep(p, exp, r, mul, e, w);
        r := PolyMul(r, mul);
        e := e - 1;
      }
    }
    if e == 0 {
      MulOne(r);
    }
  }

  /** The invariant of the loop of PolyPow: `r * mul^e` is `p^exp`. */
  predicate PowKept(p: Poly, exp: int, r: Poly, mul: Poly, e: nat)
    requires Canonical(p) && Canonical(r) && Canonical(mul)
  {
    exp >= 0 && Mul(r, PowRef(mul, e)) == PowRef(p, exp)
  }

  /** Squaring the base of PolyPow and halving an even exponent keeps the power and a non-zero value. */
  lemma SquareStep(p: Poly, exp: int, r: Poly, mul: Poly, e: int, w: seq<int>)
    requires Canonical(p) && Canonical(r) && Canonical(mul) && e > 0 && e % 2 == 0
    requires PowKept(p, exp, r, mul, e) && Eval(mul, w) != 0
    ensures Canonical(Mul(mul, mul)) && PowKept(p, exp, r, Mul(mul, mul), e / 2) && Eval(Mul(mul, mul), w) != 0
  {
    PowRefSquare(mul, e);
    EvalMul(mul, mul, w);
    NonZeroProduct(Eval(mul, w), Eval(mul, w));
  }

  /** Taking one factor of the base of PolyPow into the result keeps the power and a non-zero value. */
  lemma PeelStep(p: Poly, exp: int, r: Poly, mul: Poly, e: int, w: seq<int>)
    requires Canonical(p) && Canonical(r) && Canonical(mul) && e > 0
    requires PowKept(p, exp, r, mul, e) && Eval(mul, w) != 0 && Eval(r, w) != 0
    ensures Canonical(Mul(r, mul)) && PowKept(p, exp, Mul(r, mul), mul, e - 1) && Eval(Mul(r, mul), w) != 0
  {
    PowRefPeel(r, mul, e);
    EvalMul(r, mul, w);
    NonZeroProduct(Eval(r, w), Eval(mul, w));
  }

  // ---------------------------------------------------------------------
  // Composition.
  // ---------------------------------------------------------------------

  /** PolyCompose: `sum q[k-1]^exp * compose(coeff, k-1)`, or the constant part once `k` is 0. */
  method PolyCompose(p: Poly, k: nat, q: seq<Poly>) returns (r: Poly)
    requires Canonical(p) && k <= |q| && AllCanonical(q)
    ensures r == Compose(p, k, q)
    decreases p, 2
  {
    if p.Coeff? {
      return Coeff(p.c);
    }
    var last := |p.ms| - 1;
    if k == 0 {
      if p.ms[last].exp == 0 {
        CoefficientCanonical(p, last);
        r := PolyCompose(p.ms[last].p, 0, q);
        return;
      }
      return Zero();
    }
    r := ComposeSum(p, k, q);
  }

  /** The loop of PolyCompose: the terms `q[k-1]^exp * compose(coeff, k-1)` added up. */
  method ComposeSum(p: Poly, k: nat, q: seq<Poly>) returns (r: Poly)
    requires Canonical(p) && p.Terms? && 1 <= k <= |q| && AllCanonical(q)
    ensures r == ComposePrefix(p, k, q, |p.ms|)
    decreases p, 1
  {
    r := Zero();
    for i := 0 to |p.ms|
      invariant r == ComposePrefix(p, k, q, i)
    {
      r := ComposeInto(p, k, q, i, r);
    }
  }

  /** One pass of the loop of PolyCompose: the term of monomial `i` added to `r`. */
  method ComposeInto(p: Poly, k: nat, q: seq<Poly>, i: nat, r: Poly) returns (r': Poly)
    requires Canonical(p) && p.Terms? && 1 <= k <= |q| && AllCanonical(q) && i < |p.ms|
    requires r == ComposePrefix(p, k, q, i)
    ensures r' == ComposePrefix(p, k, q, i + 1)
    decreases p, 0
  {
    CoefficientCanonical(p, i);
    var p1 := PolyPow(q[k - 1], p.ms[i].exp);
    var p2 := PolyCompose(p.ms[i].p, k - 1, q);
    var p3 := PolyMul(p1, p2);
    ComposePrefixStep(p, k, q, i);
    r' := PolyAdd(r, p3);
  }

  /** One more monomial of `p` adds its term to the accumulator of PolyCompose. */
  lemma ComposePrefixStep(p: Poly, k: nat, q: seq<Poly>, i: nat)
    requires Canonical(p) && p.Terms? && 1 <= k <= |q| && AllCanonical(q) && i < |p.ms|
    ensures Canonical(p.ms[i].p) && p.ms[i].exp >= 0
    ensures ComposePrefix(p, k, q, i + 1) ==
      Add(ComposePrefix(p, k, q, i), Mul(PowRef(q[k - 1], p.ms[i].exp), Compose(p.ms[i].p, k - 1, q)))
  {
    CoefficientCanonical(p, i);
  }
}
