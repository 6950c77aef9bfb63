/**
 * The canonicaliser behind PolyAddMonos, PolyOwnMonos and PolyCloneMonos:
 * sort the monomials by descending exponent (monoCmp), walk the sorted array
 * adding neighbours with equal exponents and flagging zero or consumed
 * entries, then keep what survived, in order, and collapse.
 *
 * `Canon` is the reference value; the array methods in PolyCanonImpl are
 * proved to return it whatever sorted order `qsort` happens to produce.
 */
module PolyCanon {
  import opened PolyBase
  import opened PolyScale
  import opened PolySum
  import opened PolyIdentity

  /** What the canonicalisers accept: coefficients in canonical form and non-negative exponents. */
  predicate ValidMonos(ms: seq<Mono>) {
    forall i :: 0 <= i < |ms| ==> ms[i].exp >= 0 && Canonical(ms[i].p)
  }

  /** The order `qsort` with monoCmp leaves: exponents do not increase (equal ones in any order). */
  predicate SortedByExp(s: seq<Mono>) {
    forall i, j :: 0 <= i < j < |s| ==> s[i].exp >= s[j].exp
  }

  /** Inserts `m` before the first monomial whose exponent is not larger. */
  function Insert(m: Mono, s: seq<Mono>): (r: seq<Mono>)
    ensures |r| == |s| + 1
    ensures multiset(r) == multiset(s) + multiset{m}
    ensures r[0] == m || (s != [] && r[0] == s[0])
  {
    if s == [] || m.exp >= s[0].exp then [m] + s
    else
      assert s == [s[0]] + s[1..];
      [s[0]] + Insert(m, s[1..])
  }

  lemma {:induction false} InsertSorted(m: Mono, s: seq<Mono>)
    requires SortedByExp(s)
    ensures SortedByExp(Insert(m, s))
  {
    if s != [] && m.exp < s[0].exp {
      var t := Insert(m, s[1..]);
      InsertSorted(m, s[1..]);
      assert t[0].exp <= s[0].exp;
      forall i, j | 0 <= i < j < |t| + 1 ensures ([s[0]] + t)[i].exp >= ([s[0]] + t)[j].exp {
        if i == 0 {
          assert t[0].exp >= t[j - 1].exp || j - 1 == 0;
        }
      }
    }
  }

  /** One particular sorted permutation: insertion sort. */
  function SortByExp(s: seq<Mono>): (r: seq<Mono>)
    ensures multiset(r) == multiset(s)
    ensures SortedByExp(r)
  {
    if s == [] then []
    else
      assert s == [s[0]] + s[1..];
      InsertSorted(s[0], SortByExp(s[1..]));
      Insert(s[0], SortByExp(s[1..]))
  }

  /**
   * The flagging pass over a sorted array, as a value: a zero entry is
   * dropped, an entry whose successor has the same exponent is added into
   * the successor (which is then examined in turn), any other entry is kept.
   */
  function MergeRuns(s: seq<Mono>): seq<Mono>
    requires forall i :: 0 <= i < |s| ==> Canonical(s[i].p)
    decreases |s|
  {
    if |s| == 0 then []
    else if s[0].p == Zero() then MergeRuns(s[1..])
    else if |s| >= 2 && s[0].exp == s[1].exp then
      WeightedSumCanonical(s[0].p, s[1].p, 1, 1);
      MergeRuns([Mono(s[1].exp, Add(s[0].p, s[1].p))] + s[2..])
    else [s[0]] + MergeRuns(s[1..])
  }

  /** PolyAddMonos: the canonical polynomial equal to the sum of the monomials `ms`. */
  function Canon(ms: seq<Mono>): Poly
    requires ValidMonos(ms)
  {
    var s := SortByExp(ms);
    assert forall i :: 0 <= i < |s| ==> s[i] in multiset(ms);
    Collapse(MergeRuns(s))
  }

  // ---------------------------------------------------------------------
  // Sorting does not change the value.
  // ---------------------------------------------------------------------

  /** The monomials of a list can be summed in any order. */
  lemma {:induction false} EvalPermutation(a: seq<Mono>, b: seq<Mono>, xs: seq<int>)
    requires multiset(a) == multiset(b)
    ensures Eval(Terms(a), xs) == Eval(Terms(b), xs)
    decreases |a|
  {
    if a == [] {
      assert |b| == |multiset(b)| == 0;
    } else {
      assert a[0] in multiset(b);
      var k :| 0 <= k < |b| && b[k] == a[0];
      var rest := b[..k] + b[k + 1..];
      assert b == b[..k] + [b[k]] + b[k + 1..];
      assert a == [a[0]] + a[1..];
      assert multiset(a) == multiset(a[1..]) + multiset{a[0]};
      calc {
        multiset(b);
        multiset(b[..k] + [b[k]] + b[k + 1..]);
        multiset(b[..k]) + multiset{b[k]} + multiset(b[k + 1..]);
        multiset(rest) + multiset{b[k]};
      }
      assert multiset(a[1..]) == multiset(a) - multiset{a[0]};
      assert multiset(rest) == multiset(b) - multiset{b[k]};
      EvalPermutation(a[1..], rest, xs);
      EvalTermsCons(a, xs);
      EvalTermsAppend(b[..k] + [b[k]], b[k + 1..], xs);
      EvalTermsSnoc(b[..k], b[k], xs);
      EvalTermsAppend(b[..k], b[k + 1..], xs);
    }
  }

  // ---------------------------------------------------------------------
  // The flagging pass.
  // ---------------------------------------------------------------------

  /** Over a sorted list of valid monomials the pass leaves proper entries, none above the first exponent. */
  lemma {:induction false} MergeRunsProper(s: seq<Mono>)
    requires ValidMonos(s) && SortedByExp(s)
    ensures ProperMonos(MergeRuns(s))
    ensures |s| > 0 ==> forall k :: 0 <= k < |MergeRuns(s)| ==> MergeRuns(s)[k].exp <= s[0].exp
    decreases |s|
  {
    if |s| == 0 {
    } else if s[0].p == Zero() {
      MergeRunsProper(s[1..]);
      if |s| > 1 {
        assert s[1].exp <= s[0].exp;
      }
    } else if |s| >= 2 && s[0].exp == s[1].exp {
      WeightedSumCanonical(s[0].p, s[1].p, 1, 1);
      var t := [Mono(s[1].exp, Add(s[0].p, s[1].p))] + s[2..];
      assert ValidMonos(t) && SortedByExp(t);
      MergeRunsProper(t);
    } else {
      var r := MergeRuns(s[1..]);
      MergeRunsProper(s[1..]);
      if |s| > 1 {
        assert s[1].exp < s[0].exp;
        assert forall k :: 0 <= k < |r| ==> r[k].exp < s[0].exp;
      }
      ConcatStrictlyDecreasing([s[0]], r);
    }
  }

  /** Adding equal-exponent neighbours and dropping zeros does not change the value. */
  lemma {:induction false} EvalMergeRuns(s: seq<Mono>, xs: seq<int>)
    requires forall i :: 0 <= i < |s| ==> Canonical(s[i].p)
    ensures Eval(Terms(MergeRuns(s)), xs) == Eval(Terms(s), xs)
    decreases |s|
  {
    if |s| == 0 {
    } else if s[0].p == Zero() {
      EvalMergeRuns(s[1..], xs);
      EvalTermsCons(s, xs);
    } else if |s| >= 2 && s[0].exp == s[1].exp {
      WeightedSumCanonical(s[0].p, s[1].p, 1, 1);
      var m := Mono(s[1].exp, Add(s[0].p, s[1].p));
      var t := [m] + s[2..];
      EvalMergeRuns(t, xs);
      EvalMergePair(s, xs);
    } else {
      EvalMergeRuns(s[1..], xs);
      EvalTermsCons(s, xs);
      EvalTermsCons([s[0]] + MergeRuns(s[1..]), xs);
      assert ([s[0]] + MergeRuns(s[1..]))[1..] == MergeRuns(s[1..]);
    }
  }

  /** Two neighbours of one exponent have the value of the one monomial with their sum. */
  lemma EvalMergePair(s: seq<Mono>, xs: seq<int>)
    requires |s| >= 2 && s[0].exp == s[1].exp && Canonical(s[0].p) && Canonical(s[1].p)
    ensures Canonical(Add(s[0].p, s[1].p))
    ensures Eval(Terms([Mono(s[1].exp, Add(s[0].p, s[1].p))] + s[2..]), xs) == Eval(Terms(s), xs)
  {
    WeightedSumCanonical(s[0].p, s[1].p, 1, 1);
    var m := Mono(s[1].exp, Add(s[0].p, s[1].p));
    var t := [m] + s[2..];
    EvalTermsCons(t, xs);
    assert t[1..] == s[2..];
    EvalTermsCons(s, xs);
    EvalTermsCons(s[1..], xs);
    assert s[1..][1..] == s[2..];
    EvalWeightedSum(s[0].p, s[1].p, 1, 1, Tail(xs));
    Distribute(Eval(s[0].p, Tail(xs)), Eval(s[1].p, Tail(xs)), Pow(Head(xs), s[1].exp));
  }

  // ---------------------------------------------------------------------
  // Properties of PolyAddMonos.
  // ---------------------------------------------------------------------

  /** Any sorted arrangement of valid monomials passes into proper entries of the same value. */
  lemma SortedCanonical(ms: seq<Mono>, s: seq<Mono>, xs: seq<int>)
    requires ValidMonos(ms) && SortedByExp(s) && multiset(s) == multiset(ms)
    ensures ValidMonos(s)
    ensures Canonical(Collapse(MergeRuns(s)))
    ensures Eval(Collapse(MergeRuns(s)), xs) == Eval(Terms(ms), xs)
  {
    forall i | 0 <= i < |s| ensures s[i].exp >= 0 && Canonical(s[i].p) {
      assert s[i] in multiset(ms);
    }
    MergeRunsProper(s);
    CollapseCanonical(MergeRuns(s));
    EvalCollapse(MergeRuns(s), xs);
    EvalMergeRuns(s, xs);
    EvalPermutation(s, ms, xs);
  }

  /** PolyAddMonos returns a canonical polynomial whose value is the sum of the monomials' values. */
  lemma CanonCorrect(ms: seq<Mono>, xs: seq<int>)
    requires ValidMonos(ms)
    ensures Canonical(Canon(ms))
    ensures Eval(Canon(ms), xs) == Eval(Terms(ms), xs)
  {
    SortedCanonical(ms, SortByExp(ms), xs);
  }

  /** With no monomials, or only zero ones, PolyAddMonos returns zero. */
  lemma CanonEmpty(ms: seq<Mono>)
    requires ValidMonos(ms)
    requires forall i :: 0 <= i < |ms| ==> ms[i].p == Zero()
    ensures Canon(ms) == Zero()
  {
    var s := SortByExp(ms);
    forall i | 0 <= i < |s| ensures s[i].p == Zero() {
      assert s[i] in multiset(ms);
    }
    MergeRunsZeros(s);
  }

  lemma {:induction false} MergeRunsZeros(s: seq<Mono>)
    requires forall i :: 0 <= i < |s| ==> Canonical(s[i].p) && s[i].p == Zero()
    ensures MergeRuns(s) == []
    decreases |s|
  {
    if |s| > 0 {
      MergeRunsZeros(s[1..]);
    }
  }

  /**
   * The result does not depend on how `qsort` orders monomials with equal
   * exponents: merging any sorted permutation gives `Canon(ms)`.
   */
  lemma SortOrderIrrelevant(ms: seq<Mono>, s: seq<Mono>)
    requires ValidMonos(ms) && SortedByExp(s) && multiset(s) == multiset(ms)
    ensures ValidMonos(s)
    ensures Collapse(MergeRuns(s)) == Canon(ms)
  {
    SortedCanonical(ms, s, []);
    CanonCorrect(ms, []);
    forall xs ensures Eval(Collapse(MergeRuns(s)), xs) == Eval(Canon(ms), xs) {
      SortedCanonical(ms, s, xs);
      CanonCorrect(ms, xs);
    }
    AgreeEverywhereEqual(Collapse(MergeRuns(s)), Canon(ms));
  }

  /** A canonical polynomial's own monomials canonicalise back to it. */
  lemma CanonOfCanonical(p: Poly)
    requires Canonical(p) && p.Terms?
    ensures ValidMonos(p.ms)
    ensures Canon(p.ms) == p
  {
    forall xs ensures Eval(Canon(p.ms), xs) == Eval(p, xs) {
      CanonCorrect(p.ms, xs);
    }
    CanonCorrect(p.ms, []);
    AgreeEverywhereEqual(Canon(p.ms), p);
  }
}
