/**
 * PolyAddMonos, PolyOwnMonos and PolyCloneMonos as the array procedures
 * they are in poly.c: copy into a working array (with a placeholder after
 * the last entry where the source adds one), sort, flag zero and consumed
 * entries in place with a negative exponent while counting the survivors,
 * sort again so that flagged entries go to the back, and collapse.
 */
module PolyCanonImpl {
  import opened PolyBase
  import opened PolyScale
  import opened PolySum
  import opened PolyCanon

  /** The entries that are not flagged (non-negative exponent), in array order. */
  function Kept(s: seq<Mono>): (r: seq<Mono>)
    ensures |r| <= |s|
  {
    if s == [] then []
    else Kept(s[..|s| - 1]) + (if s[|s| - 1].exp >= 0 then [s[|s| - 1]] else [])
  }

  /**
   * `qsort(a, n, sizeof(Mono), monoCmp)`: the library promises only some
   * arrangement sorted by descending exponent, so any one may be picked.
   */
  method SortByExpInPlace(a: array<Mono>)
    modifies a
    ensures SortedByExp(a[..]) && multiset(a[..]) == multiset(old(a[..]))
  {
    var w := SortByExp(a[..]);
    assert SortedByExp(w) && multiset(w) == multiset(a[..]);
    var s :| SortedByExp(s) && multiset(s) == multiset(a[..]);
    assert |s| == |multiset(s)| == |multiset(a[..])| == a.Length;
    WriteAll(a, s);
  }

  /** The sorted arrangement written over the array, entry by entry. */
  method WriteAll(a: array<Mono>, s: seq<Mono>)
    requires |s| == a.Length
    modifies a
    ensures a[..] == s
  {
    var i := 0;
    while i < a.Length
      invariant 0 <= i <= a.Length
      invariant a[..i] == s[..i]
    {
      a[i] := s[i];
      assert a[..i + 1] == a[..i] + [a[i]];
      i := i + 1;
    }
    assert a[..] == a[..a.Length];
  }

  /**
   * The flagging loop shared by the three canonicalisers. A zero entry is
   * flagged; an entry whose successor in the array has the same exponent is
   * added into the successor and flagged; `size` counts the rest down from
   * `count`. The successor is read only where the array has one, which for
   * PolyAddMonos and PolyCloneMonos is always (the placeholder), and for
   * PolyOwnMonos is the guard `i < count - 1`.
   */
  method FlagRuns(a: array<Mono>, count: nat, flag: int) returns (size: nat)
    requires count <= a.Length <= count + 1
    requires flag < 0
    requires SortedByExp(a[..count]) && ValidMonos(a[..count])
    requires a.Length == count + 1 ==> a[count].exp < 0
    modifies a
    ensures Kept(a[..]) == MergeRuns(old(a[..count]))
    ensures size == |Kept(a[..])|
    ensures a.Length == count + 1 ==> a[count] == old(a[count])
  {
    ghost var s0 := a[..count];
    assert a[..][..0] == [] && a[..][0..count] == s0;
    assert FlagInvariant(a[..], count, 0, s0);
    size := count;
    var i := 0;
    while i < count
      invariant 0 <= i <= count
      invariant FlagInvariant(a[..], count, i, s0)
      invariant a.Length == count + 1 ==> a[count] == old(a[count])
      invariant size == |Kept(a[..][..i])| + (count - i)
    {
      size := FlagAt(a, count, i, flag, s0, size);
      i := i + 1;
    }
    FlagDone(a[..], count, s0);
  }

  /** One iteration of the flagging loop, at index `i`. */
  method FlagAt(a: array<Mono>, count: nat, i: nat, flag: int, ghost s0: seq<Mono>, size: nat) returns (size': nat)
    requires i < count && flag < 0
    requires FlagInvariant(a[..], count, i, s0)
    requires size == |Kept(a[..][..i])| + (count - i)
    modifies a
    ensures FlagInvariant(a[..], count, i + 1, s0)
    ensures size' == |Kept(a[..][..i + 1])| + (count - i - 1)
    ensures a.Length == count + 1 ==> a[count] == old(a[count])
  {
    var cur := a[i];
    ghost var g := a[..];
    if cur.p == Zero() {
      a[i] := cur.(exp := flag);
      assert a[..] == g[i := cur.(exp := flag)];
      StepDropped(g, count, i, flag, s0);
      size' := size - 1;
    } else if i + 1 < a.Length && cur.exp == a[i + 1].exp {
      var next := a[i + 1];
      MergeReady(g, count, i, s0);
      a[i + 1] := next.(p := Add(cur.p, next.p));
      a[i] := cur.(exp := flag);
      assert a[..] == g[i + 1 := next.(p := Add(cur.p, next.p))][i := cur.(exp := flag)];
      StepMerged(g, a[..], count, i, s0, next.(p := Add(cur.p, next.p)), cur.(exp := flag));
      size' := size - 1;
    } else {
      StepKept(g, count, i, s0);
      size' := size;
    }
  }

  /**
   * The state of the flagging loop before index `i`: the entries from `i`
   * on are still sorted and valid, and the survivors so far followed by the pass over the rest give the
   * pass over the sorted input `s0`.
   */
  ghost predicate FlagInvariant(g: seq<Mono>, count: nat, i: nat, s0: seq<Mono>) {
    i <= count <= |g| <= count + 1 &&
    (|g| == count + 1 ==> g[count].exp < 0) &&
    ValidSorted(g[i..count]) && ValidMonos(s0) &&
    Kept(g[..i]) + MergeRuns(g[i..count]) == MergeRuns(s0)
  }

  /** The part of the array the flagging loop has not reached yet. */
  ghost predicate ValidSorted(t: seq<Mono>) {
    ValidMonos(t) && SortedByExp(t)
  }

  lemma ValidSortedTail(t: seq<Mono>)
    requires |t| > 0 && ValidSorted(t)
    ensures ValidSorted(t[1..]) && t[0].exp >= 0 && Canonical(t[0].p)
    ensures |t| >= 2 ==> t[0].exp >= t[1].exp
  {
  }

  lemma KeptSnoc(pre: seq<Mono>, x: Mono)
    ensures Kept(pre + [x]) == Kept(pre) + (if x.exp >= 0 then [x] else [])
  {
    assert (pre + [x])[..|pre|] == pre;
  }

  /** Flagging a zero entry: it is not kept, and the pass skips it. */
  lemma StepDropped(g: seq<Mono>, count: nat, i: nat, flag: int, s0: seq<Mono>)
    requires FlagInvariant(g, count, i, s0) && i < count && flag < 0
    requires g[i].p == Zero()
    ensures var h := g[i := g[i].(exp := flag)];
      FlagInvariant(h, count, i + 1, s0) && |Kept(h[..i + 1])| == |Kept(g[..i])|
  {
    var h := g[i := g[i].(exp := flag)];
    DroppedSlices(g, h, count, i, g[i].(exp := flag));
    KeptSnoc(g[..i], h[i]);
    MergeRunsDrop(g[i..count]);
    FlagInvariantMoved(g, h, count, i, i + 1, s0);
  }

  lemma DroppedSlices(g: seq<Mono>, h: seq<Mono>, count: nat, i: nat, flagged: Mono)
    requires i < count <= |g| && h == g[i := flagged]
    ensures |h| == |g| && (|g| == count + 1 ==> h[count] == g[count])
    ensures h[i + 1..count] == g[i..count][1..]
    ensures h[..i + 1] == g[..i] + [flagged]
  {
  }

  /** A zero entry leaves nothing in the merged sequence. */
  lemma MergeRunsDrop(rest: seq<Mono>)
    requires |rest| > 0 && ValidSorted(rest) && rest[0].p == Zero()
    ensures ValidSorted(rest[1..]) && MergeRuns(rest) == MergeRuns(rest[1..])
  {
    ValidSortedTail(rest);
  }

  /** An entry with an equal-exponent successor: the successor is inside the scanned part and the sum is valid. */
  lemma MergeReady(g: seq<Mono>, count: nat, i: nat, s0: seq<Mono>)
    requires FlagInvariant(g, count, i, s0) && i < count
    requires g[i].p != Zero() && i + 1 < |g| && g[i].exp == g[i + 1].exp
    ensures i + 1 < count && Canonical(g[i].p) && Canonical(g[i + 1].p)
    ensures Canonical(Add(g[i].p, g[i + 1].p))
    ensures var t := [g[i + 1].(p := Add(g[i].p, g[i + 1].p))] + g[i + 2..count];
      ValidSorted(t) && MergeRuns(t) == MergeRuns(g[i..count])
  {
    var rest := g[i..count];
    assert rest[0] == g[i];
    ValidSortedTail(rest);
    assert i + 1 < count;
    assert rest[1] == g[i + 1] && rest[2..] == g[i + 2..count];
    ValidSortedTail(rest[1..]);
    MergedTail(rest);
    assert g[i + 1].(p := Add(g[i].p, g[i + 1].p)) == Mono(g[i + 1].exp, Add(g[i].p, g[i + 1].p));
  }

  /** After adding entry `i` into entry `i + 1` (now `sum`) and flagging it, the loop state holds at `i + 1`. */
  lemma StepMerged(g: seq<Mono>, h: seq<Mono>, count: nat, i: nat, s0: seq<Mono>, sum: Mono, flagged: Mono)
    requires FlagInvariant(g, count, i, s0) && i + 1 < count && flagged.exp < 0
    requires h == g[i + 1 := sum][i := flagged]
    requires ValidSorted([sum] + g[i + 2..count]) && MergeRuns([sum] + g[i + 2..count]) == MergeRuns(g[i..count])
    ensures FlagInvariant(h, count, i + 1, s0) && |Kept(h[..i + 1])| == |Kept(g[..i])|
  {
    UpdatedSlices(g, h, count, i, sum, flagged);
    KeptSnoc(g[..i], flagged);
    FlagInvariantMoved(g, h, count, i, i + 1, s0);
  }

  /**
   * The loop state carries over to `h` at `j` when `h` keeps the
   * placeholder, and its survivors and the pass over its remaining part
   * are those of `g` at `i`.
   */
  lemma FlagInvariantMoved(g: seq<Mono>, h: seq<Mono>, count: nat, i: nat, j: nat, s0: seq<Mono>)
    requires FlagInvariant(g, count, i, s0) && j <= count
    requires |h| == |g| && (|g| == count + 1 ==> h[count] == g[count])
    requires ValidSorted(h[j..count])
    requires Kept(h[..j]) == Kept(g[..i]) && MergeRuns(h[j..count]) == MergeRuns(g[i..count])
    ensures FlagInvariant(h, count, j, s0)
  {
  }

  lemma UpdatedSlices(g: seq<Mono>, h: seq<Mono>, count: nat, i: nat, sum: Mono, flagged: Mono)
    requires i + 1 < count <= |g| && h == g[i + 1 := sum][i := flagged]
    ensures |h| == |g| && (|g| == count + 1 ==> h[count] == g[count])
    ensures h[i + 1..count] == [sum] + g[i + 2..count]
    ensures h[..i + 1] == g[..i] + [flagged]
  {
  }

  /** The pass over a run head that is added into its successor continues from the sum. */
  lemma MergedTail(rest: seq<Mono>)
    requires |rest| >= 2 && ValidSorted(rest)
    requires rest[0].p != Zero() && rest[0].exp == rest[1].exp
    ensures Canonical(Add(rest[0].p, rest[1].p))
    ensures var t := [Mono(rest[1].exp, Add(rest[0].p, rest[1].p))] + rest[2..];
      ValidSorted(t) && MergeRuns(t) == MergeRuns(rest)
  {
    WeightedSumCanonical(rest[0].p, rest[1].p, 1, 1);
  }

  /** Keeping an entry: it is the next survivor. */
  lemma StepKept(g: seq<Mono>, count: nat, i: nat, s0: seq<Mono>)
    requires FlagInvariant(g, count, i, s0) && i < count
    requires g[i].p != Zero() && !(i + 1 < |g| && g[i].exp == g[i + 1].exp)
    ensures FlagInvariant(g, count, i + 1, s0) && |Kept(g[..i + 1])| == |Kept(g[..i])| + 1
  {
    var rest := g[i..count];
    assert rest[0] == g[i] && rest[1..] == g[i + 1..count];
    ValidSortedTail(rest);
    assert |rest| >= 2 ==> rest[1] == g[i + 1];
    MergeRunsKeep(rest);
    assert g[..i + 1] == g[..i] + [g[i]];
    KeptSnoc(g[..i], g[i]);
    var pre, tail := Kept(g[..i]), MergeRuns(rest[1..]);
    assert pre + [g[i]] + tail == pre + ([g[i]] + tail);
  }

  /** A non-zero entry unlike its successor passes unchanged to the merged sequence. */
  lemma MergeRunsKeep(rest: seq<Mono>)
    requires |rest| > 0 && ValidSorted(rest) && rest[0].p != Zero()
    requires !(|rest| >= 2 && rest[0].exp == rest[1].exp)
    ensures ValidSorted(rest[1..])
    ensures MergeRuns(rest) == [rest[0]] + MergeRuns(rest[1..])
  {
    ValidSortedTail(rest);
  }

  /** At the end of the loop only the placeholder, if any, is left beyond the scanned part. */
  lemma FlagDone(g: seq<Mono>, count: nat, s0: seq<Mono>)
    requires FlagInvariant(g, count, count, s0)
    ensures Kept(g) == MergeRuns(s0) && Kept(g) == Kept(g[..count])
  {
    assert g[count..count] == [];
    if |g| == count + 1 {
      assert g == g[..count] + [g[count]];
    } else {
      assert g == g[..count];
    }
  }

  // ---------------------------------------------------------------------
  // What the two sorts leave where.
  // ---------------------------------------------------------------------

  /** After the first sort the placeholder, the only negative exponent, is last. */
  lemma PlaceholderLast(ms: seq<Mono>, ph: Mono, s: seq<Mono>)
    requires forall i :: 0 <= i < |ms| ==> ms[i].exp >= 0
    requires ph.exp < 0
    requires SortedByExp(s) && multiset(s) == multiset(ms + [ph])
    ensures |s| == |ms| + 1 && s[|ms|] == ph
    ensures multiset(s[..|ms|]) == multiset(ms)
  {
    assert |s| == |multiset(s)| == |ms + [ph]|;
    var n := |ms|;
    assert ph in multiset(s);
    var k :| 0 <= k < |s| && s[k] == ph;
    assert s[n].exp <= ph.exp;
    assert s[n] in multiset(ms + [ph]);
    if s[n] != ph {
      assert false;
    }
    assert s == s[..n] + [ph];
    assert multiset(s) == multiset(s[..n]) + multiset{ph};
    assert multiset(ms + [ph]) == multiset(ms) + multiset{ph};
    assert multiset(s[..n]) == multiset(s) - multiset{ph};
    assert multiset(ms) == multiset(ms + [ph]) - multiset{ph};
  }

  /** `Kept` only depends on how often each entry occurs. */
  lemma {:induction false} KeptMultiset(s: seq<Mono>, m: Mono)
    ensures multiset(Kept(s))[m] == if m.exp >= 0 then multiset(s)[m] else 0
  {
    if s != [] {
      var init, last := s[..|s| - 1], s[|s| - 1];
      KeptMultiset(init, m);
      assert s == init + [last];
    }
  }

  /** In an array sorted by descending exponent the unflagged entries come first. */
  lemma {:induction false} KeptOfSortedIsPrefix(s: seq<Mono>)
    requires SortedByExp(s)
    ensures Kept(s) == s[..|Kept(s)|]
    ensures forall i :: |Kept(s)| <= i < |s| ==> s[i].exp < 0
  {
    if s != [] {
      var init, last := s[..|s| - 1], s[|s| - 1];
      if last.exp >= 0 {
        forall i | 0 <= i < |s| ensures s[i].exp >= 0 {
          assert s[i].exp >= last.exp;
        }
        KeptAll(s);
        assert s[..|s|] == s;
      } else {
        assert SortedByExp(init);
        KeptOfSortedIsPrefix(init);
        assert Kept(s) == Kept(init);
        assert init[..|Kept(init)|] == s[..|Kept(init)|];
      }
    }
  }

  lemma {:induction false} KeptAll(s: seq<Mono>)
    requires forall i :: 0 <= i < |s| ==> s[i].exp >= 0
    ensures Kept(s) == s
  {
    if s != [] {
      KeptAll(s[..|s| - 1]);
      assert s == s[..|s| - 1] + [s[|s| - 1]];
    }
  }

  /** A sorted arrangement of the entries of a strictly decreasing list is that list. */
  lemma {:induction false} SortedUnique(x: seq<Mono>, y: seq<Mono>)
    requires SortedByExp(x) && StrictlyDecreasing(y) && multiset(x) == multiset(y)
    ensures x == y
    decreases |x|
  {
    assert |x| == |multiset(x)| == |y|;
    if x != [] {
      SameTails(x, y);
      SortedUnique(x[1..], y[1..]);
      assert x == [x[0]] + x[1..] && y == [y[0]] + y[1..];
    }
  }

  /** The two lists agree on their first entry, and what follows is again a sorted arrangement. */
  lemma SameTails(x: seq<Mono>, y: seq<Mono>)
    requires |x| > 0 && |y| > 0
    requires SortedByExp(x) && StrictlyDecreasing(y) && multiset(x) == multiset(y)
    ensures x[0] == y[0]
    ensures SortedByExp(x[1..]) && StrictlyDecreasing(y[1..]) && multiset(x[1..]) == multiset(y[1..])
  {
    SameHead(x, y);
    MultisetTail(x);
    MultisetTail(y);
  }

  lemma MultisetTail(s: seq<Mono>)
    requires |s| > 0
    ensures multiset(s[1..]) == multiset(s) - multiset{s[0]}
  {
    assert s == [s[0]] + s[1..];
  }

  lemma SameHead(x: seq<Mono>, y: seq<Mono>)
    requires |x| > 0 && |y| > 0
    requires SortedByExp(x) && StrictlyDecreasing(y) && multiset(x) == multiset(y)
    ensures x[0] == y[0]
  {
    assert x[0] in multiset(y);
    var k :| 0 <= k < |y| && y[k] == x[0];
    assert y[0] in multiset(x);
    var j :| 0 <= j < |x| && x[j] == y[0];
    assert x[0].exp >= x[j].exp;
  }

  /** After the second sort the first `|Kept(b)|` entries are the survivors in their order. */
  lemma SecondSort(b: seq<Mono>, u: seq<Mono>)
    requires SortedByExp(u) && multiset(u) == multiset(b)
    requires StrictlyDecreasing(Kept(b))
    ensures |Kept(b)| <= |u| && u[..|Kept(b)|] == Kept(b)
  {
    var ku, kb := Kept(u), Kept(b);
    KeptOfSortedIsPrefix(u);
    KeptSameMultiset(u, b);
    assert ku == u[..|ku|];
    assert SortedByExp(ku);
    SortedUnique(ku, kb);
  }

  lemma KeptSameMultiset(u: seq<Mono>, b: seq<Mono>)
    requires multiset(u) == multiset(b)
    ensures multiset(Kept(u)) == multiset(Kept(b))
  {
    forall m ensures multiset(Kept(u))[m] == multiset(Kept(b))[m] {
      KeptMultiset(u, m);
      KeptMultiset(b, m);
    }
  }

  /**
   * The part every canonicaliser shares after the copy: sort, flag, return
   * zero when nothing survived, sort again, collapse. `a[..count]` are the
   * monomials; a `count + 1`-th entry, if any, is the placeholder.
   */
  method FlagSortCollapse(a: array<Mono>, count: nat, flag: int) returns (r: Poly)
    requires count <= a.Length <= count + 1
    requires flag < 0
    requires ValidMonos(a[..count])
    requires a.Length == count + 1 ==> a[count].exp < 0
    modifies a
    ensures r == Canon(old(a[..count]))
    ensures r.Terms? ==> |r.ms| <= a.Length && a[..|r.ms|] == r.ms
  {
    ghost var ms := a[..count];
    SortByExpInPlace(a);
    ghost var s := a[..count];
    if a.Length == count + 1 {
      assert old(a[..]) == ms + [old(a[count])];
      PlaceholderLast(ms, old(a[count]), a[..]);
    } else {
      assert a[..] == s && old(a[..]) == ms;
    }
    assert SortedByExp(s) && multiset(s) == multiset(ms);
    SortOrderIrrelevant(ms, s);
    MergeRunsProper(s);
    var size := FlagRuns(a, count, flag);
    if size == 0 {
      assert MergeRuns(s) == [];
      return Zero();
    }
    ghost var b := a[..];
    SortByExpInPlace(a);
    SecondSort(b, a[..]);
    assert a[..size] == MergeRuns(s);
    if size == 1 && a[0].p.Coeff? && a[0].exp == 0 {
      return Coeff(a[0].p.c);
    }
    return Terms(a[..size]);
  }

  /** PolyAddMonos: copies the monomials, appends the `INT_MIN` placeholder and canonicalises. */
  method PolyAddMonos(monos: seq<Mono>) returns (r: Poly)
    requires ValidMonos(monos)
    ensures r == Canon(monos)
  {
    var count := |monos|;
    if count == 0 {
      CanonEmpty(monos);
      return Zero();
    }
    var tmp := new Mono[count + 1];
    var i := 0;
    while i < count
      invariant 0 <= i <= count
      invariant tmp[..i] == monos[..i]
    {
      tmp[i] := monos[i];
      assert tmp[..i + 1] == tmp[..i] + [tmp[i]];
      i := i + 1;
    }
    tmp[count] := Mono(INT_MIN, Zero());
    assert tmp[..count] == monos;
    r := FlagSortCollapse(tmp, count, INT_MIN);
  }

  /**
   * PolyOwnMonos: canonicalises the caller's array in place (no
   * placeholder, flag -1); a non-scalar result keeps that array as its
   * storage. A missing array gives zero.
   */
  method PolyOwnMonos(count: nat, monos: array?<Mono>) returns (r: Poly)
    requires monos != null ==> monos.Length == count && ValidMonos(monos[..])
    modifies monos
    ensures monos == null ==> r == Zero()
    ensures monos != null ==> r == Canon(old(monos[..]))
    ensures monos != null && r.Terms? ==> |r.ms| <= monos.Length && monos[..|r.ms|] == r.ms
  {
    if count == 0 || monos == null {
      if monos != null {
        assert monos[..] == [];
        CanonEmpty(monos[..]);
      }
      return Zero();
    }
    assert monos[..count] == monos[..];
    r := FlagSortCollapse(monos, count, -1);
  }

  /** MonoClone: a deep copy, which as a value is the monomial itself. */
  function MonoClone(m: Mono): (r: Mono)
    requires Canonical(m.p)
    ensures r == m
  {
    ScaleOne(m.p);
    Mono(m.exp, Clone(m.p))
  }

  /** PolyCloneMonos: like PolyAddMonos on copies of the monomials, with placeholder exponent -2 and flag -1. */
  method PolyCloneMonos(count: nat, monos: array?<Mono>) returns (r: Poly)
    requires monos != null ==> monos.Length == count && ValidMonos(monos[..])
    ensures monos == null ==> r == Zero()
    ensures monos != null ==> r == Canon(monos[..])
  {
    if count == 0 || monos == null {
      if monos != null {
        assert monos[..] == [];
        CanonEmpty(monos[..]);
      }
      return Zero();
    }
    var tmp := new Mono[count + 1];
    var i := 0;
    while i < count
      invariant 0 <= i <= count
      invariant tmp[..i] == monos[..i]
    {
      tmp[i] := MonoClone(monos[i]);
      assert tmp[..i + 1] == tmp[..i] + [tmp[i]];
      i := i + 1;
    }
    tmp[count] := Mono(-2, Zero());
    assert tmp[..count] == monos[..];
    r := FlagSortCollapse(tmp, count, -1);
  }
}
