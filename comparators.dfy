/**
 * Three-way comparators in the style `qsort` and `strcasecmp` use: the
 * sign of `cmp(a, b)` says whether `a` goes before, with, or after `b`.
 * `LexCmp` is the element-by-element comparison of two arrays in which a
 * proper prefix comes first, the shape of every loop of line_cmp_by_data.
 */
module Comparators {

  function Sign(x: int): (s: int)
    ensures s == -1 || s == 0 || s == 1
    ensures (s < 0 <==> x < 0) && (s == 0 <==> x == 0) && (s > 0 <==> x > 0)
  {
    if x < 0 then -1 else if x > 0 then 1 else 0
  }

  /**
   * What `qsort` demands of a comparator: swapping the arguments flips the
   * sign, and "not after" is transitive.
   */
  ghost predicate IsComparator<T(!new)>(cmp: (T, T) -> int) {
    (forall a, b :: Sign(cmp(b, a)) == -Sign(cmp(a, b))) &&
    (forall a, b, c :: cmp(a, b) <= 0 && cmp(b, c) <= 0 ==> cmp(a, c) <= 0)
  }

  /** Every element goes before or with every later one. */
  predicate SortedBy<T>(s: seq<T>, cmp: (T, T) -> int) {
    forall i, j :: 0 <= i < j < |s| ==> cmp(s[i], s[j]) <= 0
  }

  /**
   * How the signs of `x = cmp(a, b)`, `y = cmp(b, c)` and `z = cmp(a, c)`
   * hang together for a comparator, in both directions.
   */
  predicate Chained(x: int, y: int, z: int) {
    (x <= 0 && y <= 0 ==> z <= 0) && (x < 0 && y <= 0 ==> z < 0) && (x <= 0 && y < 0 ==> z < 0) &&
    (x >= 0 && y >= 0 ==> z >= 0) && (x > 0 && y >= 0 ==> z > 0) && (x >= 0 && y > 0 ==> z > 0)
  }

  /** A comparator's values on three elements are chained. */
  lemma ComparatorChained<T(!new)>(cmp: (T, T) -> int, a: T, b: T, c: T)
    requires IsComparator(cmp)
    ensures Chained(cmp(a, b), cmp(b, c), cmp(a, c))
  {
    assert Sign(cmp(b, a)) == -Sign(cmp(a, b));
    assert Sign(cmp(c, b)) == -Sign(cmp(b, c));
    assert Sign(cmp(c, a)) == -Sign(cmp(a, c));
  }

  /** The first comparison that is not 0, as `if (x != 0) return x;` chains them. */
  function Then(x: int, y: int): int {
    if x != 0 then x else y
  }

  /** Chaining two comparisons by Then keeps them chained. */
  lemma ThenChained(x1: int, y1: int, z1: int, x2: int, y2: int, z2: int)
    requires Chained(x1, y1, z1) && Chained(x2, y2, z2)
    ensures Chained(Then(x1, x2), Then(y1, y2), Then(z1, z2))
  {
  }

  /** Swapping the arguments of both comparisons flips the sign of their Then. */
  lemma ThenFlips(x1: int, y1: int, x2: int, y2: int)
    requires Sign(y1) == -Sign(x1) && Sign(y2) == -Sign(x2)
    ensures Sign(Then(y1, y2)) == -Sign(Then(x1, x2))
  {
  }

  // ---------------------------------------------------------------------
  // Lexicographic comparison of arrays.
  // ---------------------------------------------------------------------

  /**
   * The first element comparison that is not 0, over the common length;
   * when there is none, the longer array comes after: 1, -1 or 0.
   */
  function LexCmp<T>(s: seq<T>, t: seq<T>, cmp: (T, T) -> int): int
    decreases |s|
  {
    if |s| == 0 || |t| == 0 then Sign(|s| - |t|)
    else if cmp(s[0], t[0]) != 0 then cmp(s[0], t[0])
    else LexCmp(s[1..], t[1..], cmp)
  }

  /** One step of the scan: equal heads leave the comparison to the tails. */
  lemma LexStep<T>(s: seq<T>, t: seq<T>, cmp: (T, T) -> int, i: nat)
    requires i < |s| && i < |t| && cmp(s[i], t[i]) == 0
    ensures LexCmp(s[i..], t[i..], cmp) == LexCmp(s[i + 1..], t[i + 1..], cmp)
  {
    assert s[i..][1..] == s[i + 1..];
    assert t[i..][1..] == t[i + 1..];
  }

  /** The comparison is 0 exactly when the lengths agree and every pair compares 0. */
  lemma {:induction false} LexZero<T>(s: seq<T>, t: seq<T>, cmp: (T, T) -> int)
    ensures LexCmp(s, t, cmp) == 0 <==> |s| == |t| && forall i :: 0 <= i < |s| ==> cmp(s[i], t[i]) == 0
    decreases |s|
  {
    if |s| > 0 && |t| > 0 && cmp(s[0], t[0]) == 0 {
      LexZero(s[1..], t[1..], cmp);
      if |s| == |t| && forall i :: 0 <= i < |s| - 1 ==> cmp(s[1..][i], t[1..][i]) == 0 {
        forall i | 0 <= i < |s| ensures cmp(s[i], t[i]) == 0 {
          if i > 0 {
            assert s[i] == s[1..][i - 1] && t[i] == t[1..][i - 1];
          }
        }
      }
    }
  }

  /** Swapping the arrays flips the sign. */
  lemma {:induction false} LexFlips<T(!new)>(s: seq<T>, t: seq<T>, cmp: (T, T) -> int)
    requires IsComparator(cmp)
    ensures Sign(LexCmp(t, s, cmp)) == -Sign(LexCmp(s, t, cmp))
    decreases |s|
  {
    if |s| > 0 && |t| > 0 {
      assert Sign(cmp(t[0], s[0])) == -Sign(cmp(s[0], t[0]));
      if cmp(s[0], t[0]) == 0 {
        LexFlips(s[1..], t[1..], cmp);
      }
    }
  }

  /** The lexicographic comparison of a comparator is chained. */
  lemma {:induction false} LexChained<T(!new)>(s: seq<T>, t: seq<T>, u: seq<T>, cmp: (T, T) -> int)
    requires IsComparator(cmp)
    ensures Chained(LexCmp(s, t, cmp), LexCmp(t, u, cmp), LexCmp(s, u, cmp))
    decreases |s|
  {
    if |s| > 0 && |t| > 0 && |u| > 0 {
      ComparatorChained(cmp, s[0], t[0], u[0]);
      if cmp(s[0], t[0]) == 0 && cmp(t[0], u[0]) == 0 {
        LexChained(s[1..], t[1..], u[1..], cmp);
      }
    }
  }

  /** The lexicographic comparison of a comparator is a comparator. */
  lemma LexComparator<T(!new)>(cmp: (T, T) -> int)
    requires IsComparator(cmp)
    ensures IsComparator((s: seq<T>, t: seq<T>) => LexCmp(s, t, cmp))
  {
    var lex := (s: seq<T>, t: seq<T>) => LexCmp(s, t, cmp);
    forall s, t ensures Sign(lex(t, s)) == -Sign(lex(s, t)) {
      LexFlips(s, t, cmp);
    }
    forall s, t, u | lex(s, t) <= 0 && lex(t, u) <= 0 ensures lex(s, u) <= 0 {
      LexChained(s, t, u, cmp);
    }
  }

  /** Every element of a comparator compares 0 with itself, so an array does too. */
  lemma LexSame<T(!new)>(s: seq<T>, cmp: (T, T) -> int)
    requires IsComparator(cmp)
    ensures LexCmp(s, s, cmp) == 0
  {
    forall i | 0 <= i < |s| ensures cmp(s[i], s[i]) == 0 {
      assert Sign(cmp(s[i], s[i])) == -Sign(cmp(s[i], s[i]));
    }
    LexZero(s, s, cmp);
  }

  /** A proper prefix comes first: no element differs, and the shorter array is less. */
  lemma {:induction false} LexPrefixLess<T(!new)>(s: seq<T>, t: seq<T>, cmp: (T, T) -> int)
    requires IsComparator(cmp) && |s| < |t| && s == t[..|s|]
    ensures LexCmp(s, t, cmp) < 0
    decreases |s|
  {
    if |s| > 0 {
      assert s[0] == t[0];
      assert Sign(cmp(s[0], t[0])) == -Sign(cmp(s[0], t[0]));
      assert s[1..] == t[1..][..|s| - 1];
      LexPrefixLess(s[1..], t[1..], cmp);
    }
  }

  // ---------------------------------------------------------------------
  // What qsort leaves behind.
  // ---------------------------------------------------------------------

  /** Inserting before the first element `x` does not go after. */
  function InsertBy<T>(x: T, s: seq<T>, cmp: (T, T) -> int): (r: seq<T>)
    ensures multiset(r) == multiset(s) + multiset{x}
  {
    if |s| == 0 || cmp(x, s[0]) <= 0 then [x] + s
    else assert s == [s[0]] + s[1..]; [s[0]] + InsertBy(x, s[1..], cmp)
  }

  /** An element not after `y` keeps every element of the result not before `y`. */
  lemma {:induction false} InsertByAfter<T>(y: T, x: T, s: seq<T>, cmp: (T, T) -> int)
    requires cmp(y, x) <= 0 && forall j :: 0 <= j < |s| ==> cmp(y, s[j]) <= 0
    ensures forall j :: 0 <= j < |InsertBy(x, s, cmp)| ==> cmp(y, InsertBy(x, s, cmp)[j]) <= 0
    decreases |s|
  {
    if |s| > 0 && cmp(x, s[0]) > 0 {
      InsertByAfter(y, x, s[1..], cmp);
      var t := InsertBy(x, s[1..], cmp);
      forall j | 0 <= j < 1 + |t| ensures cmp(y, ([s[0]] + t)[j]) <= 0 {
        if j > 0 {
          assert ([s[0]] + t)[j] == t[j - 1];
        }
      }
    }
  }

  /** An element not after any element of a sorted array can go in front of it. */
  lemma ConsSorted<T>(y: T, t: seq<T>, cmp: (T, T) -> int)
    requires SortedBy(t, cmp) && forall j :: 0 <= j < |t| ==> cmp(y, t[j]) <= 0
    ensures SortedBy([y] + t, cmp)
  {
    var r := [y] + t;
    forall i, j | 0 <= i < j < |r| ensures cmp(r[i], r[j]) <= 0 {
      assert r[j] == t[j - 1];
      if i > 0 {
        assert r[i] == t[i - 1];
      }
    }
  }

  lemma {:induction false} InsertBySorted<T(!new)>(x: T, s: seq<T>, cmp: (T, T) -> int)
    requires IsComparator(cmp) && SortedBy(s, cmp)
    ensures SortedBy(InsertBy(x, s, cmp), cmp)
    decreases |s|
  {
    if |s| == 0 {
    } else if cmp(x, s[0]) <= 0 {
      forall j | 0 <= j < |s| ensures cmp(x, s[j]) <= 0 {
        if j > 0 {
          assert cmp(s[0], s[j]) <= 0;
        }
      }
      ConsSorted(x, s, cmp);
    } else {
      assert Sign(cmp(s[0], x)) == -Sign(cmp(x, s[0]));
      InsertBySorted(x, s[1..], cmp);
      InsertByAfter(s[0], x, s[1..], cmp);
      ConsSorted(s[0], InsertBy(x, s[1..], cmp), cmp);
    }
  }

  function SortBy<T>(s: seq<T>, cmp: (T, T) -> int): (r: seq<T>)
    ensures multiset(r) == multiset(s)
  {
    if |s| == 0 then []
    else assert s == [s[0]] + s[1..]; InsertBy(s[0], SortBy(s[1..], cmp), cmp)
  }

  lemma {:induction false} SortBySorted<T(!new)>(s: seq<T>, cmp: (T, T) -> int)
    requires IsComparator(cmp)
    ensures SortedBy(SortBy(s, cmp), cmp)
  {
    if |s| > 0 {
      SortBySorted(s[1..], cmp);
      InsertBySorted(s[0], SortBy(s[1..], cmp), cmp);
    }
  }

  /** Every array has an arrangement `qsort` may leave: sorted, and a permutation. */
  lemma SortedPermutation<T(!new)>(s: seq<T>, cmp: (T, T) -> int)
    requires IsComparator(cmp)
    ensures exists t :: SortedBy(t, cmp) && multiset(t) == multiset(s)
  {
    SortBySorted(s, cmp);
  }
}
