/**
 * The blocks find_representatives cuts an array of lines into: maximal runs
 * of neighbours that compareLines calls similar. On an array sorted by
 * line_cmp_by_data each block is exactly the set of lines similar to its
 * first line, so every class of similar lines gets one representative.
 */
module LineGroups {
  import opened Comparators
  import opened LineData

  /** Line `i` opens a block: it is the first line or unlike the line before. */
  predicate RunStart(ds: seq<Data>, i: nat)
    requires i < |ds|
  {
    i == 0 || !Similar(ds[i - 1], ds[i])
  }

  /** The end (exclusive) of the block holding line `i` onwards. */
  function RunEnd(ds: seq<Data>, i: nat): (e: nat)
    requires i < |ds|
    ensures i < e <= |ds|
    ensures e == |ds| || RunStart(ds, e)
    ensures forall k :: i < k < e ==> !RunStart(ds, k)
    decreases |ds| - i
  {
    if i + 1 == |ds| || RunStart(ds, i + 1) then i + 1 else RunEnd(ds, i + 1)
  }

  /** The lines below `k` that open a block, in ascending order. */
  function Starts(ds: seq<Data>, k: nat): (r: seq<nat>)
    requires k <= |ds|
    ensures forall m :: 0 <= m < |r| ==> r[m] < k && RunStart(ds, r[m])
    ensures forall i :: 0 <= i < k && RunStart(ds, i) ==> i in r
    ensures forall m, m' :: 0 <= m < m' < |r| ==> r[m] < r[m']
  {
    if k == 0 then [] else Starts(ds, k - 1) + (if RunStart(ds, k - 1) then [k - 1] else [])
  }

  /** The block that holds line `j`: the last block start at or before it. */
  function BlockOf(ds: seq<Data>, j: nat): (r: nat)
    requires j < |ds|
    ensures r <= j && RunStart(ds, r) && j < RunEnd(ds, r)
    ensures forall k :: r < k <= j ==> !RunStart(ds, k)
  {
    if RunStart(ds, j) then j
    else
      var r := BlockOf(ds, j - 1);
      RunEndStep(ds, r, j);
      r
  }

  /** A line that continues a block lies in the block of the line before it. */
  lemma BlockOfStep(ds: seq<Data>, i: nat)
    requires i + 1 < |ds| && !RunStart(ds, i + 1)
    ensures BlockOf(ds, i + 1) == BlockOf(ds, i)
  {
  }

  /** A block reaches past a line when the line continues it. */
  lemma {:induction false} RunEndStep(ds: seq<Data>, r: nat, j: nat)
    requires r < j < |ds| && j - 1 < RunEnd(ds, r) && !RunStart(ds, j)
    ensures j < RunEnd(ds, r)
    decreases j - r
  {
    if r + 1 < j && !RunStart(ds, r + 1) {
      RunEndStep(ds, r + 1, j);
    }
  }

  /** Blocks do not overlap: a later block starts at or after an earlier one ends. */
  lemma {:induction false} BlocksDisjoint(ds: seq<Data>, r: nat, r': nat)
    requires r < r' < |ds| && RunStart(ds, r')
    ensures RunEnd(ds, r) <= r'
    decreases r' - r
  {
    if r + 1 < r' && !RunStart(ds, r + 1) {
      BlocksDisjoint(ds, r + 1, r');
    }
  }

  /** Every line of a block is similar to its first line. */
  lemma {:induction false} BlockSimilar(ds: seq<Data>, r: nat, j: nat)
    requires r < |ds| && r <= j < RunEnd(ds, r)
    ensures Similar(ds[r], ds[j])
    decreases j - r
  {
    if j == r {
      SimilarEquivalence(ds[r], ds[r], ds[r]);
    } else {
      BlockSimilar(ds, r, j - 1);
      assert !RunStart(ds, j);
      SimilarEquivalence(ds[r], ds[j - 1], ds[j]);
    }
  }

  /** In a sorted array no two lines in order compare after one another. */
  lemma SortedNotAfter(ds: seq<Data>, i: nat, j: nat)
    requires SortedBy(ds, ByData) && i <= j < |ds|
    ensures ByData(ds[i], ds[j]) <= 0
  {
    if i == j {
      SimilarEquivalence(ds[i], ds[i], ds[i]);
      ByDataZero(ds[i], ds[i]);
    }
  }

  /** A line sorted between two similar lines is similar to both. */
  lemma Between(a: Data, b: Data, c: Data)
    requires ByData(a, b) <= 0 && ByData(b, c) <= 0 && Similar(a, c)
    ensures Similar(a, b) && Similar(b, c)
  {
    ByDataComparator();
    ComparatorChained(ByData, a, b, c);
    ByDataZero(a, c);
    ByDataZero(a, b);
    ByDataZero(b, c);
  }

  /**
   * On an array sorted by line_cmp_by_data, the block a line opens holds
   * exactly the lines similar to it.
   */
  lemma BlockIsClass(ds: seq<Data>, r: nat, j: nat)
    requires SortedBy(ds, ByData) && r < |ds| && RunStart(ds, r) && j < |ds|
    ensures r <= j < RunEnd(ds, r) <==> Similar(ds[r], ds[j])
  {
    if j < r {
      UnlikeBefore(ds, r, j);
    } else if j < RunEnd(ds, r) {
      BlockSimilar(ds, r, j);
    } else {
      UnlikeAfter(ds, r, j);
    }
  }

  /** A line sorted before a block start is not similar to it. */
  lemma UnlikeBefore(ds: seq<Data>, r: nat, j: nat)
    requires SortedBy(ds, ByData) && j < r < |ds| && RunStart(ds, r)
    ensures !Similar(ds[r], ds[j])
  {
    if Similar(ds[r], ds[j]) {
      SortedNotAfter(ds, j, r - 1);
      SimilarEquivalence(ds[r], ds[j], ds[j]);
      Between(ds[j], ds[r - 1], ds[r]);
    }
  }

  /** A line sorted after the end of a block is not similar to its start. */
  lemma UnlikeAfter(ds: seq<Data>, r: nat, j: nat)
    requires SortedBy(ds, ByData) && r < |ds| && RunEnd(ds, r) <= j < |ds|
    ensures !Similar(ds[r], ds[j])
  {
    var e := RunEnd(ds, r);
    SortedNotAfter(ds, r, e - 1);
    SortedNotAfter(ds, e - 1, e);
    SortedNotAfter(ds, e, j);
    NotAfterStrict(ds[r], ds[e - 1], ds[e], ds[j]);
  }

  /**
   * In `a <= b < c <= d` (by line_cmp_by_data) `a` comes strictly before
   * `d`, so they are not similar.
   */
  lemma NotAfterStrict(a: Data, b: Data, c: Data, d: Data)
    requires ByData(a, b) <= 0 && ByData(b, c) <= 0 && ByData(c, d) <= 0 && !Similar(b, c)
    ensures !Similar(a, d)
  {
    ByDataComparator();
    ByDataZero(b, c);
    ComparatorChained(ByData, a, b, c);
    ComparatorChained(ByData, a, c, d);
    ByDataZero(a, d);
  }

  /**
   * On an array sorted by line_cmp_by_data, every line is similar to the
   * first line of exactly one block, the block that holds it.
   */
  lemma OneRepresentative(ds: seq<Data>, j: nat, r: nat)
    requires SortedBy(ds, ByData) && j < |ds| && r < |ds| && RunStart(ds, r)
    ensures Similar(ds[r], ds[j]) <==> r == BlockOf(ds, j)
  {
    var b := BlockOf(ds, j);
    BlockIsClass(ds, r, j);
    if r < b {
      BlocksDisjoint(ds, r, b);
    } else if b < r {
      BlocksDisjoint(ds, b, r);
    }
  }
}
