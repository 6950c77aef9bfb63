/**
 * line_representation.c: the `Line` record with its growing token arrays
 * and its list of similar lines, the comparators over lines, and
 * find_representatives. Each method is proved against the functions of
 * LineData and LineGroups.
 */
module LineRepresentation {
  import opened Comparators
  import opened LineData
  import opened LineGroups

  const INITIAL_CAPACITY: nat := 4

  /**
   * The capacity of a dynamic array after one element is added to the
   * `size` it holds: INITIAL_CAPACITY on the first add, doubled when full.
   */
  function Grown(capacity: nat, size: nat): (c: nat)
    requires size <= capacity
    ensures size < c
    ensures capacity == 0 ==> c == INITIAL_CAPACITY
    ensures 0 < capacity ==> c == if size == capacity then 2 * capacity else capacity
  {
    if capacity == 0 then INITIAL_CAPACITY else if size == capacity then 2 * capacity else capacity
  }

  /**
   * `qsort` with comparator `cmp`: the elements end up sorted and a
   * permutation of what they were. Which of the sorted arrangements
   * `qsort` picks is left open.
   */
  method Qsort<T(==, !new)>(s: seq<T>, cmp: (T, T) -> int) returns (t: seq<T>)
    requires IsComparator(cmp)
    ensures SortedBy(t, cmp) && multiset(t) == multiset(s)
  {
    SortedPermutation(s, cmp);
    t :| SortedBy(t, cmp) && multiset(t) == multiset(s);
  }

  /**
   * The Line structure: its number, the numbers of the lines similar to
   * it with the capacity allocated for them, and its tokens. Each dynamic
   * array of the structure is a sequence whose length is its size.
   */
  class Line {
    var number: int
    var similarLines: seq<int>
    var capacity: nat
    var strArray: seq<string>
    var llArray: seq<LongLong>
    var ullArray: seq<ULongLong>
    var dblArray: seq<Double>

    /** The similar lines fit the capacity allocated for them. */
    predicate Valid()
      reads this
    {
      |similarLines| <= capacity
    }

    /** The tokens held. */
    function Tokens(): (d: Data)
      reads this
      ensures d.strs == strArray && d.lls == llArray && d.ulls == ullArray && d.dbls == dblArray
    {
      Data(strArray, llArray, ullArray, dblArray)
    }

    /** line_init: line `number`, with no tokens and no similar lines. */
    constructor (number: int)
      ensures Valid() && this.number == number
      ensures Tokens() == Data([], [], [], []) && similarLines == [] && capacity == 0
    {
      this.number := number;
      similarLines, capacity := [], 0;
      strArray, llArray, ullArray, dblArray := [], [], [], [];
    }

    /**
     * add_str: the word becomes the last string token. The capacity of
     * the string array is kept by the caller; the new one is returned.
     */
    method AddStr(v: string, strCapacity: nat) returns (newCapacity: nat)
      requires |strArray| <= strCapacity
      modifies this
      ensures newCapacity == Grown(strCapacity, old(|strArray|)) && |strArray| <= newCapacity
      ensures Tokens() == old(Tokens()).(strs := old(strArray) + [v])
      ensures similarLines == old(similarLines) && number == old(number) && capacity == old(capacity)
    {
      newCapacity := Grown(strCapacity, |strArray|);
      strArray := strArray + [v];
    }

    /** add_ll. */
    method AddLl(v: LongLong, llCapacity: nat) returns (newCapacity: nat)
      requires |llArray| <= llCapacity
      modifies this
      ensures newCapacity == Grown(llCapacity, old(|llArray|)) && |llArray| <= newCapacity
      ensures Tokens() == old(Tokens()).(lls := old(llArray) + [v])
      ensures similarLines == old(similarLines) && number == old(number) && capacity == old(capacity)
    {
      newCapacity := Grown(llCapacity, |llArray|);
      llArray := llArray + [v];
    }

    /** add_ull. */
    method AddUll(v: ULongLong, ullCapacity: nat) returns (newCapacity: nat)
      requires |ullArray| <= ullCapacity
      modifies this
      ensures newCapacity == Grown(ullCapacity, old(|ullArray|)) && |ullArray| <= newCapacity
      ensures Tokens() == old(Tokens()).(ulls := old(ullArray) + [v])
      ensures similarLines == old(similarLines) && number == old(number) && capacity == old(capacity)
    {
      newCapacity := Grown(ullCapacity, |ullArray|);
      ullArray := ullArray + [v];
    }

    /** add_dbl. */
    method AddDbl(v: Double, dblCapacity: nat) returns (newCapacity: nat)
      requires |dblArray| <= dblCapacity
      modifies this
      ensures newCapacity == Grown(dblCapacity, old(|dblArray|)) && |dblArray| <= newCapacity
      ensures Tokens() == old(Tokens()).(dbls := old(dblArray) + [v])
      ensures similarLines == old(similarLines) && number == old(number) && capacity == old(capacity)
    {
      newCapacity := Grown(dblCapacity, |dblArray|);
      dblArray := dblArray + [v];
    }

    /** add_similar_line: `n` becomes the last number of the group. */
    method AddSimilarLine(n: int)
      requires Valid()
      modifies this
      ensures Valid() && similarLines == old(similarLines) + [n]
      ensures capacity == Grown(old(capacity), old(|similarLines|))
      ensures number == old(number) && Tokens() == old(Tokens())
    {
      capacity := Grown(capacity, |similarLines|);
      similarLines := similarLines + [n];
    }

    /**
     * sort_data_in_line: every token array ascending under its comparator
     * (the words up to case) and a permutation of itself.
     */
    method SortData()
      modifies this
      ensures SortedData(Tokens()) && SameTokens(Tokens(), old(Tokens()))
      ensures similarLines == old(similarLines) && number == old(number) && capacity == old(capacity)
    {
      strArray := SortStrs(strArray);
      llArray := SortLls(llArray);
      ullArray := SortUlls(ullArray);
      dblArray := SortDbls(dblArray);
    }
  }

  /** The string tokens as sort_data_in_line sorts them (an empty array is left as it is). */
  method SortStrs(s: seq<string>) returns (t: seq<string>)
    ensures SortedBy(t, StrCaseCmp) && multiset(t) == multiset(s)
  {
    t := s;
    if |s| != 0 {
      StrCaseCmpComparator();
      t := Qsort(s, StrCaseCmp);
    }
  }

  /** The long long tokens as sort_data_in_line sorts them. */
  method SortLls(s: seq<LongLong>) returns (t: seq<LongLong>)
    ensures SortedBy(t, LlCmp) && multiset(t) == multiset(s)
  {
    t := s;
    if |s| != 0 {
      NumberComparators();
      t := Qsort(s, LlCmp);
    }
  }

  /** The unsigned long long tokens as sort_data_in_line sorts them. */
  method SortUlls(s: seq<ULongLong>) returns (t: seq<ULongLong>)
    ensures SortedBy(t, UllCmp) && multiset(t) == multiset(s)
  {
    t := s;
    if |s| != 0 {
      NumberComparators();
      t := Qsort(s, UllCmp);
    }
  }

  /** The double tokens as sort_data_in_line sorts them. */
  method SortDbls(s: seq<Double>) returns (t: seq<Double>)
    ensures SortedBy(t, DblCmp) && multiset(t) == multiset(s)
  {
    t := s;
    if |s| != 0 {
      DblCmpComparator();
      t := Qsort(s, DblCmp);
    }
  }

  /** min. */
  function Min(a: int, b: int): (m: int)
    ensures m <= a && m <= b && (m == a || m == b)
  {
    if a <= b then a else b
  }

  /** compareLines: decides whether two lines are similar. */
  method CompareLines(l1: Line, l2: Line) returns (similar: bool)
    ensures similar == Similar(l1.Tokens(), l2.Tokens())
  {
    SimilarMeans(l1.Tokens(), l2.Tokens());
    if |l1.llArray| != |l2.llArray| || |l1.ullArray| != |l2.ullArray| ||
       |l1.strArray| != |l2.strArray| || |l1.dblArray| != |l2.dblArray| {
      return false;
    }
    for i := 0 to |l1.llArray|
      invariant forall k :: 0 <= k < i ==> l1.llArray[k] == l2.llArray[k]
    {
      if l1.llArray[i] != l2.llArray[i] {
        return false;
      }
    }
    for i := 0 to |l1.ullArray|
      invariant forall k :: 0 <= k < i ==> l1.ullArray[k] == l2.ullArray[k]
    {
      if l1.ullArray[i] != l2.ullArray[i] {
        return false;
      }
    }
    for i := 0 to |l1.dblArray|
      invariant forall k :: 0 <= k < i ==> l1.dblArray[k] == l2.dblArray[k]
    {
      if l1.dblArray[i] != l2.dblArray[i] {
        return false;
      }
    }
    for i := 0 to |l1.strArray|
      invariant forall k :: 0 <= k < i ==> StrCaseCmp(l1.strArray[k], l2.strArray[k]) == 0
    {
      if StrCaseCmp(l1.strArray[i], l2.strArray[i]) != 0 {
        return false;
      }
    }
    return true;
  }

  /** line_cmp_by_data: the order qsort sorts the lines in. */
  method LineCmpByData(l1: Line, l2: Line) returns (r: int)
    ensures r == ByData(l1.Tokens(), l2.Tokens())
  {
    ghost var a, b := l1.Tokens(), l2.Tokens();
    var m := Min(|l1.strArray|, |l2.strArray|);
    for i := 0 to m
      invariant LexCmp(a.strs, b.strs, StrCaseCmp) == LexCmp(a.strs[i..], b.strs[i..], StrCaseCmp)
    {
      var x := StrCaseCmp(l1.strArray[i], l2.strArray[i]);
      if x != 0 {
        assert a.strs[i..][0] == a.strs[i] && b.strs[i..][0] == b.strs[i];
        return x;
      }
      LexStep(a.strs, b.strs, StrCaseCmp, i);
    }
    if |l1.strArray| > |l2.strArray| {
      return 1;
    } else if |l1.strArray| < |l2.strArray| {
      return -1;
    }
    m := Min(|l1.llArray|, |l2.llArray|);
    for i := 0 to m
      invariant LexCmp(a.lls, b.lls, LlCmp) == LexCmp(a.lls[i..], b.lls[i..], LlCmp)
    {
      assert a.lls[i..][0] == a.lls[i] && b.lls[i..][0] == b.lls[i];
      if l1.llArray[i] > l2.llArray[i] {
        return 1;
      } else if l1.llArray[i] < l2.llArray[i] {
        return -1;
      }
      LexStep(a.lls, b.lls, LlCmp, i);
    }
    if |l1.llArray| > |l2.llArray| {
      return 1;
    } else if |l1.llArray| < |l2.llArray| {
      return -1;
    }
    m := Min(|l1.ullArray|, |l2.ullArray|);
    for i := 0 to m
      invariant LexCmp(a.ulls, b.ulls, UllCmp) == LexCmp(a.ulls[i..], b.ulls[i..], UllCmp)
    {
      assert a.ulls[i..][0] == a.ulls[i] && b.ulls[i..][0] == b.ulls[i];
      if l1.ullArray[i] > l2.ullArray[i] {
        return 1;
      } else if l1.ullArray[i] < l2.ullArray[i] {
        return -1;
      }
      LexStep(a.ulls, b.ulls, UllCmp, i);
    }
    if |l1.ullArray| > |l2.ullArray| {
      return 1;
    } else if |l1.ullArray| < |l2.ullArray| {
      return -1;
    }
    m := Min(|l1.dblArray|, |l2.dblArray|);
    for i := 0 to m
      invariant LexCmp(a.dbls, b.dbls, DblCmp) == LexCmp(a.dbls[i..], b.dbls[i..], DblCmp)
    {
      assert a.dbls[i..][0] == a.dbls[i] && b.dbls[i..][0] == b.dbls[i];
      if DblLess(l2.dblArray[i], l1.dblArray[i]) {
        return 1;
      } else if DblLess(l1.dblArray[i], l2.dblArray[i]) {
        return -1;
      }
      LexStep(a.dbls, b.dbls, DblCmp, i);
    }
    if |l1.dblArray| > |l2.dblArray| {
      return 1;
    } else if |l1.dblArray| < |l2.dblArray| {
      return -1;
    }
    return 0;
  }

  /**
   * line_cmp_by_number: the difference of the line numbers, which orders
   * the representatives by the number of their line.
   */
  function LineCmpByNumber(l1: Line, l2: Line): (r: int)
    reads l1, l2
    ensures r < 0 <==> l1.number < l2.number
    ensures r == 0 <==> l1.number == l2.number
    ensures r > 0 <==> l1.number > l2.number
  {
    l1.number - l2.number
  }

  // ---------------------------------------------------------------------
  // find_representatives
  // ---------------------------------------------------------------------

  /**
   * The capacity of the representatives array after it has grown from
   * `capacity` to hold `size` of them, doubling whenever it is full.
   */
  function Doubled(capacity: nat, size: nat): (c: nat)
    requires capacity > 0
    ensures c >= capacity && c >= size
    decreases if size <= capacity then 0 else size - capacity
  {
    if size <= capacity then capacity else Doubled(2 * capacity, size)
  }

  /** Adding one representative doubles the capacity exactly when it is full. */
  lemma {:induction false} DoubledStep(capacity: nat, size: nat)
    requires capacity > 0
    ensures Doubled(capacity, size + 1) ==
      if size == Doubled(capacity, size) then 2 * Doubled(capacity, size) else Doubled(capacity, size)
    decreases if size <= capacity then 0 else size - capacity
  {
    if size > capacity {
      DoubledStep(2 * capacity, size);
    }
  }

  /**
   * The numbers the group of line `j` has gained once the lines below `i`
   * have been scanned: for the first line of a block, the numbers of its
   * block up to line `i`.
   */
  ghost function Added(ds: seq<Data>, nums: seq<int>, j: nat, i: nat): seq<int>
    requires j < |ds| == |nums|
  {
    if j < i && RunStart(ds, j) then nums[j..Min(i + 1, RunEnd(ds, j))] else []
  }

  /** Scanning line `i` adds nothing to lines outside its block. */
  lemma AddedOthers(ds: seq<Data>, nums: seq<int>, i: nat, j: nat)
    requires i < |ds| == |nums| && j < |ds| && j != BlockOf(ds, i)
    ensures Added(ds, nums, j, i + 1) == Added(ds, nums, j, i)
  {
    var r := BlockOf(ds, i);
    if j < i && RunStart(ds, j) {
      if j < r {
        BlocksDisjoint(ds, j, r);
      }
    }
  }

  /**
   * Scanning line `i` adds to the first line of its block line `i` itself
   * when it opens the block, then line `i + 1` when that continues it.
   */
  lemma AddedBlock(ds: seq<Data>, nums: seq<int>, i: nat)
    requires i < |ds| == |nums|
    ensures Added(ds, nums, BlockOf(ds, i), i + 1) ==
      Added(ds, nums, BlockOf(ds, i), i) + (if BlockOf(ds, i) == i then [nums[i]] else []) +
      (if i + 1 < |ds| && !RunStart(ds, i + 1) then [nums[i + 1]] else [])
  {
    var r := BlockOf(ds, i);
    var e := RunEnd(ds, r);
    var grows := i + 1 < |ds| && !RunStart(ds, i + 1);
    if grows {
      RunEndStep(ds, r, i + 1);
    }
    assert Added(ds, nums, r, i + 1) == nums[r..if grows then i + 2 else i + 1];
    assert Added(ds, nums, r, i) == if r < i then nums[r..i + 1] else [];
    SliceGrow(nums, r, i, grows);
  }

  /** A slice that reaches one or two elements further. */
  lemma SliceGrow(nums: seq<int>, r: nat, i: nat, grows: bool)
    requires r <= i && i + (if grows then 2 else 1) <= |nums|
    ensures nums[r..if grows then i + 2 else i + 1] ==
      (if r < i then nums[r..i + 1] else []) + (if r == i then [nums[i]] else []) +
      (if grows then [nums[i + 1]] else [])
  {
    assert nums[r..i + 1] == nums[r..i] + [nums[i]];
    if grows {
      assert nums[r..i + 2] == nums[r..i + 1] + [nums[i + 1]];
    }
  }

  /** Added for every line at once. */
  ghost function Gained(ds: seq<Data>, nums: seq<int>, i: nat): (g: seq<seq<int>>)
    requires |ds| == |nums|
    ensures |g| == |ds| && forall j {:trigger g[j]} :: 0 <= j < |ds| ==> g[j] == Added(ds, nums, j, i)
  {
    seq(|ds|, j requires 0 <= j < |ds| => Added(ds, nums, j, i))
  }

  /**
   * The step of find_representatives at line `i`: the first line of its
   * block gains line `i` when `i` opens the block, then line `i + 1` when
   * that continues it; no other line gains anything.
   */
  lemma GainedStep(ds: seq<Data>, nums: seq<int>, i: nat)
    requires i < |ds| == |nums|
    ensures var r := BlockOf(ds, i);
      var g := Gained(ds, nums, i);
      var g1 := if r == i then g[i := g[i] + [nums[i]]] else g;
      Gained(ds, nums, i + 1) == if i + 1 < |ds| && !RunStart(ds, i + 1) then g1[r := g1[r] + [nums[i + 1]]] else g1
  {
    var r := BlockOf(ds, i);
    var g := Gained(ds, nums, i);
    var g1 := if r == i then g[i := g[i] + [nums[i]]] else g;
    var g2 := if i + 1 < |ds| && !RunStart(ds, i + 1) then g1[r := g1[r] + [nums[i + 1]]] else g1;
    forall j | 0 <= j < |ds| ensures g2[j] == Added(ds, nums, j, i + 1) {
      if j == r {
        AddedBlock(ds, nums, i);
      } else {
        AddedOthers(ds, nums, i, j);
      }
    }
  }

  /**
   * The lines are distinct valid objects holding tokens `ds`, numbers
   * `nums` and groups of similar lines `gs`.
   */
  ghost predicate Holds(lines: seq<Line>, ds: seq<Data>, nums: seq<int>, gs: seq<seq<int>>)
    reads set l | l in lines
  {
    |ds| == |lines| && |nums| == |lines| && |gs| == |lines| &&
    (forall j {:trigger lines[j]} :: 0 <= j < |lines| ==>
      lines[j].Valid() && lines[j].Tokens() == ds[j] && lines[j].number == nums[j] && lines[j].similarLines == gs[j]) &&
    forall j, k :: 0 <= j < k < |lines| ==> lines[j] != lines[k]
  }

  /** Each group of `a` followed by the matching one of `b`. */
  function Join(a: seq<seq<int>>, b: seq<seq<int>>): (c: seq<seq<int>>)
    requires |a| == |b|
    ensures |c| == |a| && forall j {:trigger c[j]} :: 0 <= j < |a| ==> c[j] == a[j] + b[j]
  {
    seq(|a|, j requires 0 <= j < |a| => a[j] + b[j])
  }

  /** Appending to one group of a join appends to that group of its second half. */
  lemma JoinAppend(a: seq<seq<int>>, b: seq<seq<int>>, x: nat, v: int)
    requires |a| == |b| && x < |a|
    ensures Join(a, b)[x := Join(a, b)[x] + [v]] == Join(a, b[x := b[x] + [v]])
  {
    var c, d := Join(a, b)[x := Join(a, b)[x] + [v]], Join(a, b[x := b[x] + [v]]);
    assert forall j :: 0 <= j < |a| ==> c[j] == d[j];
  }

  /** The lines at the given indices. */
  function Chosen(lines: seq<Line>, ks: seq<nat>): (r: seq<Line>)
    requires forall m :: 0 <= m < |ks| ==> ks[m] < |lines|
    ensures |r| == |ks|
  {
    if |ks| == 0 then [] else Chosen(lines, ks[..|ks| - 1]) + [lines[ks[|ks| - 1]]]
  }

  /** The `m`th line chosen is the line at the `m`th index. */
  lemma {:induction false} ChosenAt(lines: seq<Line>, ks: seq<nat>, m: nat)
    requires (forall m :: 0 <= m < |ks| ==> ks[m] < |lines|) && m < |ks|
    ensures Chosen(lines, ks)[m] == lines[ks[m]]
  {
    if m < |ks| - 1 {
      ChosenAt(lines, ks[..|ks| - 1], m);
    }
  }

  /** The lines of the given indices, one more index. */
  lemma ChosenAppend(lines: seq<Line>, ks: seq<nat>, k: nat)
    requires (forall m :: 0 <= m < |ks| ==> ks[m] < |lines|) && k < |lines|
    ensures Chosen(lines, ks + [k]) == Chosen(lines, ks) + [lines[k]]
  {
    assert (ks + [k])[..|ks|] == ks;
  }

  /** The lines below `k` that open a block, in order: the representatives found by then. */
  function Firsts(lines: seq<Line>, ds: seq<Data>, k: nat): seq<Line>
    requires k <= |ds| == |lines|
  {
    if k == 0 then [] else Firsts(lines, ds, k - 1) + if RunStart(ds, k - 1) then [lines[k - 1]] else []
  }

  /** Firsts are the lines at the block starts. */
  lemma {:induction false} FirstsChosen(lines: seq<Line>, ds: seq<Data>, k: nat)
    requires k <= |ds| == |lines|
    ensures Firsts(lines, ds, k) == Chosen(lines, Starts(ds, k))
  {
    if k > 0 {
      var last: nat := k - 1;
      FirstsChosen(lines, ds, last);
      if RunStart(ds, last) {
        ChosenAppend(lines, Starts(ds, last), last);
      } else {
        assert Starts(ds, k) == Starts(ds, last);
      }
    }
  }

  /**
   * add_similar_line(&lines[x], lines[y].number), seen from all the lines:
   * the groups are `before` joined with what each line has gained.
   */
  method Gather(lines: seq<Line>, x: nat, y: nat,
                ghost ds: seq<Data>, ghost nums: seq<int>, ghost before: seq<seq<int>>, ghost g: seq<seq<int>>)
    requires x < |lines| && y < |lines| && |before| == |g| == |lines|
    requires Holds(lines, ds, nums, Join(before, g))
    modifies lines[x]
    ensures Holds(lines, ds, nums, Join(before, g[x := g[x] + [nums[y]]]))
  {
    JoinAppend(before, g, x, nums[y]);
    lines[x].AddSimilarLine(lines[y].number);
  }

  /**
   * The invariant of find_representatives after the lines below `i`, on
   * the indices: each line has gathered what `Gained` says, `rep` is the
   * first line of the open block, and the representatives are the first
   * lines of the blocks opened so far in a buffer that has doubled as it
   * filled. The lines themselves are described by `Holds`.
   */
  ghost predicate Scanned(lines: seq<Line>, reps: seq<Line>, repCapacity: nat,
                          ds: seq<Data>, nums: seq<int>, before: seq<seq<int>>, i: nat,
                          hasRepresentative: bool, rep: nat, newReps: seq<Line>, newRepCapacity: nat, g: seq<seq<int>>)
  {
    i <= |lines| == |ds| == |nums| == |before| == |g| && 0 < repCapacity &&
    g == Gained(ds, nums, i) &&
    (hasRepresentative ==> i < |lines| && rep == BlockOf(ds, i) && rep < i) &&
    (!hasRepresentative ==> i == |lines| || RunStart(ds, i)) &&
    newRepCapacity == Doubled(repCapacity, |newReps|) &&
    newReps == reps + Firsts(lines, ds, i)
  }

  /**
   * Halfway through the step at line `i`: the block holding line `i` is
   * open with first line `rep`, which has gathered line `i` when `i`
   * opened it, and the representatives include it.
   */
  ghost predicate Opened(lines: seq<Line>, reps: seq<Line>, repCapacity: nat,
                         ds: seq<Data>, nums: seq<int>, before: seq<seq<int>>, i: nat,
                         rep: nat, newReps: seq<Line>, newRepCapacity: nat, g: seq<seq<int>>)
  {
    i < |lines| == |ds| == |nums| == |before| == |g| && 0 < repCapacity &&
    rep == BlockOf(ds, i) &&
    g == (var g0 := Gained(ds, nums, i); if rep == i then g0[i := g0[i] + [nums[i]]] else g0) &&
    newRepCapacity == Doubled(repCapacity, |newReps|) &&
    newReps == reps + Firsts(lines, ds, i + 1)
  }

  /**
   * Line `i` opens a block when none is open: it becomes the block's first
   * line, gathers its own number and joins the representatives, and the
   * buffer doubles exactly when it is full.
   */
  lemma OpenStep(lines: seq<Line>, reps: seq<Line>, repCapacity: nat,
                 ds: seq<Data>, nums: seq<int>, before: seq<seq<int>>, i: nat,
                 rep: nat, newReps: seq<Line>, newRepCapacity: nat, g: seq<seq<int>>)
    requires i < |lines| && Scanned(lines, reps, repCapacity, ds, nums, before, i, false, rep, newReps, newRepCapacity, g)
    ensures Opened(lines, reps, repCapacity, ds, nums, before, i, i, newReps + [lines[i]],
                   if |newReps| == newRepCapacity then 2 * newRepCapacity else newRepCapacity, g[i := g[i] + [nums[i]]])
  {
    DoubledStep(repCapacity, |newReps|);
  }

  /** Line `i` continues the open block: nothing changes. */
  lemma KeepStep(lines: seq<Line>, reps: seq<Line>, repCapacity: nat,
                 ds: seq<Data>, nums: seq<int>, before: seq<seq<int>>, i: nat,
                 rep: nat, newReps: seq<Line>, newRepCapacity: nat, g: seq<seq<int>>)
    requires i < |lines| && Scanned(lines, reps, repCapacity, ds, nums, before, i, true, rep, newReps, newRepCapacity, g)
    ensures Opened(lines, reps, repCapacity, ds, nums, before, i, rep, newReps, newRepCapacity, g)
  {
    assert !RunStart(ds, i);
  }

  /**
   * The second half of the step: the open block gathers line `i + 1` and
   * stays open exactly when that line continues it.
   */
  lemma ExtendStep(lines: seq<Line>, reps: seq<Line>, repCapacity: nat,
                   ds: seq<Data>, nums: seq<int>, before: seq<seq<int>>, i: nat,
                   rep: nat, newReps: seq<Line>, newRepCapacity: nat, g: seq<seq<int>>, similar: bool, g': seq<seq<int>>)
    requires Opened(lines, reps, repCapacity, ds, nums, before, i, rep, newReps, newRepCapacity, g)
    requires similar <==> i + 1 < |ds| && Similar(ds[i], ds[i + 1])
    requires g' == if similar then g[rep := g[rep] + [nums[i + 1]]] else g
    ensures Scanned(lines, reps, repCapacity, ds, nums, before, i + 1, similar, rep, newReps, newRepCapacity, g')
  {
    GainedStep(ds, nums, i);
    if similar {
      BlockOfStep(ds, i);
    }
  }

  /**
   * The first half of one step of find_representatives at line `i`: when
   * no block is open, line `i` opens one, gathers its own number and is
   * appended to the representatives, the buffer doubling when it is full.
   */
  method OpenBlock(lines: seq<Line>, i: nat, hasRepresentative: bool, rep: nat,
                   reps: seq<Line>, newReps: seq<Line>, repCapacity: nat, newRepCapacity: nat,
                   ghost ds: seq<Data>, ghost nums: seq<int>, ghost before: seq<seq<int>>, ghost g: seq<seq<int>>)
    returns (rep': nat, newReps': seq<Line>, newRepCapacity': nat, ghost g': seq<seq<int>>)
    requires i < |lines| && Scanned(lines, reps, repCapacity, ds, nums, before, i, hasRepresentative, rep, newReps, newRepCapacity, g)
    requires Holds(lines, ds, nums, Join(before, g))
    modifies lines[i]
    ensures Opened(lines, reps, repCapacity, ds, nums, before, i, rep', newReps', newRepCapacity', g')
    ensures Holds(lines, ds, nums, Join(before, g'))
  {
    rep', newReps', newRepCapacity', g' := rep, newReps, newRepCapacity, g;
    if !hasRepresentative {
      OpenStep(lines, reps, repCapacity, ds, nums, before, i, rep, newReps, newRepCapacity, g);
      if |newReps| == newRepCapacity {
        newRepCapacity' := 2 * newRepCapacity;
      }
      Gather(lines, i, i, ds, nums, before, g);
      g' := g[i := g[i] + [nums[i]]];
      newReps' := newReps + [lines[i]];
      rep' := i;
    } else {
      KeepStep(lines, reps, repCapacity, ds, nums, before, i, rep, newReps, newRepCapacity, g);
    }
  }

  /** `i < lines_size - 1 && compareLines(&lines[i], &lines[i + 1])`: the next line is similar. */
  method CompareNext(lines: seq<Line>, i: nat, ghost ds: seq<Data>, ghost nums: seq<int>, ghost gs: seq<seq<int>>)
    returns (similar: bool)
    requires i < |lines| && Holds(lines, ds, nums, gs)
    ensures similar <==> i + 1 < |ds| && Similar(ds[i], ds[i + 1])
  {
    similar := false;
    if i < |lines| - 1 {
      similar := CompareLines(lines[i], lines[i + 1]);
    }
  }

  /**
   * The second half of the step: compareLines on lines `i` and `i + 1`;
   * when they are similar the open block, whose first line is `rep`,
   * gathers the number of line `i + 1`, and otherwise it closes.
   */
  method ExtendBlock(lines: seq<Line>, i: nat, rep: nat,
                     ghost ds: seq<Data>, ghost nums: seq<int>, ghost before: seq<seq<int>>, ghost g: seq<seq<int>>)
    returns (similar: bool, ghost g': seq<seq<int>>)
    requires i < |lines| && rep < |lines| && |before| == |g| == |lines|
    requires Holds(lines, ds, nums, Join(before, g))
    modifies lines[rep]
    ensures similar <==> i + 1 < |ds| && Similar(ds[i], ds[i + 1])
    ensures g' == if similar then g[rep := g[rep] + [nums[i + 1]]] else g
    ensures Holds(lines, ds, nums, Join(before, g'))
  {
    similar := CompareNext(lines, i, ds, nums, Join(before, g));
    g' := g;
    if similar {
      Gather(lines, rep, i + 1, ds, nums, before, g);
      g' := g[rep := g[rep] + [nums[i + 1]]];
    }
  }

  /** Before the first line, nothing has been gathered and no block is open. */
  lemma ScannedNone(lines: seq<Line>, reps: seq<Line>, repCapacity: nat,
                    ds: seq<Data>, nums: seq<int>, before: seq<seq<int>>)
    requires Holds(lines, ds, nums, before) && 0 < repCapacity && |reps| <= repCapacity
    ensures Scanned(lines, reps, repCapacity, ds, nums, before, 0, false, 0, reps, repCapacity, Gained(ds, nums, 0))
    ensures Holds(lines, ds, nums, Join(before, Gained(ds, nums, 0)))
  {
    var g := Gained(ds, nums, 0);
    assert Join(before, g) == before by {
      assert forall j :: 0 <= j < |lines| ==> g[j] == [] && Join(before, g)[j] == before[j];
    }
  }

  /**
   * After the last line, every block start holds the numbers of its whole
   * block and the other lines hold nothing more.
   */
  lemma ScannedAll(lines: seq<Line>, reps: seq<Line>, repCapacity: nat,
                   ds: seq<Data>, nums: seq<int>, before: seq<seq<int>>,
                   hasRepresentative: bool, rep: nat, newReps: seq<Line>, newRepCapacity: nat, g: seq<seq<int>>)
    requires Scanned(lines, reps, repCapacity, ds, nums, before, |lines|, hasRepresentative, rep, newReps, newRepCapacity, g)
    requires Holds(lines, ds, nums, Join(before, g))
    ensures forall j :: 0 <= j < |lines| ==>
      lines[j].similarLines == before[j] + if RunStart(ds, j) then nums[j..RunEnd(ds, j)] else []
  {
    forall j | 0 <= j < |lines|
      ensures lines[j].similarLines == before[j] + if RunStart(ds, j) then nums[j..RunEnd(ds, j)] else []
    {
      assert lines[j].similarLines == Join(before, g)[j];
    }
  }

  /**
   * find_representatives: on lines sorted by line_cmp_by_data, the first
   * line of every block of neighbours that compareLines calls similar is
   * appended to the representatives, in order, and gathers the numbers of
   * its whole block; the other lines gain nothing. The representatives
   * buffer is the sequence `reps` with its capacity `repCapacity`; the
   * lines hold tokens `ds`, numbers `nums` and groups `before` on entry.
   */
  method FindRepresentatives(lines: seq<Line>, reps: seq<Line>, repCapacity: nat,
                             ghost ds: seq<Data>, ghost nums: seq<int>, ghost before: seq<seq<int>>)
    returns (newReps: seq<Line>, newRepCapacity: nat)
    requires Holds(lines, ds, nums, before)
    requires 0 < repCapacity && |reps| <= repCapacity
    modifies set l | l in lines
    ensures newRepCapacity == Doubled(repCapacity, |newReps|)
    ensures newReps == reps + Chosen(lines, Starts(ds, |lines|))
    ensures Holds(lines, ds, nums, Join(before, Gained(ds, nums, |lines|)))
    ensures forall j :: 0 <= j < |lines| ==>
      lines[j].similarLines == before[j] + if RunStart(ds, j) then nums[j..RunEnd(ds, j)] else []
  {
    newReps, newRepCapacity := reps, repCapacity;
    var hasRepresentative := false;
    var rep: nat := 0;
    ghost var g := Gained(ds, nums, 0);
    ScannedNone(lines, reps, repCapacity, ds, nums, before);
    for i := 0 to |lines|
      invariant Scanned(lines, reps, repCapacity, ds, nums, before, i, hasRepresentative, rep, newReps, newRepCapacity, g)
      invariant Holds(lines, ds, nums, Join(before, g))
    {
      rep, newReps, newRepCapacity, g :=
        OpenBlock(lines, i, hasRepresentative, rep, reps, newReps, repCapacity, newRepCapacity, ds, nums, before, g);
      ghost var g1 := g;
      hasRepresentative, g := ExtendBlock(lines, i, rep, ds, nums, before, g1);
      ExtendStep(lines, reps, repCapacity, ds, nums, before, i, rep, newReps, newRepCapacity, g1, hasRepresentative, g);
    }
    ScannedAll(lines, reps, repCapacity, ds, nums, before, hasRepresentative, rep, newReps, newRepCapacity, g);
    FirstsChosen(lines, ds, |lines|);
  }
}
