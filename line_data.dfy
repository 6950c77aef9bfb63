/**
 * What a line of the similar-lines program holds once it is read: its
 * words sorted into strings, `long long`, `unsigned long long` and
 * `double` values. The comparators of line_representation.c over them:
 * `strcasecmp`, ll_cmp, ull_cmp, dbl_cmp, compareLines (Similar) and
 * line_cmp_by_data (ByData).
 */
module LineData {
  import opened CText
  import opened Comparators

  newtype LongLong = x: int | LONG_MIN <= x <= LONG_MAX
  newtype ULongLong = x: int | 0 <= x <= ULLONG_MAX

  /**
   * A `double` that is not NaN (NaN words are read as strings): an
   * infinity or a finite value, ordered as the extended reals. How the
   * value was rounded from its word is not modelled.
   */
  datatype Double = NegInf | Finite(r: real) | PosInf

  predicate DblLess(a: Double, b: Double) {
    match (a, b)
    case (NegInf, _) => !b.NegInf?
    case (Finite(x), Finite(y)) => x < y
    case (Finite(_), PosInf) => true
    case _ => false
  }

  // ---------------------------------------------------------------------
  // The element comparators.
  // ---------------------------------------------------------------------

  /** `tolower` in the C locale. */
  function ToLower(c: char): (r: char)
    ensures 'A' <= c <= 'Z' ==> 'a' <= r <= 'z' && r as int - c as int == 32
    ensures !('A' <= c <= 'Z') ==> r == c
  {
    if 'A' <= c <= 'Z' then (c as int + 32) as char else c
  }

  /** The word with every capital lowered: what `strcasecmp` compares. */
  function Fold(w: string): (r: string)
    ensures |r| == |w| && forall i :: 0 <= i < |w| ==> r[i] == ToLower(w[i])
  {
    seq(|w|, i requires 0 <= i < |w| => ToLower(w[i]))
  }

  /** One character step of `strcasecmp`. */
  function CaseCmp(c: char, d: char): int {
    Sign(ToLower(c) as int - ToLower(d) as int)
  }

  /**
   * `strcasecmp` on two words (which hold no NUL), by the sign of its
   * result: the first pair of characters that differ once lowered decides,
   * and a word that is a proper prefix of the other comes first.
   */
  function StrCaseCmp(a: string, b: string): int {
    LexCmp(a, b, CaseCmp)
  }

  /** ll_cmp. */
  function LlCmp(a: LongLong, b: LongLong): (r: int)
    ensures r == Sign(a as int - b as int)
  {
    if a > b then 1 else if a < b then -1 else 0
  }

  /** ull_cmp. */
  function UllCmp(a: ULongLong, b: ULongLong): (r: int)
    ensures r == Sign(a as int - b as int)
  {
    if a > b then 1 else if a < b then -1 else 0
  }

  /** dbl_cmp. */
  function DblCmp(a: Double, b: Double): (r: int)
    ensures r == 0 <==> a == b
    ensures r < 0 <==> DblLess(a, b)
  {
    if DblLess(b, a) then 1 else if DblLess(a, b) then -1 else 0
  }

  /** Two words compare 0 exactly when they are equal once lowered. */
  lemma StrCaseCmpZero(a: string, b: string)
    ensures StrCaseCmp(a, b) == 0 <==> Fold(a) == Fold(b)
  {
    LexZero(a, b, CaseCmp);
    if Fold(a) == Fold(b) {
      forall i | 0 <= i < |a| ensures CaseCmp(a[i], b[i]) == 0 {
        assert Fold(a)[i] == Fold(b)[i];
      }
    }
  }

  lemma CaseCmpComparator()
    ensures IsComparator(CaseCmp)
  {
  }

  lemma StrCaseCmpComparator()
    ensures IsComparator(StrCaseCmp)
  {
    CaseCmpComparator();
    forall a, b ensures Sign(StrCaseCmp(b, a)) == -Sign(StrCaseCmp(a, b)) {
      LexFlips(a, b, CaseCmp);
    }
    forall a, b, c | StrCaseCmp(a, b) <= 0 && StrCaseCmp(b, c) <= 0 ensures StrCaseCmp(a, c) <= 0 {
      LexChained(a, b, c, CaseCmp);
    }
  }

  lemma NumberComparators()
    ensures IsComparator(LlCmp) && IsComparator(UllCmp)
  {
  }

  lemma DblCmpComparator()
    ensures IsComparator(DblCmp)
  {
  }

  // ---------------------------------------------------------------------
  // Lines.
  // ---------------------------------------------------------------------

  /** The four token arrays of a line. */
  datatype Data = Data(strs: seq<string>, lls: seq<LongLong>, ulls: seq<ULongLong>, dbls: seq<Double>)

  /** The words of a line, each lowered. */
  function Folded(ws: seq<string>): (r: seq<string>)
    ensures |r| == |ws| && forall i :: 0 <= i < |ws| ==> r[i] == Fold(ws[i])
  {
    seq(|ws|, i requires 0 <= i < |ws| => Fold(ws[i]))
  }

  /** Two lines hold the same numbers and the same words up to case. */
  predicate Similar(a: Data, b: Data) {
    Normal(a) == Normal(b)
  }

  /** A line with its words lowered: what similarity compares. */
  function Normal(d: Data): (n: Data)
    ensures n.strs == Folded(d.strs) && n.lls == d.lls && n.ulls == d.ulls && n.dbls == d.dbls
  {
    d.(strs := Folded(d.strs))
  }

  /**
   * What compareLines checks: the same number of tokens of each kind, the
   * numbers equal position by position, and the words compare 0 under
   * `strcasecmp` position by position.
   */
  predicate SameTokensInOrder(a: Data, b: Data) {
    |a.lls| == |b.lls| && |a.ulls| == |b.ulls| && |a.strs| == |b.strs| && |a.dbls| == |b.dbls| &&
    (forall i :: 0 <= i < |a.lls| ==> a.lls[i] == b.lls[i]) &&
    (forall i :: 0 <= i < |a.ulls| ==> a.ulls[i] == b.ulls[i]) &&
    (forall i :: 0 <= i < |a.dbls| ==> a.dbls[i] == b.dbls[i]) &&
    (forall i :: 0 <= i < |a.strs| ==> StrCaseCmp(a.strs[i], b.strs[i]) == 0)
  }

  /** The element-by-element check compareLines makes decides similarity. */
  lemma SimilarMeans(a: Data, b: Data)
    ensures Similar(a, b) <==> SameTokensInOrder(a, b)
  {
    forall i | 0 <= i < |a.strs| && i < |b.strs| {
      StrCaseCmpZero(a.strs[i], b.strs[i]);
    }
    if Folded(a.strs) == Folded(b.strs) {
      forall i | 0 <= i < |a.strs| ensures StrCaseCmp(a.strs[i], b.strs[i]) == 0 {
        assert Folded(a.strs)[i] == Folded(b.strs)[i];
      }
    }
    if SameTokensInOrder(a, b) {
      assert a.lls == b.lls && a.ulls == b.ulls && a.dbls == b.dbls;
    }
  }

  /** Similarity is an equivalence. */
  lemma SimilarEquivalence(a: Data, b: Data, c: Data)
    ensures Similar(a, a)
    ensures Similar(a, b) ==> Similar(b, a)
    ensures Similar(a, b) && Similar(b, c) ==> Similar(a, c)
  {
  }

  /**
   * line_cmp_by_data: the words compared lexicographically, then the
   * `long long` values, then the `unsigned long long` values, then the
   * `double` values; the first that differs decides.
   */
  function ByData(a: Data, b: Data): int {
    Then(LexCmp(a.strs, b.strs, StrCaseCmp),
      Then(LexCmp(a.lls, b.lls, LlCmp),
        Then(LexCmp(a.ulls, b.ulls, UllCmp), LexCmp(a.dbls, b.dbls, DblCmp))))
  }

  /** line_cmp_by_data returns 0 exactly for the lines compareLines calls similar. */
  lemma ByDataZero(a: Data, b: Data)
    ensures ByData(a, b) == 0 <==> Similar(a, b)
  {
    SimilarMeans(a, b);
    LexZero(a.strs, b.strs, StrCaseCmp);
    LexZero(a.lls, b.lls, LlCmp);
    LexZero(a.ulls, b.ulls, UllCmp);
    LexZero(a.dbls, b.dbls, DblCmp);
  }

  /** One token array is a proper prefix of the other's. */
  predicate ProperPrefix<T(==)>(s: seq<T>, t: seq<T>) {
    |s| < |t| && s == t[..|s|]
  }

  /**
   * line_cmp_by_data puts a line first when, with the earlier token arrays
   * the same, its next array is a proper prefix of the other line's.
   */
  lemma ByDataPrefixLess(a: Data, b: Data)
    requires ProperPrefix(a.strs, b.strs) ||
      (a.strs == b.strs && ProperPrefix(a.lls, b.lls)) ||
      (a.strs == b.strs && a.lls == b.lls && ProperPrefix(a.ulls, b.ulls)) ||
      (a.strs == b.strs && a.lls == b.lls && a.ulls == b.ulls && ProperPrefix(a.dbls, b.dbls))
    ensures ByData(a, b) < 0
  {
    StrCaseCmpComparator();
    NumberComparators();
    DblCmpComparator();
    if ProperPrefix(a.strs, b.strs) {
      LexPrefixLess(a.strs, b.strs, StrCaseCmp);
    } else {
      LexSame(a.strs, StrCaseCmp);
      if ProperPrefix(a.lls, b.lls) {
        LexPrefixLess(a.lls, b.lls, LlCmp);
      } else {
        LexSame(a.lls, LlCmp);
        if ProperPrefix(a.ulls, b.ulls) {
          LexPrefixLess(a.ulls, b.ulls, UllCmp);
        } else {
          LexSame(a.ulls, UllCmp);
          LexPrefixLess(a.dbls, b.dbls, DblCmp);
        }
      }
    }
  }

  /** line_cmp_by_data is a comparator, so `qsort` may sort lines by it. */
  lemma ByDataComparator()
    ensures IsComparator(ByData)
  {
    StrCaseCmpComparator();
    NumberComparators();
    DblCmpComparator();
    forall a, b ensures Sign(ByData(b, a)) == -Sign(ByData(a, b)) {
      LexFlips(a.strs, b.strs, StrCaseCmp);
      LexFlips(a.lls, b.lls, LlCmp);
      LexFlips(a.ulls, b.ulls, UllCmp);
      LexFlips(a.dbls, b.dbls, DblCmp);
      ThenFlips(LexCmp(a.ulls, b.ulls, UllCmp), LexCmp(b.ulls, a.ulls, UllCmp),
        LexCmp(a.dbls, b.dbls, DblCmp), LexCmp(b.dbls, a.dbls, DblCmp));
      ThenFlips(LexCmp(a.lls, b.lls, LlCmp), LexCmp(b.lls, a.lls, LlCmp),
        Then(LexCmp(a.ulls, b.ulls, UllCmp), LexCmp(a.dbls, b.dbls, DblCmp)),
        Then(LexCmp(b.ulls, a.ulls, UllCmp), LexCmp(b.dbls, a.dbls, DblCmp)));
      ThenFlips(LexCmp(a.strs, b.strs, StrCaseCmp), LexCmp(b.strs, a.strs, StrCaseCmp),
        Then(LexCmp(a.lls, b.lls, LlCmp), Then(LexCmp(a.ulls, b.ulls, UllCmp), LexCmp(a.dbls, b.dbls, DblCmp))),
        Then(LexCmp(b.lls, a.lls, LlCmp), Then(LexCmp(b.ulls, a.ulls, UllCmp), LexCmp(b.dbls, a.dbls, DblCmp))));
    }
    forall a, b, c ensures Chained(ByData(a, b), ByData(b, c), ByData(a, c)) {
      ByDataChained(a, b, c);
    }
  }

  lemma ByDataChained(a: Data, b: Data, c: Data)
    requires IsComparator(StrCaseCmp) && IsComparator(LlCmp) && IsComparator(UllCmp) && IsComparator(DblCmp)
    ensures Chained(ByData(a, b), ByData(b, c), ByData(a, c))
  {
    LexChained(a.strs, b.strs, c.strs, StrCaseCmp);
    LexChained(a.lls, b.lls, c.lls, LlCmp);
    LexChained(a.ulls, b.ulls, c.ulls, UllCmp);
    LexChained(a.dbls, b.dbls, c.dbls, DblCmp);
    ThenChained(LexCmp(a.ulls, b.ulls, UllCmp), LexCmp(b.ulls, c.ulls, UllCmp), LexCmp(a.ulls, c.ulls, UllCmp),
      LexCmp(a.dbls, b.dbls, DblCmp), LexCmp(b.dbls, c.dbls, DblCmp), LexCmp(a.dbls, c.dbls, DblCmp));
    var x3, y3, z3 := Then(LexCmp(a.ulls, b.ulls, UllCmp), LexCmp(a.dbls, b.dbls, DblCmp)),
      Then(LexCmp(b.ulls, c.ulls, UllCmp), LexCmp(b.dbls, c.dbls, DblCmp)),
      Then(LexCmp(a.ulls, c.ulls, UllCmp), LexCmp(a.dbls, c.dbls, DblCmp));
    ThenChained(LexCmp(a.lls, b.lls, LlCmp), LexCmp(b.lls, c.lls, LlCmp), LexCmp(a.lls, c.lls, LlCmp), x3, y3, z3);
    ThenChained(LexCmp(a.strs, b.strs, StrCaseCmp), LexCmp(b.strs, c.strs, StrCaseCmp), LexCmp(a.strs, c.strs, StrCaseCmp),
      Then(LexCmp(a.lls, b.lls, LlCmp), x3), Then(LexCmp(b.lls, c.lls, LlCmp), y3), Then(LexCmp(a.lls, c.lls, LlCmp), z3));
  }

  /** Every array of words or numbers of a line ascending, as sort_data_in_line leaves it. */
  ghost predicate SortedData(d: Data) {
    SortedBy(d.strs, StrCaseCmp) && SortedBy(d.lls, LlCmp) && SortedBy(d.ulls, UllCmp) && SortedBy(d.dbls, DblCmp)
  }

  /** The same tokens of each kind, in any order. */
  predicate SameTokens(a: Data, b: Data) {
    multiset(a.strs) == multiset(b.strs) && multiset(a.lls) == multiset(b.lls) &&
    multiset(a.ulls) == multiset(b.ulls) && multiset(a.dbls) == multiset(b.dbls)
  }
}
