/**
 * PolyPrint of poly.c as a function producing the text it writes to
 * standard output (without the newline StackPrint adds), and the proof that
 * every line it writes passes CheckIfCorrectPoly of parser.c.
 */
module PolyPrint {
  import opened PolyBase
  import opened CText
  import opened PolyParser

  /**
   * A scalar prints as `%ld`; otherwise the monomials print from the last
   * entry of the array to the first, that is by increasing exponent, each as
   * `(coefficient,exponent)`, separated by `+`.
   */
  function Print(p: Poly): (r: string)
    requires Canonical(p)
    ensures |r| > 0
    ensures p.Terms? ==> r[0] == '('
    decreases p, 1
  {
    match p
    case Coeff(c) => IntToString(c)
    case Terms(ms) => PrintFrom(p, |ms| - 1)
  }

  /** The monomials `i, i - 1, ..., 0` of `p`, separated by `+`. */
  function PrintFrom(p: Poly, i: nat): (r: string)
    requires Canonical(p) && p.Terms? && i < |p.ms|
    ensures |r| > 0 && r[0] == '('
    decreases p, 0, i
  {
    CoefficientCanonical(p, i);
    PrintMono(Print(p.ms[i].p), p.ms[i].exp)
      + (if i == 0 then "" else "+" + PrintFrom(p, i - 1))
  }

  /** One monomial, `(coefficient,exponent)`, given the text of its coefficient. */
  function PrintMono(text: string, exp: int): (r: string)
    ensures |r| > 0 && r[0] == '('
  {
    "(" + text + "," + IntToString(exp) + ")"
  }

  /** As many `(` as `)` and as `,`, counted as CheckIfCorrectPoly counts them. */
  predicate Balanced(s: string) {
    Count(s, 0, |s|, '(') == Count(s, 0, |s|, ')') && Count(s, 0, |s|, ')') == Count(s, 0, |s|, ',')
  }

  /**
   * The printed text passes the whole-line tests of CheckIfCorrectPoly: it
   * starts with `(`, a digit or `-`, and has as many `(` as `)` and as `,`.
   * That each character is allowed is part of the local tests (`FitsIn`).
   */
  predicate PolyShaped(s: string) {
    |s| > 0 && (s[0] == '(' || IsNumberOrMinus(s[0])) && Balanced(s)
  }

  /** What PolyPrint writes has the shape CheckIfCorrectPoly looks for. */
  lemma {:induction false} PrintShaped(p: Poly)
    requires Canonical(p)
    ensures PolyShaped(Print(p))
    decreases p, 1
  {
    if p.Coeff? {
      ScalarShaped(p);
    } else {
      TermsShaped(p);
    }
  }

  /** A scalar prints as a number, which is well shaped. */
  lemma ScalarShaped(p: Poly)
    requires Canonical(p) && p.Coeff?
    ensures PolyShaped(Print(p))
  {
    PrintUnfold(p);
    NumberShaped(p.c);
    ShapedEqual(Print(p), IntToString(p.c));
  }

  /** A proper polynomial prints as balanced monomials starting with `(`. */
  lemma {:induction false} TermsShaped(p: Poly)
    requires Canonical(p) && p.Terms?
    ensures PolyShaped(Print(p))
    decreases p, 0, |p.ms|
  {
    PrintUnfold(p);
    PrintFromBalanced(p, |p.ms| - 1, Print(p));
  }

  lemma ShapedEqual(a: string, b: string)
    requires a == b && PolyShaped(b)
    ensures PolyShaped(a)
  {
  }

  /** A scalar prints as its number, a proper polynomial as its monomials from the highest down. */
  lemma PrintUnfold(p: Poly)
    requires Canonical(p)
    ensures p.Coeff? ==> Print(p) == IntToString(p.c)
    ensures p.Terms? ==> |p.ms| > 0 && Print(p) == PrintFrom(p, |p.ms| - 1)
  {
  }

  /** The monomials printed from entry `i` down have as many `(` as `)` and as `,`. */
  lemma {:induction false} PrintFromBalanced(p: Poly, i: nat, whole: string)
    requires Canonical(p) && p.Terms? && i < |p.ms| && whole == PrintFrom(p, i)
    ensures Balanced(whole)
    decreases p, 0, i
  {
    PrintFromUnfold(p, i);
    PrintShaped(p.ms[i].p);
    var c := Print(p.ms[i].p);
    if i == 0 {
      StepBalanced(c, p.ms[i].exp, true, "", whole);
    } else {
      PrintFromBalanced(p, i - 1, PrintFrom(p, i - 1));
      StepBalanced(c, p.ms[i].exp, false, PrintFrom(p, i - 1), whole);
    }
  }

  /** The monomials from entry `i` down: entry `i`, then `+` and the ones below it. */
  lemma PrintFromUnfold(p: Poly, i: nat)
    requires Canonical(p) && p.Terms? && i < |p.ms|
    ensures Canonical(p.ms[i].p)
    ensures i == 0 ==> PrintFrom(p, i) == PrintMono(Print(p.ms[i].p), p.ms[i].exp) + ""
    ensures i > 0 ==> PrintFrom(p, i) == PrintMono(Print(p.ms[i].p), p.ms[i].exp) + ("+" + PrintFrom(p, i - 1))
  {
    CoefficientCanonical(p, i);
  }

  /** One more monomial in front of balanced ones, or alone, is balanced. */
  lemma StepBalanced(c: string, exp: int, last: bool, rest: string, whole: string)
    requires Balanced(c) && (last || Balanced(rest))
    requires whole == PrintMono(c, exp) + (if last then "" else "+" + rest)
    ensures Balanced(whole)
  {
    MonoBalanced(c, exp);
    if last {
      assert PrintMono(c, exp) + "" == PrintMono(c, exp);
    } else {
      JoinBalanced(PrintMono(c, exp), rest);
      Reassociate(PrintMono(c, exp), "+", rest);
    }
  }

  /** A monomial printed around a balanced coefficient is balanced. */
  lemma MonoBalanced(text: string, exp: int)
    requires Balanced(text)
    ensures Balanced(PrintMono(text, exp))
  {
    NumberText(exp);
    var e := IntToString(exp);
    var m := PrintMono(text, exp);
    assert m == "(" + text + "," + e + ")";
    CountsJoin("(", text);
    CountsJoin("(" + text, ",");
    CountsJoin("(" + text + ",", e);
    CountsJoin("(" + text + "," + e, ")");
  }

  /** Two balanced texts joined by `+` are balanced. */
  lemma JoinBalanced(a: string, b: string)
    requires Balanced(a) && Balanced(b)
    ensures Balanced(a + "+" + b)
  {
    CountsJoin(a, "+");
    CountsJoin(a + "+", b);
  }

  /** A printed integer holds digits and `-` only, so none of `(`, `)` and `,`. */
  lemma NumberText(n: int)
    ensures var t := IntToString(n);
      (forall k :: 0 <= k < |t| ==> IsNumberOrMinus(t[k])) &&
      Count(t, 0, |t|, '(') == 0 && Count(t, 0, |t|, ')') == 0 && Count(t, 0, |t|, ',') == 0
  {
    NumberOfIntToString(n);
    var t := IntToString(n);
    CountAbsent(t, |t|, '(');
    CountAbsent(t, |t|, ')');
    CountAbsent(t, |t|, ',');
  }

  /** A printed scalar is well shaped: it starts with a digit or `-` and holds no bracket or comma. */
  lemma NumberShaped(n: int)
    ensures PolyShaped(IntToString(n))
  {
    NumberText(n);
    var t := IntToString(n);
    assert IsNumberOrMinus(t[0]);
  }

  /** The three counts of a concatenation are the sums of the counts of its parts. */
  lemma CountsJoin(x: string, y: string)
    ensures Count(x + y, 0, |x + y|, '(') == Count(x, 0, |x|, '(') + Count(y, 0, |y|, '(')
    ensures Count(x + y, 0, |x + y|, ')') == Count(x, 0, |x|, ')') + Count(y, 0, |y|, ')')
    ensures Count(x + y, 0, |x + y|, ',') == Count(x, 0, |x|, ',') + Count(y, 0, |y|, ',')
  {
    CountConcat(x, y, |y|, '(');
    CountConcat(x, y, |y|, ')');
    CountConcat(x, y, |y|, ',');
  }

  lemma {:induction false} CountConcat(x: string, y: string, k: nat, c: char)
    requires k <= |y|
    ensures Count(x + y, 0, |x| + k, c) == Count(x, 0, |x|, c) + Count(y, 0, k, c)
    decreases k
  {
    if k == 0 {
      CountPrefix(x + y, x, |x|, c);
    } else {
      CountConcat(x, y, k - 1, c);
      assert CharAt(x + y, |x| + k - 1) == CharAt(y, k - 1);
    }
  }

  /** Counts below `b` depend only on the first `b` characters. */
  lemma {:induction false} CountPrefix(s: string, t: string, b: nat, c: char)
    requires b <= |s| && b <= |t| && s[..b] == t[..b]
    ensures Count(s, 0, b, c) == Count(t, 0, b, c)
    decreases b
  {
    if b > 0 {
      assert s[b - 1] == s[..b][b - 1] == t[..b][b - 1] == t[b - 1];
      assert s[..b - 1] == s[..b][..b - 1] == t[..b][..b - 1] == t[..b - 1];
      CountPrefix(s, t, b - 1, c);
    }
  }

  lemma {:induction false} CountAbsent(s: string, b: nat, c: char)
    requires b <= |s| && forall k :: 0 <= k < b ==> s[k] != c
    ensures Count(s, 0, b, c) == 0
    decreases b
  {
    if b > 0 {
      CountAbsent(s, b - 1, c);
    }
  }

  /**
   * Every line PolyPrint writes, with the newline StackPrint adds, passes
   * CheckIfCorrectPoly.
   */
  lemma PrintedLineCorrect(p: Poly)
    requires Canonical(p)
    ensures CorrectPoly(Print(p) + "\n")
  {
    var t := Print(p);
    var s := t + "\n";
    PrintShaped(p);
    PrintFits(p, '\0', '\n');
    var e := LineEnd(s, 0);
    assert CharAt(s, |t|) == '\n';
    assert e == |t| by {
      if e < |t| {
        assert CharAt(s, e) == t[e];
        FitsAt(t, '\0', '\n', e);
      }
    }
    forall i: int | 0 <= i < e
      ensures LocalOk(s, i)
    {
      LocalOkFits(s, i);
      FitsAt(t, '\0', '\n', i);
      assert CharAt(s, i - 1) == Around(t, '\0', '\n', i - 1);
      assert CharAt(s, i + 1) == Around(t, '\0', '\n', i + 1);
    }
    assert s[..|t|] == t[..|t|];
    CountPrefix(s, t, |t|, '(');
    CountPrefix(s, t, |t|, ')');
    CountPrefix(s, t, |t|, ',');
  }

  /**
   * The local tests of CheckIfCorrectPoly at a position, as a test of the
   * character before it, the character and the character after it.
   */
  predicate Fits(prev: char, cur: char, next: char) {
    IsPolySign(cur) &&
    (cur == '(' ==> IsNumberOrMinus(next) || next == '(') &&
    (cur == ')' ==> next == '+' || next == ',' || Ends(next)) &&
    (cur == ',' ==> IsNumberOrMinus(next)) &&
    (IsNumberOrMinus(cur) ==> IsNumberOrMinus(next) || next == ',' || next == ')' || Ends(next)) &&
    (cur == '+' ==> next == '(') &&
    (cur == '-' && !IsNumberOrMinus(prev) ==> IsNumberOrMinus(next))
  }

  lemma LocalOkFits(s: string, i: nat)
    ensures LocalOk(s, i) == Fits(CharAt(s, i - 1), CharAt(s, i), CharAt(s, i + 1))
  {
  }

  /** The character at `j` of `t` set between `before` and `after`. */
  function Around(t: string, before: char, after: char, j: int): char {
    if j < 0 then before else if j < |t| then t[j] else after
  }

  /** Every position of `t` passes the local tests when `t` stands between `before` and `after`. */
  predicate FitsIn(t: string, before: char, after: char)
    decreases |t|
  {
    |t| == 0 || (Fits(before, t[0], if |t| == 1 then after else t[1]) && FitsIn(t[1..], t[0], after))
  }

  /** The tests at one position of a text that fits. */
  lemma {:induction false} FitsAt(t: string, before: char, after: char, i: nat)
    requires FitsIn(t, before, after) && i < |t|
    ensures Fits(Around(t, before, after, i - 1), t[i], Around(t, before, after, i + 1))
    decreases i
  {
    if i > 0 {
      FitsAt(t[1..], t[0], after, i - 1);
      assert Around(t[1..], t[0], after, i - 2) == Around(t, before, after, i - 1);
      assert Around(t[1..], t[0], after, i) == Around(t, before, after, i + 1);
    }
  }

  /** Two pieces that pass the local tests next to each other pass them joined. */
  lemma {:induction false} FitsJoin(x: string, y: string, before: char, after: char)
    requires |x| > 0 && |y| > 0
    requires FitsIn(x, before, y[0]) && FitsIn(y, x[|x| - 1], after)
    ensures FitsIn(x + y, before, after)
    decreases |x|
  {
    if |x| == 1 {
      assert (x + y)[1..] == y;
    } else {
      assert (x + y)[1..] == x[1..] + y;
      FitsJoin(x[1..], y, x[0], after);
    }
  }

  /** A run of digits passes the local tests before `,`, `)` or the end of the line. */
  lemma {:induction false} DigitsFit(d: string, before: char, after: char)
    requires forall k :: 0 <= k < |d| ==> IsDigit(d[k])
    requires after == ',' || after == ')' || Ends(after)
    ensures FitsIn(d, before, after)
    decreases |d|
  {
    if |d| > 0 {
      DigitsFit(d[1..], d[0], after);
    }
  }

  /** A printed integer passes the local tests before `,`, `)` or the end of the line. */
  lemma NumberFits(n: int, before: char, after: char)
    requires after == ',' || after == ')' || Ends(after)
    ensures FitsIn(IntToString(n), before, after)
  {
    var t := IntToString(n);
    if n < 0 {
      var d := NatToString(-n);
      DigitsFit(d, '-', after);
      assert t[1..] == d;
    } else {
      DigitsFit(t, before, after);
    }
  }

  /** What PolyPrint writes passes the local tests before `,` or the end of the line. */
  lemma {:induction false} PrintFits(p: Poly, before: char, after: char)
    requires Canonical(p) && (after == ',' || Ends(after))
    ensures FitsIn(Print(p), before, after)
    decreases p, 1
  {
    match p
    case Coeff(c) => NumberFits(c, before, after);
    case Terms(ms) => PrintFromFits(p, |ms| - 1, before, after);
  }

  /** The monomials printed from entry `i` down pass the same tests. */
  lemma {:induction false} PrintFromFits(p: Poly, i: nat, before: char, after: char)
    requires Canonical(p) && p.Terms? && i < |p.ms| && (after == ',' || Ends(after))
    ensures FitsIn(PrintFrom(p, i), before, after)
    decreases p, 0, i
  {
    CoefficientCanonical(p, i);
    var c := Print(p.ms[i].p);
    PrintFits(p.ms[i].p, '(', ',');
    PrintShaped(p.ms[i].p);
    if i == 0 {
      MonoFits(c, p.ms[i].exp, before, after);
      assert PrintFrom(p, i) == PrintMono(c, p.ms[i].exp) + "" == PrintMono(c, p.ms[i].exp);
    } else {
      PrintFromFits(p, i - 1, '+', after);
      PlusFits(c, p.ms[i].exp, PrintFrom(p, i - 1), before, after);
    }
  }

  /** A monomial, `+` and the monomials after it pass the local tests joined. */
  lemma PlusFits(c: string, exp: int, rest: string, before: char, after: char)
    requires |c| > 0 && (c[0] == '(' || IsNumberOrMinus(c[0])) && FitsIn(c, '(', ',')
    requires |rest| > 0 && rest[0] == '(' && FitsIn(rest, '+', after)
    ensures FitsIn(PrintMono(c, exp) + ("+" + rest), before, after)
  {
    var x := MonoPlus(c, exp, before);
    JoinRest(x, rest, before, after);
    Reassociate(PrintMono(c, exp), "+", rest);
  }

  lemma Reassociate(a: string, b: string, c: string)
    ensures a + (b + c) == a + b + c
  {
  }

  /** A monomial followed by `+` passes the local tests before `(`. */
  lemma MonoPlus(c: string, exp: int, before: char) returns (x: string)
    requires |c| > 0 && (c[0] == '(' || IsNumberOrMinus(c[0])) && FitsIn(c, '(', ',')
    ensures x == PrintMono(c, exp) + "+" && x[|x| - 1] == '+' && FitsIn(x, before, '(')
  {
    MonoFits(c, exp, before, '+');
    var m := PrintMono(c, exp);
    assert m[|m| - 1] == ')';
    assert FitsIn("+", ')', '(');
    FitsJoin(m, "+", before, '(');
    x := m + "+";
  }

  /** A text ending in `+` and the monomials after it pass the local tests joined. */
  lemma JoinRest(x: string, rest: string, before: char, after: char)
    requires |x| > 0 && x[|x| - 1] == '+' && FitsIn(x, before, '(')
    requires |rest| > 0 && rest[0] == '(' && FitsIn(rest, '+', after)
    ensures FitsIn(x + rest, before, after)
  {
    FitsJoin(x, rest, before, after);
  }

  /** A monomial passes the local tests before `+`, `,` or the end of the line. */
  lemma MonoFits(c: string, exp: int, before: char, after: char)
    requires |c| > 0 && (c[0] == '(' || IsNumberOrMinus(c[0])) && FitsIn(c, '(', ',')
    requires after == '+' || after == ',' || Ends(after)
    ensures FitsIn(PrintMono(c, exp), before, after)
  {
    var e := IntToString(exp);
    NumberText(exp);
    NumberFits(exp, ',', ')');
    FitsJoin("(", c, before, ',');
    FitsJoin("(" + c, ",", before, e[0]);
    FitsJoin("(" + c + ",", e, before, ')');
    FitsJoin("(" + c + "," + e, ")", before, after);
  }
}
