/**
 * The line checks of parser.c: character classes, command keywords, the
 * numeric arguments of DEG_BY, AT and COMPOSE, and CheckIfCorrectPoly, the
 * character-level validation a polynomial line passes before it is parsed.
 *
 * A line is the buffer `getline` filled (`characters == |buf|`); the C
 * functions see it as a NUL-terminated string of length `CLength(buf)`, and
 * read `'\0'` past its end.
 */
module PolyParser {
  import opened CText

  // ---------------------------------------------------------------------
  // Character classes.
  // ---------------------------------------------------------------------

  /** CheckPolySign: `(`, `)`, `+`, `,`, `-` and the digits. */
  predicate IsPolySign(c: char) {
    c == '(' || c == ')' || c == '+' || c == ',' || c == '-' || IsDigit(c)
  }

  /** CheckIfLetter. */
  predicate IsLetter(c: char) {
    'A' <= c <= 'Z' || 'a' <= c <= 'z'
  }

  /** CheckIfNumberOrMinus. */
  predicate IsNumberOrMinus(c: char) {
    IsDigit(c) || c == '-'
  }

  /** The end of a line: its newline or the terminating NUL. */
  predicate Ends(c: char) {
    c == '\n' || c == '\0'
  }

  /** CheckIfEmptyOrComment. */
  predicate IsEmptyOrComment(buf: string) {
    CharAt(buf, 0) == '#' || CharAt(buf, 0) == '\n'
  }

  /** `strlen`: the position of the first NUL, or the whole buffer. */
  function CLength(buf: string): (n: nat)
    ensures n <= |buf|
    ensures forall i :: 0 <= i < n ==> buf[i] != '\0'
    ensures n < |buf| ==> buf[n] == '\0'
  {
    NulFrom(buf, 0)
  }

  /** The first NUL at or after `i`, or the end of the buffer. */
  function NulFrom(buf: string, i: nat): (n: nat)
    requires i <= |buf|
    ensures i <= n <= |buf|
    ensures forall k :: i <= k < n ==> buf[k] != '\0'
    ensures n < |buf| ==> buf[n] == '\0'
    decreases |buf| - i
  {
    if i == |buf| || buf[i] == '\0' then i else NulFrom(buf, i + 1)
  }

  /** The C string the buffer holds. */
  function CStr(buf: string): string {
    buf[..CLength(buf)]
  }

  /** TraverseByNumber: the first position at or after `i` that is not a digit or `-`. */
  function NumberEnd(s: string, i: nat): (j: nat)
    ensures i <= j && !IsNumberOrMinus(CharAt(s, j))
    ensures j == i || j <= |s|
    decreases |s| - i
  {
    if IsNumberOrMinus(CharAt(s, i)) then
      assert i < |s| && CharAt(s, i) == s[i];
      NumberEnd(s, i + 1)
    else i
  }

  // ---------------------------------------------------------------------
  // Commands.
  // ---------------------------------------------------------------------

  /**
   * CheckIfZERO, CheckIfIS_COEFF, ... CheckIfPOP: the C string is the
   * keyword, with its newline when the line's last character is one, or
   * the keyword alone.
   */
  predicate IsKeyword(buf: string, kw: string) {
    var len := CLength(buf);
    var last := CharAt(buf, len - 1);
    (last == '\n' && CStr(buf) == kw + "\n") || CStr(buf) == kw
  }

  /** The keyword tests accept exactly the keyword, optionally followed by a newline. */
  lemma KeywordExact(buf: string, kw: string)
    ensures IsKeyword(buf, kw) <==> CStr(buf) == kw || CStr(buf) == kw + "\n"
  {
    var len := CLength(buf);
    if CStr(buf) == kw + "\n" {
      assert CharAt(buf, len - 1) == (kw + "\n")[|kw|];
    }
  }

  /**
   * CheckIfDegBy, CheckIfAt and CheckIfCOMPOSE: the line starts with `kw`,
   * followed by white space, or by nothing at all when the line holds no NUL.
   */
  predicate StartsCommand(buf: string, kw: string) {
    var len := CLength(buf);
    len >= |kw| && buf[..|kw|] == kw &&
    (IsSpace(CharAt(buf, |kw|)) || (CharAt(buf, |kw|) == '\0' && len == |buf|))
  }

  /**
   * What CheckDegByArg, CheckAtArg and CheckCOMPOSEArg find after the
   * keyword: `Malformed` when the separator is not one space or the argument
   * is not a run of digits and `-` reaching the end of the line, `OutOfRange`
   * when the conversion sets `ERANGE`, `Stopped` when the conversion stops
   * before the end of the line, and otherwise the value read.
   */
  datatype ArgScan = Malformed | OutOfRange | Stopped | Read(value: int)

  /**
   * The common body of the three argument checks; the argument starts at
   * `at`, the position after the keyword and its space. `signed` selects
   * `strtol` and allows a leading `-` followed by a digit (CheckAtArg);
   * otherwise the conversion is `strtoull` and the argument must start with
   * a digit.
   */
  function ScanArg(buf: string, at: nat, signed: bool): ArgScan
    requires at >= 1
  {
    var len := CLength(buf);
    var first := CharAt(buf, at);
    if len < at || CharAt(buf, at - 1) != ' ' || len < at + 1 then Malformed
    else if !IsNumberOrMinus(first) then Malformed
    else if signed && first == '-' && !IsDigit(CharAt(buf, at + 1)) then Malformed
    else if !signed && first == '-' then Malformed
    else if !Ends(CharAt(buf, NumberEnd(buf, at + 1))) then Malformed
    else
      var c := if signed then Strtol(buf, at) else Strtoull(buf, at);
      if c.erange then OutOfRange
      else if !Ends(CharAt(buf, c.end)) then Stopped
      else Read(c.value)
  }

  /** An argument as HandleLine receives it: a value, or `errno == ERANGE`. */
  datatype Argument = Value(v: int) | WrongArgument

  /**
   * The result of CheckDegByArg, CheckAtArg and CheckCOMPOSEArg with the
   * `errno` they leave: when the conversion stops before the end of the line
   * they return 0 without setting `errno`, so the command runs with argument 0.
   */
  function CheckArg(a: ArgScan): Argument {
    match a
    case Read(v) => Value(v)
    case Stopped => Value(0)
    case _ => WrongArgument
  }

  /**
   * CheckDegByArg (`at == 7`), CheckAtArg (`at == 3`, signed) and
   * CheckCOMPOSEArg (`at == 8`): the tests in the order the C functions make
   * them, then the loop to the last character of the argument, then the
   * conversion.
   */
  method CheckNumericArg(buf: string, at: nat, signed: bool) returns (a: ArgScan)
    requires at >= 1
    ensures a == ScanArg(buf, at, signed)
  {
    var len := CLength(buf);
    if len < at || CharAt(buf, at - 1) != ' ' || len < at + 1 {
      return Malformed;
    }
    var first := CharAt(buf, at);
    if !IsNumberOrMinus(first) || (signed && first == '-' && !IsDigit(CharAt(buf, at + 1))) || (!signed && first == '-') {
      return Malformed;
    }
    var i := at;
    while IsNumberOrMinus(CharAt(buf, i + 1))
      invariant at <= i <= |buf|
      invariant NumberEnd(buf, i + 1) == NumberEnd(buf, at + 1)
      decreases |buf| - i
    {
      i := i + 1;
    }
    if !Ends(CharAt(buf, i + 1)) {
      return Malformed;
    }
    var c := if signed then Strtol(buf, at) else Strtoull(buf, at);
    if c.erange {
      return OutOfRange;
    }
    if !Ends(CharAt(buf, c.end)) {
      return Stopped;
    }
    return Read(c.value);
  }

  /** In `DEG_BY 1-2` the conversion stops at the `-`, and the command runs as `DEG_BY 0`. */
  lemma DegByTrailingMinus()
    ensures StartsCommand("DEG_BY 1-2\n", "DEG_BY")
    ensures ScanArg("DEG_BY 1-2\n", 7, false) == Stopped
    ensures CheckArg(ScanArg("DEG_BY 1-2\n", 7, false)) == Value(0)
  {
    var buf := "DEG_BY 1-2\n";
    assert CLength(buf) == 11;
    assert NumberEnd(buf, 8) == 10;
    assert Scan(buf, 7) == (false, 7, 8);
    assert DecimalValue(buf, 7, 8) == 1;
  }

  /**
   * An accepted argument is the value the conversion read when it reached
   * the end of the line, and 0 when it stopped before.
   */
  lemma ArgumentRead(buf: string, at: nat, signed: bool)
    requires at >= 1
    requires CheckArg(ScanArg(buf, at, signed)).Value?
    ensures var c := if signed then Strtol(buf, at) else Strtoull(buf, at);
      var v := CheckArg(ScanArg(buf, at, signed)).v;
      !c.erange && (if Ends(CharAt(buf, c.end)) then v == c.value else v == 0)
  {
  }

  /** Conversely, `<keyword> <n>` with `n` printed in decimal and in range gives `n`. */
  lemma ArgumentOfNumber(buf: string, at: nat, n: int)
    requires at >= 1 && LONG_MIN <= n <= LONG_MAX
    requires CharAt(buf, at - 1) == ' '
    requires at + |IntToString(n)| <= |buf| && buf[at..at + |IntToString(n)|] == IntToString(n)
    requires forall i :: 0 <= i < at ==> buf[i] != '\0'
    requires Ends(CharAt(buf, at + |IntToString(n)|))
    ensures CheckArg(ScanArg(buf, at, true)) == Value(n)
  {
    ArgumentShape(buf, at, n);
    StrtolOfIntToString(buf, at, n);
  }

  /** The guards of CheckAtArg that `<keyword> <n>` passes. */
  lemma ArgumentShape(buf: string, at: nat, n: int)
    requires at >= 1
    requires at + |IntToString(n)| <= |buf| && buf[at..at + |IntToString(n)|] == IntToString(n)
    requires forall i :: 0 <= i < at ==> buf[i] != '\0'
    requires Ends(CharAt(buf, at + |IntToString(n)|))
    ensures CLength(buf) >= at + 1 && IsNumberOrMinus(CharAt(buf, at))
    ensures CharAt(buf, at) == '-' ==> IsDigit(CharAt(buf, at + 1))
    ensures NumberEnd(buf, at + 1) == at + |IntToString(n)|
  {
    var t := IntToString(n);
    assert buf[at] == t[0];
    assert forall k :: at <= k < at + |t| ==> buf[k] == t[k - at];
    NumberOfIntToString(n);
    NumberEndOf(buf, at, at + |t|);
    LengthAtLeast(buf, at + 1);
    if n < 0 {
      assert t[1] == NatToString(-n)[0];
      assert IsDigit(buf[at + 1]);
    } else {
      assert IsDigit(t[0]);
    }
  }

  /** Printed integers consist of digits and `-`. */
  lemma NumberOfIntToString(n: int)
    ensures forall k :: 0 <= k < |IntToString(n)| ==> IsNumberOrMinus(IntToString(n)[k])
  {
  }

  lemma {:induction false} NumberEndOf(s: string, i: nat, j: nat)
    requires i <= j <= |s| && forall k :: i <= k < j ==> IsNumberOrMinus(s[k])
    requires !IsNumberOrMinus(CharAt(s, j))
    ensures NumberEnd(s, i) == j
    decreases j - i
  {
    if i < j {
      NumberEndOf(s, i + 1, j);
    }
  }

  /** A buffer with no NUL in its first `n` characters has a C length of at least `n`. */
  lemma LengthAtLeast(buf: string, n: nat)
    requires n <= |buf| && forall i :: 0 <= i < n ==> buf[i] != '\0'
    ensures CLength(buf) >= n
  {
  }

  // ---------------------------------------------------------------------
  // CheckIfCorrectPoly.
  // ---------------------------------------------------------------------

  /** The first position at or after `i` that ends the line. */
  function LineEnd(s: string, i: nat): (e: nat)
    ensures i <= e && Ends(CharAt(s, e))
    ensures forall k :: i <= k < e ==> !Ends(CharAt(s, k))
    decreases |s| - i
  {
    if Ends(CharAt(s, i)) then i else LineEnd(s, i + 1)
  }

  /** The number of `c` among `s[a..b)`. */
  function Count(s: string, a: nat, b: nat, c: char): nat
    decreases b
  {
    if b <= a then 0 else Count(s, a, b - 1, c) + (if CharAt(s, b - 1) == c then 1 else 0)
  }

  /** Position `i` does not continue a run of digits and `-`. */
  predicate RunStart(s: string, i: nat) {
    i == 0 || !IsNumberOrMinus(CharAt(s, i - 1))
  }

  /**
   * What CheckIfCorrectPoly demands of position `i` and the character after
   * it: an allowed character; after `(` a digit, `-` or `(`; after `)` a
   * `+`, `,` or the end; after `,` a digit or `-`; after `+` a `(`; a run of
   * digits and `-` ends in `,`, `)` or the end; and a `-` that starts a run
   * is followed by a digit or `-`.
   */
  predicate LocalOk(s: string, i: nat) {
    var cur := CharAt(s, i);
    var next := CharAt(s, i + 1);
    IsPolySign(cur) &&
    (cur == '(' ==> IsNumberOrMinus(next) || next == '(') &&
    (cur == ')' ==> next == '+' || next == ',' || Ends(next)) &&
    (cur == ',' ==> IsNumberOrMinus(next)) &&
    (IsNumberOrMinus(cur) ==> IsNumberOrMinus(next) || next == ',' || next == ')' || Ends(next)) &&
    (cur == '+' ==> next == '(') &&
    (cur == '-' && RunStart(s, i) ==> IsNumberOrMinus(next))
  }

  /**
   * The language CheckIfCorrectPoly accepts: the line starts with `(`, a
   * digit or `-`, every position up to the end of the line passes the local
   * checks, and the line holds as many `(` as `)` and as `,`.
   */
  predicate CorrectPoly(s: string) {
    var e := LineEnd(s, 0);
    (CharAt(s, 0) == '(' || IsNumberOrMinus(CharAt(s, 0))) &&
    (forall i :: 0 <= i < e ==> LocalOk(s, i)) &&
    Count(s, 0, e, '(') == Count(s, 0, e, ')') &&
    Count(s, 0, e, '(') == Count(s, 0, e, ',')
  }

  /** A failed local check before the end of the line refutes the line. */
  lemma Refuted(s: string, i: nat)
    requires forall k :: 0 <= k <= i ==> !Ends(CharAt(s, k))
    requires !LocalOk(s, i)
    ensures !CorrectPoly(s)
  {
    assert LineEnd(s, 0) > i;
  }

  /** Counting one more position adds the character there. */
  lemma CountNext(s: string, i: nat, c: char)
    ensures Count(s, 0, i + 1, c) == Count(s, 0, i, c) + if CharAt(s, i) == c then 1 else 0
  {
  }

  /** CheckIfCorrectPoly: one scan that skips over runs of digits and `-`. */
  method CheckIfCorrectPoly(s: string) returns (ok: bool)
    ensures ok == CorrectPoly(s)
  {
    if CharAt(s, 0) != '(' && !IsNumberOrMinus(CharAt(s, 0)) {
      return false;
    }
    var i: nat := 0;
    var op: nat, cl: nat, commas: nat := 0, 0, 0;
    while !Ends(CharAt(s, i))
      invariant forall k :: 0 <= k < i ==> !Ends(CharAt(s, k)) && LocalOk(s, k)
      invariant RunStart(s, i) || !IsNumberOrMinus(CharAt(s, i))
      invariant op == Count(s, 0, i, '(') && cl == Count(s, 0, i, ')') && commas == Count(s, 0, i, ',')
      decreases |s| - i
    {
      var fail, last;
      fail, last, op, cl, commas := CheckPosition(s, i, op, cl, commas);
      if fail {
        return false;
      }
      i := last + 1;
    }
    assert LineEnd(s, 0) == i;
    ok := op == cl && op == commas;
  }

  /**
   * One pass of the loop of CheckIfCorrectPoly at position `i`: the local
   * checks of the character there, or of the whole run of digits and `-`
   * it starts, with the counts of `(`, `)` and `,` brought up to date.
   */
  method CheckPosition(s: string, i: nat, op: nat, cl: nat, commas: nat)
    returns (fail: bool, last: nat, op': nat, cl': nat, commas': nat)
    requires !Ends(CharAt(s, i)) && (RunStart(s, i) || !IsNumberOrMinus(CharAt(s, i)))
    requires forall k :: 0 <= k < i ==> !Ends(CharAt(s, k))
    requires op == Count(s, 0, i, '(') && cl == Count(s, 0, i, ')') && commas == Count(s, 0, i, ',')
    ensures fail ==> !CorrectPoly(s)
    ensures !fail ==> i <= last && (RunStart(s, last + 1) || !IsNumberOrMinus(CharAt(s, last + 1)))
    ensures !fail ==> forall k :: i <= k <= last ==> !Ends(CharAt(s, k)) && LocalOk(s, k)
    ensures !fail ==> op' == Count(s, 0, last + 1, '(')
    ensures !fail ==> cl' == Count(s, 0, last + 1, ')') && commas' == Count(s, 0, last + 1, ',')
  {
    op', cl', commas' := op, cl, commas;
    last := i;
    var cur := CharAt(s, i);
    var next := CharAt(s, i + 1);
    if !IsPolySign(cur) {
      Refuted(s, i);
      return true, last, op', cl', commas';
    }
    if cur == '(' {
      op' := op' + 1;
      if !(IsNumberOrMinus(next) || next == '-' || next == '(') {
        Refuted(s, i);
        return true, last, op', cl', commas';
      }
    }
    if cur == ')' {
      cl' := cl' + 1;
      if next != '+' && next != ',' && !Ends(next) {
        Refuted(s, i);
        return true, last, op', cl', commas';
      }
    }
    if cur == ',' {
      commas' := commas' + 1;
      if !IsNumberOrMinus(next) {
        Refuted(s, i);
        return true, last, op', cl', commas';
      }
    }
    if IsNumberOrMinus(cur) {
      last := SkipRun(s, i, op', cl', commas');
      var after := CharAt(s, last + 1);
      if !(after == ',' || after == ')' || Ends(after)) {
        Refuted(s, last);
        return true, last, op', cl', commas';
      }
    }
    if cur == '+' && next != '(' {
      Refuted(s, i);
      return true, last, op', cl', commas';
    }
    if cur == '-' && !IsNumberOrMinus(next) {
      Refuted(s, i);
      return true, last, op', cl', commas';
    }
    assert LocalOk(s, last);
    CountNext(s, last, '(');
    CountNext(s, last, ')');
    CountNext(s, last, ',');
    return false, last, op', cl', commas';
  }

  /** The inner loop of CheckIfCorrectPoly: to the last character of a run of digits and `-`. */
  method SkipRun(s: string, start: nat, ghost op: nat, ghost cl: nat, ghost commas: nat) returns (i: nat)
    requires IsNumberOrMinus(CharAt(s, start))
    requires forall k :: 0 <= k < start ==> !Ends(CharAt(s, k))
    requires op == Count(s, 0, start, '(') && cl == Count(s, 0, start, ')') && commas == Count(s, 0, start, ',')
    ensures start <= i < |s| && !IsNumberOrMinus(CharAt(s, i + 1))
    ensures forall k :: start <= k <= i ==> IsNumberOrMinus(CharAt(s, k)) && !Ends(CharAt(s, k))
    ensures forall k :: start <= k < i ==> LocalOk(s, k)
    ensures i > start ==> IsNumberOrMinus(CharAt(s, start + 1))
    ensures op == Count(s, 0, i, '(') && cl == Count(s, 0, i, ')') && commas == Count(s, 0, i, ',')
  {
    i := start;
    while IsNumberOrMinus(CharAt(s, i + 1))
      invariant start <= i < |s|
      invariant forall k :: start <= k <= i ==> IsNumberOrMinus(CharAt(s, k))
      invariant forall k :: start <= k < i ==> LocalOk(s, k)
      invariant i > start ==> IsNumberOrMinus(CharAt(s, start + 1))
      invariant op == Count(s, 0, i, '(') && cl == Count(s, 0, i, ')') && commas == Count(s, 0, i, ',')
      decreases |s| - i
    {
      i := i + 1;
    }
  }
}
