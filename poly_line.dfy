/**
 * HandleLine of parser.c: the decision table that turns one input line into
 * nothing (an empty or comment line), a diagnostic, or one command of the
 * calculator run on the stack.
 */
module PolyLine {
  import opened PolyBase
  import opened CText
  import opened PolyParser
  import opened PolyReader
  import opened PolyOps
  import opened PolyStack

  /** What HandleLine makes of a line before it touches the stack. */
  datatype Action = Ignore | Report(what: string) | Run(c: Command)

  /**
   * The simple keywords in the order HandleLine tries them, each with its
   * command; DEG_BY, AT and COMPOSE, which take an argument, come first.
   */
  function Keywords(): seq<(string, Command)> {
    [("ZERO", ZERO), ("IS_COEFF", IS_COEFF), ("IS_ZERO", IS_ZERO), ("CLONE", CLONE),
     ("ADD", ADD), ("MUL", MUL), ("NEG", NEG), ("SUB", SUB), ("IS_EQ", IS_EQ),
     ("DEG", DEG), ("PRINT", PRINT), ("POP", POP)]
  }

  /** The first keyword from `i` on that is the whole line, or WRONG COMMAND. */
  function MatchKeyword(buf: string, i: nat): (r: Action)
    requires i <= |Keywords()|
    ensures !r.Ignore? && (r.Report? ==> r.what == "WRONG COMMAND")
    ensures r.Run? ==> exists k :: i <= k < |Keywords()| && IsKeyword(buf, Keywords()[k].0) && r.c == Keywords()[k].1
    ensures r.Report? ==> forall k :: i <= k < |Keywords()| ==> !IsKeyword(buf, Keywords()[k].0)
    ensures r.Run? ==> !r.c.PUSH?
    decreases |Keywords()| - i
  {
    if i == |Keywords()| then Report("WRONG COMMAND")
    else if IsKeyword(buf, Keywords()[i].0) then Run(Keywords()[i].1)
    else MatchKeyword(buf, i + 1)
  }

  /**
   * A command line (its first character a letter): DEG_BY, AT and COMPOSE
   * with their arguments, then the simple keywords; a line holding a NUL is
   * refused with the diagnostic of the command it starts with.
   */
  function Dispatch(buf: string): (r: Action)
    ensures r.Run? ==> !r.c.PUSH?
  {
    var embedded := CLength(buf) < |buf|;
    if StartsCommand(buf, "DEG_BY") then
      match CheckArg(ScanArg(buf, 7, false))
      case Value(v) => if embedded then Report("DEG BY WRONG VARIABLE") else Run(DEG_BY(v))
      case WrongArgument => Report("DEG BY WRONG VARIABLE")
    else if StartsCommand(buf, "AT") then
      match CheckArg(ScanArg(buf, 3, true))
      case Value(v) => if embedded then Report("AT WRONG VALUE") else Run(AT(v))
      case WrongArgument => Report("AT WRONG VALUE")
    else if StartsCommand(buf, "COMPOSE") then
      match CheckArg(ScanArg(buf, 8, false))
      case Value(v) => if embedded then Report("COMPOSE WRONG PARAMETER") else Run(COMPOSE(v))
      case WrongArgument => Report("COMPOSE WRONG PARAMETER")
    else if embedded then Report("WRONG COMMAND")
    else MatchKeyword(buf, 0)
  }

  /**
   * A polynomial line: refused unless CheckIfCorrectPoly accepts it and it
   * holds no NUL; otherwise PolyFromString reads it, and what it reads is
   * pushed unless it reported WRONG POLY.
   */
  function PolyLineAction(buf: string): (r: Action)
    ensures r.Run? ==> r.c.PUSH? && Canonical(r.c.p)
  {
    if !CorrectPoly(buf) || CLength(buf) < |buf| then Report("WRONG POLY")
    else
      match ReadPoly(buf)
      case Parsed(p, _) => Run(PUSH(p))
      case _ => Report("WRONG POLY")
  }

  /** HandleLine's decision. */
  function Decide(buf: string): (r: Action)
    ensures r.Run? && r.c.PUSH? ==> Canonical(r.c.p)
  {
    if IsEmptyOrComment(buf) then Ignore
    else if IsLetter(CharAt(buf, 0)) then Dispatch(buf)
    else PolyLineAction(buf)
  }

  /** The stack after the line and what the line wrote. */
  function Process(s: seq<Poly>, buf: string, line: nat): (r: Effect)
    requires AllCanonical(s)
    ensures AllCanonical(r.stack)
  {
    Outcome(s, Decide(buf), line)
  }

  /** What an action does to the stack and writes. */
  function Outcome(s: seq<Poly>, a: Action, line: nat): (r: Effect)
    requires AllCanonical(s) && (a.Run? && a.c.PUSH? ==> Canonical(a.c.p))
    ensures AllCanonical(r.stack)
    ensures !a.Run? ==> r.stack == s && r.out == ""
  {
    match a
    case Ignore => Effect(s, "", "")
    case Report(what) => Effect(s, "", Diagnostic(line, what))
    case Run(c) => Apply(s, c, line)
  }

  // ---------------------------------------------------------------------
  // What the decision table promises.
  // ---------------------------------------------------------------------

  /** Empty lines and comments change nothing and write nothing. */
  lemma IgnoredLine(s: seq<Poly>, buf: string, line: nat)
    requires AllCanonical(s) && (CharAt(buf, 0) == '#' || CharAt(buf, 0) == '\n')
    ensures Process(s, buf, line) == Effect(s, "", "")
  {
  }

  /**
   * A line holding a NUL is refused: the stack is unchanged, nothing is
   * written to standard output, and one diagnostic is written.
   */
  lemma EmbeddedNulRefused(s: seq<Poly>, buf: string, line: nat)
    requires AllCanonical(s) && !IsEmptyOrComment(buf) && CLength(buf) < |buf|
    ensures Decide(buf).Report?
    ensures Process(s, buf, line) == Effect(s, "", Diagnostic(line, Decide(buf).what))
  {
  }

  /**
   * The line `(1,2,3)+(4)`, which CheckIfCorrectPoly accepts and on which
   * PolyFromString aborts, is refused as a wrong polynomial: the stack is
   * unchanged and one WRONG POLY diagnostic is written.
   */
  lemma MalformedLineRefused(s: seq<Poly>, buf: string, line: nat)
    requires AllCanonical(s) && buf == "(1,2,3)+(4)\n"
    ensures Process(s, buf, line) == Effect(s, "", Diagnostic(line, "WRONG POLY"))
  {
    MalformedLineAccepted(buf);
    MalformedLineAborts(buf);
    assert forall i :: 0 <= i < |buf| ==> buf[i] != '\0';
    assert !IsEmptyOrComment(buf) && !IsLetter(CharAt(buf, 0));
    assert Decide(buf) == Report("WRONG POLY");
  }

  /** A line starting with a letter that is no command is WRONG COMMAND, and changes nothing. */
  lemma UnknownCommand(s: seq<Poly>, buf: string, line: nat)
    requires AllCanonical(s) && IsLetter(CharAt(buf, 0))
    requires !StartsCommand(buf, "DEG_BY") && !StartsCommand(buf, "AT") && !StartsCommand(buf, "COMPOSE")
    requires forall k :: 0 <= k < |Keywords()| ==> CStr(buf) != Keywords()[k].0 && CStr(buf) != Keywords()[k].0 + "\n"
    ensures Process(s, buf, line) == Effect(s, "", Diagnostic(line, "WRONG COMMAND"))
  {
    forall k | 0 <= k < |Keywords()| ensures !IsKeyword(buf, Keywords()[k].0) {
      KeywordExact(buf, Keywords()[k].0);
    }
  }

  /** A keyword alone on its line, with or without the newline, runs its command. */
  lemma KeywordLine(s: seq<Poly>, buf: string, line: nat, k: nat)
    requires AllCanonical(s) && k < |Keywords()|
    requires buf == Keywords()[k].0 || buf == Keywords()[k].0 + "\n"
    ensures Decide(buf) == Run(Keywords()[k].1)
    ensures Process(s, buf, line) == Apply(s, Keywords()[k].1, line)
  {
    KeywordsDistinct(buf, k);
  }

  /**
   * A line that is keyword `k` matches none of the keywords before it, and
   * it does not start DEG_BY, AT or COMPOSE: `DEG_BY` is tried before
   * `DEG`, and `DEG` alone is not a DEG_BY line.
   */
  lemma KeywordsDistinct(buf: string, k: nat)
    requires k < |Keywords()|
    requires buf == Keywords()[k].0 || buf == Keywords()[k].0 + "\n"
    ensures IsLetter(CharAt(buf, 0)) && !IsEmptyOrComment(buf) && CLength(buf) == |buf|
    ensures !StartsCommand(buf, "DEG_BY") && !StartsCommand(buf, "AT") && !StartsCommand(buf, "COMPOSE")
    ensures MatchKeyword(buf, 0) == Run(Keywords()[k].1)
  {
    KeywordText(buf, k);
    forall i | 0 <= i < |Keywords()| ensures IsKeyword(buf, Keywords()[i].0) <==> i == k {
      KeywordExact(buf, Keywords()[i].0);
      if IsKeyword(buf, Keywords()[i].0) {
        KeywordUnique(buf, i, k);
      }
    }
    MatchFirst(buf, 0, k);
    NotArgumentCommand(buf, k, "DEG_BY");
    NotArgumentCommand(buf, k, "AT");
    NotArgumentCommand(buf, k, "COMPOSE");
  }

  /** A keyword line holds no NUL, so the C string is the whole line. */
  lemma KeywordText(buf: string, k: nat)
    requires k < |Keywords()|
    requires buf == Keywords()[k].0 || buf == Keywords()[k].0 + "\n"
    ensures IsLetter(CharAt(buf, 0)) && !IsEmptyOrComment(buf)
    ensures CLength(buf) == |buf| && CStr(buf) == buf
  {
    assert forall i :: 0 <= i < |buf| ==> buf[i] != '\0';
    LengthAtLeast(buf, |buf|);
  }

  /** A line that is two keywords, each with or without the newline, is one keyword. */
  lemma KeywordUnique(buf: string, i: nat, k: nat)
    requires i < |Keywords()| && k < |Keywords()|
    requires buf == Keywords()[i].0 || buf == Keywords()[i].0 + "\n"
    requires buf == Keywords()[k].0 || buf == Keywords()[k].0 + "\n"
    ensures i == k
  {
    var a, b := Keywords()[i].0, Keywords()[k].0;
    KeywordShape(i);
    KeywordShape(k);
    // a keyword holds no newline, so both are with it or both without it
    assert (a + "\n")[|a|] == '\n' && (b + "\n")[|b|] == '\n';
    if (buf == a) == (buf == b) {
      assert |a| == |b| && a[0] == buf[0] == b[0];
      KeywordKey(i, k);
    }
  }

  /** Keywords are runs of capitals and `_`, at least three long. */
  lemma KeywordShape(i: nat)
    requires i < |Keywords()|
    ensures var kw := Keywords()[i].0; |kw| >= 3 && forall j :: 0 <= j < |kw| ==> kw[j] != '\n'
  {
  }

  /** A keyword is known by its length and its first letter. */
  lemma KeywordKey(i: nat, k: nat)
    requires i < |Keywords()| && k < |Keywords()|
    requires |Keywords()[i].0| == |Keywords()[k].0| && Keywords()[i].0[0] == Keywords()[k].0[0]
    ensures i == k
  {
  }

  /** No keyword line starts with DEG_BY, AT or COMPOSE followed by a separator. */
  lemma NotArgumentCommand(buf: string, k: nat, cmd: string)
    requires k < |Keywords()| && cmd in {"DEG_BY", "AT", "COMPOSE"}
    requires buf == Keywords()[k].0 || buf == Keywords()[k].0 + "\n"
    requires CLength(buf) == |buf|
    ensures !StartsCommand(buf, cmd)
  {
  }

  /** When keyword `k` is the only one matching, the scan from `i <= k` finds it. */
  lemma {:induction false} MatchFirst(buf: string, i: nat, k: nat)
    requires i <= k < |Keywords()|
    requires forall j :: 0 <= j < |Keywords()| ==> (IsKeyword(buf, Keywords()[j].0) <==> j == k)
    ensures MatchKeyword(buf, i) == Run(Keywords()[k].1)
    decreases k - i
  {
    if i < k {
      MatchFirst(buf, i + 1, k);
    }
  }

  /** A polynomial line that passes the validator and is read is pushed. */
  lemma PolyLinePushed(s: seq<Poly>, buf: string, line: nat)
    requires AllCanonical(s) && !IsEmptyOrComment(buf) && !IsLetter(CharAt(buf, 0))
    requires CorrectPoly(buf) && CLength(buf) == |buf| && ReadPoly(buf).Parsed?
    ensures Process(s, buf, line) == Effect(s + [ReadPoly(buf).p], "", "")
  {
  }

  /**
   * Any other polynomial line is WRONG POLY and leaves the stack as it
   * was; in particular the line `(1,2,3)+(4)`, which the validator accepts
   * and the reader cannot read.
   */
  lemma PolyLineRefused(s: seq<Poly>, buf: string, line: nat)
    requires AllCanonical(s) && !IsEmptyOrComment(buf) && !IsLetter(CharAt(buf, 0))
    requires !(CorrectPoly(buf) && CLength(buf) == |buf| && ReadPoly(buf).Parsed?)
    ensures Process(s, buf, line) == Effect(s, "", Diagnostic(line, "WRONG POLY"))
  {
  }

  /** `DEG_BY 1-2` runs as `DEG_BY 0`. */
  lemma DegByTrailingMinusLine(s: seq<Poly>, line: nat)
    requires AllCanonical(s)
    ensures Process(s, "DEG_BY 1-2\n", line) == Apply(s, DEG_BY(0), line)
  {
    DegByTrailingMinusDecided();
  }

  lemma DegByTrailingMinusDecided()
    ensures Decide("DEG_BY 1-2\n") == Run(DEG_BY(0))
  {
    var buf := "DEG_BY 1-2\n";
    DegByTrailingMinus();
    assert CLength(buf) == |buf|;
    assert Dispatch(buf) == Run(DEG_BY(0));
    assert !IsEmptyOrComment(buf) && IsLetter(CharAt(buf, 0));
  }

  // ---------------------------------------------------------------------
  // HandleLine.
  // ---------------------------------------------------------------------

  /** HandleLine: decides on the line, then runs the command on the stack. */
  method HandleLine(buf: string, line: nat, st: Stack) returns (out: string, err: string)
    requires st.Valid()
    modifies st, st.polys
    ensures st.Valid()
    ensures Effect(st.Contents(), out, err) == Process(old(st.Contents()), buf, line)
  {
    var action := DecideLine(buf);
    out, err := Perform(action, line, st);
  }

  /** The decision HandleLine takes on the line, before it touches the stack. */
  method DecideLine(buf: string) returns (action: Action)
    ensures action == Decide(buf)
  {
    if IsEmptyOrComment(buf) {
      return Ignore;
    }
    if IsLetter(CharAt(buf, 0)) {
      return Dispatch(buf);
    }
    var ok := CheckIfCorrectPoly(buf);
    if !ok || CLength(buf) < |buf| {
      return Report("WRONG POLY");
    }
    var r := PolyFromString(buf, 0);
    if r.Parsed? {
      action := Run(PUSH(r.p));
    } else {
      action := Report("WRONG POLY");
    }
  }

  /** Carries out an action on the stack: a diagnostic, or the command's stack operation. */
  method Perform(action: Action, line: nat, st: Stack) returns (out: string, err: string)
    requires st.Valid() && (action.Run? && action.c.PUSH? ==> Canonical(action.c.p))
    modifies st, st.polys
    ensures st.Valid()
    ensures Effect(st.Contents(), out, err) == Outcome(old(st.Contents()), action, line)
  {
    out, err := "", "";
    match action
    case Ignore =>
    case Report(what) =>
      err := Diagnostic(line, what);
    case Run(c) =>
      match c
      case PUSH(p) => out, err := st.Push(p, line);
      case ZERO => out, err := st.Zero(line);
      case POP => out, err := st.Delete(line);
      case CLONE => out, err := st.Clone(line);
      case NEG => out, err := st.Neg(line);
      case AT(x) => out, err := st.At(x, line);
      case COMPOSE(k) => out, err := st.Compose(k, line);
      case ADD => out, err := st.TwoArgsOp(c, line);
      case MUL => out, err := st.TwoArgsOp(c, line);
      case SUB => out, err := st.TwoArgsOp(c, line);
      case _ => out, err := st.Query(c, line);
  }
}
