/**
 * The stack of stack.c: a growable array of polynomials and one operation
 * per calculator command. `Apply` is the transition a command makes on the
 * stack's contents, with the text it writes to standard output and to the
 * diagnostic stream; the methods of `Stack` are proved to make exactly that
 * transition on the array.
 */
module PolyStack {
  import opened PolyBase
  import opened PolyScale
  import opened PolySum
  import opened PolyProduct
  import opened PolyOps
  import opened PolyQuery
  import opened PolyPrint
  import opened CText
  import PolyImpl

  /** `INITIAL_CAPACITY` of stack.h. */
  const INITIAL_CAPACITY: nat := 4

  /** `ULONG_MAX`, against which StackCheckUnderflow and StackCompose test their counts. */
  const ULONG_MAX: nat := 0xFFFF_FFFF_FFFF_FFFF

  /** The calculator's commands, named by their keywords; `PUSH` is a polynomial line. */
  datatype Command =
    | PUSH(p: Poly)
    | ZERO | IS_COEFF | IS_ZERO | CLONE | ADD | MUL | NEG | SUB | IS_EQ | DEG | PRINT | POP
    | DEG_BY(idx: nat)
    | AT(x: int)
    | COMPOSE(k: nat)

  /** The stack after a command, read bottom to top, and what the command wrote. */
  datatype Effect = Effect(stack: seq<Poly>, out: string, err: string)

  /** `ERROR <line> <what>` with the 1-based line number. */
  function Diagnostic(line: nat, what: string): string {
    "ERROR " + NatToString(line + 1) + " " + what + "\n"
  }

  /** PrintBool. */
  function BoolLine(b: bool): string {
    if b then "1\n" else "0\n"
  }

  /** How many polynomials a command reads from the top of the stack. */
  function Needed(c: Command): nat {
    match c
    case PUSH(_) => 0
    case ZERO => 0
    case ADD => 2
    case MUL => 2
    case SUB => 2
    case IS_EQ => 2
    case COMPOSE(k) => k + 1
    case _ => 1
  }

  /**
   * StackCheckUnderflow: fewer polynomials than needed, or a count of
   * `ULONG_MAX`; StackCompose also refuses `k == ULONG_MAX`, whose `k + 1`
   * would wrap.
   */
  predicate Underflows(s: seq<Poly>, c: Command) {
    |s| < Needed(c) || (c.COMPOSE? && c.k + 1 >= ULONG_MAX)
  }

  /** The `k` polynomials under the top, in the order StackCompose pops them. */
  function Popped(s: seq<Poly>, k: nat): (r: seq<Poly>)
    requires k < |s|
    ensures |r| == k
    ensures forall i :: 0 <= i < k ==> r[i] == s[|s| - 2 - i]
  {
    seq(k, i requires 0 <= i < k => s[|s| - 2 - i])
  }

  /** The transition a command makes; the top of the stack is the last element. */
  function Apply(s: seq<Poly>, c: Command, line: nat): (r: Effect)
    requires AllCanonical(s) && (c.PUSH? ==> Canonical(c.p))
    ensures AllCanonical(r.stack)
  {
    if Underflows(s, c) then Effect(s, "", Diagnostic(line, "STACK UNDERFLOW"))
    else
      match c
      case PUSH(p) => Effect(s + [p], "", "")
      case ZERO => Effect(s + [Zero()], "", "")
      case POP => Effect(s[..|s| - 1], "", "")
      case IS_COEFF => Effect(s, BoolLine(s[|s| - 1].Coeff?), "")
      case IS_ZERO => Effect(s, BoolLine(s[|s| - 1] == Zero()), "")
      case PRINT => Effect(s, Print(s[|s| - 1]) + "\n", "")
      case CLONE =>
        ScaleCanonical(s[|s| - 1], 1);
        Effect(s + [Clone(s[|s| - 1])], "", "")
      case ADD =>
        WeightedSumCanonical(s[|s| - 1], s[|s| - 2], 1, 1);
        Effect(s[..|s| - 2] + [Add(s[|s| - 1], s[|s| - 2])], "", "")
      case MUL => Effect(s[..|s| - 2] + [Mul(s[|s| - 1], s[|s| - 2])], "", "")
      case SUB =>
        WeightedSumCanonical(s[|s| - 1], s[|s| - 2], 1, -1);
        Effect(s[..|s| - 2] + [Sub(s[|s| - 1], s[|s| - 2])], "", "")
      case NEG =>
        ScaleCanonical(s[|s| - 1], -1);
        Effect(s[..|s| - 1] + [Neg(s[|s| - 1])], "", "")
      case IS_EQ => Effect(s, BoolLine(IsEq(s[|s| - 1], s[|s| - 2])), "")
      case DEG => Effect(s, IntToString(Deg(s[|s| - 1])) + "\n", "")
      case DEG_BY(idx) => Effect(s, IntToString(DegBy(s[|s| - 1], idx)) + "\n", "")
      case AT(x) => Effect(s[..|s| - 1] + [At(s[|s| - 1], x)], "", "")
      case COMPOSE(k) =>
        Effect(s[..|s| - 1 - k] + [Compose(s[|s| - 1], k, Popped(s, k))], "", "")
  }

  // ---------------------------------------------------------------------
  // What the transitions promise.
  // ---------------------------------------------------------------------

  /** A command without its operands changes nothing and reports the underflow on its own line. */
  lemma UnderflowPreservesStack(s: seq<Poly>, c: Command, line: nat)
    requires AllCanonical(s) && (c.PUSH? ==> Canonical(c.p))
    requires |s| < Needed(c)
    ensures Apply(s, c, line).stack == s
    ensures Apply(s, c, line).out == ""
    ensures Apply(s, c, line).err == "ERROR " + NatToString(line + 1) + " STACK UNDERFLOW\n"
  {
  }

  /** Only an underflow writes a diagnostic. */
  lemma DiagnosticOnlyOnUnderflow(s: seq<Poly>, c: Command, line: nat)
    requires AllCanonical(s) && (c.PUSH? ==> Canonical(c.p))
    ensures Apply(s, c, line).err != "" <==> Underflows(s, c)
  {
  }

  /** How many polynomials a command leaves in place of the ones it reads. */
  function Left(c: Command): nat {
    match c
    case PUSH(_) => 1
    case ZERO => 1
    case POP => 0
    case CLONE => 2
    case IS_COEFF => 1
    case IS_ZERO => 1
    case PRINT => 1
    case DEG => 1
    case DEG_BY(_) => 1
    case IS_EQ => 2
    case _ => 1
  }

  /**
   * A command that runs touches only the polynomials it needs: everything
   * below them is unchanged, and it leaves `Left(c)` polynomials in their
   * place; the queries leave the stack exactly as it was.
   */
  lemma ApplyFrame(s: seq<Poly>, c: Command, line: nat)
    requires AllCanonical(s) && (c.PUSH? ==> Canonical(c.p))
    requires !Underflows(s, c)
    ensures |Apply(s, c, line).stack| == |s| - Needed(c) + Left(c)
    ensures Apply(s, c, line).stack[..|s| - Needed(c)] == s[..|s| - Needed(c)]
    ensures (c.IS_COEFF? || c.IS_ZERO? || c.PRINT? || c.DEG? || c.DEG_BY? || c.IS_EQ?) ==>
              Apply(s, c, line).stack == s
  {
  }

  /** Only the queries write to standard output, one line each. */
  lemma OutputOnlyFromQueries(s: seq<Poly>, c: Command, line: nat)
    requires AllCanonical(s) && (c.PUSH? ==> Canonical(c.p))
    ensures var out := Apply(s, c, line).out;
      out != "" <==> !Underflows(s, c) && (c.IS_COEFF? || c.IS_ZERO? || c.PRINT? || c.DEG? || c.DEG_BY? || c.IS_EQ?)
    ensures var out := Apply(s, c, line).out;
      out != "" ==> out[|out| - 1] == '\n'
  {
  }

  /**
   * The arithmetic commands replace their operands by a polynomial whose
   * value at every point is the result of the operation on the operands'
   * values: ADD and MUL combine the top with the one beneath it, SUB
   * subtracts the one beneath from the top, NEG negates, AT fixes the first
   * variable, and COMPOSE substitutes the popped polynomials.
   */
  lemma ApplyArithmetic(s: seq<Poly>, c: Command, line: nat, xs: seq<int>)
    requires AllCanonical(s) && (c.PUSH? ==> Canonical(c.p))
    requires !Underflows(s, c)
    requires c.ADD? || c.MUL? || c.SUB? || c.NEG? || c.AT? || c.COMPOSE?
    ensures var t := Apply(s, c, line).stack;
      var v := Eval(t[|t| - 1], xs);
      var p := s[|s| - 1];
      (c.ADD? ==> v == Eval(p, xs) + Eval(s[|s| - 2], xs)) &&
      (c.MUL? ==> v == Eval(p, xs) * Eval(s[|s| - 2], xs)) &&
      (c.SUB? ==> v == Eval(p, xs) - Eval(s[|s| - 2], xs)) &&
      (c.NEG? ==> v == -Eval(p, xs)) &&
      (c.AT? ==> v == Eval(p, [c.x] + xs)) &&
      (c.COMPOSE? ==> v == Eval(p, Substitution(c.k, Popped(s, c.k), xs)))
  {
    var p := s[|s| - 1];
    match c
    case ADD => EvalAdd(p, s[|s| - 2], xs);
    case MUL => EvalMul(p, s[|s| - 2], xs);
    case SUB => EvalSub(p, s[|s| - 2], xs);
    case NEG => EvalScale(p, -1, xs);
    case AT(x) => EvalAt(p, x, xs);
    case COMPOSE(k) => EvalCompose(p, k, Popped(s, k), xs);
  }

  /** CLONE pushes a copy equal to the top, so IS_EQ right after it prints 1. */
  lemma CloneThenIsEq(s: seq<Poly>, line: nat)
    requires AllCanonical(s) && |s| > 0
    ensures Apply(s, CLONE, line).stack == s + [s[|s| - 1]]
    ensures Apply(Apply(s, CLONE, line).stack, IS_EQ, line).out == "1\n"
  {
    ScaleOne(s[|s| - 1]);
    IsEqIff(s[|s| - 1], s[|s| - 1]);
  }

  /** A pushed polynomial is printed back by the PRINT that follows. */
  lemma PushThenPrint(s: seq<Poly>, p: Poly, line: nat)
    requires AllCanonical(s) && Canonical(p)
    ensures Apply(Apply(s, PUSH(p), line).stack, PRINT, line).out == Print(p) + "\n"
    ensures Apply(Apply(s, PUSH(p), line).stack, POP, line).stack == s
  {
    var t := s + [p];
    PushedOnTop(s, p, line);
    assert t[|t| - 1] == p && t[..|t| - 1] == s;
    TopPrinted(t, line);
    TopPopped(t, line);
  }

  /** CLONE on a non-empty stack pushes a copy of the top and writes nothing. */
  lemma ClonePushes(s: seq<Poly>, line: nat)
    requires AllCanonical(s) && |s| > 0
    ensures Apply(s, CLONE, line) == Effect(s + [s[|s| - 1]], "", "")
  {
    ScaleOne(s[|s| - 1]);
  }

  /** PUSH puts its polynomial on top of the stack. */
  lemma PushedOnTop(s: seq<Poly>, p: Poly, line: nat)
    requires AllCanonical(s) && Canonical(p)
    ensures Apply(s, PUSH(p), line).stack == s + [p]
  {
  }

  /** PRINT writes the top of a non-empty stack on a line of its own. */
  lemma TopPrinted(s: seq<Poly>, line: nat)
    requires AllCanonical(s) && |s| > 0
    ensures Apply(s, PRINT, line).out == Print(s[|s| - 1]) + "\n"
  {
  }

  /** POP removes the top of a non-empty stack. */
  lemma TopPopped(s: seq<Poly>, line: nat)
    requires AllCanonical(s) && |s| > 0
    ensures Apply(s, POP, line).stack == s[..|s| - 1]
  {
  }

  // ---------------------------------------------------------------------
  // The stack itself.
  // ---------------------------------------------------------------------

  /** `Stack` of stack.h: `polys[0..size)` hold the polynomials, bottom first. */
  class Stack {
    var polys: array<Poly>
    var size: nat
    var capacity: nat

    ghost predicate Valid()
      reads this, polys
    {
      polys.Length == capacity && 0 < capacity && size <= capacity &&
      forall i :: 0 <= i < size ==> Canonical(polys[i])
    }

    /** The polynomials on the stack, bottom first. */
    function Contents(): (r: seq<Poly>)
      reads this, polys
      requires size <= polys.Length
      ensures |r| == size
    {
      polys[..size]
    }

    /** StackInit. */
    constructor ()
      ensures Valid() && fresh(polys)
      ensures Contents() == [] && capacity == INITIAL_CAPACITY
    {
      polys := new Poly[INITIAL_CAPACITY];
      size := 0;
      capacity := INITIAL_CAPACITY;
    }

    /** StackPut: doubles the array when it is full. */
    method Put(p: Poly)
      requires Valid() && Canonical(p)
      modifies this, polys
      ensures fresh(polys) || polys == old(polys)
      ensures Valid()
      ensures Contents() == old(Contents()) + [p]
      ensures capacity == if old(size) == old(capacity) then 2 * old(capacity) else old(capacity)
    {
      if size == capacity {
        var bigger := new Poly[2 * capacity];
        forall i | 0 <= i < size {
          bigger[i] := polys[i];
        }
        polys := bigger;
        capacity := 2 * capacity;
      }
      polys[size] := p;
      size := size + 1;
    }

    /** StackPop: removes and returns the top. */
    method Pop() returns (p: Poly)
      requires Valid() && size > 0
      modifies this
      ensures Valid() && polys == old(polys) && capacity == old(capacity)
      ensures p == old(Contents())[old(size) - 1] && Canonical(p)
      ensures Contents() == old(Contents())[..old(size) - 1]
    {
      p := polys[size - 1];
      size := size - 1;
    }

    /** StackPeek: the top, left in place. */
    function Peek(): (p: Poly)
      reads this, polys
      requires Valid() && size > 0
      ensures p == Contents()[size - 1] && Canonical(p)
    {
      polys[size - 1]
    }

    /** StackDelete (command POP). */
    method Delete(line: nat) returns (out: string, err: string)
      requires Valid()
      modifies this
      ensures Valid() && polys == old(polys)
      ensures Effect(Contents(), out, err) == Apply(old(Contents()), POP, line)
    {
      out, err := "", "";
      if Underflows(Contents(), POP) {
        err := Diagnostic(line, "STACK UNDERFLOW");
      } else {
        size := size - 1;
      }
    }

    /** StackZero: always succeeds. */
    method Zero(line: nat) returns (out: string, err: string)
      requires Valid()
      modifies this, polys
      ensures Valid()
      ensures Effect(Contents(), out, err) == Apply(old(Contents()), ZERO, line)
    {
      Put(PolyBase.Zero());
      out, err := "", "";
    }

    /** A polynomial line (StackPut from HandleLine). */
    method Push(p: Poly, line: nat) returns (out: string, err: string)
      requires Valid() && Canonical(p)
      modifies this, polys
      ensures Valid()
      ensures Effect(Contents(), out, err) == Apply(old(Contents()), PUSH(p), line)
    {
      Put(p);
      out, err := "", "";
    }

    /**
     * The commands that only read the top one or two polynomials: StackIsCoeff,
     * StackIsZero, StackPrint, StackIsEq, StackDeg and StackDegBy.
     */
    method Query(c: Command, line: nat) returns (out: string, err: string)
      requires Valid()
      requires c.IS_COEFF? || c.IS_ZERO? || c.PRINT? || c.IS_EQ? || c.DEG? || c.DEG_BY?
      ensures Effect(Contents(), out, err) == Apply(Contents(), c, line)
    {
      out, err := "", "";
      if Underflows(Contents(), c) {
        err := Diagnostic(line, "STACK UNDERFLOW");
        return;
      }
      var p := Peek();
      match c
      case IS_COEFF => out := BoolLine(p.Coeff?);
      case IS_ZERO => out := BoolLine(p == PolyBase.Zero());
      case PRINT => out := Print(p) + "\n";
      case IS_EQ => out := BoolLine(IsEq(p, polys[size - 2]));
      case DEG => out := IntToString(Deg(p)) + "\n";
      case DEG_BY(idx) => out := IntToString(DegBy(p, idx)) + "\n";
    }

    /** StackClone: pushes a copy of the top. */
    method Clone(line: nat) returns (out: string, err: string)
      requires Valid()
      modifies this, polys
      ensures Valid()
      ensures Effect(Contents(), out, err) == Apply(old(Contents()), CLONE, line)
    {
      out, err := "", "";
      if Underflows(Contents(), CLONE) {
        err := Diagnostic(line, "STACK UNDERFLOW");
        return;
      }
      ghost var s := Contents();
      var top := Peek();
      var copy := PolyImpl.PolyClone(top);
      ClonePushes(s, line);
      Put(copy);
    }

    /** StackTwoArgsOp for StackAdd, StackMul and StackSub: `op(top, beneath)` replaces both. */
    method TwoArgsOp(c: Command, line: nat) returns (out: string, err: string)
      requires Valid()
      requires c.ADD? || c.MUL? || c.SUB?
      modifies this, polys
      ensures Valid()
      ensures Effect(Contents(), out, err) == Apply(old(Contents()), c, line)
    {
      out, err := "", "";
      if Underflows(Contents(), c) {
        err := Diagnostic(line, "STACK UNDERFLOW");
        return;
      }
      ghost var s := Contents();
      var p := Pop();
      var q := Pop();
      assert Contents() == s[..|s| - 2];
      var r: Poly;
      if c.ADD? {
        r := PolyImpl.PolyAdd(p, q);
        WeightedSumCanonical(p, q, 1, 1);
      } else if c.MUL? {
        r := PolyImpl.PolyMul(p, q);
      } else {
        r := PolyImpl.PolySub(p, q);
        WeightedSumCanonical(p, q, 1, -1);
      }
      Put(r);
    }

    /** StackNeg: replaces the top by its negation. */
    method Neg(line: nat) returns (out: string, err: string)
      requires Valid()
      modifies this, polys
      ensures Valid()
      ensures Effect(Contents(), out, err) == Apply(old(Contents()), NEG, line)
    {
      out, err := "", "";
      if Underflows(Contents(), NEG) {
        err := Diagnostic(line, "STACK UNDERFLOW");
        return;
      }
      var p := Pop();
      var r := PolyImpl.PolyNeg(p);
      Put(r);
    }

    /** StackAt: replaces the top by its value at `x` in the first variable. */
    method At(x: int, line: nat) returns (out: string, err: string)
      requires Valid()
      modifies this, polys
      ensures Valid()
      ensures Effect(Contents(), out, err) == Apply(old(Contents()), AT(x), line)
    {
      out, err := "", "";
      if Underflows(Contents(), AT(x)) {
        err := Diagnostic(line, "STACK UNDERFLOW");
        return;
      }
      var p := Pop();
      var r := PolyImpl.PolyAt(p, x);
      Put(r);
    }

    /**
     * StackCompose: pops the polynomial to compose, then `k` polynomials
     * into `q[0..k)` in pop order, and pushes the composition.
     */
    method Compose(k: nat, line: nat) returns (out: string, err: string)
      requires Valid()
      modifies this, polys
      ensures Valid()
      ensures Effect(Contents(), out, err) == Apply(old(Contents()), COMPOSE(k), line)
    {
      out, err := "", "";
      if k == ULONG_MAX {
        err := Diagnostic(line, "STACK UNDERFLOW");
        return;
      }
      if Underflows(Contents(), COMPOSE(k)) {
        err := Diagnostic(line, "STACK UNDERFLOW");
        return;
      }
      ghost var s := Contents();
      var p := Pop();
      var q := PopMany(k, s);
      var r := PolyImpl.PolyCompose(p, k, q);
      Put(r);
    }

    /** The loop of StackCompose that pops `k` polynomials into `q[0..k)`. */
    method PopMany(k: nat, ghost s: seq<Poly>) returns (q: seq<Poly>)
      requires Valid() && k < |s| && Contents() == s[..|s| - 1]
      modifies this
      ensures Valid() && polys == old(polys) && capacity == old(capacity)
      ensures Contents() == s[..|s| - 1 - k]
      ensures q == Popped(s, k) && AllCanonical(q)
    {
      var a := new Poly[k];
      var i: nat := 0;
      while i < k
        invariant i <= k && Valid() && polys == old(polys) && capacity == old(capacity)
        invariant Contents() == s[..|s| - 1 - i]
        invariant a[..i] == Popped(s, k)[..i]
      {
        var t := Pop();
        a[i] := t;
        i := i + 1;
      }
      q := a[..];
      assert q == a[..k];
    }
  }
}
