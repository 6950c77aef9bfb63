/**
 * PolyFromString of parser.c: the recursive descent that reads a
 * polynomial from a line CheckIfCorrectPoly has accepted, collecting the
 * monomials of each bracketed sum in a growable MonoVec and canonicalising
 * them with PolyAddMonos.
 *
 * `ParsePoly` and `ParseMonos` are the reference definitions; the method
 * PolyFromString is proved to return what they describe. The `assert`s of
 * PolyFromString are modelled as enabled: when one fails the program
 * aborts, which the result `Abort` records.
 */
module PolyReader {
  import opened PolyBase
  import opened PolyCanon
  import opened CText
  import opened PolyParser
  import PolyCanonImpl

  /**
   * The outcome of reading from a position: the polynomial and the position
   * after it; `WrongPoly` when a number is out of range (PolyFromString then
   * writes `WRONG POLY` and sets `ERANGE`); `Abort` when an `assert` fails.
   */
  datatype Parsed = Parsed(p: Poly, end: nat) | WrongPoly | Abort

  /** The monomials PolyFromString keeps: a zero coefficient only with exponent 0. */
  predicate Admitted(m: Mono) {
    m.exp == 0 || m.p != Zero()
  }

  /**
   * PolyFromString at `cur`: a number is a coefficient read by `strtol`
   * (out of range: `WrongPoly`), a `(` starts a sum of monomials, and any
   * other character is `WrongPoly`.
   */
  function ParsePoly(s: string, cur: nat): (r: Parsed)
    ensures r.Parsed? ==> cur < r.end <= |s| && Canonical(r.p)
    decreases |s| - cur, 2
  {
    var c := CharAt(s, cur);
    if IsNumberOrMinus(c) then
      var n := Strtol(s, cur);
      if n.erange then WrongPoly else Parsed(Coeff(n.value), NumberEnd(s, cur))
    else if c == '(' then Summed(ParseMonos(s, cur, []))
    else WrongPoly
  }

  /**
   * The monomials of a bracketed sum with the position after its last `)`,
   * or the outcome that ends the reading.
   */
  datatype MonoList = MonoList(ms: seq<Mono>, end: nat) | Halted(r: Parsed)

  /** PolyAddMonos on the monomials of a sum: a canonical polynomial. */
  function Summed(t: MonoList): (r: Parsed)
    requires t.MonoList? ==> ValidMonos(t.ms)
    requires t.Halted? ==> !t.r.Parsed?
    ensures r.Parsed? <==> t.MonoList?
    ensures r.Parsed? ==> r.end == t.end && Canonical(r.p)
  {
    match t
    case Halted(r) => r
    case MonoList(ms, end) =>
      CanonCorrect(ms, []);
      Parsed(Canon(ms), end)
  }

  /**
   * What one monomial reads to: its coefficient and exponent, with the
   * position after the exponent, or the outcome that ends the reading.
   */
  datatype MonoRead = Monomial(m: Mono, close: nat) | Failed(r: Parsed)

  /**
   * The monomial at the `(` at `cur`: the coefficient, `,`, a number
   * (`assert`ed by PolyFromString), and an exponent `strtol` reads within
   * `[0, INT_MAX]`, or else `WrongPoly`.
   */
  function ReadMono(s: string, cur: nat): (r: MonoRead)
    requires CharAt(s, cur) == '('
    ensures r.Monomial? ==> cur < r.close <= |s| && Canonical(r.m.p) && 0 <= r.m.exp <= INT_MAX
    ensures r.Failed? ==> !r.r.Parsed?
    decreases |s| - cur, 0
  {
    match ParsePoly(s, cur + 1)
    case WrongPoly => Failed(WrongPoly)
    case Abort => Failed(Abort)
    case Parsed(p, c1) =>
      if CharAt(s, c1) != ',' || !IsNumberOrMinus(CharAt(s, c1 + 1)) then Failed(Abort)
      else
        var e := Strtol(s, c1 + 1);
        if e.erange || e.value < 0 || e.value > INT_MAX then Failed(WrongPoly)
        else Monomial(Mono(e.value, p), NumberEnd(s, c1 + 1))
  }

  /** The monomials collected so far, with `m` added when PolyFromString keeps it. */
  function Collect(acc: seq<Mono>, m: Mono): (r: seq<Mono>)
    requires ValidMonos(acc) && Canonical(m.p) && 0 <= m.exp
    ensures ValidMonos(r)
    ensures Admitted(m) ==> r == acc + [m]
    ensures !Admitted(m) ==> r == acc
  {
    if Admitted(m) then acc + [m] else acc
  }

  /**
   * The loop of PolyFromString, at the `(` of a monomial, with the
   * monomials `acc` collected so far: the monomial, `)`, and then either
   * `+(` and the next monomial or the end of the sum, whose monomials
   * PolyAddMonos canonicalises.
   */
  function ParseMonos(s: string, cur: nat, acc: seq<Mono>): (r: MonoList)
    requires CharAt(s, cur) == '(' && ValidMonos(acc)
    ensures r.MonoList? ==> cur < r.end <= |s| && ValidMonos(r.ms)
    ensures r.Halted? ==> !r.r.Parsed?
    decreases |s| - cur, 1
  {
    match ReadMono(s, cur)
    case Failed(r) => Halted(r)
    case Monomial(m, c2) =>
      var acc' := Collect(acc, m);
      if CharAt(s, c2) != ')' then Halted(Abort)
      else if CharAt(s, c2 + 1) == '+' then
        if CharAt(s, c2 + 2) != '(' then Halted(Abort) else ParseMonos(s, c2 + 2, acc')
      else MonoList(acc', c2 + 1)
  }

  /**
   * How a sum ends after a monomial whose exponent ends at `c2`, when no
   * `+(` follows: the sum `ms` when `)` closes it, and an abort when `)`
   * is missing or `+` is not followed by `(`.
   */
  function Closing(s: string, c2: nat, ms: seq<Mono>): (t: MonoList)
    requires ValidMonos(ms)
    ensures t.MonoList? <==> CharAt(s, c2) == ')' && CharAt(s, c2 + 1) != '+'
    ensures t.MonoList? ==> t.ms == ms && t.end == c2 + 1
    ensures t.Halted? ==> t.r == Abort
  {
    if CharAt(s, c2) != ')' || CharAt(s, c2 + 1) == '+' then Halted(Abort) else MonoList(ms, c2 + 1)
  }

  /** ParseMonos after a monomial `m` whose exponent ends at `c2`: the next monomial after `+(`, or how the sum ends. */
  lemma ParseMonosStep(s: string, cur: nat, acc: seq<Mono>, m: Mono, c2: nat)
    requires CharAt(s, cur) == '(' && ValidMonos(acc) && ReadMono(s, cur) == Monomial(m, c2)
    ensures Canonical(m.p) && 0 <= m.exp
    ensures CharAt(s, c2) == ')' && CharAt(s, c2 + 1) == '+' && CharAt(s, c2 + 2) == '(' ==>
      ParseMonos(s, cur, acc) == ParseMonos(s, c2 + 2, Collect(acc, m))
    ensures !(CharAt(s, c2) == ')' && CharAt(s, c2 + 1) == '+' && CharAt(s, c2 + 2) == '(') ==>
      ParseMonos(s, cur, acc) == Closing(s, c2, Collect(acc, m))
  {
  }

  /** A monomial that fails to read ends the sum with its own result. */
  lemma ParseMonosFailed(s: string, cur: nat, acc: seq<Mono>, r: Parsed)
    requires CharAt(s, cur) == '(' && ValidMonos(acc) && ReadMono(s, cur) == Failed(r)
    ensures ParseMonos(s, cur, acc) == Halted(r) && Summed(ParseMonos(s, cur, acc)) == r
  {
  }

  /**
   * The text `(1,2,3)+(4)` passes CheckIfCorrectPoly: every character and
   * every pair of neighbours is allowed, and the bracket and comma counts
   * balance over the whole line.
   */
  lemma MalformedLineAccepted(s: string)
    requires s == "(1,2,3)+(4)\n"
    ensures CorrectPoly(s)
  {
    MalformedLineEnd(s);
    MalformedLineCounts(s);
  }

  /** The characters of `(1,2,3)+(4)\n`, where its line ends, and its local checks. */
  lemma MalformedLineEnd(s: string)
    requires s == "(1,2,3)+(4)\n"
    ensures LineEnd(s, 0) == 11 && forall i :: 0 <= i < 11 ==> LocalOk(s, i)
  {
    assert s[0] == '(' && s[1] == '1' && s[2] == ',' && s[3] == '2' && s[4] == ',' && s[5] == '3';
    assert s[6] == ')' && s[7] == '+' && s[8] == '(' && s[9] == '4' && s[10] == ')' && s[11] == '\n';
    assert LineEnd(s, 11) == 11 && LineEnd(s, 10) == 11 && LineEnd(s, 9) == 11 && LineEnd(s, 8) == 11;
    assert LineEnd(s, 7) == 11 && LineEnd(s, 6) == 11 && LineEnd(s, 5) == 11 && LineEnd(s, 4) == 11;
    assert LineEnd(s, 3) == 11 && LineEnd(s, 2) == 11 && LineEnd(s, 1) == 11;
  }

  /** Two of each of `(`, `)` and `,` before the end of `(1,2,3)+(4)\n`. */
  lemma MalformedLineCounts(s: string)
    requires s == "(1,2,3)+(4)\n"
    ensures Count(s, 0, 11, '(') == 2 && Count(s, 0, 11, ')') == 2 && Count(s, 0, 11, ',') == 2
  {
    assert s[0] == '(' && s[1] == '1' && s[2] == ',' && s[3] == '2' && s[4] == ',' && s[5] == '3';
    assert s[6] == ')' && s[7] == '+' && s[8] == '(' && s[9] == '4' && s[10] == ')';
    assert Count(s, 0, 1, '(') == 1 && Count(s, 0, 1, ')') == 0 && Count(s, 0, 1, ',') == 0;
    assert Count(s, 0, 2, '(') == 1 && Count(s, 0, 2, ')') == 0 && Count(s, 0, 2, ',') == 0;
    assert Count(s, 0, 3, '(') == 1 && Count(s, 0, 3, ')') == 0 && Count(s, 0, 3, ',') == 1;
    assert Count(s, 0, 4, '(') == 1 && Count(s, 0, 4, ')') == 0 && Count(s, 0, 4, ',') == 1;
    assert Count(s, 0, 5, '(') == 1 && Count(s, 0, 5, ')') == 0 && Count(s, 0, 5, ',') == 2;
    assert Count(s, 0, 6, '(') == 1 && Count(s, 0, 6, ')') == 0 && Count(s, 0, 6, ',') == 2;
    assert Count(s, 0, 7, '(') == 1 && Count(s, 0, 7, ')') == 1 && Count(s, 0, 7, ',') == 2;
    assert Count(s, 0, 8, '(') == 1 && Count(s, 0, 8, ')') == 1 && Count(s, 0, 8, ',') == 2;
    assert Count(s, 0, 9, '(') == 2 && Count(s, 0, 9, ')') == 1 && Count(s, 0, 9, ',') == 2;
    assert Count(s, 0, 10, '(') == 2 && Count(s, 0, 10, ')') == 1 && Count(s, 0, 10, ',') == 2;
  }

  /**
   * On that line PolyFromString finds `,` where its `assert` expects the
   * `)` closing the first monomial, and the program aborts.
   */
  lemma MalformedLineAborts(s: string)
    requires s == "(1,2,3)+(4)\n"
    ensures ParsePoly(s, 0) == Abort
  {
    assert s[0] == '(' && s[1] == '1' && s[2] == ',' && s[3] == '2' && s[4] == ',';
    assert Strtol(s, 1) == Conversion(1, 2, false) by {
      assert SkipSpaces(s, 1) == 1 && DigitsEnd(s, 2) == 2 && DigitsEnd(s, 1) == 2;
      assert Scan(s, 1) == (false, 1, 2);
    }
    assert NumberEnd(s, 1) == 2;
    assert ParsePoly(s, 1) == Parsed(Coeff(1), 2);
    assert Strtol(s, 3) == Conversion(2, 4, false) by {
      assert SkipSpaces(s, 3) == 3 && DigitsEnd(s, 4) == 4 && DigitsEnd(s, 3) == 4;
      assert Scan(s, 3) == (false, 3, 4);
    }
    assert NumberEnd(s, 3) == 4;
    assert ReadMono(s, 0) == Monomial(Mono(2, Coeff(1)), 4);
  }

  /**
   * The intended reading: a line on which PolyFromString would abort is a
   * wrong polynomial, like the other malformed lines.
   */
  function ReadPoly(s: string): (r: Parsed)
    ensures !r.Abort?
    ensures ParsePoly(s, 0).Abort? ==> r == WrongPoly
    ensures !ParsePoly(s, 0).Abort? ==> r == ParsePoly(s, 0)
  {
    match ParsePoly(s, 0)
    case Abort => WrongPoly
    case r => r
  }

  // ---------------------------------------------------------------------
  // The imperative reader.
  // ---------------------------------------------------------------------

  /** MonoVec of parser.c: `monos[0..size)` hold the monomials read so far. */
  class MonoVec {
    var monos: array<Mono>
    var size: nat
    var capacity: nat

    ghost predicate Valid()
      reads this
    {
      monos.Length == capacity && 0 < capacity && size <= capacity
    }

    function Contents(): (r: seq<Mono>)
      reads this, monos
      requires size <= monos.Length
      ensures |r| == size
    {
      monos[..size]
    }

    /** VecInit: room for four monomials. */
    constructor ()
      ensures Valid() && fresh(monos)
      ensures Contents() == [] && capacity == 4
    {
      monos := new Mono[4];
      size := 0;
      capacity := 4;
    }

    /** VecAdd: doubles the array when it is full. */
    method Add(m: Mono)
      requires Valid()
      modifies this, monos
      ensures Valid() && (fresh(monos) || monos == old(monos))
      ensures Contents() == old(Contents()) + [m]
      ensures capacity == if old(size) == old(capacity) then 2 * old(capacity) else old(capacity)
    {
      if size == capacity {
        var bigger := new Mono[2 * capacity];
        forall i | 0 <= i < size {
          bigger[i] := monos[i];
        }
        monos := bigger;
        capacity := 2 * capacity;
      }
      monos[size] := m;
      size := size + 1;
    }
  }

  /** TraverseByNumber: moves the cursor over digits and `-`. */
  method TraverseByNumber(s: string, cur0: nat) returns (cur: nat)
    ensures cur == NumberEnd(s, cur0)
  {
    cur := cur0;
    while IsNumberOrMinus(CharAt(s, cur))
      invariant cur0 <= cur && NumberEnd(s, cur) == NumberEnd(s, cur0)
      decreases |s| - cur
    {
      cur := cur + 1;
    }
  }

  /** PolyFromString: the result and, when it is a polynomial, the cursor after it. */
  method PolyFromString(s: string, cur: nat) returns (r: Parsed)
    ensures r == ParsePoly(s, cur)
    decreases |s| - cur, 3
  {
    var c := CharAt(s, cur);
    if IsNumberOrMinus(c) {
      var n := Strtol(s, cur);
      if n.erange {
        return WrongPoly;
      }
      var end := TraverseByNumber(s, cur);
      return Parsed(Coeff(n.value), end);
    } else if c == '(' {
      r := ReadSum(s, cur);
    } else {
      return WrongPoly;
    }
  }

  /** The loop of PolyFromString over the monomials of the sum opened at `cur`. */
  method ReadSum(s: string, cur: nat) returns (r: Parsed)
    requires CharAt(s, cur) == '('
    ensures r == Summed(ParseMonos(s, cur, []))
    decreases |s| - cur, 2
  {
    var v := new MonoVec();
    var at := cur;
    ghost var acc: seq<Mono> := [];
    while true
      invariant cur <= at && CharAt(s, at) == '('
      invariant fresh(v) && fresh(v.monos) && v.Valid() && v.Contents() == acc && ValidMonos(acc)
      invariant ParseMonos(s, at, acc) == ParseMonos(s, cur, [])
      decreases |s| - at
    {
      var next, done;
      next, done, r, acc := SumStep(s, at, v, acc);
      if done {
        return;
      }
      at := next;
    }
  }

  /**
   * One pass of the loop of PolyFromString, with `v` holding the monomials
   * `acc`: the monomial at `cur`, kept in `v` when it is not zero, then
   * `+(` and the position of the next monomial, or the end of the sum and
   * its canonical form.
   */
  method SumStep(s: string, cur: nat, v: MonoVec, ghost acc: seq<Mono>)
      returns (next: nat, done: bool, r: Parsed, ghost acc': seq<Mono>)
    requires CharAt(s, cur) == '(' && v.Valid() && v.Contents() == acc && ValidMonos(acc)
    modifies v, v.monos
    ensures v.Valid() && (fresh(v.monos) || v.monos == old(v.monos)) && v.Contents() == acc'
    ensures done ==> r == Summed(ParseMonos(s, cur, acc))
    ensures !done ==> cur < next && CharAt(s, next) == '(' && ValidMonos(acc')
    ensures !done ==> ParseMonos(s, next, acc') == ParseMonos(s, cur, acc)
    decreases |s| - cur, 1
  {
    var mono := ReadMonomial(s, cur);
    if mono.Failed? {
      ParseMonosFailed(s, cur, acc, mono.r);
      return cur, true, mono.r, acc;
    }
    var m, c2 := mono.m, mono.close;
    ParseMonosStep(s, cur, acc, m, c2);
    next, done, r, acc' := SumRest(s, cur, v, acc, m, c2);
    SumStepOutcome(s, cur, acc, m, c2, next, done, r, acc');
  }

  /** What SumRest leaves after the monomial read at `cur` is what ParseMonos reads on from `cur`. */
  lemma SumStepOutcome(s: string, cur: nat, acc: seq<Mono>, m: Mono, c2: nat,
                       next: nat, done: bool, r: Parsed, acc': seq<Mono>)
    requires CharAt(s, cur) == '(' && ValidMonos(acc) && ReadMono(s, cur) == Monomial(m, c2)
    requires acc' == Collect(acc, m)
    requires done <==> !(CharAt(s, c2) == ')' && CharAt(s, c2 + 1) == '+' && CharAt(s, c2 + 2) == '(')
    requires done ==> r == Summed(Closing(s, c2, acc'))
    requires !done ==> next == c2 + 2
    ensures done ==> r == Summed(ParseMonos(s, cur, acc))
    ensures !done ==> cur < next && CharAt(s, next) == '(' && ValidMonos(acc')
    ensures !done ==> ParseMonos(s, next, acc') == ParseMonos(s, cur, acc)
  {
    ParseMonosStep(s, cur, acc, m, c2);
  }

  /**
   * The rest of one pass of the loop of PolyFromString, once the monomial
   * `m` has been read up to `c2`: the end of the sum, or `+(` and the
   * next monomial.
   */
  method SumRest(s: string, cur: nat, v: MonoVec, ghost acc: seq<Mono>, m: Mono, c2: nat)
      returns (next: nat, done: bool, r: Parsed, ghost acc': seq<Mono>)
    requires v.Valid() && v.Contents() == acc && ValidMonos(acc)
    requires cur < c2 && Canonical(m.p) && 0 <= m.exp <= INT_MAX
    modifies v, v.monos
    ensures v.Valid() && (fresh(v.monos) || v.monos == old(v.monos)) && v.Contents() == acc'
    ensures acc' == Collect(acc, m)
    ensures done <==> !(CharAt(s, c2) == ')' && CharAt(s, c2 + 1) == '+' && CharAt(s, c2 + 2) == '(')
    ensures done ==> r == Summed(Closing(s, c2, acc'))
    ensures !done ==> next == c2 + 2
  {
    acc' := KeepMono(v, acc, m);
    if CharAt(s, c2) != ')' {
      return cur, true, Abort, acc';
    }
    if CharAt(s, c2 + 1) == '+' {
      if CharAt(s, c2 + 2) != '(' {
        return cur, true, Abort, acc';
      }
      return c2 + 2, false, Abort, acc';
    }
    var res := PolyCanonImpl.PolyAddMonos(v.Contents());
    SummedClosing(s, c2, acc');
    return cur, true, Parsed(res, c2 + 1), acc';
  }

  /** The monomial `m` goes into `v` when PolyFromString keeps it. */
  method KeepMono(v: MonoVec, ghost acc: seq<Mono>, m: Mono) returns (ghost acc': seq<Mono>)
    requires v.Valid() && v.Contents() == acc && ValidMonos(acc) && Canonical(m.p) && 0 <= m.exp
    modifies v, v.monos
    ensures v.Valid() && (fresh(v.monos) || v.monos == old(v.monos)) && v.Contents() == acc'
    ensures acc' == Collect(acc, m)
  {
    if m.exp == 0 || m.p != Zero() {
      v.Add(m);
    }
    acc' := Collect(acc, m);
  }

  /** A sum closed by `)` with no `+` after it reads to the canonical form of its monomials. */
  lemma SummedClosing(s: string, c2: nat, ms: seq<Mono>)
    requires ValidMonos(ms) && CharAt(s, c2) == ')' && CharAt(s, c2 + 1) != '+'
    ensures Summed(Closing(s, c2, ms)) == Parsed(Canon(ms), c2 + 1)
  {
  }

  /** One pass of the loop of PolyFromString up to the exponent of the monomial at `cur`. */
  method ReadMonomial(s: string, cur: nat) returns (r: MonoRead)
    requires CharAt(s, cur) == '('
    ensures r == ReadMono(s, cur)
    decreases |s| - cur, 0
  {
    var coeff := PolyFromString(s, cur + 1);
    if !coeff.Parsed? {
      return Failed(coeff);
    }
    var p, c1 := coeff.p, coeff.end;
    if CharAt(s, c1) != ',' || !IsNumberOrMinus(CharAt(s, c1 + 1)) {
      return Failed(Abort);
    }
    var e := Strtol(s, c1 + 1);
    if e.erange || e.value < 0 || e.value > INT_MAX {
      return Failed(WrongPoly);
    }
    var c2 := TraverseByNumber(s, c1 + 1);
    return Monomial(Mono(e.value, p), c2);
  }
}
