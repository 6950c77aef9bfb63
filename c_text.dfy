/**
 * The pieces of the C library the two programs read text with: a
 * NUL-terminated buffer, `isspace`, decimal `strtol`/`strtoull` with their
 * `ERANGE` reporting, and the decimal output of `printf("%d")`.
 */
module CText {
  const LONG_MIN: int := -0x8000_0000_0000_0000
  const LONG_MAX: int := 0x7FFF_FFFF_FFFF_FFFF
  const ULLONG_MAX: int := 0xFFFF_FFFF_FFFF_FFFF

  /** The character at `i` of a buffer; past its end the terminating `'\0'`. */
  function CharAt(s: string, i: int): char {
    if 0 <= i < |s| then s[i] else '\0'
  }

  predicate IsDigit(c: char) {
    '0' <= c <= '9'
  }

  /** `isspace` in the C locale. */
  predicate IsSpace(c: char) {
    c == ' ' || c == '\t' || c == '\n' || c == '\U{0B}' || c == '\U{0C}' || c == '\r'
  }

  function DigitValue(c: char): (d: nat)
    requires IsDigit(c)
    ensures d < 10
  {
    c as int - '0' as int
  }

  function Digit(d: nat): (c: char)
    requires d < 10
    ensures IsDigit(c) && DigitValue(c) == d
  {
    ('0' as int + d) as char
  }

  // ---------------------------------------------------------------------
  // Reading numbers.
  // ---------------------------------------------------------------------

  /** The first position at or after `i` that is not white space. */
  function SkipSpaces(s: string, i: nat): (j: nat)
    ensures i <= j && !IsSpace(CharAt(s, j))
    decreases |s| - i
  {
    if IsSpace(CharAt(s, i)) then SkipSpaces(s, i + 1) else i
  }

  /** The end of the run of digits starting at `i`. */
  function DigitsEnd(s: string, i: nat): (j: nat)
    ensures i <= j <= |s| || j == i
    ensures !IsDigit(CharAt(s, j))
    decreases |s| - i
  {
    if IsDigit(CharAt(s, i)) then DigitsEnd(s, i + 1) else i
  }

  /** The decimal value of the digits `s[i..j)` (a character that is not a digit counts as 0). */
  function DecimalValue(s: string, i: nat, j: nat): nat
    decreases j
  {
    if j <= i then 0
    else 10 * DecimalValue(s, i, j - 1) + (if IsDigit(CharAt(s, j - 1)) then DigitValue(CharAt(s, j - 1)) else 0)
  }

  /** What a conversion returns: the value, where it stopped, and whether it set `errno` to `ERANGE`. */
  datatype Conversion = Conversion(value: int, end: nat, erange: bool)

  /** The sign and digits `strtol` and `strtoull` read at `i`: (negative, first digit, end of digits). */
  function Scan(s: string, i: nat): (r: (bool, nat, nat))
    ensures i <= r.1 <= r.2
    ensures r.2 <= |s| || r.1 == r.2
  {
    var b := SkipSpaces(s, i);
    var c := CharAt(s, b);
    var start := if c == '-' || c == '+' then b + 1 else b;
    (c == '-', start, DigitsEnd(s, start))
  }

  /**
   * `strtol(s + i, &end, 10)`: white space, an optional sign and the longest
   * run of digits; without digits the result is 0 with `end` at `i`; a value
   * outside `long` saturates and sets `ERANGE`.
   */
  function Strtol(s: string, i: nat): (r: Conversion)
    ensures LONG_MIN <= r.value <= LONG_MAX
    ensures r.end >= i
  {
    var (neg, start, j) := Scan(s, i);
    if j == start then Conversion(0, i, false)
    else
      var v: int := DecimalValue(s, start, j);
      if !neg && v > LONG_MAX then Conversion(LONG_MAX, j, true)
      else if neg && v > -LONG_MIN then Conversion(LONG_MIN, j, true)
      else Conversion(if neg then -v else v, j, false)
  }

  /**
   * `strtoull(s + i, &end, 10)`: like `strtol`, but a value above
   * `ULLONG_MAX` saturates, and a `-` sign negates in unsigned arithmetic.
   */
  function Strtoull(s: string, i: nat): (r: Conversion)
    ensures 0 <= r.value <= ULLONG_MAX
    ensures r.end >= i
  {
    var (neg, start, j) := Scan(s, i);
    if j == start then Conversion(0, i, false)
    else
      var v: int := DecimalValue(s, start, j);
      if v > ULLONG_MAX then Conversion(ULLONG_MAX, j, true)
      else Conversion(if neg && v != 0 then ULLONG_MAX + 1 - v else v, j, false)
  }

  // ---------------------------------------------------------------------
  // Writing numbers.
  // ---------------------------------------------------------------------

  /** Decimal digits of `n` without leading zeros. */
  function NatToString(n: nat): (r: string)
    ensures |r| > 0
    ensures forall k :: 0 <= k < |r| ==> IsDigit(r[k])
  {
    if n < 10 then [Digit(n)] else NatToString(n / 10) + [Digit(n % 10)]
  }

  /** `printf("%d")` / `printf("%ld")`: a `-` for negative numbers, then the digits. */
  function IntToString(n: int): (r: string)
    ensures |r| > 0
  {
    if n < 0 then "-" + NatToString(-n) else NatToString(n)
  }

  /** The digits read back give the number. */
  lemma {:induction false} NatToStringValue(n: nat)
    ensures DecimalValue(NatToString(n), 0, |NatToString(n)|) == n
  {
    var r := NatToString(n);
    if n >= 10 {
      var h := NatToString(n / 10);
      NatToStringValue(n / 10);
      assert r[..|r| - 1] == h;
      DecimalValuePrefix(r, |h|);
    }
  }

  /** The value of a prefix depends only on the prefix. */
  lemma {:induction false} DecimalValuePrefix(s: string, j: nat)
    requires j <= |s| && forall k :: 0 <= k < j ==> IsDigit(s[k])
    ensures DecimalValue(s, 0, j) == DecimalValue(s[..j], 0, j)
    decreases j
  {
    if j > 0 {
      DecimalValuePrefix(s, j - 1);
      assert s[..j][..j - 1] == s[..j - 1];
      DecimalValuePrefix(s[..j], j - 1);
    }
  }

  /** The value of digits embedded in a longer buffer is the value of those digits alone. */
  lemma {:induction false} DecimalValueShift(s: string, i: nat, t: string)
    requires i + |t| <= |s| && s[i..i + |t|] == t
    requires forall k :: 0 <= k < |t| ==> IsDigit(t[k])
    ensures forall k :: i <= k < i + |t| ==> IsDigit(s[k])
    ensures DecimalValue(s, i, i + |t|) == DecimalValue(t, 0, |t|)
    decreases |t|
  {
    assert forall k :: i <= k < i + |t| ==> s[k] == t[k - i];
    if |t| > 0 {
      var u := t[..|t| - 1];
      assert s[i..i + |u|] == u;
      DecimalValueShift(s, i, u);
      DecimalValuePrefix(t, |u|);
    }
  }

  /** The digits of `t` at `i`, followed by a non-digit, are exactly the run `DigitsEnd` finds. */
  lemma {:induction false} DigitsEndOf(s: string, i: nat, t: string)
    requires i + |t| <= |s| && s[i..i + |t|] == t
    requires forall k :: 0 <= k < |t| ==> IsDigit(t[k])
    requires !IsDigit(CharAt(s, i + |t|))
    ensures DigitsEnd(s, i) == i + |t|
    decreases |t|
  {
    if |t| > 0 {
      assert s[i] == t[0];
      assert s[i + 1..i + 1 + |t[1..]|] == t[1..];
      DigitsEndOf(s, i + 1, t[1..]);
    }
  }

  /** `strtol` reads back what `printf("%ld")` wrote, when a non-digit follows it. */
  lemma StrtolOfIntToString(s: string, i: nat, n: int)
    requires LONG_MIN <= n <= LONG_MAX
    requires i + |IntToString(n)| <= |s| && s[i..i + |IntToString(n)|] == IntToString(n)
    requires !IsDigit(CharAt(s, i + |IntToString(n)|))
    ensures Strtol(s, i) == Conversion(n, i + |IntToString(n)|, false)
  {
    var t := IntToString(n);
    var d := if n < 0 then -n else n;
    var digits := NatToString(d);
    var start := if n < 0 then i + 1 else i;
    assert s[i] == t[0];
    assert !IsSpace(s[i]);
    assert s[start..start + |digits|] == digits;
    DigitsEndOf(s, start, digits);
    DecimalValueShift(s, start, digits);
    NatToStringValue(d);
  }
}
