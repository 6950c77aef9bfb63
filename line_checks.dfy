/**
 * parser.c of the similar-lines program: the checks a line passes before
 * it is cut into words, and the two word checks that keep hexadecimal
 * numbers and NaN words from being read as doubles. A C string is
 * modelled by its characters before the terminator; `CharAt` reads the
 * terminator past the end.
 */
module LineChecks {
  import opened CText
  import opened LineData

  /** print_error: `ERROR <n>` with the 1-based number of the line. */
  function ErrorMessage(numberOfLine: int): string {
    "ERROR " + IntToString(numberOfLine + 1) + "\n"
  }

  /** The number in the message reads back, by `strtol`, as the 1-based line number. */
  lemma ErrorMessageNumber(numberOfLine: int)
    requires LONG_MIN <= numberOfLine + 1 <= LONG_MAX
    ensures Strtol(ErrorMessage(numberOfLine), 6) ==
      Conversion(numberOfLine + 1, |ErrorMessage(numberOfLine)| - 1, false)
  {
    var m, t := ErrorMessage(numberOfLine), IntToString(numberOfLine + 1);
    assert m[6..6 + |t|] == t;
    assert CharAt(m, 6 + |t|) == '\n';
    StrtolOfIntToString(m, 6, numberOfLine + 1);
  }

  /** A character a line may hold: printable ASCII, or a code from 9 to 13. */
  predicate Legal(c: char) {
    32 <= c as int <= 126 || 9 <= c as int <= 13
  }

  /** How a line read by `getline` is treated. */
  datatype Verdict = Text | Comment | Rejected

  /**
   * A line of `characters` bytes whose first NUL is at `len`: a comment
   * when it starts with `#`; otherwise rejected when it holds a NUL or an
   * illegal character, and text to be parsed when it holds neither.
   */
  function LineVerdict(buffer: string, len: nat, characters: int): Verdict
    requires len <= |buffer|
  {
    if CharAt(buffer, 0) == '#' then Comment
    else if len < characters || exists i :: 0 <= i < len && !Legal(buffer[i]) then Rejected
    else Text
  }

  /**
   * check_illegal_characters_or_comment: true (skip the line) exactly for
   * comments and rejected lines, and the error message for rejected lines
   * only. Characters are taken as their codes 0..255; a byte above 127,
   * negative as a signed `char`, is rejected either way.
   */
  method CheckIllegalCharactersOrComment(buffer: string, len: nat, characters: int, numberOfLine: int)
    returns (skip: bool, err: string)
    requires len <= |buffer|
    ensures skip <==> LineVerdict(buffer, len, characters) != Text
    ensures err == if LineVerdict(buffer, len, characters) == Rejected then ErrorMessage(numberOfLine) else ""
  {
    if CharAt(buffer, 0) == '#' {
      return true, "";
    }
    if len < characters {
      return true, ErrorMessage(numberOfLine);
    }
    for i := 0 to len
      invariant forall k :: 0 <= k < i ==> Legal(buffer[k])
    {
      var cast := buffer[i] as int;
      if (cast < 32 || cast > 126) && (cast < 9 || cast > 13) {
        return true, ErrorMessage(numberOfLine);
      }
    }
    return false, "";
  }

  /** The prefixes of a number written in hexadecimal. */
  const HexPrefixes: seq<string> := ["0x", "0X", "+0x", "-0x", "+0X", "-0X"]

  /** The word begins with one of the hexadecimal prefixes. */
  predicate HexPrefixed(w: string) {
    exists k :: 0 <= k < |HexPrefixes| && HexPrefixes[k] <= w
  }

  /**
   * check_if_hex_dec: counts up to two characters before the terminator,
   * then looks for `0x`/`0X` at the start, or after a sign.
   */
  method CheckIfHexDec(word: string) returns (r: bool)
    ensures r == HexPrefixed(word)
  {
    var i := 0;
    while CharAt(word, i) != '\0' && i < 2
      invariant 0 <= i <= 2 && i <= |word|
      invariant forall k :: 0 <= k < i ==> word[k] != '\0'
      decreases 2 - i
    {
      i := i + 1;
    }
    if i >= 1 && CharAt(word, 0) == '0' && (CharAt(word, 1) == 'x' || CharAt(word, 1) == 'X') {
      assert HexPrefixes[if word[1] == 'x' then 0 else 1] <= word;
      return true;
    }
    if i == 2 && (CharAt(word, 0) == '+' || CharAt(word, 0) == '-') && CharAt(word, 1) == '0' &&
       (CharAt(word, 2) == 'x' || CharAt(word, 2) == 'X') {
      assert HexPrefixes[if word[0] == '+' then (if word[2] == 'x' then 2 else 4) else (if word[2] == 'x' then 3 else 5)] <= word;
      return true;
    }
    return false;
  }

  /** The words a double may not be spelled as: NaN with or without a sign. */
  const NanWords: set<string> := {"nan", "+nan", "-nan"}

  /** check_if_nan: the word is `nan`, `+nan` or `-nan` up to case. */
  function CheckIfNan(word: string): (r: bool)
    ensures r <==> Fold(word) in NanWords
  {
    StrCaseCmpZero(word, "nan");
    StrCaseCmpZero(word, "+nan");
    StrCaseCmpZero(word, "-nan");
    assert Fold("nan") == "nan" && Fold("+nan") == "+nan" && Fold("-nan") == "-nan";
    StrCaseCmp(word, "nan") == 0 || StrCaseCmp(word, "+nan") == 0 || StrCaseCmp(word, "-nan") == 0
  }
}
