/** Character classes used by the key detector's pattern and by Python's `str.strip()`,
    restricted to ASCII: word characters (`\w`), whitespace (`\s`), and the lower-casing
    that `re.IGNORECASE` applies to ASCII letters. */
module TextChars {

  /** `\w` on ASCII: a letter, a digit or the underscore. */
  predicate IsWordChar(c: char) {
    ('a' <= c <= 'z') || ('A' <= c <= 'Z') || ('0' <= c <= '9') || c == '_'
  }

  /** Python's whitespace on ASCII, shared by `\s` and `str.strip()`:
      tab, line feed, vertical tab, form feed, carriage return (9..13),
      the four separators 0x1C..0x1F, and the space. */
  predicate IsSpace(c: char) {
    (9 <= c as int <= 13) || (28 <= c as int <= 31) || c == ' '
  }

  lemma SpaceIsNotWord(c: char)
    requires IsSpace(c)
    ensures !IsWordChar(c)
  {
  }

  /** ASCII lower-casing, the case folding `re.IGNORECASE` applies to ASCII letters. */
  function Lower(c: char): char {
    if 'A' <= c <= 'Z' then (c as int - 'A' as int + 'a' as int) as char else c
  }

  /** Two characters the case-insensitive pattern treats as equal. */
  predicate SameIgnoringCase(c: char, d: char) {
    Lower(c) == Lower(d)
  }

  const LowerLetters: string := "abcdefghijklmnopqrstuvwxyz"
  const UpperLetters: string := "ABCDEFGHIJKLMNOPQRSTUVWXYZ"

  /** The two cases of the `x`-th letter of the alphabet, in either order. */
  predicate CasePair(c: char, d: char, x: int) {
    0 <= x < 26 &&
    ((c == LowerLetters[x] && d == UpperLetters[x]) || (c == UpperLetters[x] && d == LowerLetters[x]))
  }

  /** The `x`-th letters of the two alphabets, by code point. */
  lemma LettersAt(x: int)
    requires 0 <= x < 26
    ensures LowerLetters[x] as int == 'a' as int + x && UpperLetters[x] as int == 'A' as int + x
  {
  }

  /** Two distinct characters that lower-case alike are the two cases of one letter. */
  lemma SameIgnoringCaseIsCasePair(c: char, d: char)
    requires SameIgnoringCase(c, d) && c != d
    ensures CasePair(c, d, if 'A' <= c <= 'Z' then c as int - 'A' as int else d as int - 'A' as int)
  {
    LettersAt(if 'A' <= c <= 'Z' then c as int - 'A' as int else d as int - 'A' as int);
  }

  /** The two cases of one letter lower-case alike. */
  lemma CasePairIsSameIgnoringCase(c: char, d: char, x: int)
    requires CasePair(c, d, x)
    ensures SameIgnoringCase(c, d)
  {
    LettersAt(x);
  }

  /** The case-insensitive pattern treats two characters as equal exactly when they are the
      same character or the lower- and upper-case forms of one letter. */
  lemma SameIgnoringCaseIff(c: char, d: char)
    ensures SameIgnoringCase(c, d) <==> c == d || exists x :: CasePair(c, d, x)
  {
    if SameIgnoringCase(c, d) && c != d {
      SameIgnoringCaseIsCasePair(c, d);
    }
    if exists x :: CasePair(c, d, x) {
      var x :| CasePair(c, d, x);
      CasePairIsSameIgnoringCase(c, d, x);
    }
  }

  /** Lower-casing never yields an upper-case letter, so doing it twice changes nothing. */
  lemma LowerIsLower(c: char)
    ensures !('A' <= Lower(c) <= 'Z')
    ensures Lower(Lower(c)) == Lower(c)
  {
  }

  /** A character equal, ignoring case, to a word character is itself a word character. */
  lemma SameIgnoringCaseKeepsWord(c: char, d: char)
    requires SameIgnoringCase(c, d) && IsWordChar(d)
    ensures IsWordChar(c)
  {
  }

  /** `s` without the whitespace at its front (Python's `s.lstrip()`). */
  function TrimStart(s: string): string {
    if s != [] && IsSpace(s[0]) then TrimStart(s[1..]) else s
  }

  /** `s` without the whitespace at its back (Python's `s.rstrip()`). */
  function TrimEnd(s: string): string {
    if s != [] && IsSpace(s[|s| - 1]) then TrimEnd(s[..|s| - 1]) else s
  }

  /** Python's `s.strip()`: `s` without its leading and trailing whitespace. */
  function Strip(s: string): string {
    TrimEnd(TrimStart(s))
  }

  /** `TrimStart` removes the longest all-whitespace prefix and nothing else. */
  lemma {:induction false} TrimStartDropsLeadingSpace(s: string)
    ensures var r := TrimStart(s);
      && |r| <= |s| && r == s[|s| - |r|..]
      && (forall x | 0 <= x < |s| - |r| :: IsSpace(s[x]))
      && (r != [] ==> !IsSpace(r[0]))
  {
    if s != [] && IsSpace(s[0]) {
      var t := s[1..];
      var r := TrimStart(t);
      TrimStartDropsLeadingSpace(t);
      assert r == t[|t| - |r|..] == s[|s| - |r|..];
      forall x | 0 <= x < |s| - |r| ensures IsSpace(s[x]) {
        if x > 0 { assert s[x] == t[x - 1]; }
      }
    }
  }

  /** `TrimEnd` removes the longest all-whitespace suffix and nothing else. */
  lemma {:induction false} TrimEndDropsTrailingSpace(s: string)
    ensures var r := TrimEnd(s);
      && |r| <= |s| && r == s[..|r|]
      && (forall x | |r| <= x < |s| :: IsSpace(s[x]))
      && (r != [] ==> !IsSpace(r[|r| - 1]))
  {
    if s != [] && IsSpace(s[|s| - 1]) {
      TrimEndDropsTrailingSpace(s[..|s| - 1]);
    }
  }

  /** `r` sits in `s` at offset `a`, and everything before and after it is whitespace. */
  predicate StripsTo(s: string, a: nat, r: string)
    requires a + |r| <= |s|
  {
    && s[a..a + |r|] == r
    && (forall x | 0 <= x < a :: IsSpace(s[x]))
    && (forall x | a + |r| <= x < |s| :: IsSpace(s[x]))
  }

  /** `Strip` removes exactly the whitespace at both ends: what is left sits in `s` with only
      whitespace before and after it, and neither starts nor ends with whitespace. */
  lemma StripRemovesOuterWhitespace(s: string)
    ensures |Strip(s)| <= |s|
    ensures var r := Strip(s); r == [] || (!IsSpace(r[0]) && !IsSpace(r[|r| - 1]))
    ensures exists a: nat | a + |Strip(s)| <= |s| :: StripsTo(s, a, Strip(s))
  {
    var t := TrimStart(s);
    var r := TrimEnd(t);
    TrimStartDropsLeadingSpace(s);
    TrimEndDropsTrailingSpace(t);
    var a := |s| - |t|;
    assert r != [] ==> r[0] == t[0];
    assert s[a..a + |r|] == r;
    forall x | a + |r| <= x < |s| ensures IsSpace(s[x]) {
      assert s[x] == t[x - a];
    }
    assert StripsTo(s, a, r);
  }

  /** A line without whitespace at either end is left as it is. */
  lemma StripKeepsTrimmed(s: string)
    requires s == [] || (!IsSpace(s[0]) && !IsSpace(s[|s| - 1]))
    ensures Strip(s) == s
  {
  }
}
