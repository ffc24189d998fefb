/** The key detector's line classifier, `is_variable_definition(line, keyword)`: does the line
    contain an identifier that embeds the keyword (ignoring case) and is followed by `=`?

    The source compiles `\b\w*K\w*\b\s*=.*` with `re.IGNORECASE`, where K is the escaped keyword,
    and calls `search`. `PatternAt` states that pattern piece by piece as a decomposition of
    the line at four positions; `IsVariableDefinition` searches for it from each start position
    in turn; `KeywordRunAssigned` is the plain-words characterisation, and
    `IsVariableDefinitionIff` proves it agrees with the search for keywords made of word
    characters. */
module Classifier {
  import opened TextChars

  /** Position `x` of `line` holds a word character (out-of-range positions do not). */
  predicate WordAt(line: string, x: int) {
    0 <= x < |line| && IsWordChar(line[x])
  }

  /** `\b` at position `x`: exactly one of the characters on either side is a word character. */
  predicate Boundary(line: string, x: int) {
    WordAt(line, x - 1) != WordAt(line, x)
  }

  predicate AllWord(line: string, from: int, to: int)
    requires 0 <= from <= to <= |line|
  {
    forall x | from <= x < to :: IsWordChar(line[x])
  }

  predicate AllSpace(line: string, from: int, to: int)
    requires 0 <= from <= to <= |line|
  {
    forall x | from <= x < to :: IsSpace(line[x])
  }

  /** The keyword occurs at position `p` of the line, ignoring case. */
  predicate KeywordAt(line: string, p: int, k: string)
    requires 0 <= p && p + |k| <= |line|
  {
    forall t | 0 <= t < |k| :: SameIgnoringCase(line[p + t], k[t])
  }

  /** One way for the pattern to match: `\b` at `i`, `\w*` on `[i, p)`, the keyword on
      `[p, p + |k|)`, `\w*` up to `j`, `\b` at `j`, `\s*` on `[j, e)` and `=` at `e`.
      The trailing `.*` may match nothing, so it places no demand on the line. */
  predicate PatternAt(line: string, k: string, i: int, p: int, j: int, e: int) {
    && 0 <= i <= p && p + |k| <= j <= e < |line|
    && Boundary(line, i)
    && AllWord(line, i, p)
    && KeywordAt(line, p, k)
    && AllWord(line, p + |k|, j)
    && Boundary(line, j)
    && AllSpace(line, j, e)
    && line[e] == '='
  }

  /** The pattern matches with its `\b` at start position `i`. */
  predicate MatchesAt(line: string, k: string, i: int) {
    exists p, j, e | 0 <= p <= |line| && 0 <= j <= |line| && 0 <= e < |line| :: PatternAt(line, k, i, p, j, e)
  }

  /** `search` from position `i` on: try a match at `i`, then at each later position. */
  predicate SearchFrom(line: string, k: string, i: nat)
    decreases |line| - i
  {
    i <= |line| && (MatchesAt(line, k, i) || SearchFrom(line, k, i + 1))
  }

  /** `is_variable_definition(line, keyword)`: `search` finds the pattern in the line. */
  predicate IsVariableDefinition(line: string, k: string) {
    SearchFrom(line, k, 0)
  }

  /** The pattern matches somewhere in the line, at some choice of its four positions. */
  ghost predicate PatternMatches(line: string, k: string) {
    exists i, p, j, e :: PatternAt(line, k, i, p, j, e)
  }

  /** Some start position from `i` on has a match. */
  ghost predicate MatchFrom(line: string, k: string, i: nat) {
    exists i' | i <= i' :: MatchesAt(line, k, i')
  }

  lemma {:induction false} SearchFromFinds(line: string, k: string, i: nat)
    ensures SearchFrom(line, k, i) <==> MatchFrom(line, k, i)
    decreases |line| - i
  {
    if i <= |line| {
      SearchFromFinds(line, k, i + 1);
      if MatchFrom(line, k, i) {
        var i' :| i <= i' && MatchesAt(line, k, i');
        if i' != i {
          assert MatchFrom(line, k, i + 1);
        }
      }
    }
  }

  /** Trying every start position from the left finds the pattern exactly when it occurs
      somewhere: `is_variable_definition` is the pattern's `search`. */
  lemma SearchFindsPattern(line: string, k: string)
    ensures IsVariableDefinition(line, k) <==> PatternMatches(line, k)
  {
    SearchFromFinds(line, k, 0);
    if PatternMatches(line, k) {
      var i, p, j, e :| PatternAt(line, k, i, p, j, e);
      assert PatternAt(line, k, i, p, j, e);
      assert MatchesAt(line, k, i);
    }
    if IsVariableDefinition(line, k) {
      var i :| 0 <= i && MatchesAt(line, k, i);
      var p, j, e :| PatternAt(line, k, i, p, j, e);
      assert PatternAt(line, k, i, p, j, e);
    }
  }

  /** A keyword `re.escape` leaves unchanged and whose characters `\w` matches. */
  predicate IsWordKeyword(k: string) {
    forall t | 0 <= t < |k| :: IsWordChar(k[t])
  }

  // ----- The characterisation in plain words

  /** `[s, t)` is a maximal, non-empty run of word characters. */
  predicate MaximalRun(line: string, s: int, t: int) {
    0 <= s < t <= |line| && AllWord(line, s, t) && !WordAt(line, s - 1) && !WordAt(line, t)
  }

  /** The keyword occurs, ignoring case, inside `[s, t)`. */
  predicate KeywordWithin(line: string, k: string, s: int, t: int)
    requires 0 <= s <= t <= |line|
  {
    exists p | s <= p <= t - |k| :: KeywordAt(line, p, k)
  }

  /** After position `t` come zero or more whitespace characters and then `=`. */
  predicate AssignmentFollows(line: string, t: int)
    requires 0 <= t <= |line|
  {
    exists e | t <= e < |line| :: AllSpace(line, t, e) && line[e] == '='
  }

  /** Some maximal word run contains the keyword and is followed by optional whitespace and `=`. */
  ghost predicate KeywordRunAssigned(line: string, k: string) {
    exists s, t | 0 <= s < t <= |line| ::
      MaximalRun(line, s, t) && KeywordWithin(line, k, s, t) && AssignmentFollows(line, t)
  }

  /** The start of the word run that contains position `x`. */
  function RunStart(line: string, x: int): (s: int)
    requires WordAt(line, x)
    ensures 0 <= s <= x && AllWord(line, s, x + 1) && !WordAt(line, s - 1)
    decreases x
  {
    if WordAt(line, x - 1) then RunStart(line, x - 1) else x
  }

  /** The keyword's characters are word characters, so the text it matches is too. */
  lemma KeywordAtIsWord(line: string, p: int, k: string)
    requires 0 <= p && p + |k| <= |line|
    requires IsWordKeyword(k) && KeywordAt(line, p, k)
    ensures AllWord(line, p, p + |k|)
  {
    forall x | p <= x < p + |k| ensures IsWordChar(line[x]) {
      SameIgnoringCaseKeepsWord(line[x], k[x - p]);
    }
  }

  /** A pattern match yields a maximal keyword-bearing word run followed by `\s*=`. */
  lemma PatternGivesRun(line: string, k: string, i: int, p: int, j: int, e: int)
    requires IsWordKeyword(k) && PatternAt(line, k, i, p, j, e)
    ensures KeywordRunAssigned(line, k)
  {
    assert AssignmentFollows(line, j) by {
      assert AllSpace(line, j, e) && line[e] == '=';
    }
    // what follows the run is `=` or whitespace, never a word character
    assert !WordAt(line, j) by {
      if j < e { SpaceIsNotWord(line[j]); }
    }
    if i < j {
      KeywordAtIsWord(line, p, k);
      assert AllWord(line, i, j) by {
        forall x | i <= x < j ensures IsWordChar(line[x]) {
          if x < p {
            assert AllWord(line, i, p);
          } else if x < p + |k| {
            assert AllWord(line, p, p + |k|);
          } else {
            assert AllWord(line, p + |k|, j);
          }
        }
      }
      assert WordAt(line, i) && WordAt(line, j - 1);
      assert KeywordWithin(line, k, i, j);
      assert MaximalRun(line, i, j);
    } else {
      // an empty identifier: the keyword is empty and `\b` at `i` closes a run on its left
      assert WordAt(line, i - 1);
      var s := RunStart(line, i - 1);
      assert AllWord(line, s, i);
      assert MaximalRun(line, s, i);
      assert KeywordAt(line, i, k);
      assert KeywordWithin(line, k, s, i);
    }
  }

  /** A maximal keyword-bearing word run followed by `\s*=` is a pattern match. */
  lemma RunGivesPattern(line: string, k: string, s: int, t: int, p: int, e: int)
    requires MaximalRun(line, s, t) && s <= p <= t - |k| && KeywordAt(line, p, k)
    requires t <= e < |line| && AllSpace(line, t, e) && line[e] == '='
    ensures IsVariableDefinition(line, k)
  {
    assert WordAt(line, s) && WordAt(line, t - 1);
    assert AllWord(line, s, p) && AllWord(line, p + |k|, t);
    assert PatternAt(line, k, s, p, t, e);
    SearchFindsPattern(line, k);
  }

  /** For a keyword of word characters, `is_variable_definition` holds exactly when some
      case-insensitive occurrence of the keyword lies inside a maximal word run that is
      followed by optional whitespace and `=`. */
  lemma IsVariableDefinitionIff(line: string, k: string)
    requires IsWordKeyword(k)
    ensures IsVariableDefinition(line, k) <==> KeywordRunAssigned(line, k)
  {
    SearchFindsPattern(line, k);
    if IsVariableDefinition(line, k) {
      var i, p, j, e :| PatternAt(line, k, i, p, j, e);
      PatternGivesRun(line, k, i, p, j, e);
    }
    if KeywordRunAssigned(line, k) {
      var s, t :| 0 <= s < t <= |line| && MaximalRun(line, s, t)
        && KeywordWithin(line, k, s, t) && AssignmentFollows(line, t);
      var p :| s <= p <= t - |k| && KeywordAt(line, p, k);
      var e :| t <= e < |line| && AllSpace(line, t, e) && line[e] == '=';
      RunGivesPattern(line, k, s, t, p, e);
    }
  }

  /** The empty keyword (from `a,,b` or a trailing comma) matches every line in which some
      word is followed by optional whitespace and `=`. */
  lemma EmptyKeywordMatchesAnyAssignment(line: string)
    ensures IsVariableDefinition(line, "") <==>
      exists s, t | 0 <= s < t <= |line| :: MaximalRun(line, s, t) && AssignmentFollows(line, t)
  {
    IsVariableDefinitionIff(line, "");
    if exists s, t | 0 <= s < t <= |line| :: MaximalRun(line, s, t) && AssignmentFollows(line, t) {
      var s, t :| 0 <= s < t <= |line| && MaximalRun(line, s, t) && AssignmentFollows(line, t);
      assert KeywordAt(line, s, "");
      assert KeywordWithin(line, "", s, t);
    }
  }

  /** A match needs an `=` in the line and a case-insensitive occurrence of the keyword. */
  lemma MatchNeedsEqualsAndKeyword(line: string, k: string)
    requires IsVariableDefinition(line, k)
    ensures '=' in line
    ensures exists p | 0 <= p <= |line| - |k| :: KeywordAt(line, p, k)
  {
    SearchFindsPattern(line, k);
    var i, p, j, e :| PatternAt(line, k, i, p, j, e);
    assert PatternAt(line, k, i, p, j, e);
    assert line[e] == '=';
    assert KeywordAt(line, p, k);
  }

  /** Appending anything to a matching line keeps it matching: the pattern ends at `=`. */
  lemma MatchSurvivesSuffix(line: string, k: string, rest: string)
    requires IsVariableDefinition(line, k)
    ensures IsVariableDefinition(line + rest, k)
  {
    SearchFindsPattern(line, k);
    var i, p, j, e :| PatternAt(line, k, i, p, j, e);
    assert PatternAt(line, k, i, p, j, e);
    var long := line + rest;
    assert forall x | 0 <= x < |line| :: long[x] == line[x];
    assert WordAt(long, i - 1) == WordAt(line, i - 1) && WordAt(long, i) == WordAt(line, i);
    assert WordAt(long, j - 1) == WordAt(line, j - 1) && WordAt(long, j) == WordAt(line, j);
    assert PatternAt(long, k, i, p, j, e);
    SearchFindsPattern(long, k);
  }

  /** A match is already a match of the line cut just after the `=` the pattern ends at. */
  lemma MatchingPrefixEndsAtEquals(line: string, k: string)
    requires IsVariableDefinition(line, k)
    ensures exists e | 0 <= e < |line| :: line[e] == '=' && IsVariableDefinition(line[..e + 1], k)
  {
    SearchFindsPattern(line, k);
    var i, p, j, e :| PatternAt(line, k, i, p, j, e);
    assert PatternAt(line, k, i, p, j, e);
    var pre := line[..e + 1];
    assert forall x | 0 <= x < |pre| :: pre[x] == line[x];
    assert WordAt(pre, i - 1) == WordAt(line, i - 1) && WordAt(pre, i) == WordAt(line, i);
    assert WordAt(pre, j - 1) == WordAt(line, j - 1) && WordAt(pre, j) == WordAt(line, j);
    assert PatternAt(pre, k, i, p, j, e);
    SearchFindsPattern(pre, k);
  }

  /** Nothing after the `=` is constrained: a line matches exactly when some prefix of it
      that ends in `=` matches. */
  lemma RightHandSideUnconstrained(line: string, k: string)
    ensures IsVariableDefinition(line, k) <==>
      exists e | 0 <= e < |line| :: line[e] == '=' && IsVariableDefinition(line[..e + 1], k)
  {
    if IsVariableDefinition(line, k) {
      MatchingPrefixEndsAtEquals(line, k);
    }
    if exists e | 0 <= e < |line| :: line[e] == '=' && IsVariableDefinition(line[..e + 1], k) {
      var e :| 0 <= e < |line| && line[e] == '=' && IsVariableDefinition(line[..e + 1], k);
      MatchSurvivesSuffix(line[..e + 1], k, line[e + 1..]);
      assert line[..e + 1] + line[e + 1..] == line;
    }
  }

  // ----- The examples the detector is meant to tell apart

  /** `private String API_KEY = "12345";` is a definition for the keyword `key`. */
  lemma ApiKeyDeclarationMatches()
    ensures IsVariableDefinition("private String API_KEY = \"12345\";", "key")
  {
    var line := "private String API_KEY = \"12345\";";
    assert PatternAt(line, "key", 15, 19, 22, 23);
    SearchFindsPattern(line, "key");
  }

  /** `// the apikey is not stored here` is not a definition for `apikey`: it has no `=`. */
  lemma CommentWithoutAssignmentDoesNotMatch()
    ensures !IsVariableDefinition("// the apikey is not stored here", "apikey")
  {
    var line := "// the apikey is not stored here";
    if IsVariableDefinition(line, "apikey") {
      MatchNeedsEqualsAndKeyword(line, "apikey");
      assert false;
    }
  }

  /** What follows the `=` is never looked at: a comparison, an empty right-hand side and an
      assignment inside a comment all count as definitions. */
  lemma LooseRightHandSideMatches()
    ensures IsVariableDefinition("apiKey == null", "apikey")
    ensures IsVariableDefinition("apiKey =", "apikey")
    ensures IsVariableDefinition("// apikey = x", "apikey")
  {
    assert PatternAt("apiKey == null", "apikey", 0, 0, 6, 7);
    assert PatternAt("apiKey =", "apikey", 0, 0, 6, 7);
    assert PatternAt("// apikey = x", "apikey", 3, 3, 9, 10);
    SearchFindsPattern("apiKey == null", "apikey");
    SearchFindsPattern("apiKey =", "apikey");
    SearchFindsPattern("// apikey = x", "apikey");
  }
}
