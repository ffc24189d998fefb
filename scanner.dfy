/** The key detector's scan, `search_keywords_in_files(directory, keywords)`.

    The directory walk is abstracted as the sequence of files it visits, in walk order; each
    file is its path and either its text lines or the fact that it could not be opened. The
    scan builds a map with one empty list per distinct keyword, then, for every file, every
    line (numbered from 1) and every keyword in the list, appends
    `(path, line number, stripped line)` to that keyword's list when the line classifies as a
    definition for the keyword. */
module Scanner {
  import opened TextChars
  import opened Classifier

  datatype Contents = Lines(lines: seq<string>) | Unreadable

  datatype SourceFile = SourceFile(path: string, contents: Contents)

  /** A test of whether a line is a definition for a keyword. The scan's own test is
      `IsVariableDefinition`; the facts below about what the scan records hold for any test. */
  type LineTest = (string, string) -> bool

  /** One recorded hit: the file's path, the 1-based line number and the stripped line. */
  datatype Match = Match(path: string, lineNo: nat, text: string)

  // ----- What the scan records, written as functions of its inputs

  /** The hits line `n` produces for keyword `k` while the loop visits the first `q` keywords
      of `kws` in order: one per listed copy of `k`, when the line is a definition for `k`. */
  ghost function KeywordEntries(path: string, n: nat, line: string, kws: seq<string>, q: nat, k: string, defines: LineTest): seq<Match>
    requires q <= |kws|
  {
    if q == 0 then []
    else
      KeywordEntries(path, n, line, kws, q - 1, k, defines)
        + (if kws[q - 1] == k && defines(line, k) then [Match(path, n, Strip(line))] else [])
  }

  /** The hits for `k` from the first `n` lines of a file. */
  ghost function LinesEntries(path: string, lines: seq<string>, n: nat, kws: seq<string>, k: string, defines: LineTest): seq<Match>
    requires n <= |lines|
  {
    if n == 0 then []
    else LinesEntries(path, lines, n - 1, kws, k, defines) + KeywordEntries(path, n, lines[n - 1], kws, |kws|, k, defines)
  }

  /** The hits for `k` from one file; a file that cannot be opened gives none. */
  ghost function FileEntries(f: SourceFile, kws: seq<string>, k: string, defines: LineTest): seq<Match> {
    match f.contents
    case Unreadable => []
    case Lines(lines) => LinesEntries(f.path, lines, |lines|, kws, k, defines)
  }

  /** The hits for `k` from all files, in walk order. */
  ghost function ScanEntries(files: seq<SourceFile>, kws: seq<string>, k: string, defines: LineTest): seq<Match> {
    if files == [] then []
    else ScanEntries(files[..|files| - 1], kws, k, defines) + FileEntries(files[|files| - 1], kws, k, defines)
  }

  // ----- The scan itself

  /** Visiting one more file appends that file's entries. */
  lemma ScanEntriesStep(files: seq<SourceFile>, fi: nat, kws: seq<string>, k: string, defines: LineTest)
    requires fi < |files|
    ensures ScanEntries(files[..fi + 1], kws, k, defines) == ScanEntries(files[..fi], kws, k, defines) + FileEntries(files[fi], kws, k, defines)
  {
    assert files[..fi + 1][..fi] == files[..fi];
  }

  /** The innermost loop's step: after keyword `q` is visited, every list is its value before
      the line plus the line's entries for the first `q + 1` keywords. */
  lemma KeywordVisited(before: map<string, seq<Match>>, prev: map<string, seq<Match>>, next: map<string, seq<Match>>,
                       path: string, n: nat, line: string, kws: seq<string>, q: nat, defines: LineTest)
    requires q < |kws| && kws[q] in prev
    requires forall k | k in prev :: k in before && prev[k] == before[k] + KeywordEntries(path, n, line, kws, q, k, defines)
    requires next == if defines(line, kws[q]) then prev[kws[q] := prev[kws[q]] + [Match(path, n, Strip(line))]] else prev
    ensures forall k | k in next :: next[k] == before[k] + KeywordEntries(path, n, line, kws, q + 1, k, defines)
  {
  }

  /** The body of the loop over keywords, for line number `n` holding `line`: each keyword the
      line is a definition for gets `(path, n, stripped line)` appended to its list. */
  method VisitKeywords(matches0: map<string, seq<Match>>, path: string, n: nat, line: string, keywords: seq<string>)
    returns (matches: map<string, seq<Match>>)
    requires forall k | k in keywords :: k in matches0
    ensures matches.Keys == matches0.Keys
    ensures forall k | k in matches :: matches[k] == matches0[k] + KeywordEntries(path, n, line, keywords, |keywords|, k, IsVariableDefinition)
  {
    matches := matches0;
    var hit := Match(path, n, Strip(line));
    for q := 0 to |keywords|
      invariant matches.Keys == matches0.Keys
      invariant forall k | k in matches :: matches[k] == matches0[k] + KeywordEntries(path, n, line, keywords, q, k, IsVariableDefinition)
    {
      var keyword := keywords[q];
      ghost var prev := matches;
      if IsVariableDefinition(line, keyword) {
        matches := matches[keyword := matches[keyword] + [hit]];
      }
      KeywordVisited(matches0, prev, matches, path, n, line, keywords, q, IsVariableDefinition);
    }
  }

  /** The middle loop's step: after line `n + 1` is visited, every list is its value before the
      file plus the file's entries for its first `n + 1` lines. */
  lemma LineVisited(done: map<string, seq<Match>>, before: map<string, seq<Match>>, next: map<string, seq<Match>>,
                    path: string, lines: seq<string>, n: nat, kws: seq<string>, defines: LineTest)
    requires n < |lines|
    requires forall k | k in before :: k in done && before[k] == done[k] + LinesEntries(path, lines, n, kws, k, defines)
    requires forall k | k in next :: k in before && next[k] == before[k] + KeywordEntries(path, n + 1, lines[n], kws, |kws|, k, defines)
    ensures forall k | k in next :: next[k] == done[k] + LinesEntries(path, lines, n + 1, kws, k, defines)
  {
  }

  /** The body of the loop over the lines of a readable file, numbered from 1. */
  method VisitLines(matches0: map<string, seq<Match>>, path: string, lines: seq<string>, keywords: seq<string>)
    returns (matches: map<string, seq<Match>>)
    requires forall k | k in keywords :: k in matches0
    ensures matches.Keys == matches0.Keys
    ensures forall k | k in matches :: matches[k] == matches0[k] + LinesEntries(path, lines, |lines|, keywords, k, IsVariableDefinition)
  {
    matches := matches0;
    for n := 0 to |lines|
      invariant matches.Keys == matches0.Keys
      invariant forall k | k in matches :: matches[k] == matches0[k] + LinesEntries(path, lines, n, keywords, k, IsVariableDefinition)
    {
      ghost var before := matches;
      matches := VisitKeywords(matches, path, n + 1, lines[n], keywords);
      LineVisited(matches0, before, matches, path, lines, n, keywords, IsVariableDefinition);
    }
  }

  /** `search_keywords_in_files`: the keys of the result are exactly the distinct keywords,
      and each keyword's list is what `ScanEntries` describes. The loops over lines and
      keywords are `VisitLines` and `VisitKeywords`. */
  method SearchKeywordsInFiles(files: seq<SourceFile>, keywords: seq<string>)
    returns (matches: map<string, seq<Match>>)
    ensures forall k :: k in matches <==> k in keywords
    ensures forall k | k in matches :: matches[k] == ScanEntries(files, keywords, k, IsVariableDefinition)
    ensures files == [] ==> forall k | k in matches :: matches[k] == []
  {
    matches := map k | k in keywords :: [];
    for fi := 0 to |files|
      invariant forall k :: k in matches <==> k in keywords
      invariant forall k | k in matches :: matches[k] == ScanEntries(files[..fi], keywords, k, IsVariableDefinition)
    {
      var file := files[fi];
      ghost var done := matches;
      match file.contents {
        case Unreadable =>
          // the source reports that the file could not be read and goes on
        case Lines(lines) =>
          matches := VisitLines(matches, file.path, lines, keywords);
      }
      forall k | k in matches
        ensures matches[k] == ScanEntries(files[..fi + 1], keywords, k, IsVariableDefinition)
      {
        ScanEntriesStep(files, fi, keywords, k, IsVariableDefinition);
      }
    }
    assert files[..|files|] == files;
  }

  // ----- Soundness and completeness

  /** Line `n` of file `f` exists and is a definition for `k`. */
  ghost predicate LineMatches(f: SourceFile, n: int, k: string, defines: LineTest) {
    f.contents.Lines? && 1 <= n <= |f.contents.lines| && defines(f.contents.lines[n - 1], k)
  }

  /** `m` is the entry the scan records for a line of `f` that is a definition for `k`. */
  ghost predicate Records(f: SourceFile, m: Match, k: string, defines: LineTest) {
    && LineMatches(f, m.lineNo, k, defines)
    && m.path == f.path
    && m.text == Strip(f.contents.lines[m.lineNo - 1])
  }

  lemma {:induction false} KeywordEntriesSound(path: string, n: nat, line: string, kws: seq<string>, q: nat, k: string, m: Match, defines: LineTest)
    requires q <= |kws| && m in KeywordEntries(path, n, line, kws, q, k, defines)
    ensures k in kws && defines(line, k) && m == Match(path, n, Strip(line))
  {
    if m !in KeywordEntries(path, n, line, kws, q - 1, k, defines) {
      assert kws[q - 1] == k;
    } else {
      KeywordEntriesSound(path, n, line, kws, q - 1, k, m, defines);
    }
  }

  /** `m` is the number and stripped text of one of the first `n` lines, and that line is a
      definition for `k`, a listed keyword. */
  ghost predicate FromDefiningLine(m: Match, path: string, lines: seq<string>, n: nat, kws: seq<string>, k: string, defines: LineTest)
    requires n <= |lines|
  {
    && 1 <= m.lineNo <= n
    && k in kws && defines(lines[m.lineNo - 1], k)
    && m == Match(path, m.lineNo, Strip(lines[m.lineNo - 1]))
  }

  /** Every entry of `es` is `FromDefiningLine`. */
  ghost predicate FromDefiningLines(es: seq<Match>, path: string, lines: seq<string>, n: nat, kws: seq<string>, k: string, defines: LineTest)
    requires n <= |lines|
  {
    forall a | 0 <= a < |es| :: FromDefiningLine(es[a], path, lines, n, kws, k, defines)
  }

  lemma {:induction false} LinesEntriesFromDefiningLines(path: string, lines: seq<string>, n: nat, kws: seq<string>, k: string, defines: LineTest)
    requires n <= |lines|
    ensures FromDefiningLines(LinesEntries(path, lines, n, kws, k, defines), path, lines, n, kws, k, defines)
    decreases n
  {
    if n > 0 {
      LinesEntriesFromDefiningLines(path, lines, n - 1, kws, k, defines);
      var prev := LinesEntries(path, lines, n - 1, kws, k, defines);
      var here := KeywordEntries(path, n, lines[n - 1], kws, |kws|, k, defines);
      assert FromDefiningLines(prev, path, lines, n - 1, kws, k, defines);
      var es := prev + here;
      assert es == LinesEntries(path, lines, n, kws, k, defines);
      forall a | 0 <= a < |es| ensures FromDefiningLine(es[a], path, lines, n, kws, k, defines) {
        if a < |prev| {
          assert es[a] == prev[a] && FromDefiningLine(prev[a], path, lines, n - 1, kws, k, defines);
        } else {
          assert es[a] == here[a - |prev|];
          KeywordEntriesSound(path, n, lines[n - 1], kws, |kws|, k, es[a], defines);
        }
      }
      assert FromDefiningLines(es, path, lines, n, kws, k, defines);
    }
  }

  /** What `FromDefiningLines` says about each entry, for one entry. */
  lemma FromDefiningLinesHas(es: seq<Match>, path: string, lines: seq<string>, n: nat, kws: seq<string>, k: string, defines: LineTest, m: Match)
    requires n <= |lines| && FromDefiningLines(es, path, lines, n, kws, k, defines) && m in es
    ensures 1 <= m.lineNo <= n && k in kws && defines(lines[m.lineNo - 1], k)
    ensures m == Match(path, m.lineNo, Strip(lines[m.lineNo - 1]))
  {
    var a :| 0 <= a < |es| && es[a] == m;
    assert FromDefiningLine(es[a], path, lines, n, kws, k, defines);
  }

  lemma LinesEntriesSound(f: SourceFile, n: nat, kws: seq<string>, k: string, m: Match, defines: LineTest)
    requires f.contents.Lines? && n <= |f.contents.lines|
    requires m in LinesEntries(f.path, f.contents.lines, n, kws, k, defines)
    ensures k in kws && Records(f, m, k, defines) && m.lineNo <= n
  {
    LinesEntriesFromDefiningLines(f.path, f.contents.lines, n, kws, k, defines);
    FromDefiningLinesHas(LinesEntries(f.path, f.contents.lines, n, kws, k, defines), f.path, f.contents.lines, n, kws, k, defines, m);
  }

  /** Every recorded entry under `k` names a file of the walk, a line number within that file,
      and that line stripped; the line is a definition for `k`, and `k` was one of the keywords. */
  lemma {:induction false} ScanEntriesSound(files: seq<SourceFile>, kws: seq<string>, k: string, m: Match, defines: LineTest)
    requires m in ScanEntries(files, kws, k, defines)
    ensures k in kws
    ensures exists fi | 0 <= fi < |files| :: Records(files[fi], m, k, defines)
  {
    var init := files[..|files| - 1];
    var last := files[|files| - 1];
    if m in ScanEntries(init, kws, k, defines) {
      ScanEntriesSound(init, kws, k, m, defines);
      var fi :| 0 <= fi < |init| && Records(init[fi], m, k, defines);
      assert files[fi] == init[fi];
    } else {
      LinesEntriesSound(last, |last.contents.lines|, kws, k, m, defines);
      assert Records(files[|files| - 1], m, k, defines);
    }
  }

  /** Once the loop has visited a copy of `k` (at position `x`), the line's hit is recorded. */
  lemma {:induction false} KeywordEntriesComplete(path: string, n: nat, line: string, kws: seq<string>, q: nat, k: string, x: nat, defines: LineTest)
    requires x < q <= |kws| && kws[x] == k && defines(line, k)
    ensures Match(path, n, Strip(line)) in KeywordEntries(path, n, line, kws, q, k, defines)
  {
    if x < q - 1 {
      KeywordEntriesComplete(path, n, line, kws, q - 1, k, x, defines);
    }
  }

  /** The entries of the first `n - 1` lines stay among those of the first `n`. */
  lemma LinesEntriesKeepEarlier(path: string, lines: seq<string>, n: nat, kws: seq<string>, k: string, defines: LineTest, m: Match)
    requires 0 < n <= |lines|
    requires m in LinesEntries(path, lines, n - 1, kws, k, defines)
    ensures m in LinesEntries(path, lines, n, kws, k, defines)
  {
  }

  /** What line `n` contributes is among the entries of the first `n` lines. */
  lemma LinesEntriesKeepLast(path: string, lines: seq<string>, n: nat, kws: seq<string>, k: string, defines: LineTest, m: Match)
    requires 0 < n <= |lines|
    requires m in KeywordEntries(path, n, lines[n - 1], kws, |kws|, k, defines)
    ensures m in LinesEntries(path, lines, n, kws, k, defines)
  {
  }

  /** What line `ln` contributes stays among the entries of every longer prefix of the file. */
  lemma {:induction false} LinesEntriesComplete(path: string, lines: seq<string>, n: nat, kws: seq<string>, k: string, ln: nat, defines: LineTest, m: Match)
    requires n <= |lines| && 1 <= ln <= n
    requires m in KeywordEntries(path, ln, lines[ln - 1], kws, |kws|, k, defines)
    ensures m in LinesEntries(path, lines, n, kws, k, defines)
    decreases n
  {
    if ln < n {
      LinesEntriesComplete(path, lines, n - 1, kws, k, ln, defines, m);
      LinesEntriesKeepEarlier(path, lines, n, kws, k, defines, m);
    } else {
      assert ln == n;
      LinesEntriesKeepLast(path, lines, n, kws, k, defines, m);
    }
  }

  /** Every line of every readable file that is a definition for a listed keyword is recorded
      under that keyword. */
  lemma {:induction false} ScanEntriesComplete(files: seq<SourceFile>, kws: seq<string>, k: string, fi: int, n: int, defines: LineTest)
    requires 0 <= fi < |files| && k in kws && LineMatches(files[fi], n, k, defines)
    ensures Match(files[fi].path, n, Strip(files[fi].contents.lines[n - 1])) in ScanEntries(files, kws, k, defines)
  {
    var init := files[..|files| - 1];
    if fi < |files| - 1 {
      assert init[fi] == files[fi];
      ScanEntriesComplete(init, kws, k, fi, n, defines);
    } else {
      var f := files[fi];
      var x :| 0 <= x < |kws| && kws[x] == k;
      KeywordEntriesComplete(f.path, n, f.contents.lines[n - 1], kws, |kws|, k, x, defines);
      LinesEntriesComplete(f.path, f.contents.lines, |f.contents.lines|, kws, k, n, defines, Match(f.path, n, Strip(f.contents.lines[n - 1])));
    }
  }

  /** A keyword's list is empty exactly when it was not asked for or no line of any readable
      file is a definition for it. */
  lemma ScanEntriesEmptyIff(files: seq<SourceFile>, kws: seq<string>, k: string, defines: LineTest)
    ensures ScanEntries(files, kws, k, defines) == [] <==>
      (k !in kws || forall fi, n | 0 <= fi < |files| :: !LineMatches(files[fi], n, k, defines))
  {
    var es := ScanEntries(files, kws, k, defines);
    if es != [] {
      ScanEntriesSound(files, kws, k, es[0], defines);
    }
    if k in kws && exists fi, n | 0 <= fi < |files| :: LineMatches(files[fi], n, k, defines) {
      var fi, n :| 0 <= fi < |files| && LineMatches(files[fi], n, k, defines);
      ScanEntriesComplete(files, kws, k, fi, n, defines);
    }
  }

  /** No dedup across keywords: a line that is a definition for two listed keywords is
      recorded under each of them. */
  lemma SharedLineRecordedUnderBoth(files: seq<SourceFile>, kws: seq<string>, k1: string, k2: string, fi: int, n: int, defines: LineTest)
    requires 0 <= fi < |files| && k1 in kws && k2 in kws
    requires LineMatches(files[fi], n, k1, defines) && LineMatches(files[fi], n, k2, defines)
    ensures var m := Match(files[fi].path, n, Strip(files[fi].contents.lines[n - 1]));
      m in ScanEntries(files, kws, k1, defines) && m in ScanEntries(files, kws, k2, defines)
  {
    ScanEntriesComplete(files, kws, k1, fi, n, defines);
    ScanEntriesComplete(files, kws, k2, fi, n, defines);
  }

  // ----- Order

  /** The walk order is kept: the entries of a concatenated walk are the entries of the first
      part followed by those of the second. */
  lemma {:induction false} ScanEntriesAppend(a: seq<SourceFile>, b: seq<SourceFile>, kws: seq<string>, k: string, defines: LineTest)
    ensures ScanEntries(a + b, kws, k, defines) == ScanEntries(a, kws, k, defines) + ScanEntries(b, kws, k, defines)
  {
    if b == [] {
      assert a + b == a;
    } else {
      var b' := b[..|b| - 1];
      assert (a + b)[..|a + b| - 1] == a + b';
      ScanEntriesAppend(a, b', kws, k, defines);
    }
  }

  /** A file that cannot be opened contributes nothing and leaves every other file's entries,
      and their order, as they were. */
  lemma UnreadableFileSkipped(a: seq<SourceFile>, path: string, b: seq<SourceFile>, kws: seq<string>, k: string, defines: LineTest)
    ensures ScanEntries(a + [SourceFile(path, Unreadable)] + b, kws, k, defines) == ScanEntries(a + b, kws, k, defines)
  {
    var u := [SourceFile(path, Unreadable)];
    ScanEntriesAppend(a + u, b, kws, k, defines);
    ScanEntriesAppend(a, u, kws, k, defines);
    ScanEntriesAppend(a, b, kws, k, defines);
    assert ScanEntries(u, kws, k, defines) == ScanEntries([], kws, k, defines) + [];
  }

  /** Entries that all name `path`, carry line numbers in `1..n`, and come in ascending line order. */
  predicate InLineOrder(es: seq<Match>, path: string, n: nat) {
    && (forall a | 0 <= a < |es| :: es[a].path == path && 1 <= es[a].lineNo <= n)
    && (forall a, b | 0 <= a < b < |es| :: es[a].lineNo <= es[b].lineNo)
  }

  /** Within one file, entries name that file and come in ascending line order, each with a line
      number inside the file. */
  lemma {:induction false} LinesEntriesOrdered(path: string, lines: seq<string>, n: nat, kws: seq<string>, k: string, defines: LineTest)
    requires n <= |lines|
    ensures InLineOrder(LinesEntries(path, lines, n, kws, k, defines), path, n)
  {
    if n > 0 {
      LinesEntriesOrdered(path, lines, n - 1, kws, k, defines);
      var prev := LinesEntries(path, lines, n - 1, kws, k, defines);
      var here := KeywordEntries(path, n, lines[n - 1], kws, |kws|, k, defines);
      assert InLineOrder(prev, path, n - 1);
      forall a | 0 <= a < |here| ensures here[a] == Match(path, n, Strip(lines[n - 1])) {
        KeywordEntriesSound(path, n, lines[n - 1], kws, |kws|, k, here[a], defines);
      }
      var es := prev + here;
      assert es == LinesEntries(path, lines, n, kws, k, defines);
      forall a | 0 <= a < |es| ensures es[a].path == path && 1 <= es[a].lineNo <= n {
        if a < |prev| { assert es[a] == prev[a]; } else { assert es[a] == here[a - |prev|]; }
      }
      forall a, b | 0 <= a < b < |es| ensures es[a].lineNo <= es[b].lineNo {
        if b < |prev| {
          assert es[a] == prev[a] && es[b] == prev[b];
        } else if a < |prev| {
          assert es[a] == prev[a] && es[b] == here[b - |prev|];
        } else {
          assert es[a] == here[a - |prev|] && es[b] == here[b - |prev|];
        }
      }
    }
  }

  /** The entries of the file at walk position `fi` sit, as one block, after those of every
      earlier file and before those of every later file. */
  lemma FileEntriesInWalkOrder(files: seq<SourceFile>, fi: int, kws: seq<string>, k: string, defines: LineTest)
    requires 0 <= fi < |files|
    ensures ScanEntries(files, kws, k, defines) ==
      ScanEntries(files[..fi], kws, k, defines) + FileEntries(files[fi], kws, k, defines) + ScanEntries(files[fi + 1..], kws, k, defines)
  {
    assert files == files[..fi] + [files[fi]] + files[fi + 1..];
    ScanEntriesAppend(files[..fi] + [files[fi]], files[fi + 1..], kws, k, defines);
    ScanEntriesAppend(files[..fi], [files[fi]], kws, k, defines);
    assert ScanEntries([files[fi]], kws, k, defines) == ScanEntries([], kws, k, defines) + FileEntries(files[fi], kws, k, defines);
  }

  // ----- Repeated keywords

  /** How many times `k` is listed. */
  function Occurrences(kws: seq<string>, k: string): nat {
    if kws == [] then 0
    else Occurrences(kws[..|kws| - 1], k) + (if kws[|kws| - 1] == k then 1 else 0)
  }

  /** `c` copies of `m`. */
  function Copies(m: Match, c: nat): seq<Match> {
    if c == 0 then [] else Copies(m, c - 1) + [m]
  }

  /** Every entry of `s`, each written `c` times in a row. */
  function Stutter(s: seq<Match>, c: nat): seq<Match> {
    if s == [] then [] else Stutter(s[..|s| - 1], c) + Copies(s[|s| - 1], c)
  }

  lemma {:induction false} StutterAppend(a: seq<Match>, b: seq<Match>, c: nat)
    ensures Stutter(a + b, c) == Stutter(a, c) + Stutter(b, c)
  {
    if b == [] {
      assert a + b == a;
    } else {
      var b' := b[..|b| - 1];
      var last := b[|b| - 1];
      assert (a + b)[..|a + b| - 1] == a + b' && (a + b)[|a + b| - 1] == last;
      calc {
        Stutter(a + b, c);
        Stutter(a + b', c) + Copies(last, c);
        { StutterAppend(a, b', c); }
        Stutter(a, c) + Stutter(b', c) + Copies(last, c);
        Stutter(a, c) + (Stutter(b', c) + Copies(last, c));
        Stutter(a, c) + Stutter(b, c);
      }
    }
  }

  /** `StutterAppend`, stated for sequences already known to be stutters. */
  lemma StutterAppendEq(a: seq<Match>, b: seq<Match>, p: seq<Match>, h: seq<Match>, c: nat)
    requires a == Stutter(p, c) && b == Stutter(h, c)
    ensures a + b == Stutter(p + h, c)
  {
    StutterAppend(p, h, c);
  }

  lemma {:induction false} KeywordEntriesCopies(path: string, n: nat, line: string, kws: seq<string>, q: nat, k: string, defines: LineTest)
    requires q <= |kws|
    ensures KeywordEntries(path, n, line, kws, q, k, defines) ==
      if defines(line, k) then Copies(Match(path, n, Strip(line)), Occurrences(kws[..q], k)) else []
  {
    if q > 0 {
      KeywordEntriesCopies(path, n, line, kws, q - 1, k, defines);
      assert kws[..q][..q - 1] == kws[..q - 1];
    }
  }

  /** One line's entries for a keyword listed `c` times are its entries for the keyword listed
      once, each repeated `c` times. */
  lemma KeywordEntriesStutter(path: string, n: nat, line: string, kws: seq<string>, k: string, defines: LineTest)
    ensures KeywordEntries(path, n, line, kws, |kws|, k, defines) ==
      Stutter(KeywordEntries(path, n, line, [k], 1, k, defines), Occurrences(kws, k))
  {
    var c := Occurrences(kws, k);
    var m := Match(path, n, Strip(line));
    KeywordEntriesCopies(path, n, line, kws, |kws|, k, defines);
    KeywordEntriesCopies(path, n, line, [k], 1, k, defines);
    assert kws[..|kws|] == kws && [k][..1] == [k];
    assert Occurrences([k], k) == 1 by {
      assert [k][..0] == [];
    }
    assert Copies(m, 1) == [m];
    assert Stutter([m], c) == Stutter([], c) + Copies(m, c);
  }

  /** The entries of the first `n` lines for `kws` are those for `k` listed once, each repeated
      as many times as `k` is listed in `kws`. */
  ghost predicate StutteredUpTo(path: string, lines: seq<string>, n: nat, kws: seq<string>, k: string, defines: LineTest)
    requires n <= |lines|
  {
    LinesEntries(path, lines, n, kws, k, defines) == Stutter(LinesEntries(path, lines, n, [k], k, defines), Occurrences(kws, k))
  }

  lemma LinesEntriesStutterBase(path: string, lines: seq<string>, kws: seq<string>, k: string, defines: LineTest)
    ensures StutteredUpTo(path, lines, 0, kws, k, defines)
  {
  }

  /** The induction step of `LinesEntriesStutter`: a line's entries keep the stutter form. */
  lemma LinesEntriesStutterStep(path: string, lines: seq<string>, n: nat, kws: seq<string>, k: string, defines: LineTest)
    requires 0 < n <= |lines|
    requires StutteredUpTo(path, lines, n - 1, kws, k, defines)
    ensures StutteredUpTo(path, lines, n, kws, k, defines)
  {
    KeywordEntriesStutter(path, n, lines[n - 1], kws, k, defines);
    StutterAppendEq(LinesEntries(path, lines, n - 1, kws, k, defines), KeywordEntries(path, n, lines[n - 1], kws, |kws|, k, defines),
                    LinesEntries(path, lines, n - 1, [k], k, defines), KeywordEntries(path, n, lines[n - 1], [k], 1, k, defines),
                    Occurrences(kws, k));
  }

  lemma {:induction false} LinesEntriesStutter(path: string, lines: seq<string>, n: nat, kws: seq<string>, k: string, defines: LineTest)
    requires n <= |lines|
    ensures StutteredUpTo(path, lines, n, kws, k, defines)
    decreases n
  {
    if n == 0 {
      LinesEntriesStutterBase(path, lines, kws, k, defines);
    } else {
      LinesEntriesStutter(path, lines, n - 1, kws, k, defines);
      LinesEntriesStutterStep(path, lines, n, kws, k, defines);
    }
  }

  /** A keyword listed several times shares one list, and every one of its hits is appended
      once per listing, consecutively; nothing is deduplicated. */
  lemma {:induction false} RepeatedKeywordRepeatsEntries(files: seq<SourceFile>, kws: seq<string>, k: string, defines: LineTest)
    ensures ScanEntries(files, kws, k, defines) == Stutter(ScanEntries(files, [k], k, defines), Occurrences(kws, k))
  {
    if files != [] {
      var init := files[..|files| - 1];
      var last := files[|files| - 1];
      RepeatedKeywordRepeatsEntries(init, kws, k, defines);
      StutterAppend(ScanEntries(init, [k], k, defines), FileEntries(last, [k], k, defines), Occurrences(kws, k));
      if last.contents.Lines? {
        LinesEntriesStutter(last.path, last.contents.lines, |last.contents.lines|, kws, k, defines);
      }
    }
  }

  // ----- The scenario the detector is built for

  /** `Config.java` holding `private String API_KEY = "12345";`, scanned for `key`, gives exactly
      one entry: that file, line 1, the line itself. */
  lemma ConfigJavaScenario()
    ensures var line := "private String API_KEY = \"12345\";";
      ScanEntries([SourceFile("Config.java", Lines([line]))], ["key"], "key", IsVariableDefinition) == [Match("Config.java", 1, line)]
  {
    var line := "private String API_KEY = \"12345\";";
    var f := SourceFile("Config.java", Lines([line]));
    ApiKeyDeclarationMatches();
    StripKeepsTrimmed(line);
    assert KeywordEntries("Config.java", 1, line, ["key"], 1, "key", IsVariableDefinition) == [Match("Config.java", 1, line)];
    assert LinesEntries("Config.java", [line], 1, ["key"], "key", IsVariableDefinition) == [Match("Config.java", 1, line)];
    assert [f][..0] == [];
  }

  /** A file holding only `// the apikey is not stored here`, scanned for `apikey`, gives nothing. */
  lemma CommentScenario()
    ensures ScanEntries([SourceFile("Notes.java", Lines(["// the apikey is not stored here"]))], ["apikey"], "apikey", IsVariableDefinition) == []
  {
    var f := SourceFile("Notes.java", Lines(["// the apikey is not stored here"]));
    CommentWithoutAssignmentDoesNotMatch();
    ScanEntriesEmptyIff([f], ["apikey"], "apikey", IsVariableDefinition);
    assert forall fi, n | 0 <= fi < 1 :: !LineMatches([f][fi], n, "apikey", IsVariableDefinition);
  }
}
