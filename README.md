# Key Detector, modelled in Dafny

Key Detector decompiles an Android package. It then searches the decompiled text files for
lines that look like assignments to a variable whose name contains one of the operator's
keywords, such as `API_KEY = "12345"` for the keyword `key`. This project models the part of
`key_detector.py` that decides what gets reported:

- **The line classifier** `is_variable_definition(line, keyword)` (module `Classifier`).
  The source compiles `\b\w*K\w*\b\s*=.*`, where K is the escaped keyword, with
  `re.IGNORECASE`, and calls `search`. The model states that pattern as a decomposition of
  the line at four positions (`PatternAt`), and states `search` as trying every start
  position from the left (`SearchFrom`). It proves that the classifier holds exactly when
  some maximal run of word characters contains the keyword, ignoring case, and is followed
  by optional whitespace and `=` (`IsVariableDefinitionIff`).
- **The scan** `search_keywords_in_files(directory, keywords)` (module `Scanner`). The scan
  is a method that builds the keyword-to-matches map with the source's loops: files, then
  lines numbered from 1, then keywords. It is proved equal to a specification function
  `ScanEntries`. The lemmas prove the following about that function:
  - it is sound and complete with respect to the classifier;
  - walk order and line order are kept;
  - unreadable files are skipped;
  - a line is recorded under every keyword it matches;
  - a keyword listed twice gets each of its matches twice.
- **The keyword argument** `sys.argv[2].split(',')` (module `KeywordArg`). It is proved to
  be inverse to joining with commas. Its pieces are used untrimmed and unfiltered.
- **The character classes and `str.strip()`** (module `TextChars`). These are the
  classes that `\w`, `\s` and `re.IGNORECASE` use, and the whitespace that `.strip()`
  removes, all restricted to ASCII.

The directory walk is a parameter: the sequence of files `os.walk` visits, in its order.
Each file is its path and either its lines or `Unreadable`, the case where opening it raises.
A line is whatever text the file iteration yields, including any line terminator;
`.strip()` removes that terminator, as it does in the source.

The code is looser than a reader of its docstrings might expect. It does not deduplicate,
does not require a type word or a right-hand side, and does not clean up the keywords. The
model keeps each of these behaviours as the code has it:

- A line matching several keywords is recorded under each of them; nothing is deduplicated
  per (file, line). See `SharedLineRecordedUnderBoth` and `RepeatedKeywordRepeatsEntries`.
- The pattern has no separate optional type word. A type word before the identifier is
  simply text before the `\b`.
- Nothing after the `=` is required. An empty right-hand side, `==`, and an assignment
  inside a comment all match. See `RightHandSideUnconstrained` and `LooseRightHandSideMatches`.
- Keywords are neither trimmed nor filtered. An empty keyword, produced by `a,,b` or a
  trailing comma, matches every line in which some word is followed by `=`. See
  `NoTrimmingNoFiltering` and `EmptyKeywordMatchesAnyAssignment`.
- Duplicate keywords share one list, but every listing appends again.

## Model

| member | source | states |
|---|---|---|
| TextChars.IsWordChar | key_detector.py:25 | `\w` on ASCII: a letter, a digit or `_`; no ensures of its own, used by `Boundary`, `PatternAt` and `MaximalRun` |
| TextChars.IsSpace | key_detector.py:25 | `\s` on ASCII, also the whitespace `.strip()` removes (9-13, 28-31, space); no ensures of its own; `SpaceIsNotWord` states it never overlaps `\w` |
| TextChars.Lower | key_detector.py:25 | the ASCII case folding of `re.IGNORECASE`; no ensures of its own, characterised by `SameIgnoringCaseIff` and `LowerIsLower` |
| TextChars.SameIgnoringCaseIsCasePair | key_detector.py:25 | two different characters that the case-insensitive pattern treats as equal are the lower- and upper-case forms of one letter of the alphabet |
| TextChars.CasePairIsSameIgnoringCase | key_detector.py:25 | the lower- and upper-case forms of one letter are treated as equal |
| TextChars.SameIgnoringCaseIff | key_detector.py:25 | two characters are treated as equal exactly when they are the same character or the two cases of one letter, taken from separately written lower- and upper-case alphabets; both directions |
| TextChars.LowerIsLower | key_detector.py:25 | case folding never yields an upper-case letter, so folding twice is the same as folding once |
| TextChars.TrimStart | key_detector.py:39 | the left half of `.strip()`; no ensures of its own, characterised by `TrimStartDropsLeadingSpace` |
| TextChars.TrimEnd | key_detector.py:39 | the right half of `.strip()`; no ensures of its own, characterised by `TrimEndDropsTrailingSpace` |
| TextChars.Strip | key_detector.py:39 | `.strip()` as applied to the recorded line; no ensures of its own, characterised by `StripRemovesOuterWhitespace` and `StripKeepsTrimmed` |
| TextChars.TrimStartDropsLeadingSpace | key_detector.py:39 | the left half of `.strip()` removes the longest all-whitespace prefix and nothing else; the result does not start with whitespace |
| TextChars.TrimEndDropsTrailingSpace | key_detector.py:39 | the right half of `.strip()` removes the longest all-whitespace suffix and nothing else; the result does not end with whitespace |
| TextChars.StripRemovesOuterWhitespace | key_detector.py:39 | the stripped line is no longer than the line, sits inside it with only whitespace before and after it, and neither starts nor ends with whitespace |
| TextChars.StripKeepsTrimmed | key_detector.py:39 | a line that does not start or end with whitespace is recorded unchanged |
| Classifier.Boundary | key_detector.py:25 | `\b`: exactly one of the two characters around a position is a word character; no ensures of its own |
| Classifier.KeywordAt | key_detector.py:25 | the escaped keyword matched literally, ignoring case, at one position; no ensures of its own, used by `PatternAt` |
| Classifier.PatternAt | key_detector.py:25 | the compiled pattern `\b\w*K\w*\b\s*=.*` as one choice of positions for its pieces; no ensures of its own, characterised by `SearchFindsPattern` and `IsVariableDefinitionIff` |
| Classifier.SearchFrom | key_detector.py:26 | `search`: a match at each start position, tried from the left; no ensures of its own, characterised by `SearchFromFinds` |
| Classifier.IsVariableDefinition | key_detector.py:22-26 | `is_variable_definition`; no ensures of its own, characterised by `SearchFindsPattern` and `IsVariableDefinitionIff` |
| Classifier.SearchFromFinds | key_detector.py:26 | `search` starting at position i succeeds exactly when the pattern matches at some start position at or after i |
| Classifier.SearchFindsPattern | key_detector.py:25-26 | `is_variable_definition` holds exactly when the compiled pattern matches the line at some choice of its positions |
| Classifier.PatternGivesRun | key_detector.py:25 | for a keyword of word characters, a pattern match yields a maximal word run that contains the keyword and is followed by `\s*=`; this covers the case where the empty keyword matches with an empty identifier |
| Classifier.RunGivesPattern | key_detector.py:25-26 | a maximal word run that contains the keyword (ignoring case) and is followed by whitespace and `=` makes the line a definition |
| Classifier.IsVariableDefinitionIff | key_detector.py:22-26 | for a keyword of word characters, the line is a definition exactly when some maximal word run contains the keyword (ignoring case) and is followed by optional whitespace and `=`; both directions |
| Classifier.EmptyKeywordMatchesAnyAssignment | key_detector.py:25 | the empty keyword matches exactly the lines in which some word is followed by optional whitespace and `=` |
| Classifier.MatchNeedsEqualsAndKeyword | key_detector.py:25 | every match needs an `=` in the line and a case-insensitive occurrence of the keyword |
| Classifier.MatchSurvivesSuffix | key_detector.py:25 | appending any text to a matching line keeps it matching, because the trailing `.*` constrains nothing |
| Classifier.MatchingPrefixEndsAtEquals | key_detector.py:25 | every match is already a match of the line cut just after some `=` |
| Classifier.RightHandSideUnconstrained | key_detector.py:25 | a line matches exactly when some prefix of it that ends in `=` matches, so nothing after the `=` is examined |
| Classifier.ApiKeyDeclarationMatches | key_detector.py:22-26 | `private String API_KEY = "12345";` is a definition for `key` |
| Classifier.CommentWithoutAssignmentDoesNotMatch | key_detector.py:22-26 | `// the apikey is not stored here` is not a definition for `apikey` |
| Classifier.LooseRightHandSideMatches | key_detector.py:25 | `apiKey == null`, `apiKey =` and `// apikey = x` are all definitions for `apikey` |
| KeywordArg.SplitKeywords | key_detector.py:69 | `split(',')` always yields at least one piece, even for the empty argument |
| KeywordArg.SplitCount | key_detector.py:69 | there is exactly one more piece than there are commas in the argument |
| KeywordArg.SplitPiecesHaveNoComma | key_detector.py:69 | no piece contains a comma |
| KeywordArg.JoinSplit | key_detector.py:69 | joining the pieces with commas gives back the argument |
| KeywordArg.SplitCommaFreePrefix | key_detector.py:69 | prefixing comma-free text to an argument extends its first piece and leaves the other pieces unchanged |
| KeywordArg.SplitJoin | key_detector.py:69 | comma-free pieces, joined with commas and split again, come back unchanged |
| KeywordArg.NoTrimmingNoFiltering | key_detector.py:69 | `a,,b`, `token,`, `token, secret` and the empty argument split into pieces that include empty pieces and keep the space after a comma |
| Scanner.KeywordEntries | key_detector.py:37-39 | what the keyword loop appends for one line; no ensures of its own, characterised by `KeywordEntriesSound`, `KeywordEntriesComplete` and `KeywordEntriesCopies` |
| Scanner.LinesEntries | key_detector.py:36-39 | what the line loop appends for the first n lines of a file; no ensures of its own, characterised by `LinesEntriesSound`, `LinesEntriesComplete` and `LinesEntriesOrdered` |
| Scanner.FileEntries | key_detector.py:34-41 | what one file adds, nothing when it cannot be opened; no ensures of its own |
| Scanner.ScanEntries | key_detector.py:28-42 | each keyword's list after the walk; no ensures of its own, characterised by `ScanEntriesSound`, `ScanEntriesComplete` and `ScanEntriesEmptyIff` |
| Scanner.ScanEntriesStep | key_detector.py:31-33 | visiting one more file appends that file's entries after those of the files before it |
| Scanner.KeywordVisited | key_detector.py:37-39 | one step of the keyword loop keeps every list equal to its value before the line plus the line's entries for the keywords visited so far |
| Scanner.VisitKeywords | key_detector.py:37-39 | the keyword loop over one line leaves the key set unchanged and appends to each keyword's list exactly the line's entries for it: one `(path, line number, stripped line)` per listed copy of that keyword, when the line is a definition for it |
| Scanner.LineVisited | key_detector.py:36-39 | one step of the line loop keeps every list equal to its value before the file plus the entries of the lines visited so far |
| Scanner.VisitLines | key_detector.py:35-39 | the line loop over a readable file, with lines numbered from 1, appends to each keyword's list exactly that file's entries |
| Scanner.SearchKeywordsInFiles | key_detector.py:28-42 | the result's keys are exactly the distinct keywords; each list is `ScanEntries` of the walk; an empty walk gives only empty lists; an unreadable file adds nothing |
| Scanner.KeywordEntriesSound | key_detector.py:37-39 | every entry one line produces for `k` has `k` listed, the line a definition for `k`, and the entry equal to `(path, n, stripped line)` |
| Scanner.LinesEntriesFromDefiningLines | key_detector.py:36-39 | every entry of a file's first n lines for `k` carries the number of a line within those n lines, that line stripped, and the file's path; that line is a definition for `k` and `k` is listed |
| Scanner.LinesEntriesSound | key_detector.py:35-39 | every entry of a readable file records one of its lines that is a definition for a listed `k` |
| Scanner.ScanEntriesSound | key_detector.py:28-42 | every entry under `k` names a file of the walk, a line number within that file and that line stripped; the line is a definition for `k`, and `k` is one of the keywords |
| Scanner.KeywordEntriesComplete | key_detector.py:37-39 | once the keyword loop has passed a copy of `k`, a line that is a definition for `k` has its entry recorded |
| Scanner.LinesEntriesComplete | key_detector.py:36-39 | an entry from line `ln` stays among the entries of every longer prefix of the file |
| Scanner.ScanEntriesComplete | key_detector.py:28-42 | every line of every readable file that is a definition for a listed keyword is recorded under that keyword |
| Scanner.ScanEntriesEmptyIff | key_detector.py:30-42 | a keyword's list is empty exactly when the keyword was not listed or no line of any readable file is a definition for it; both directions |
| Scanner.SharedLineRecordedUnderBoth | key_detector.py:37-39 | a line that is a definition for two listed keywords is recorded under each of them |
| Scanner.ScanEntriesAppend | key_detector.py:31-33 | the entries of a concatenated walk are those of the first part followed by those of the second |
| Scanner.UnreadableFileSkipped | key_detector.py:34-41 | inserting an unreadable file anywhere in the walk changes no list |
| Scanner.LinesEntriesOrdered | key_detector.py:36-39 | a file's entries all name that file, carry line numbers within it, and come in ascending line order |
| Scanner.FileEntriesInWalkOrder | key_detector.py:31-33 | a file's entries form one block, after those of every earlier file and before those of every later file |
| Scanner.KeywordEntriesCopies | key_detector.py:37-39 | a line's entries for `k` are as many copies of its entry as `k` is listed, when the line is a definition for `k`, and none otherwise |
| Scanner.KeywordEntriesStutter | key_detector.py:37-39 | a line's entries for a keyword listed c times are its entries for the keyword listed once, repeated c times |
| Scanner.LinesEntriesStutter | key_detector.py:36-39 | a file's entries for a keyword listed c times are its single-listing entries, each repeated c times in a row |
| Scanner.RepeatedKeywordRepeatsEntries | key_detector.py:30-39 | a keyword listed c times shares one list, in which each of its single-listing entries appears c times in a row |
| Scanner.ConfigJavaScenario | key_detector.py:28-42 | scanning `Config.java` holding `private String API_KEY = "12345";` for `key` gives exactly one entry: that file, line 1, the line itself |
| Scanner.CommentScenario | key_detector.py:28-42 | scanning a file that holds only a comment mentioning `apikey` without `=` gives no entry |

## Left out

- `decompile_apk` and `extract_and_search_apk` (key_detector.py:14-20, 44-53) are not
  modelled. They run an external decompiler and create a temporary directory, and the
  model takes the decompiled tree as its input.
- `os.walk` and `os.path.join` are not modelled. The walk is a parameter: the sequence of
  files it yields, in its order, with their paths already joined. Symbolic links, walk
  errors and the walk's actual order are not modelled.
- Reading files is not modelled. A file's lines are given as input; UTF-8 decoding with
  `errors="ignore"` and universal-newline translation happen before the model.
- The model treats only failure to open a file as `Unreadable`. The `try` at
  key_detector.py:34-41 wraps the whole read loop, so a read error partway through a file
  keeps the entries already appended; the model does not capture this.
- The banner, the result printing and the argument checks (key_detector.py:8-12, 55-76)
  are not modelled, because they are I/O. Only the `split(',')` of line 69 is modelled.
- `\w`, `\s`, `re.IGNORECASE` and the whitespace `.strip()` removes are restricted to
  ASCII. Python applies them to all of Unicode, including case-folding matches such as the
  Kelvin sign and `k`, and whitespace such as U+0085 and U+00A0.
- Classifier.IsVariableDefinitionIff: the plain-words characterisation is proved for
  keywords made of word characters only. `IsVariableDefinition` itself, and the scan, are
  modelled for every keyword; for other keywords, `re.escape` makes the keyword match as
  the literal text.
