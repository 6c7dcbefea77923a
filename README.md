# denite-go-import: fuzzy filter, ranking and incremental cache

This project models the matching engine of the denite source `go_import`. The source lists Go
packages and narrows them as the user types. The model covers:

- turning an input line into match options: keywords before the first `;`, and an optional
  directory filter between the first and second `;`;
- compiling each keyword into the "subsequence with gaps" regex `c1[^c1]*c2[^c2]*...cn`;
- scoring every candidate row with `path_score`, `filename_score` or `dir_score`, and
  AND-ing the sub-scores in `Match`;
- keeping the best `limit` rows with `heapq.nlargest`;
- the session dictionaries: `candidates`, `candidatesCache` and `resultCache`;
- `uniteMatch`, which answers an input from the result cache. Otherwise it matches against
  the rows cached for the input without its last character. When that shorter input has no
  cache entry, or the input has at most one character, it matches against every candidate of
  the key (`getCandidates`).

The models follow the source's own forms:

- The regex engine is modelled as Python's `re.search` runs this pattern: the leftmost start,
  then a greedy `[^c]*` that backs off one character at a time (module `Matcher`).
- The inner and outer loops of `Match` are methods with loop invariants, proved against the
  functions `RowScore` and `Matched` (module `Scoring`).
- The module-level dictionaries are the fields of the class `Store.SessionStore`. Its methods
  state the new dictionaries. The constructor establishes the cache invariant `Coherent`: every
  cached entry is what a full scan of the key's candidates gives. `ClearCache`, `SetCandidates`
  and `UniteMatch` preserve it. `SetCandidatesToCache` and `SetResultToCache` store whatever
  they are given, so they neither state nor keep it.

The central results are:

- `Matcher.SearchFindsIffSubseq`: the compiled pattern matches a text exactly when the
  keyword's characters occur in it in order.
- `Scoring.RowScoreAnd`: a row scores exactly when every option's keyword occurs in the part of
  the row its mode selects.
- `Query.IncrementalFilterEqualsFullScan` and `Query.NarrowedAnswer`: matching an input against
  the rows kept for its prefix gives what matching against every candidate gives.
- `Store.SessionStore.UniteMatch`: with coherent caches, the answer equals a full scan's, and
  the caches stay coherent.

Modules, one per file:

- `Wrappers`: Option and Result.
- `Sequences`: ordered subsequences.
- `Text`: `str.lower`, `str.split`, `str.rfind`, file and directory names, string order.
- `Matcher`: the regex and `re.search`.
- `Regex`: `_escape` and `get_regex_prog`.
- `Scoring`: the scorers, `Match` and `GetFilterRows`.
- `Selection`: `heapq.nlargest` and `Sort`.
- `Query`: option building and the uncached answer.
- `Store`: the dictionaries and `uniteMatch`.

Two behaviours of the code a reader may not expect:

- The input is split on the FIRST `;`. Element 1 of `split(';')` is the directory filter.
- `dir_score` measures the length of the whole line, not of the directory part it searches.

All paths below are in `rplugin/python3/denite/source/go_import.py`.

## Model

| member | source | states |
|---|---|---|
| Text.ContainsUpperSpec | rplugin/python3/denite/source/go_import.py:112-114 | `contain_upper` finds something exactly when some character of the input is in `[A-Z]` |
| Query.IsSearchLowerSpec | rplugin/python3/denite/source/go_import.py:116-117 | smart case: search in lower case exactly when no character of the input is upper case |
| Query.CaseNarrows | rplugin/python3/denite/source/go_import.py:116-117 | typing one more character can switch lower-case search off but never on |
| Text.LowerSpec | rplugin/python3/denite/source/go_import.py:120 | `kw.lower()` leaves no upper-case letter and is the identity on text with none |
| Text.WordsSpec | rplugin/python3/denite/source/go_import.py:254 | the words of `strKws.split()` hold no whitespace and concatenate to the non-whitespace characters of the text, in order |
| Text.WordsOfWord | rplugin/python3/denite/source/go_import.py:254 | a non-empty text without whitespace splits into exactly itself |
| Text.WordsBreakAtSpace | rplugin/python3/denite/source/go_import.py:254 | splitting at a whitespace character splits the word list there: the words of `a + sp + b` are the words of `a` followed by those of `b` |
| Text.WordsExtend | rplugin/python3/denite/source/go_import.py:254 | appending a character loses no word: each old word is a prefix of the new word at its place |
| Text.SplitQuery | rplugin/python3/denite/source/go_import.py:248-250 | the keyword text is everything before the first `;` (all of the input when there is none); the directory filter is the text after it, up to the next `;` |
| Text.SplitQueryExtend | rplugin/python3/denite/source/go_import.py:248-250 | appending a character keeps the keyword text or extends it by that character, and only extends the directory filter |
| Text.LastIndexOf | rplugin/python3/denite/source/go_import.py:81 | `rfind`: -1 exactly when the separator is absent, otherwise a position holding it with none after it |
| Text.Basename | rplugin/python3/denite/source/go_import.py:81-82 | the file name is the suffix after the last separator and holds none, or the whole path when there is no separator |
| Text.Dirname | rplugin/python3/denite/source/go_import.py:104 | the path is the directory, a separator, then the file name; with no separator the directory is empty |
| Text.LowerCommutesWithSplit | rplugin/python3/denite/source/go_import.py:81-82 | lower-casing a row before or after taking its file name or directory gives the same text |
| Regex.ReadAtomEscape | rplugin/python3/denite/source/go_import.py:77 | an `_escape`d character is read back as itself, consuming exactly its escaped form |
| Regex.ParseRegexText | rplugin/python3/denite/source/go_import.py:124-129 | the regex text built from a keyword reads back to exactly that keyword's characters (escaping loses nothing) |
| Regex.RegexTextInjective | rplugin/python3/denite/source/go_import.py:124-129 | distinct keywords compile to distinct regex texts |
| Regex.Compile | rplugin/python3/denite/source/go_import.py:119-133 | the compiled pattern stands for the lower-cased keyword under smart case, and for the keyword otherwise; its text reads back to those characters |
| Matcher.MatchAtSound | rplugin/python3/denite/source/go_import.py:128-129 | what the engine reports at a start position is a whole match of `c1[^c1]*...cn` |
| Matcher.MatchAtComplete | rplugin/python3/denite/source/go_import.py:128-129 | wherever the pattern can match from a start, the engine, backtracking over each gap, reports a match there |
| Matcher.SearchLeftmost | rplugin/python3/denite/source/go_import.py:84 | `reprog.search` returns a span that matches the pattern, and no match starts further left; with no result, no slice matches |
| Matcher.LanguageIsSubseq | rplugin/python3/denite/source/go_import.py:128-129 | every match of the pattern contains the keyword's characters in order and is at least as long as the keyword |
| Matcher.SearchFindsIffSubseq | rplugin/python3/denite/source/go_import.py:84 | the search succeeds exactly when the keyword is an ordered subsequence of the text |
| Matcher.SpanCoversKeyword | rplugin/python3/denite/source/go_import.py:95-97 | a match spans at least as many characters as the keyword has |
| Matcher.KeywordMatchesItself | rplugin/python3/denite/source/go_import.py:128-129 | a keyword's own text is matched whole, from position 0 |
| Matcher.OccurrenceIsFound | rplugin/python3/denite/source/go_import.py:95 | a verbatim occurrence of the keyword is found there or further left |
| Scoring.SpanScoreAntitone | rplugin/python3/denite/source/go_import.py:96-98 | the score `1000.0 / (end - start + 1 + (len(line) + 1) / 100.0)` never drops for a narrower match, and is strictly higher for a strictly narrower one |
| Scoring.PathScore | rplugin/python3/denite/source/go_import.py:94-101 | `path_score` is non-negative and positive exactly when the keyword occurs in order in the line; it is at most the score of a verbatim occurrence |
| Scoring.FilenameScore | rplugin/python3/denite/source/go_import.py:79-92 | `filename_score` is non-negative and positive exactly when the keyword occurs in order in the file name |
| Scoring.DirScore | rplugin/python3/denite/source/go_import.py:103-110 | `dir_score` as intended is non-negative, positive exactly when the keyword occurs in order in the directory part, and bounded like `path_score` |
| Scoring.OptScore | rplugin/python3/denite/source/go_import.py:145-151 | the mode dispatch of `Match`: a sub-score is non-zero exactly when the keyword occurs in order in the part of the line the mode selects |
| Scoring.SubScoresSpec | rplugin/python3/denite/source/go_import.py:143-151 | the sub-scores of a line are, option by option, the mode's scorer, and none is negative |
| Scoring.TotalGrows | rplugin/python3/denite/source/go_import.py:153-157 | the running total of non-negative sub-scores stays non-negative and, unless reset to 0, never drops below its start |
| Scoring.TotalNonZero | rplugin/python3/denite/source/go_import.py:153-157 | the running total ends non-zero exactly when it started positive or has sub-scores, and none of them is 0 |
| Scoring.TotalCovers | rplugin/python3/denite/source/go_import.py:153-157 | a non-zero total is at least the starting total plus each sub-score |
| Scoring.RowScoreSign | rplugin/python3/denite/source/go_import.py:142-157 | a line's total is never negative and is 0 with no options |
| Scoring.TotalSum | rplugin/python3/denite/source/go_import.py:153-157 | a running total that does not end at 0 is the start plus the plain sum of every sub-score |
| Scoring.RowScoreAnd | rplugin/python3/denite/source/go_import.py:142-157 | AND semantics: a line scores exactly when there is an option and every option's keyword occurs in order in its view; the total is then the sum of the sub-scores, and so at least every one of them |
| Scoring.ScoreRow | rplugin/python3/denite/source/go_import.py:142-157 | the inner loop, with its early `break` at a zero sub-score, computes the line's total |
| Scoring.Match | rplugin/python3/denite/source/go_import.py:135-162 | the outer loop returns, in input order, every row whose (smart-case) line has a non-zero total, paired with that total |
| Scoring.KeepCounts | rplugin/python3/denite/source/go_import.py:159-160 | a row with a non-zero score is kept exactly as often as it occurs in the input, duplicates included, and a row scoring 0 never |
| Scoring.KeepFilters | rplugin/python3/denite/source/go_import.py:159-160 | keeping rows by a score yields an ordered subsequence of the rows, each with its non-zero score, and keeps every scoring row exactly as often as it occurs |
| Scoring.MatchedFilters | rplugin/python3/denite/source/go_import.py:135-162 | `Match` reorders nothing: its rows are a subsequence of the input, each with its positive total; every row with a non-zero total is kept exactly as often as it occurs and no other row is kept; no options keep nothing |
| Scoring.FilterRowsAppend | rplugin/python3/denite/source/go_import.py:164-167 | `GetFilterRows` distributes over concatenation |
| Scoring.SubScoresAsWrittenAt | rplugin/python3/denite/source/go_import.py:145-151 | as written, a `dir` option's sub-score raises `NameError('os')` and every other option's is its scorer's value |
| Scoring.LoopRaises | rplugin/python3/denite/source/go_import.py:142-157 | the inner loop reaches and raises the first error when every sub-score before it is non-zero |
| Scoring.LoopAgrees | rplugin/python3/denite/source/go_import.py:142-157 | without errors the inner loop as written computes the corrected running total |
| Scoring.DirFilterRaisesAsWritten | rplugin/python3/denite/source/go_import.py:103-104 | as written, scoring a line that passes every keyword and reaches the directory option raises `NameError('os')` |
| Scoring.RowScoreAsWrittenWithoutDir | rplugin/python3/denite/source/go_import.py:142-157 | the defect is confined to `dir_score`: with no directory option a line scores as in the corrected model |
| Selection.OutranksTotal | rplugin/python3/denite/source/go_import.py:171 | any two `(score, row)` tuples are comparable |
| Selection.OutranksTransitive | rplugin/python3/denite/source/go_import.py:171 | tuple comparison is transitive |
| Selection.OutranksAntisymmetric | rplugin/python3/denite/source/go_import.py:171 | two tuples that each rank at least as high as the other are equal |
| Selection.InsertSorted | rplugin/python3/denite/source/go_import.py:171 | inserting a tuple into a best-first list adds exactly that tuple and keeps the list best first |
| Selection.SortDescSpec | rplugin/python3/denite/source/go_import.py:171 | sorting keeps exactly the given tuples (a permutation) and puts them best first |
| Selection.DescendingUnique | rplugin/python3/denite/source/go_import.py:171 | a multiset of tuples has one best-first arrangement, so any correct selection, the heap of `nlargest` included, gives the same list |
| Selection.TopKSpec | rplugin/python3/denite/source/go_import.py:171 | `heapq.nlargest(limit, xs)` returns `min(limit, len(xs))` tuples (none for a limit of 0 or less), best first, drawn from `xs`; each outranks every tuple left out |
| Selection.DescendingPrefix | rplugin/python3/denite/source/go_import.py:171 | the first `k` tuples of a best-first list are best first and outrank every tuple after them |
| Selection.NonZeroShrinks | rplugin/python3/denite/source/go_import.py:171 | the `if score != 0` filter keeps some of the tuples and no others |
| Selection.NonZeroScores | rplugin/python3/denite/source/go_import.py:171 | after the `if score != 0` filter no zero score is left |
| Selection.NonZeroKeepsAll | rplugin/python3/denite/source/go_import.py:171 | the filter drops nothing from a list without zero scores |
| Selection.SortBounded | rplugin/python3/denite/source/go_import.py:169-172 | `Sort` returns at most `limit` rows, no more than it was given, and only rows of its input |
| Selection.SortOfMatched | rplugin/python3/denite/source/go_import.py:169-172 | over `Match`'s output `Sort` returns exactly the rows of `nlargest`'s tuples |
| Query.WordOptionsSpec | rplugin/python3/denite/source/go_import.py:254 | one option per word, in order, with the word, the mode, and the word as smart case folds it |
| Query.KeywordOptions | rplugin/python3/denite/source/go_import.py:252-257 | the options of an input are one per keyword, in order, in mode `mmode`, then a directory option when there is a filter |
| Query.DirOption | rplugin/python3/denite/source/go_import.py:256-257 | a non-empty directory filter becomes the last option, in mode `dir`, standing for the filter as smart case folds it |
| Query.NoOptions | rplugin/python3/denite/source/go_import.py:254-259 | an input has no option exactly when its keyword text is blank and its directory filter empty |
| Query.Truncate | rplugin/python3/denite/source/go_import.py:267-268 | the cut answer is a prefix of the rows: `min(len, limit)` rows for a limit of 0 or more; for a negative limit `rows[:limit]` drops that many rows from the end |
| Query.MatchedRowsPass | rplugin/python3/denite/source/go_import.py:259-260 | every row `Match` keeps is a candidate passing every option |
| Query.AnswerForSpec | rplugin/python3/denite/source/go_import.py:259-261 | for options already built, `Sort` of `Match`'s scores is at most `limit` candidates, each passing every option: the rows of the best `limit` scored candidates, best first |
| Query.AnswerSpec | rplugin/python3/denite/source/go_import.py:243-268 | the uncached answer to an input with options is at most `limit` candidates, each containing every keyword in order in its view; they are the best `limit` scored ones, best first |
| Query.AnswerWithoutOptions | rplugin/python3/denite/source/go_import.py:243-268 | with no options the answer is the first `limit` candidates, unscored |
| Query.AnswerBounded | rplugin/python3/denite/source/go_import.py:243-268 | for a non-negative `limit`, the uncached answer has at most `limit` rows, with or without options |
| Query.KeywordNarrows | rplugin/python3/denite/source/go_import.py:140-157 | a row that matches a longer keyword (with the longer input's case) matches its prefix keyword |
| Query.KeywordsCovered | rplugin/python3/denite/source/go_import.py:248-254 | each keyword option of an input is covered, at the same place, by an option of the input with one more character |
| Query.DirCovered | rplugin/python3/denite/source/go_import.py:250-257 | the directory option of an input is covered by the directory option of the longer input |
| Query.OptionsCovered | rplugin/python3/denite/source/go_import.py:248-257 | every option of an input is covered by its partner among the options of the longer input |
| Query.RowNarrowsCovered | rplugin/python3/denite/source/go_import.py:142-160 | a row that passes every option of the longer input passes every option of the shorter one |
| Query.OptionsPersist | rplugin/python3/denite/source/go_import.py:259 | an input with an option keeps one when a character is typed |
| Query.KeepRefines | rplugin/python3/denite/source/go_import.py:135-162 | filtering by a looser score and then a stricter one keeps what the stricter one alone keeps, with the same scores and order |
| Query.ScorerNarrows | rplugin/python3/denite/source/go_import.py:142-160 | every candidate the longer input's scorer keeps, the shorter input's scorer keeps |
| Query.NarrowedMatch | rplugin/python3/denite/source/go_import.py:135-162 | `Match` over the rows a covered option list kept equals `Match` over all candidates |
| Query.IncrementalFilterEqualsFullScan | rplugin/python3/denite/source/go_import.py:226-234 | matching `q + c` against the rows `q` kept gives the same scored list as matching it against every candidate |
| Query.NarrowedAnswerFor | rplugin/python3/denite/source/go_import.py:259-268 | starting from the narrowed rows changes neither the rows cached nor the answer, for option lists in a covering relation |
| Query.NarrowedAnswer | rplugin/python3/denite/source/go_import.py:226-268 | starting from the rows the shorter input kept changes neither the rows nor the answer of the longer one |
| Store.PutKeepsAgreement | rplugin/python3/denite/source/go_import.py:201-211 | storing an entry that holds keeps the two caches agreeing |
| Store.ResetKeepsAgreement | rplugin/python3/denite/source/go_import.py:194-196 | emptying a key's caches, possibly with new candidates for that key, keeps the caches agreeing |
| Store.CachedEntry | rplugin/python3/denite/source/go_import.py:217-224 | an input with a cached result also has cached candidates, and that entry holds |
| Store.HitAgrees | rplugin/python3/denite/source/go_import.py:240-241 | a cached answer is the answer of a full scan of the key's candidates |
| Store.StartWithOptions | rplugin/python3/denite/source/go_import.py:226-234 | for an input with options, starting from `getCandidates` gives the kept rows and answer of a full scan: either all candidates, or the rows cached for the input without its last character |
| Store.StartWithoutOptions | rplugin/python3/denite/source/go_import.py:226-234 | for an input without options `getCandidates` returns all the key's candidates, since no shorter input without options is ever cached |
| Store.OptionsFromPrefix | rplugin/python3/denite/source/go_import.py:230-232 | if the input without its last character has options, so does the input |
| Store.NarrowedFromPrefix | rplugin/python3/denite/source/go_import.py:230-232 | narrowing by the input without its last character changes neither the kept rows nor the answer |
| Store.MatchedEntry | rplugin/python3/denite/source/go_import.py:243-265 | the entry a miss caches is the one a full scan gives |
| Store.MissAgrees | rplugin/python3/denite/source/go_import.py:243-268 | after a miss on an input with options the caches still agree, and the cut answer is a full scan's |
| Store.NoOptionsAgrees | rplugin/python3/denite/source/go_import.py:243-268 | after a miss on an input without options the answer is the key's candidates, cut to `limit` |
| Store.TruncateShort | rplugin/python3/denite/source/go_import.py:267-268 | an answer no longer than `limit` is not cut |
| Store.SessionStore.constructor | rplugin/python3/denite/source/go_import.py:174-193 | `candidates`, `candidatesCache` and `resultCache` start empty, so the caches are coherent for every limit, mode and separator |
| Store.SessionStore.ClearCache | rplugin/python3/denite/source/go_import.py:194-196 | `clearCache` (and `ClearCache`, line 272-273) gives a key empty caches and changes nothing else; afterwards nothing is cached for it, and coherence is kept |
| Store.SessionStore.SetCandidates | rplugin/python3/denite/source/go_import.py:175-177 | the key's candidates are replaced and its caches emptied; coherence is kept |
| Store.SessionStore.SetCandidatesToCache | rplugin/python3/denite/source/go_import.py:201-203 | the rows are stored for the input when the key has a cache, and nothing changes otherwise |
| Store.SessionStore.SetResultToCache | rplugin/python3/denite/source/go_import.py:209-211 | the answer is stored, and found by `existCache` and `getResultFromCache`, when the key has a cache; nothing changes otherwise |
| Store.SessionStore.UniteMatch | rplugin/python3/denite/source/go_import.py:236-270 | a hit returns the cached answer and changes nothing; a miss matches the input's options against `getCandidates`, caches the kept rows and the answer, and cuts it to `limit`; with coherent caches the answer is a full scan's and coherence is kept |
| Store.UniteMatchTwice | rplugin/python3/denite/source/go_import.py:236-270 | with coherent caches, a second identical `uniteMatch` returns the same rows as the first, at most `limit` of them for a non-negative `limit`, and the caches stay coherent |

## Left out

- The denite `Source` and `Kind` classes (candidate gathering, preview and import actions) call into Neovim and are not part of this model.
- `refresh_pkgs`, `loadCandidates` and `LoadCandidates` read the package list from `gopkgs` or a file and from Vim variables. That I/O is left out; its result reaches the model through `SetCandidates`.
- `getCacheKey` is never called by the modelled functions and is left out.
- `platform.system()` is replaced by a separator parameter `sep`, which must be `/` or `\`.
- The literal (non-regex) branch of `get_regex_prog` is left out: `uniteMatch` always passes `isregex = True`.
- Scores are exact reals, so float rounding is not modelled. Two totals that differ only after rounding may rank differently in Python.
- Text.Lower: folds ASCII `A`-`Z` only. Under smart case the source lower-cases the whole keyword and the whole row with `str.lower`, which also folds non-ASCII letters. So the input `é` matches the candidate `É` in Python but not in the model.
- The matcher treats every keyword character literally. `_escape` does not escape `*`, `?` or `|`, so a keyword holding one of them compiles to a different regex in Python, or fails to compile.
- An empty keyword, on which `escaped[-1]` raises `IndexError`, cannot reach `get_regex_prog`: the keywords come from `split()` and the filter is tested for emptiness. The type `Atoms` excludes it.
- Text.Dirname: takes everything before the last separator. It does not strip trailing separators as `posixpath.dirname` does for a path like `a//b`, and it does not keep a leading root: `posixpath.dirname("/x")` is `"/"`, while `Dirname("/x", '/')` is empty.
- Store.SessionStore.UniteMatch: coherence is stated for one `limit`, `mmode` and separator. A hit returns the answer cached under the `limit` used when it was stored, and the source does not key the cache on `limit` or `mmode`.
- Store.SessionStore.SetCandidatesToCache and Store.SessionStore.SetResultToCache: on a key that was never cleared, `candidatesCache.get(key, {})` returns a fresh dictionary that is written and dropped. The model stores nothing, as the source does.
- `heapq.nlargest`'s heap is not modelled step by step. It is replaced by a full sort on the same tuple order, which `Selection.DescendingUnique` shows gives the same list.
- `GetCandidatesFromCache`, `GetResultFromCache`, `ExistCache` and `GetCandidates` are functions with no contract of their own. Their meaning is stated by `SetResultToCache`, `ClearCache`, `StartWithOptions` and `UniteMatch`.

## Findings

| source | as written | input that shows it | evidently intended | confidence | as-written member | corrected member |
|---|---|---|---|---|---|---|
| rplugin/python3/denite/source/go_import.py:103-104 | `dir_score` calls `os.path.dirname(line)`, but the module never imports `os`, so the call raises `NameError` | input `json;encoding` against candidate `encoding/json`: the keyword passes, and the directory option raises | search the directory part of the line and score the match | not executed | Scoring.DirFilterRaisesAsWritten | Scoring.DirScore |
