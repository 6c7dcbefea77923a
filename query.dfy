/**
 * How `uniteMatch` turns an input line into match options, and what it answers for a list of
 * candidates when no cache is involved. The fact the incremental cache relies on is here too:
 * narrowing the candidates with the results for a query, then matching one more character
 * against them, gives what matching against all the candidates would.
 */
module Query {
  import opened Text
  import opened Sequences
  import opened Matcher
  import opened Regex
  import opened Scoring
  import opened Selection

  /** `is_search_lower`: search in lower case exactly when the input has no upper-case letter. */
  function IsSearchLower(q: string): bool {
    !ContainsUpper(q)
  }

  lemma IsSearchLowerSpec(q: string)
    ensures IsSearchLower(q) <==> forall i :: 0 <= i < |q| ==> !IsUpper(q[i])
  {
    ContainsUpperSpec(q);
  }

  /** The options `uniteMatch` builds for an input: one per whitespace-separated keyword before
      the first `;`, searched in mode `mmode`, then one `dir` option for the text between the
      first and second `;` when that is not empty. */
  function QueryOptions(q: string, mmode: string): seq<MatchOption> {
    var parts := SplitQuery(q);
    var lower := IsSearchLower(q);
    var kws := WordOptions(Words(parts.keywords), lower, ModeOf(mmode));
    if parts.dir == [] then kws else kws + [MatchOption(parts.dir, Compile(parts.dir, lower), Dir)]
  }

  /** `[(kw, get_regex_prog(kw, True, islower), mmode) for kw in ws]`. */
  function WordOptions(ws: seq<string>, lower: bool, mode: Mode): (opts: seq<MatchOption>)
    requires forall i :: 0 <= i < |ws| ==> |ws[i]| > 0
    ensures |opts| == |ws|
  {
    if ws == [] then []
    else [MatchOption(ws[0], Compile(ws[0], lower), mode)] + WordOptions(ws[1..], lower, mode)
  }

  /** One option per word, in order, standing for the word as smart case folds it. */
  lemma {:induction false} WordOptionsSpec(ws: seq<string>, lower: bool, mode: Mode)
    requires forall i :: 0 <= i < |ws| ==> |ws[i]| > 0
    ensures var opts := WordOptions(ws, lower, mode);
      forall i :: 0 <= i < |ws| ==>
        opts[i].keyword == ws[i] && opts[i].mode == mode && opts[i].pattern.atoms == Folded(ws[i], lower)
  {
    if ws != [] {
      WordOptionsSpec(ws[1..], lower, mode);
      var opts := WordOptions(ws, lower, mode);
      forall i | 0 <= i < |ws|
        ensures opts[i].keyword == ws[i] && opts[i].mode == mode && opts[i].pattern.atoms == Folded(ws[i], lower)
      {
        if i > 0 {
          assert opts[i] == WordOptions(ws[1..], lower, mode)[i - 1];
        }
      }
    }
  }

  lemma {:induction false} ConcatEmpty(ws: seq<string>)
    requires forall i :: 0 <= i < |ws| ==> |ws[i]| > 0
    ensures Concat(ws) == [] <==> ws == []
  {
  }

  /** One option per keyword of the input, in order, searched in mode `mmode`, standing for the
      keyword as smart case folds it; then the directory option, if any. */
  lemma KeywordOptions(q: string, mmode: string)
    ensures var parts, opts := SplitQuery(q), QueryOptions(q, mmode);
      var ws := Words(parts.keywords);
      && |opts| == |ws| + (if parts.dir == [] then 0 else 1)
      && forall i :: 0 <= i < |ws| ==>
           opts[i].keyword == ws[i] && opts[i].mode == ModeOf(mmode)
           && opts[i].pattern.atoms == Folded(ws[i], IsSearchLower(q))
  {
    var parts, lower := SplitQuery(q), IsSearchLower(q);
    var ws := Words(parts.keywords);
    var kws := WordOptions(ws, lower, ModeOf(mmode));
    var d := if parts.dir == [] then [] else [MatchOption(parts.dir, Compile(parts.dir, lower), Dir)];
    assert QueryOptions(q, mmode) == kws + d;
    WordOptionsSpec(ws, lower, ModeOf(mmode));
    AppendKeeps(kws, d);
  }

  lemma AppendKeeps(xs: seq<MatchOption>, ys: seq<MatchOption>)
    ensures |xs + ys| == |xs| + |ys| && forall i :: 0 <= i < |xs| ==> (xs + ys)[i] == xs[i]
  {
  }

  /** A non-empty directory filter becomes the last option, in mode `dir`. */
  lemma DirOption(q: string, mmode: string)
    ensures var parts, opts := SplitQuery(q), QueryOptions(q, mmode);
      var n := |Words(parts.keywords)|;
      parts.dir != [] ==>
        && |opts| == n + 1
        && opts[n].keyword == parts.dir && opts[n].mode == Dir
        && opts[n].pattern.atoms == Folded(parts.dir, IsSearchLower(q))
  {
  }

  /** An input yields no option exactly when its keyword text is blank and its directory
      filter empty. */
  lemma NoOptions(q: string, mmode: string)
    ensures |QueryOptions(q, mmode)| == 0 <==> NonSpace(SplitQuery(q).keywords) == [] && SplitQuery(q).dir == []
  {
    WordsSpec(SplitQuery(q).keywords);
    ConcatEmpty(Words(SplitQuery(q).keywords));
  }

  /** `if len(rows) > limit: rows = rows[:limit]`, with Python's slicing for a negative limit. */
  function Truncate(rows: seq<string>, limit: int): (r: seq<string>)
    ensures r <= rows
    ensures limit >= 0 ==> |r| == (if |rows| > limit then limit else |rows|)
    ensures limit < 0 ==> |r| == (if |rows| + limit > 0 then |rows| + limit else 0)
  {
    if |rows| <= limit then rows
    else if limit >= 0 then rows[..limit]
    else if |rows| + limit > 0 then rows[..|rows| + limit]
    else []
  }

  /** What `uniteMatch` answers from candidates `cands` with no cache: the first `limit`
      candidates when the input has no option, otherwise `Sort` of `Match`'s scores. */
  function Answer(cands: seq<string>, q: string, limit: int, mmode: string, sep: char): seq<string> {
    AnswerFor(QueryOptions(q, mmode), IsSearchLower(q), cands, limit, sep)
  }

  /** The same answer for options already built. */
  function AnswerFor(opts: seq<MatchOption>, lower: bool, cands: seq<string>, limit: int, sep: char): seq<string> {
    if |opts| == 0 then Truncate(cands, limit) else Sort(Matched(opts, cands, lower, sep), limit)
  }

  /** Every row `Match` keeps is a candidate passing every option. */
  lemma MatchedRowsPass(opts: seq<MatchOption>, cands: seq<string>, lower: bool, sep: char)
    ensures forall row :: row in FilterRows(Matched(opts, cands, lower, sep)) ==>
      row in cands && PassesAll(opts, Folded(row, lower), sep)
  {
    var m := Matched(opts, cands, lower, sep);
    assert IsSubseq(FilterRows(m), cands)
      && forall i :: 0 <= i < |m| ==> m[i].score > 0.0 && m[i].score == RowScore(opts, Folded(m[i].row, lower), sep)
    by {
      MatchedFilters(opts, cands, lower, sep);
    }
    SubseqMembers(FilterRows(m), cands);
    forall row | row in FilterRows(m) ensures PassesAll(opts, Folded(row, lower), sep) {
      var k :| 0 <= k < |m| && FilterRows(m)[k] == row;
      RowScoreAnd(opts, Folded(row, lower), sep);
    }
  }

  /** The answer for options already built, when there is at least one: `Sort` over `Match`'s
      scores gives at most `limit` rows, each a candidate passing every option, and exactly the
      rows of the best `limit` scored candidates, best first. */
  lemma AnswerForSpec(opts: seq<MatchOption>, lower: bool, cands: seq<string>, limit: int, sep: char)
    requires |opts| > 0
    ensures var r := AnswerFor(opts, lower, cands, limit, sep);
      && |r| <= Bound(limit)
      && (forall row :: row in r ==> row in cands && PassesAll(opts, Folded(row, lower), sep))
      && r == FilterRows(TopK(Matched(opts, cands, lower, sep), limit))
  {
    var m := Matched(opts, cands, lower, sep);
    SortBounded(m, limit);
    MatchedRowsPass(opts, cands, lower, sep);
    assert forall i :: 0 <= i < |m| ==> m[i].score != 0.0 by {
      MatchedFilters(opts, cands, lower, sep);
    }
    SortOfMatched(m, limit);
  }

  /** The answer to an input with options: at most `limit` candidates (none for a limit of zero
      or less), each containing, in order, every keyword of the input in the part of the line its
      mode selects; and they are the rows of the best `limit` scored candidates, best first. */
  lemma AnswerSpec(cands: seq<string>, q: string, limit: int, mmode: string, sep: char)
    requires |QueryOptions(q, mmode)| > 0
    ensures var r, opts, lower := Answer(cands, q, limit, mmode, sep), QueryOptions(q, mmode), IsSearchLower(q);
      && |r| <= Bound(limit)
      && (forall row :: row in r ==> row in cands && PassesAll(opts, Folded(row, lower), sep))
      && r == FilterRows(TopK(Matched(opts, cands, lower, sep), limit))
  {
    AnswerForSpec(QueryOptions(q, mmode), IsSearchLower(q), cands, limit, sep);
  }

  /** Without an option the answer is the candidate list, cut to `limit`. */
  lemma AnswerWithoutOptions(cands: seq<string>, q: string, limit: int, mmode: string, sep: char)
    requires |QueryOptions(q, mmode)| == 0 && limit >= 0
    ensures Answer(cands, q, limit, mmode, sep) <= cands
    ensures |Answer(cands, q, limit, mmode, sep)| == (if |cands| > limit then limit else |cands|)
  {
  }

  /** Whatever the input, a non-negative `limit` bounds the answer. */
  lemma AnswerBounded(cands: seq<string>, q: string, limit: int, mmode: string, sep: char)
    requires limit >= 0
    ensures |Answer(cands, q, limit, mmode, sep)| <= limit
  {
    if |QueryOptions(q, mmode)| == 0 {
      AnswerWithoutOptions(cands, q, limit, mmode, sep);
    } else {
      AnswerSpec(cands, q, limit, mmode, sep);
    }
  }

  // Narrowing: one more character never lets a row through that the shorter input rejected.

  lemma LowerPrefix(w: string, w': string)
    requires w <= w'
    ensures Lower(w) <= Lower(w')
  {
    LowerSlices(w', 0, |w|);
    assert w'[0..|w|] == w;
  }

  lemma {:induction false} SubseqLower(a: string, b: string)
    requires IsSubseq(a, b)
    ensures IsSubseq(Lower(a), Lower(b))
    decreases |b|
  {
    if a != [] {
      assert b != [];
      LowerSlices(a, 1, |a|);
      LowerSlices(b, 1, |b|);
      assert Lower(a)[0] == LowerChar(a[0]) && Lower(b)[0] == LowerChar(b[0]);
      assert a[1..|a|] == a[1..] && b[1..|b|] == b[1..];
      assert Lower(a)[1..] == Lower(a[1..]) && Lower(b)[1..] == Lower(b[1..]);
      if a[0] == b[0] && IsSubseq(a[1..], b[1..]) {
        SubseqLower(a[1..], b[1..]);
      } else {
        SubseqLower(a, b[1..]);
      }
    }
  }

  lemma ViewLower(mode: Mode, row: string, sep: char)
    requires IsSeparator(sep)
    ensures View(mode, Lower(row), sep) == Lower(View(mode, row, sep))
  {
    LowerCommutesWithSplit(row, sep);
  }

  /** One keyword of the longer input (a word `w'` extending `w`, searched with the longer
      input's case) found in a row implies the shorter keyword is found in it. */
  lemma KeywordNarrows(w: string, w': string, lower: bool, lower': bool, mode: Mode, row: string, sep: char)
    requires IsSeparator(sep) && w <= w' && (lower' ==> lower)
    requires IsSubseq(Folded(w', lower'), View(mode, Folded(row, lower'), sep))
    ensures IsSubseq(Folded(w, lower), View(mode, Folded(row, lower), sep))
  {
    if lower == lower' {
      if lower {
        LowerPrefix(w, w');
      }
      SubseqPrefix(Folded(w', lower'), Folded(w, lower), View(mode, Folded(row, lower'), sep));
    } else {
      SubseqPrefix(w', w, View(mode, row, sep));
      SubseqLower(w, View(mode, row, sep));
      ViewLower(mode, row, sep);
    }
  }

  /** Option `o'` of the longer input is at least as demanding as option `o` of the shorter:
      same mode, and a keyword that extends `o`'s. */
  predicate Covers(o: MatchOption, lower: bool, o': MatchOption, lower': bool) {
    && o.mode == o'.mode && o.keyword <= o'.keyword && (lower' ==> lower)
    && o.pattern.atoms == Folded(o.keyword, lower) && o'.pattern.atoms == Folded(o'.keyword, lower')
  }

  /** Typing a character can switch smart case off, never on. */
  lemma CaseNarrows(q: string, c: char)
    ensures IsSearchLower(q + [c]) ==> IsSearchLower(q)
  {
    IsSearchLowerSpec(q);
    IsSearchLowerSpec(q + [c]);
    if IsSearchLower(q + [c]) {
      forall i | 0 <= i < |q| ensures !IsUpper(q[i]) {
        assert q[i] == (q + [c])[i];
      }
    }
  }

  /** Each keyword option of `q` is covered by the option at the same place for `q + [c]`. */
  lemma KeywordsCovered(q: string, c: char, mmode: string)
    ensures var opts, opts' := QueryOptions(q, mmode), QueryOptions(q + [c], mmode);
      var n := |Words(SplitQuery(q).keywords)|;
      n <= |opts| && n <= |opts'| &&
      forall i :: 0 <= i < n ==> Covers(opts[i], IsSearchLower(q), opts'[i], IsSearchLower(q + [c]))
  {
    var q' := q + [c];
    var parts, parts' := SplitQuery(q), SplitQuery(q');
    KeywordOptions(q, mmode);
    KeywordOptions(q', mmode);
    SplitQueryExtend(q, c);
    if parts'.keywords != parts.keywords {
      WordsExtend(parts.keywords, c);
    }
    CaseNarrows(q, c);
  }

  /** The directory option of `q` is covered by the directory option of `q + [c]`. */
  lemma DirCovered(q: string, c: char, mmode: string)
    ensures var opts, opts' := QueryOptions(q, mmode), QueryOptions(q + [c], mmode);
      var n, n' := |Words(SplitQuery(q).keywords)|, |Words(SplitQuery(q + [c]).keywords)|;
      SplitQuery(q).dir != [] ==>
        n < |opts| && n' < |opts'| && Covers(opts[n], IsSearchLower(q), opts'[n'], IsSearchLower(q + [c]))
  {
    SplitQueryExtend(q, c);
    DirOption(q, mmode);
    DirOption(q + [c], mmode);
    CaseNarrows(q, c);
  }

  /** Where option `i` of `q` is found among the options of `q + [c]`: a keyword stays at its
      place, and the directory option stays last. */
  function Partner(q: string, c: char, i: nat): nat {
    var n := |Words(SplitQuery(q).keywords)|;
    if i < n then i else |Words(SplitQuery(q + [c]).keywords)|
  }

  function PartnerMap(q: string, c: char): nat -> nat {
    i => Partner(q, c, i)
  }

  /** Every option of `q` is covered by its partner among the options of `q + [c]`. */
  lemma OptionsCovered(q: string, c: char, mmode: string)
    ensures var opts, opts' := QueryOptions(q, mmode), QueryOptions(q + [c], mmode);
      forall i :: 0 <= i < |opts| ==>
        Partner(q, c, i) < |opts'| && Covers(opts[i], IsSearchLower(q), opts'[Partner(q, c, i)], IsSearchLower(q + [c]))
  {
    var opts, opts' := QueryOptions(q, mmode), QueryOptions(q + [c], mmode);
    var n := |Words(SplitQuery(q).keywords)|;
    assert |opts| == n + (if SplitQuery(q).dir == [] then 0 else 1) by {
      KeywordOptions(q, mmode);
    }
    KeywordsCovered(q, c, mmode);
    DirCovered(q, c, mmode);
    forall i | 0 <= i < |opts|
      ensures Partner(q, c, i) < |opts'| && Covers(opts[i], IsSearchLower(q), opts'[Partner(q, c, i)], IsSearchLower(q + [c]))
    {
      if i >= n {
        assert SplitQuery(q).dir != [] && i == n;
      }
    }
  }

  /** A row that passes every option of a list passes every option that list covers. */
  lemma RowNarrowsCovered(opts: seq<MatchOption>, lower: bool, opts': seq<MatchOption>, lower': bool, partner: nat -> nat, row: string, sep: char)
    requires IsSeparator(sep) && |opts| > 0
    requires forall i :: 0 <= i < |opts| ==>
      partner(i) < |opts'| && Covers(opts[i], lower, opts'[partner(i)], lower')
    ensures RowScore(opts', Folded(row, lower'), sep) != 0.0 ==> RowScore(opts, Folded(row, lower), sep) != 0.0
  {
    RowScoreAnd(opts', Folded(row, lower'), sep);
    RowScoreAnd(opts, Folded(row, lower), sep);
    if RowScore(opts', Folded(row, lower'), sep) != 0.0 {
      forall i | 0 <= i < |opts|
        ensures IsSubseq(opts[i].pattern.atoms, View(opts[i].mode, Folded(row, lower), sep))
      {
        var j := partner(i);
        KeywordNarrows(opts[i].keyword, opts'[j].keyword, lower, lower', opts[i].mode, row, sep);
      }
    }
  }

  /** An input with an option keeps one when a character is typed. */
  lemma OptionsPersist(q: string, c: char, mmode: string)
    requires |QueryOptions(q, mmode)| > 0
    ensures |QueryOptions(q + [c], mmode)| > 0
  {
    var parts, parts' := SplitQuery(q), SplitQuery(q + [c]);
    NoOptions(q, mmode);
    NoOptions(q + [c], mmode);
    SplitQueryExtend(q, c);
    if parts'.keywords != parts.keywords {
      WordsExtend(parts.keywords, c);
    }
  }

  /** Filtering the rows that pass a looser score and then those that pass a stricter one keeps
      what the stricter one alone keeps, with the same scores, in the same order. */
  lemma {:induction false} KeepRefines(f: string -> real, g: string -> real, rows: seq<string>)
    requires forall r :: r in rows && g(r) != 0.0 ==> f(r) != 0.0
    ensures Keep(g, FilterRows(Keep(f, rows))) == Keep(g, rows)
  {
    if rows != [] {
      var init, row := rows[..|rows| - 1], rows[|rows| - 1];
      KeepRefines(f, g, init);
      var fi := FilterRows(Keep(f, init));
      if f(row) != 0.0 {
        FilterRowsAppend(Keep(f, init), [Scored(f(row), row)]);
        assert FilterRows(Keep(f, rows)) == fi + [row];
        assert (fi + [row])[..|fi|] == fi;
      }
    }
  }

  /** Every row the stricter scorer keeps, the looser one keeps. */
  lemma ScorerNarrows(opts: seq<MatchOption>, lower: bool, opts': seq<MatchOption>, lower': bool, partner: nat -> nat, cands: seq<string>, sep: char)
    requires IsSeparator(sep) && |opts| > 0
    requires forall i :: 0 <= i < |opts| ==>
      partner(i) < |opts'| && Covers(opts[i], lower, opts'[partner(i)], lower')
    ensures forall r :: r in cands && Scorer(opts', lower', sep)(r) != 0.0 ==> Scorer(opts, lower, sep)(r) != 0.0
  {
    forall r | r in cands
      ensures RowScore(opts', Folded(r, lower'), sep) != 0.0 ==> RowScore(opts, Folded(r, lower), sep) != 0.0
    {
      RowNarrowsCovered(opts, lower, opts', lower', partner, r, sep);
    }
  }

  /** Matching against the rows a covered option list kept is matching against all of them. */
  lemma NarrowedMatch(opts: seq<MatchOption>, lower: bool, opts': seq<MatchOption>, lower': bool, partner: nat -> nat, cands: seq<string>, sep: char)
    requires IsSeparator(sep) && |opts| > 0
    requires forall i :: 0 <= i < |opts| ==>
      partner(i) < |opts'| && Covers(opts[i], lower, opts'[partner(i)], lower')
    ensures Matched(opts', FilterRows(Matched(opts, cands, lower, sep)), lower', sep) == Matched(opts', cands, lower', sep)
  {
    ScorerNarrows(opts, lower, opts', lower', partner, cands, sep);
    KeepRefines(Scorer(opts, lower, sep), Scorer(opts', lower', sep), cands);
  }

  /** The incremental search is exact: matching `q + [c]` against the rows `q` kept gives the
      same scored list as matching it against every candidate. This is what lets `getCandidates`
      start from the cached rows of the input without its last character. */
  lemma IncrementalFilterEqualsFullScan(cands: seq<string>, q: string, c: char, mmode: string, sep: char)
    requires IsSeparator(sep) && |QueryOptions(q, mmode)| > 0
    ensures var opts, opts' := QueryOptions(q, mmode), QueryOptions(q + [c], mmode);
      var lower, lower' := IsSearchLower(q), IsSearchLower(q + [c]);
      Matched(opts', FilterRows(Matched(opts, cands, lower, sep)), lower', sep) == Matched(opts', cands, lower', sep)
  {
    OptionsCovered(q, c, mmode);
    NarrowedMatch(QueryOptions(q, mmode), IsSearchLower(q), QueryOptions(q + [c], mmode), IsSearchLower(q + [c]), PartnerMap(q, c), cands, sep);
  }

  /** The rows `Match` keeps for an input, in order: what `uniteMatch` caches as the
      candidates of the next, longer input. */
  function Filtered(cands: seq<string>, q: string, mmode: string, sep: char): seq<string> {
    FilterRows(Matched(QueryOptions(q, mmode), cands, IsSearchLower(q), sep))
  }

  lemma NarrowedAnswerFor(opts: seq<MatchOption>, lower: bool, opts': seq<MatchOption>, lower': bool, partner: nat -> nat,
                          cands: seq<string>, limit: int, sep: char)
    requires IsSeparator(sep) && |opts| > 0 && |opts'| > 0
    requires forall i :: 0 <= i < |opts| ==>
      partner(i) < |opts'| && Covers(opts[i], lower, opts'[partner(i)], lower')
    ensures var narrowed := FilterRows(Matched(opts, cands, lower, sep));
      && FilterRows(Matched(opts', narrowed, lower', sep)) == FilterRows(Matched(opts', cands, lower', sep))
      && AnswerFor(opts', lower', narrowed, limit, sep) == AnswerFor(opts', lower', cands, limit, sep)
  {
    NarrowedMatch(opts, lower, opts', lower', partner, cands, sep);
  }

  /** Starting from the rows the shorter input kept changes neither the rows nor the answer of
      the longer one. */
  lemma NarrowedAnswer(cands: seq<string>, q: string, c: char, limit: int, mmode: string, sep: char)
    requires IsSeparator(sep) && |QueryOptions(q, mmode)| > 0
    ensures Filtered(Filtered(cands, q, mmode, sep), q + [c], mmode, sep) == Filtered(cands, q + [c], mmode, sep)
    ensures Answer(Filtered(cands, q, mmode, sep), q + [c], limit, mmode, sep) == Answer(cands, q + [c], limit, mmode, sep)
  {
    OptionsCovered(q, c, mmode);
    OptionsPersist(q, c, mmode);
    NarrowedAnswerFor(QueryOptions(q, mmode), IsSearchLower(q), QueryOptions(q + [c], mmode), IsSearchLower(q + [c]),
                      PartnerMap(q, c), cands, limit, sep);
  }
}
