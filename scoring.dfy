/**
 * The scorers `path_score`, `filename_score`, `dir_score`, the per-row AND of sub-scores in
 * `Match`, and `GetFilterRows`. Scores are reals: the model does not round like floats do.
 */
module Scoring {
  import opened Wrappers
  import opened Text
  import opened Sequences
  import opened Matcher
  import opened Regex

  /** Where an option's pattern is applied. */
  datatype Mode = Path | FilenameOnly | Dir

  /** How `Match` reads a mode name: two names are special, any other scores the whole path. */
  function ModeOf(mmode: string): Mode {
    if mmode == "filename-only" then FilenameOnly else if mmode == "dir" then Dir else Path
  }

  /** One `(kw, prog, mode)` triple of `uniteMatch`. */
  datatype MatchOption = MatchOption(keyword: string, pattern: Pattern, mode: Mode)

  /** One `(score, row)` pair of the scored list. */
  datatype Scored = Scored(score: real, row: string)

  lemma DivAntitone(a: real, d: real, d': real)
    requires 0.0 <= a && 0.0 < d' <= d
    ensures 0.0 <= a / d <= a / d'
  {
    assert a / d * d == a;
    assert a / d' * d' == a;
    assert a / d * d' <= a / d * d;
  }

  lemma DivPositive(a: real, d: real)
    requires 0.0 < a && 0.0 < d
    ensures 0.0 < a / d
  {
    assert a / d * d == a;
  }

  /** The score of a match `width` characters wide in a line of `len` characters: the
      `1000.0 / (end - start + 1 + (len(line) + 1) / 100.0)` of `path_score` and `dir_score`. */
  function SpanScore(width: nat, len: nat): (r: real)
    ensures r > 0.0
  {
    var d := (width + 1) as real + (len + 1) as real / 100.0;
    DivPositive(1000.0, d);
    1000.0 / d
  }

  lemma DivStrictAntitone(a: real, d: real, d': real)
    requires 0.0 < a && 0.0 < d' < d
    ensures a / d < a / d'
  {
    var x, y := a / d, a / d';
    assert x * d == a && y * d' == a;
    assert x > 0.0 by { DivPositive(a, d); }
    assert x * d' < x * d;
  }

  /** A narrower match never scores lower, and a strictly narrower one scores strictly higher. */
  lemma SpanScoreAntitone(k: nat, width: nat, len: nat)
    requires k <= width
    ensures SpanScore(width, len) <= SpanScore(k, len)
    ensures k < width ==> SpanScore(width, len) < SpanScore(k, len)
  {
    var d, d' := (width + 1) as real + (len + 1) as real / 100.0, (k + 1) as real + (len + 1) as real / 100.0;
    DivAntitone(1000.0, d, d');
    if k < width {
      DivStrictAntitone(1000.0, d, d');
    }
  }

  /** `path_score`: positive exactly when the keyword occurs in order in the line; the tighter
      the match, the higher, and a verbatim occurrence is the best a line of that length gets. */
  function PathScore(p: Atoms, line: string): (r: real)
    ensures r >= 0.0
    ensures r > 0.0 <==> IsSubseq(p, line)
    ensures r <= SpanScore(|p|, |line|)
  {
    SearchFindsIffSubseq(p, line);
    match Search(p, line)
    case None => 0.0
    case Some(sp) =>
      SpanCoversKeyword(p, line);
      SpanScoreAntitone(|p|, sp.end - sp.start, |line|);
      SpanScore(sp.end - sp.start, |line|)
  }

  /** `filename_score`: searches only the file name, and also rewards a match near its start. */
  function FilenameScore(p: Atoms, path: string, sep: char): (r: real)
    ensures r >= 0.0
    ensures r > 0.0 <==> IsSubseq(p, Basename(path, sep))
  {
    var name := Basename(path, sep);
    SearchFindsIffSubseq(p, name);
    match Search(p, name)
    case None => 0.0
    case Some(sp) =>
      var d := (sp.start * 2) as real + (sp.end - sp.start + 1) as real
               + (|name| + 1) as real / 100.0 + (|path| + 1) as real / 1000.0;
      DivPositive(1000.0, d);
      1000.0 / d
  }

  /** `dir_score` as intended: searches the directory part, but measures the whole line. */
  function DirScore(p: Atoms, line: string, sep: char): (r: real)
    ensures r >= 0.0
    ensures r > 0.0 <==> IsSubseq(p, Dirname(line, sep))
    ensures r <= SpanScore(|p|, |line|)
  {
    var dir := Dirname(line, sep);
    SearchFindsIffSubseq(p, dir);
    match Search(p, dir)
    case None => 0.0
    case Some(sp) =>
      SpanCoversKeyword(p, dir);
      SpanScoreAntitone(|p|, sp.end - sp.start, |line|);
      SpanScore(sp.end - sp.start, |line|)
  }

  /** The part of a line an option's pattern is searched in. */
  function View(mode: Mode, line: string, sep: char): string {
    match mode
    case Path => line
    case FilenameOnly => Basename(line, sep)
    case Dir => Dirname(line, sep)
  }

  /** One sub-score, dispatched on the option's mode as `Match` does. */
  function OptScore(o: MatchOption, line: string, sep: char): (r: real)
    ensures r >= 0.0
    ensures r != 0.0 <==> IsSubseq(o.pattern.atoms, View(o.mode, line, sep))
  {
    match o.mode
    case FilenameOnly => FilenameScore(o.pattern.atoms, line, sep)
    case Dir => DirScore(o.pattern.atoms, line, sep)
    case Path => PathScore(o.pattern.atoms, line)
  }

  /** The sub-scores of a line, one per option. */
  function SubScores(opts: seq<MatchOption>, line: string, sep: char): (s: seq<real>)
    ensures |s| == |opts|
    decreases |opts|
  {
    if opts == [] then [] else [OptScore(opts[0], line, sep)] + SubScores(opts[1..], line, sep)
  }

  /** Each sub-score is its option's score, and none is negative. */
  lemma {:induction false} SubScoresSpec(opts: seq<MatchOption>, line: string, sep: char)
    ensures forall i :: 0 <= i < |opts| ==> SubScores(opts, line, sep)[i] == OptScore(opts[i], line, sep) >= 0.0
    decreases |opts|
  {
    if opts != [] {
      var s := SubScores(opts, line, sep);
      var t := SubScores(opts[1..], line, sep);
      assert s == [OptScore(opts[0], line, sep)] + t;
      SubScoresSpec(opts[1..], line, sep);
      forall i | 0 <= i < |opts| ensures s[i] == OptScore(opts[i], line, sep) >= 0.0 {
        if i > 0 {
          assert s[i] == t[i - 1] && opts[i] == opts[1..][i - 1];
        }
      }
    }
  }

  /** The inner loop of `Match` from a running total: add each sub-score in turn, and stop
      with 0 at the first sub-score that is 0. */
  function Total(scores: seq<real>, total: real): real
    decreases |scores|
  {
    if scores == [] then total
    else if scores[0] == 0.0 then 0.0 else Total(scores[1..], total + scores[0])
  }

  /** One step of the running total from position `j`. */
  lemma TotalStep(scores: seq<real>, j: nat, total: real)
    requires j < |scores|
    ensures Total(scores[j..], total) ==
      if scores[j] == 0.0 then 0.0 else Total(scores[j + 1..], total + scores[j])
  {
    assert scores[j..][0] == scores[j] && scores[j..][1..] == scores[j + 1..];
  }

  /** The total `Match` computes for one line. */
  function RowScore(opts: seq<MatchOption>, line: string, sep: char): real {
    Total(SubScores(opts, line, sep), 0.0)
  }

  /** A running total of non-negative sub-scores never drops below where it started, unless it
      is reset to 0. */
  lemma {:induction false} TotalGrows(scores: seq<real>, total: real)
    requires total >= 0.0
    requires forall k :: 0 <= k < |scores| ==> scores[k] >= 0.0
    ensures Total(scores, total) >= 0.0
    ensures Total(scores, total) != 0.0 ==> Total(scores, total) >= total
    decreases |scores|
  {
    if scores != [] && scores[0] != 0.0 {
      TotalGrows(scores[1..], total + scores[0]);
    }
  }

  /** A running total ends non-zero exactly when it is non-zero already or there are
      sub-scores, and none of them is 0. */
  lemma {:induction false} TotalNonZero(scores: seq<real>, total: real)
    requires total >= 0.0
    requires forall k :: 0 <= k < |scores| ==> scores[k] >= 0.0
    ensures Total(scores, total) != 0.0 <==>
      (total > 0.0 || |scores| > 0) && forall k :: 0 <= k < |scores| ==> scores[k] != 0.0
    decreases |scores|
  {
    if scores != [] && scores[0] != 0.0 {
      var tail := scores[1..];
      TotalNonZero(tail, total + scores[0]);
      forall k | 1 <= k < |scores| ensures scores[k] == tail[k - 1] {
      }
    }
  }

  /** A non-zero total of non-negative sub-scores is at least each of them. */
  lemma {:induction false} TotalCovers(scores: seq<real>, total: real, i: nat)
    requires total >= 0.0 && i < |scores|
    requires forall k :: 0 <= k < |scores| ==> scores[k] >= 0.0
    ensures Total(scores, total) != 0.0 ==> Total(scores, total) >= total + scores[i]
    decreases i
  {
    if scores[0] != 0.0 {
      var tail := scores[1..];
      if i == 0 {
        TotalGrows(tail, total + scores[0]);
      } else {
        TotalCovers(tail, total + scores[0], i - 1);
        assert tail[i - 1] == scores[i];
      }
    }
  }

  /** The plain sum of a list of sub-scores. */
  function Sum(scores: seq<real>): real
    decreases |scores|
  {
    if scores == [] then 0.0 else scores[0] + Sum(scores[1..])
  }

  /** A running total that does not end at 0 met no zero sub-score, so it is the start plus
      the sum of every sub-score. */
  lemma {:induction false} TotalSum(scores: seq<real>, total: real)
    ensures Total(scores, total) != 0.0 ==> Total(scores, total) == total + Sum(scores)
    decreases |scores|
  {
    if scores != [] && scores[0] != 0.0 {
      TotalSum(scores[1..], total + scores[0]);
    }
  }

  /** A line's total is never negative, and it is 0 when there is no option. */
  lemma RowScoreSign(opts: seq<MatchOption>, line: string, sep: char)
    ensures RowScore(opts, line, sep) >= 0.0
    ensures opts == [] ==> RowScore(opts, line, sep) == 0.0
  {
    SubScoresSpec(opts, line, sep);
    TotalGrows(SubScores(opts, line, sep), 0.0);
  }

  /** Every option's keyword occurs, in order, in the part of the line its mode selects. */
  predicate PassesAll(opts: seq<MatchOption>, line: string, sep: char) {
    forall i :: 0 <= i < |opts| ==> IsSubseq(opts[i].pattern.atoms, View(opts[i].mode, line, sep))
  }

  /** AND semantics: a line scores (positively) exactly when there is at least one option and
      every option's keyword occurs in order in the part of the line its mode selects; the
      total is then the sum of the sub-scores, so at least every one of them. */
  lemma RowScoreAnd(opts: seq<MatchOption>, line: string, sep: char)
    ensures RowScore(opts, line, sep) >= 0.0
    ensures RowScore(opts, line, sep) != 0.0 <==>
      |opts| > 0 && PassesAll(opts, line, sep)
    ensures RowScore(opts, line, sep) != 0.0 ==>
      forall i :: 0 <= i < |opts| ==> RowScore(opts, line, sep) >= OptScore(opts[i], line, sep) > 0.0
    ensures RowScore(opts, line, sep) != 0.0 ==> RowScore(opts, line, sep) == Sum(SubScores(opts, line, sep))
  {
    var s := SubScores(opts, line, sep);
    TotalSum(s, 0.0);
    SubScoresSpec(opts, line, sep);
    TotalGrows(s, 0.0);
    TotalNonZero(s, 0.0);
    forall i | 0 <= i < |opts| ensures RowScore(opts, line, sep) != 0.0 ==>
      RowScore(opts, line, sep) >= OptScore(opts[i], line, sep)
    {
      TotalCovers(s, 0.0, i);
    }
  }


  /** `GetFilterRows`: the rows of a scored list, in its order. */
  function FilterRows(xs: seq<Scored>): seq<string> {
    seq(|xs|, i requires 0 <= i < |xs| => xs[i].row)
  }

  lemma FilterRowsAppend(a: seq<Scored>, b: seq<Scored>)
    ensures FilterRows(a + b) == FilterRows(a) + FilterRows(b)
  {
  }

  /** The rows with a non-zero score under `f`, in input order, paired with that score. */
  function Keep(f: string -> real, rows: seq<string>): seq<Scored> {
    if rows == [] then []
    else
      var init := Keep(f, rows[..|rows| - 1]);
      var row := rows[|rows| - 1];
      if f(row) != 0.0 then init + [Scored(f(row), row)] else init
  }

  /** Every row with a non-zero score is kept as often as it occurs, and no other row is kept. */
  lemma {:induction false} KeepCounts(f: string -> real, rows: seq<string>)
    ensures forall r :: multiset(FilterRows(Keep(f, rows)))[r] == if f(r) != 0.0 then multiset(rows)[r] else 0
  {
    if rows != [] {
      var init, row := rows[..|rows| - 1], rows[|rows| - 1];
      assert rows == init + [row];
      KeepCounts(f, init);
      if f(row) != 0.0 {
        var mi := Keep(f, init);
        FilterRowsAppend(mi, [Scored(f(row), row)]);
        assert FilterRows([Scored(f(row), row)]) == [row];
      }
    }
  }

  /** Keeping rows filters without reordering: an ordered subsequence of the input, each row
      with its non-zero score, and each scoring row kept as often as it occurs. */
  lemma KeepFilters(f: string -> real, rows: seq<string>)
    ensures var m := Keep(f, rows);
      && IsSubseq(FilterRows(m), rows)
      && (forall i :: 0 <= i < |m| ==> m[i].score != 0.0 && m[i].score == f(m[i].row))
      && (forall r :: multiset(FilterRows(m))[r] == if f(r) != 0.0 then multiset(rows)[r] else 0)
  {
    KeepOrder(f, rows);
    KeepCounts(f, rows);
  }

  lemma {:induction false} KeepOrder(f: string -> real, rows: seq<string>)
    ensures var m := Keep(f, rows);
      && IsSubseq(FilterRows(m), rows)
      && (forall i :: 0 <= i < |m| ==> m[i].score != 0.0 && m[i].score == f(m[i].row))
  {
    if rows != [] {
      var init := rows[..|rows| - 1];
      var row := rows[|rows| - 1];
      assert rows == init + [row];
      KeepOrder(f, init);
      var mi := Keep(f, init);
      if f(row) != 0.0 {
        var m := mi + [Scored(f(row), row)];
        FilterRowsAppend(mi, [Scored(f(row), row)]);
        assert FilterRows(m) == FilterRows(mi) + [row];
        SubseqSnoc(FilterRows(mi), init, row);
        assert forall i :: 0 <= i < |mi| ==> m[i] == mi[i];
      } else {
        SubseqAppendRight(FilterRows(mi), init, [row]);
      }
    }
  }

  /** The score `Match` gives a row. */
  function Scorer(opts: seq<MatchOption>, lower: bool, sep: char): string -> real {
    row => RowScore(opts, Folded(row, lower), sep)
  }

  /** What `Match` returns: the rows with a non-zero total, in input order, with their totals. */
  function Matched(opts: seq<MatchOption>, rows: seq<string>, lower: bool, sep: char): seq<Scored> {
    Keep(Scorer(opts, lower, sep), rows)
  }

  /** `Match` filters without reordering: its rows are a subsequence of the input, each carries
      its positive total, every row with a non-zero total is kept as often as it occurs, no
      other row is kept, and with no option nothing is. */
  lemma MatchedFilters(opts: seq<MatchOption>, rows: seq<string>, lower: bool, sep: char)
    ensures var m := Matched(opts, rows, lower, sep);
      && IsSubseq(FilterRows(m), rows)
      && (forall i :: 0 <= i < |m| ==> m[i].score > 0.0 && m[i].score == RowScore(opts, Folded(m[i].row, lower), sep))
      && (forall r :: multiset(FilterRows(m))[r] ==
            if RowScore(opts, Folded(r, lower), sep) != 0.0 then multiset(rows)[r] else 0)
      && (opts == [] ==> m == [])
  {
    var f := Scorer(opts, lower, sep);
    KeepFilters(f, rows);
    forall r ensures f(r) >= 0.0 && (opts == [] ==> f(r) == 0.0) {
      RowScoreSign(opts, Folded(r, lower), sep);
    }
    if opts == [] {
      KeepNone(f, rows);
    }
  }

  /** One more row: `Keep` appends it, with its score, exactly when the score is non-zero. */
  lemma KeepStep(f: string -> real, rows: seq<string>, i: nat, score: real)
    requires i < |rows| && score == f(rows[i])
    ensures Keep(f, rows[..i + 1]) ==
      if score != 0.0 then Keep(f, rows[..i]) + [Scored(score, rows[i])] else Keep(f, rows[..i])
  {
    assert rows[..i + 1][..i] == rows[..i];
  }

  lemma {:induction false} KeepNone(f: string -> real, rows: seq<string>)
    requires forall r :: f(r) == 0.0
    ensures Keep(f, rows) == []
  {
    if rows != [] {
      KeepNone(f, rows[..|rows| - 1]);
    }
  }

  /** The inner loop of `Match`: add up the sub-scores of one line, stopping with 0 at the
      first sub-score that is 0. */
  method ScoreRow(opts: seq<MatchOption>, line: string, sep: char) returns (total: real)
    ensures total == RowScore(opts, line, sep)
  {
    ghost var scores := SubScores(opts, line, sep);
    SubScoresSpec(opts, line, sep);
    total := 0.0;
    var j := 0;
    assert scores[0..] == scores;
    while j < |opts|
      invariant 0 <= j <= |opts|
      invariant RowScore(opts, line, sep) == Total(scores[j..], total)
    {
      var score := OptScore(opts[j], line, sep);
      TotalStep(scores, j, total);
      if score == 0.0 {
        total := 0.0;
        break;
      }
      total := total + score;
      j := j + 1;
    }
    if j == |opts| {
      assert scores[j..] == [];
    }
  }

  /** `Match`: score every row against every option, dropping a row at its first zero
      sub-score, and keep the rows with a non-zero total. */
  method Match(opts: seq<MatchOption>, rows: seq<string>, lower: bool, sep: char) returns (res: seq<Scored>)
    ensures res == Matched(opts, rows, lower, sep)
  {
    ghost var f := Scorer(opts, lower, sep);
    res := [];
    for i := 0 to |rows|
      invariant res == Keep(f, rows[..i])
    {
      var total := ScoreRow(opts, Folded(rows[i], lower), sep);
      KeepStep(f, rows, i, total);
      if total != 0.0 {
        res := res + [Scored(total, rows[i])];
      }
    }
    assert rows[..|rows|] == rows;
  }


  /** Python's exception for an undefined name. */
  datatype PyError = NameError(name: string)

  /** `dir_score` as the file has it: its first step evaluates `os.path.dirname`, and the
      module never imports `os`. */
  function DirScoreAsWritten(p: Atoms, line: string): Result<real, PyError> {
    Failure(NameError("os"))
  }

  /** The sub-score of each option with `dir_score` as written: a `dir` option raises. The
      list is computed in full, but the loop below stops at its first zero or error, as the
      inner loop of `Match` does. */
  function SubScoresAsWritten(opts: seq<MatchOption>, line: string, sep: char): (s: seq<Result<real, PyError>>)
    ensures |s| == |opts|
    decreases |opts|
  {
    if opts == [] then []
    else
      var sub := if opts[0].mode == Dir then DirScoreAsWritten(opts[0].pattern.atoms, line)
                 else Success(OptScore(opts[0], line, sep));
      [sub] + SubScoresAsWritten(opts[1..], line, sep)
  }

  lemma {:induction false} SubScoresAsWrittenAt(opts: seq<MatchOption>, line: string, sep: char, i: nat)
    requires i < |opts|
    ensures SubScoresAsWritten(opts, line, sep)[i] ==
      if opts[i].mode == Dir then Failure(NameError("os")) else Success(OptScore(opts[i], line, sep))
    decreases i
  {
    if i > 0 {
      SubScoresAsWrittenAt(opts[1..], line, sep, i - 1);
      assert opts[1..][i - 1] == opts[i];
    }
  }

  /** The inner loop of `Match` as written, from a running total: stop at the first error or
      zero sub-score, otherwise add. */
  function LoopAsWritten(subs: seq<Result<real, PyError>>, total: real): Result<real, PyError>
    decreases |subs|
  {
    if subs == [] then Success(total)
    else match subs[0]
      case Failure(err) => Failure(err)
      case Success(score) => if score == 0.0 then Success(0.0) else LoopAsWritten(subs[1..], total + score)
  }

  /** Scoring one line as `Match` is written. */
  function RowScoreAsWritten(opts: seq<MatchOption>, line: string, sep: char): Result<real, PyError> {
    LoopAsWritten(SubScoresAsWritten(opts, line, sep), 0.0)
  }

  /** The loop reaches the first error when every sub-score before it is non-zero. */
  lemma {:induction false} LoopRaises(subs: seq<Result<real, PyError>>, total: real, d: nat)
    requires d < |subs| && subs[d].Failure?
    requires forall i :: 0 <= i < d ==> subs[i].Success? && subs[i].value != 0.0
    ensures LoopAsWritten(subs, total) == subs[d]
    decreases d
  {
    if d > 0 {
      var tail := subs[1..];
      assert forall i :: 0 <= i < d - 1 ==> tail[i] == subs[i + 1];
      LoopRaises(tail, total + subs[0].value, d - 1);
    }
  }

  /** Without errors the loop as written is the running total of the corrected model. */
  lemma {:induction false} LoopAgrees(subs: seq<Result<real, PyError>>, scores: seq<real>, total: real)
    requires |subs| == |scores|
    requires forall i :: 0 <= i < |subs| ==> subs[i] == Success(scores[i])
    ensures LoopAsWritten(subs, total) == Success(Total(scores, total))
    decreases |subs|
  {
    if subs != [] && scores[0] != 0.0 {
      var tail, rest := subs[1..], scores[1..];
      assert forall i :: 0 <= i < |tail| ==> tail[i] == subs[i + 1] && rest[i] == scores[i + 1];
      LoopAgrees(tail, rest, total + scores[0]);
    }
  }

  /** As written, a line that passes every keyword and reaches the directory option raises
      `NameError` instead of being scored. */
  lemma DirFilterRaisesAsWritten(opts: seq<MatchOption>, line: string, sep: char, d: nat)
    requires d < |opts| && opts[d].mode == Dir
    requires forall i :: 0 <= i < d ==> opts[i].mode != Dir && OptScore(opts[i], line, sep) != 0.0
    ensures RowScoreAsWritten(opts, line, sep) == Failure(NameError("os"))
  {
    var subs := SubScoresAsWritten(opts, line, sep);
    forall i | 0 <= i <= d
      ensures subs[i] == if opts[i].mode == Dir then Failure(NameError("os")) else Success(OptScore(opts[i], line, sep))
    {
      SubScoresAsWrittenAt(opts, line, sep, i);
    }
    LoopRaises(subs, 0.0, d);
  }

  /** The defect is confined to `dir_score`: without a directory option the loop as written
      computes the corrected total. */
  lemma RowScoreAsWrittenWithoutDir(opts: seq<MatchOption>, line: string, sep: char)
    requires forall i :: 0 <= i < |opts| ==> opts[i].mode != Dir
    ensures RowScoreAsWritten(opts, line, sep) == Success(RowScore(opts, line, sep))
  {
    var subs, scores := SubScoresAsWritten(opts, line, sep), SubScores(opts, line, sep);
    SubScoresSpec(opts, line, sep);
    forall i | 0 <= i < |opts| ensures subs[i] == Success(scores[i]) {
      SubScoresAsWrittenAt(opts, line, sep, i);
    }
    LoopAgrees(subs, scores, 0.0);
  }
}
