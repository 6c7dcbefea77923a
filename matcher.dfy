/**
 * The fuzzy pattern `c1[^c1]*c2[^c2]*...cn` that `get_regex_prog` compiles, and what Python's
 * `re.search` does with it: try each start from the left; at a start, match `c1`, let `[^c1]*`
 * run as far as it can (up to the next `c1` or the end), then back off one character at a time
 * until the rest of the pattern matches.
 */
module Matcher {
  import opened Wrappers
  import opened Sequences

  /** The literal characters of a compiled keyword; never empty, since compiling reads the
      keyword's last character. */
  type Atoms = s: seq<char> | |s| > 0 witness "a"

  /** Where a match starts and ends (`result.start()`, `result.end()`). */
  datatype Span = Span(start: nat, end: nat)

  /** First index at or after `j` that holds `c`, or `|t|`: where the greedy `[^c]*` stops. */
  function GapEnd(t: seq<char>, c: char, j: nat): (r: nat)
    requires j <= |t|
    ensures j <= r <= |t|
    ensures forall m :: j <= m < r ==> t[m] != c
    ensures r < |t| ==> t[r] == c
    decreases |t| - j
  {
    if j == |t| || t[j] == c then j else GapEnd(t, c, j + 1)
  }

  /** The end of the match the regex engine reports when it starts at `i`, if any. */
  function MatchAt(p: Atoms, t: seq<char>, i: nat): Option<nat>
    decreases |p|, 1, 0
  {
    if i >= |t| || t[i] != p[0] then None
    else if |p| == 1 then Some(i + 1)
    else TryGap(p, t, i, GapEnd(t, p[0], i + 1))
  }

  /** Backtracking over the gap after `p[0]`: try the rest of the pattern at `k`, `k - 1`, ...,
      down to `i + 1`, and keep the first that matches. */
  function TryGap(p: Atoms, t: seq<char>, i: nat, k: nat): Option<nat>
    requires |p| > 1 && i < k
    decreases |p|, 0, k
  {
    match MatchAt(p[1..], t, k)
    case Some(e) => Some(e)
    case None => if k == i + 1 then None else TryGap(p, t, i, k - 1)
  }

  /** `re.search`: the leftmost start at which the pattern matches. */
  function SearchFrom(p: Atoms, t: seq<char>, s: nat): Option<Span>
    decreases |t| - s
  {
    if s >= |t| then None
    else match MatchAt(p, t, s)
      case Some(e) => Some(Span(s, e))
      case None => SearchFrom(p, t, s + 1)
  }

  function Search(p: Atoms, t: seq<char>): Option<Span> {
    SearchFrom(p, t, 0)
  }

  /** The strings the regex `p[0] [^p[0]]* p[1] [^p[1]]* ... p[n-1]` matches as a whole. */
  ghost predicate InLanguage(p: Atoms, s: seq<char>)
    decreases |p|
  {
    && |s| > 0
    && s[0] == p[0]
    && if |p| == 1 then |s| == 1
       else exists k :: 1 <= k <= |s| && p[0] !in s[1..k] && InLanguage(p[1..], s[k..])
  }

  /** `p[0]`, a run without `p[0]`, then a match of the rest is a match of `p`. */
  lemma InLanguageCons(p: Atoms, w: seq<char>, k: nat)
    requires |p| > 1 && 1 <= k <= |w| && w[0] == p[0]
    requires forall j :: 1 <= j < k ==> w[j] != p[0]
    requires InLanguage(p[1..], w[k..])
    ensures InLanguage(p, w)
  {
    forall j | 0 <= j < k - 1 ensures w[1..k][j] != p[0] {
      assert w[1..k][j] == w[1 + j];
    }
    assert p[0] !in w[1..k];
  }

  lemma {:induction false} TryGapWitness(p: Atoms, t: seq<char>, i: nat, k: nat) returns (k': nat)
    requires |p| > 1 && i < k && TryGap(p, t, i, k).Some?
    ensures i < k' <= k && MatchAt(p[1..], t, k') == TryGap(p, t, i, k)
    decreases k
  {
    if MatchAt(p[1..], t, k).Some? {
      k' := k;
    } else {
      k' := TryGapWitness(p, t, i, k - 1);
    }
  }

  lemma {:induction false} TryGapFinds(p: Atoms, t: seq<char>, i: nat, k: nat, k': nat)
    requires |p| > 1 && i < k' <= k && MatchAt(p[1..], t, k').Some?
    ensures TryGap(p, t, i, k).Some?
    decreases k
  {
    if k != k' && MatchAt(p[1..], t, k).None? {
      TryGapFinds(p, t, i, k - 1, k');
    }
  }

  /** What the engine reports at a start is a match of the whole pattern. */
  lemma {:induction false} MatchAtSound(p: Atoms, t: seq<char>, i: nat)
    requires MatchAt(p, t, i).Some?
    ensures var e := MatchAt(p, t, i).value; i < e <= |t| && InLanguage(p, t[i..e])
    decreases |p|
  {
    var e := MatchAt(p, t, i).value;
    assert i < |t| && t[i] == p[0];
    if |p| > 1 {
      var g := GapEnd(t, p[0], i + 1);
      assert MatchAt(p, t, i) == TryGap(p, t, i, g);
      var k := TryGapWitness(p, t, i, g);
      MatchAtSound(p[1..], t, k);
      var s := t[i..e];
      assert s[k - i..] == t[k..e];
      InLanguageCons(p, s, k - i);
    }
  }

  /** The engine finds a match at every start where the pattern can match. */
  lemma {:induction false} MatchAtComplete(p: Atoms, t: seq<char>, i: nat, e: nat)
    requires i <= e <= |t|
    ensures InLanguage(p, t[i..e]) ==> MatchAt(p, t, i).Some?
    decreases |p|
  {
    var s := t[i..e];
    if InLanguage(p, s) {
      assert t[i] == s[0] == p[0];
      if |p| > 1 {
        var k :| 1 <= k <= |s| && p[0] !in s[1..k] && InLanguage(p[1..], s[k..]);
        assert s[k..] == t[i + k..e];
        MatchAtComplete(p[1..], t, i + k, e);
        forall m | i + 1 <= m < i + k ensures t[m] != p[0] {
          assert t[m] == s[1..k][m - i - 1];
        }
        var g := GapEnd(t, p[0], i + 1);
        assert i + k <= g;
        TryGapFinds(p, t, i, g, i + k);
        assert MatchAt(p, t, i) == TryGap(p, t, i, g);
      }
    }
  }

  lemma {:induction false} SearchFromSpec(p: Atoms, t: seq<char>, s: nat)
    ensures SearchFrom(p, t, s).Some? ==>
      var sp := SearchFrom(p, t, s).value;
      && s <= sp.start < |t|
      && MatchAt(p, t, sp.start) == Some(sp.end)
      && forall j :: s <= j < sp.start ==> MatchAt(p, t, j).None?
    ensures SearchFrom(p, t, s).None? ==> forall j :: s <= j ==> MatchAt(p, t, j).None?
    decreases |t| - s
  {
    if s < |t| && MatchAt(p, t, s).None? {
      SearchFromSpec(p, t, s + 1);
    }
  }

  lemma {:induction false} SearchFromFinds(p: Atoms, t: seq<char>, s: nat, j: nat)
    requires s <= j && MatchAt(p, t, j).Some?
    ensures SearchFrom(p, t, s).Some? && SearchFrom(p, t, s).value.start <= j
    decreases |t| - s
  {
    if MatchAt(p, t, s).None? {
      SearchFromFinds(p, t, s + 1, j);
    }
  }

  /** `re.search` reports a match of the pattern, and no match starts further left. */
  lemma SearchLeftmost(p: Atoms, t: seq<char>)
    ensures match Search(p, t)
      case Some(sp) =>
        && sp.start < sp.end <= |t|
        && InLanguage(p, t[sp.start..sp.end])
        && forall s: nat, e: nat :: s < sp.start && s <= e <= |t| ==> !InLanguage(p, t[s..e])
      case None => forall s: nat, e: nat :: s <= e <= |t| ==> !InLanguage(p, t[s..e])
  {
    SearchFromSpec(p, t, 0);
    if Search(p, t).Some? {
      MatchAtSound(p, t, Search(p, t).value.start);
    }
    forall s: nat, e: nat | s <= e <= |t| ensures InLanguage(p, t[s..e]) ==> MatchAt(p, t, s).Some? {
      MatchAtComplete(p, t, s, e);
    }
  }

  /** Every whole match contains the keyword as a subsequence and is at least as long. */
  lemma {:induction false} LanguageIsSubseq(p: Atoms, s: seq<char>)
    requires InLanguage(p, s)
    ensures IsSubseq(p, s) && |s| >= |p|
    decreases |p|
  {
    if |p| > 1 {
      var k :| 1 <= k <= |s| && p[0] !in s[1..k] && InLanguage(p[1..], s[k..]);
      LanguageIsSubseq(p[1..], s[k..]);
      SubseqPrependRight(p[1..], s[1..k], s[k..]);
      assert s[1..k] + s[k..] == s[1..];
    } else {
      assert s == p;
      SubseqRefl(p);
    }
  }

  /** The last index in `[lo, hi)` that holds `c`. */
  function LastBefore(t: seq<char>, c: char, lo: nat, hi: nat): (r: nat)
    requires lo < hi <= |t| && t[lo] == c
    ensures lo <= r < hi && t[r] == c
    ensures forall m :: r < m < hi ==> t[m] != c
    decreases hi
  {
    if t[hi - 1] == c then hi - 1 else LastBefore(t, c, lo, hi - 1)
  }

  /** A keyword that is a subsequence of `t[i..]` matches somewhere in it: take each keyword
      character at its last occurrence before the next one's. */
  lemma {:induction false} SubseqHasMatch(p: Atoms, t: seq<char>, i: nat) returns (s: nat, e: nat)
    requires i <= |t| && IsSubseq(p, t[i..])
    ensures i <= s <= e <= |t| && InLanguage(p, t[s..e])
    decreases |t| - i
  {
    var u := t[i..];
    assert u[1..] == t[i + 1..];
    if p[0] == u[0] && IsSubseq(p[1..], u[1..]) {
      if |p| == 1 {
        s, e := i, i + 1;
      } else {
        var s', e' := SubseqHasMatch(p[1..], t, i + 1);
        s := LastBefore(t, p[0], i, s');
        e := e';
        var w, k := t[s..e], s' - s;
        assert w[k..] == t[s'..e];
        InLanguageCons(p, w, k);
      }
    } else {
      s, e := SubseqHasMatch(p, t, i + 1);
    }
  }

  /** The filter's meaning: the pattern finds a match exactly when the keyword's characters
      occur in the text in order. */
  lemma SearchFindsIffSubseq(p: Atoms, t: seq<char>)
    ensures Search(p, t).Some? <==> IsSubseq(p, t)
  {
    SearchLeftmost(p, t);
    if Search(p, t).Some? {
      var sp := Search(p, t).value;
      LanguageIsSubseq(p, t[sp.start..sp.end]);
      SubseqOfSlice(p, t, sp.start, sp.end);
    }
    if IsSubseq(p, t) {
      assert t[0..] == t;
      var s, e := SubseqHasMatch(p, t, 0);
      MatchAtComplete(p, t, s, e);
      SearchFromFinds(p, t, 0, s);
    }
  }

  /** A match spans at least as many characters as the keyword has. */
  lemma SpanCoversKeyword(p: Atoms, t: seq<char>)
    requires Search(p, t).Some?
    ensures Search(p, t).value.end - Search(p, t).value.start >= |p|
  {
    SearchLeftmost(p, t);
    var sp := Search(p, t).value;
    LanguageIsSubseq(p, t[sp.start..sp.end]);
  }

  lemma {:induction false} LiteralInLanguage(p: Atoms)
    ensures InLanguage(p, p)
    decreases |p|
  {
    if |p| > 1 {
      LiteralInLanguage(p[1..]);
      assert p[1..1] == [];
    }
  }

  /** A keyword's own text matches its pattern, from its first to its last character. */
  lemma KeywordMatchesItself(p: Atoms)
    ensures Search(p, p) == Some(Span(0, |p|))
  {
    LiteralInLanguage(p);
    assert p[0..|p|] == p;
    MatchAtComplete(p, p, 0, |p|);
    MatchAtSound(p, p, 0);
    var e := MatchAt(p, p, 0).value;
    LanguageIsSubseq(p, p[0..e]);
  }

  /** A text that contains the keyword verbatim at `i` is matched at `i` or further left. */
  lemma OccurrenceIsFound(p: Atoms, t: seq<char>, i: nat)
    requires i + |p| <= |t| && t[i..i + |p|] == p
    ensures Search(p, t).Some? && Search(p, t).value.start <= i
  {
    LiteralInLanguage(p);
    MatchAtComplete(p, t, i, i + |p|);
    SearchFromFinds(p, t, 0, i);
  }
}
