/**
 * String helpers the filter relies on: Python's `str.lower` (ASCII part),
 * `str.split()`, `str.split(';')`, `str.rfind`, the directory/file name split
 * of a path, and Python's ordering of strings.
 */
module Text {

  /** The character class `[A-Z]` of `contain_upper`. */
  predicate IsUpper(c: char) {
    'A' <= c <= 'Z'
  }

  /** `contain_upper`: does the regex `[A-Z]+` find anything in `s`? */
  function ContainsUpper(s: string): bool {
    if s == [] then false
    else if IsUpper(s[0]) then true
    else ContainsUpper(s[1..])
  }

  lemma {:induction false} ContainsUpperSpec(s: string)
    ensures ContainsUpper(s) <==> exists i :: 0 <= i < |s| && IsUpper(s[i])
  {
    if s != [] && !IsUpper(s[0]) {
      ContainsUpperSpec(s[1..]);
      assert forall i :: 1 <= i < |s| ==> s[i] == s[1..][i - 1];
      if ContainsUpper(s[1..]) {
        var i :| 0 <= i < |s[1..]| && IsUpper(s[1..][i]);
        assert IsUpper(s[i + 1]);
      }
    }
  }

  function LowerChar(c: char): char {
    if IsUpper(c) then (c as int + 32) as char else c
  }

  /** `str.lower` restricted to ASCII letters. */
  function Lower(s: string): string {
    seq(|s|, i requires 0 <= i < |s| => LowerChar(s[i]))
  }

  /** A row or keyword as smart case compares it: lower-cased when `lower` holds. */
  function Folded(s: string, lower: bool): string {
    if lower then Lower(s) else s
  }

  /** Lower-casing leaves no upper-case letter and changes nothing in a string that has none. */
  lemma LowerSpec(s: string)
    ensures !ContainsUpper(Lower(s))
    ensures !ContainsUpper(s) ==> Lower(s) == s
  {
    ContainsUpperSpec(s);
    ContainsUpperSpec(Lower(s));
  }

  /** Whitespace as `str.split()` with no argument understands it (`str.isspace`). */
  predicate IsSpace(c: char) {
    var n := c as int;
    n == 0x20 || 0x09 <= n <= 0x0D || 0x1C <= n <= 0x1F || n == 0x85 || n == 0xA0
    || n == 0x1680 || 0x2000 <= n <= 0x200A || n == 0x2028 || n == 0x2029
    || n == 0x202F || n == 0x205F || n == 0x3000
  }

  /** Length of the leading run of non-whitespace characters. */
  function RunLength(s: string): (n: nat)
    ensures n <= |s|
    ensures forall i :: 0 <= i < n ==> !IsSpace(s[i])
    ensures n < |s| ==> IsSpace(s[n])
  {
    if s == [] || IsSpace(s[0]) then 0 else 1 + RunLength(s[1..])
  }

  /** The non-whitespace characters of `s`, in order. */
  function NonSpace(s: string): string {
    if s == [] then [] else (if IsSpace(s[0]) then [] else [s[0]]) + NonSpace(s[1..])
  }

  function Concat(ws: seq<string>): string {
    if ws == [] then [] else ws[0] + Concat(ws[1..])
  }

  lemma {:induction false} NonSpaceOfWord(w: string)
    requires forall i :: 0 <= i < |w| ==> !IsSpace(w[i])
    ensures NonSpace(w) == w
  {
    if w != [] {
      NonSpaceOfWord(w[1..]);
    }
  }

  lemma {:induction false} NonSpaceAppend(a: string, b: string)
    ensures NonSpace(a + b) == NonSpace(a) + NonSpace(b)
  {
    if a != [] {
      assert (a + b)[1..] == a[1..] + b;
      NonSpaceAppend(a[1..], b);
    } else {
      assert a + b == b;
    }
  }

  /** `str.split()`: the maximal runs of non-whitespace characters. */
  function Words(s: string): (ws: seq<string>)
    ensures forall i :: 0 <= i < |ws| ==> |ws[i]| > 0
    decreases |s|
  {
    if s == [] then []
    else if IsSpace(s[0]) then Words(s[1..])
    else
      var n := RunLength(s);
      [s[..n]] + Words(s[n..])
  }

  /** The words hold no whitespace, and together they are the non-whitespace characters of
      `s`, in order. */
  lemma {:induction false} WordsSpec(s: string)
    ensures var ws := Words(s);
      && (forall i, j :: 0 <= i < |ws| && 0 <= j < |ws[i]| ==> !IsSpace(ws[i][j]))
      && Concat(ws) == NonSpace(s)
    decreases |s|
  {
    if s != [] {
      if IsSpace(s[0]) {
        WordsSpec(s[1..]);
      } else {
        var n := RunLength(s);
        var rest := Words(s[n..]);
        WordsSpec(s[n..]);
        assert s == s[..n] + s[n..];
        NonSpaceAppend(s[..n], s[n..]);
        NonSpaceOfWord(s[..n]);
        var ws := [s[..n]] + rest;
        assert ws[1..] == rest;
        forall i, j | 0 <= i < |ws| && 0 <= j < |ws[i]| ensures !IsSpace(ws[i][j]) {
          if i > 0 {
            assert ws[i] == rest[i - 1];
          }
        }
      }
    }
  }

  /** A non-empty text without whitespace is one word. */
  lemma {:induction false} WordsOfWord(w: string)
    requires |w| > 0 && forall i :: 0 <= i < |w| ==> !IsSpace(w[i])
    ensures Words(w) == [w]
  {
    RunLengthOfWord(w);
    assert w[..|w|] == w && w[|w|..] == [];
  }

  lemma {:induction false} RunLengthOfWord(w: string)
    requires forall i :: 0 <= i < |w| ==> !IsSpace(w[i])
    ensures RunLength(w) == |w|
    decreases |w|
  {
    if w != [] {
      RunLengthOfWord(w[1..]);
    }
  }

  /** Words break at whitespace: splitting at a whitespace character splits the word list
      there, so no word spans it and no word is broken elsewhere. */
  lemma {:induction false} WordsBreakAtSpace(a: string, sp: char, b: string)
    requires IsSpace(sp)
    ensures Words(a + [sp] + b) == Words(a) + Words(b)
    decreases |a|
  {
    if a == [] {
      var t := a + [sp] + b;
      assert t[0] == sp && t[1..] == b;
      WordsOfSpace(t);
    } else if IsSpace(a[0]) {
      WordsBreakAtSpace(a[1..], sp, b);
      WordsBreakSkip(a, sp, b);
    } else {
      WordsBreakAtSpace(a[RunLength(a)..], sp, b);
      WordsBreakRun(a, sp, b);
    }
  }

  /** The inductive step of `WordsBreakAtSpace` over leading whitespace. */
  lemma WordsBreakSkip(a: string, sp: char, b: string)
    requires IsSpace(sp) && a != [] && IsSpace(a[0])
    requires Words(a[1..] + [sp] + b) == Words(a[1..]) + Words(b)
    ensures Words(a + [sp] + b) == Words(a) + Words(b)
  {
    var t := a + [sp] + b;
    assert t[0] == a[0] && t[1..] == a[1..] + [sp] + b;
    WordsOfSpace(t);
    WordsOfSpace(a);
  }

  /** The inductive step of `WordsBreakAtSpace` over a leading word. */
  lemma WordsBreakRun(a: string, sp: char, b: string)
    requires IsSpace(sp) && a != [] && !IsSpace(a[0])
    requires Words(a[RunLength(a)..] + [sp] + b) == Words(a[RunLength(a)..]) + Words(b)
    ensures Words(a + [sp] + b) == Words(a) + Words(b)
  {
    var n := RunLength(a);
    WordsRunBeforeSpace(a, sp, b);
    WordsOfRun(a, n);
    ConsAppend(a[..n], Words(a[n..]), Words(b));
  }

  /** The first word of `a + [sp] + b` is the first word of `a`. */
  lemma WordsRunBeforeSpace(a: string, sp: char, b: string)
    requires IsSpace(sp) && a != [] && !IsSpace(a[0])
    ensures Words(a + [sp] + b) == [a[..RunLength(a)]] + Words(a[RunLength(a)..] + [sp] + b)
  {
    var n := RunLength(a);
    var t := a + [sp] + b;
    assert t[..n] == a[..n] && t[n..] == a[n..] + [sp] + b by {
      assert t == a + ([sp] + b);
      SplitAfterPrefix(a, [sp] + b, n);
    }
    RunLengthBeforeSpace(a, sp, b);
    WordsOfRun(t, n);
  }

  lemma ConsAppend(w: string, xs: seq<string>, ys: seq<string>)
    ensures [w] + (xs + ys) == ([w] + xs) + ys
  {
  }

  /** Cutting `a + x` inside `a`. */
  lemma SplitAfterPrefix(a: string, x: string, n: nat)
    requires n <= |a|
    ensures (a + x)[..n] == a[..n] && (a + x)[n..] == a[n..] + x
  {
  }

  /** Leading whitespace is skipped. */
  lemma WordsOfSpace(s: string)
    requires s != [] && IsSpace(s[0])
    ensures Words(s) == Words(s[1..])
  {
  }

  /** A text starting with a run of `n` non-whitespace characters begins with that word. */
  lemma WordsOfRun(s: string, n: nat)
    requires n == RunLength(s) && n > 0
    ensures Words(s) == [s[..n]] + Words(s[n..])
  {
  }

  /** The leading run of `a + [sp] + b` ends where that of `a` ends. */
  lemma {:induction false} RunLengthBeforeSpace(a: string, sp: char, b: string)
    requires IsSpace(sp)
    ensures RunLength(a + [sp] + b) == RunLength(a)
    decreases |a|
  {
    var t := a + [sp] + b;
    if a == [] {
      assert t[0] == sp;
    } else {
      assert t[0] == a[0] && t[1..] == a[1..] + [sp] + b;
      if !IsSpace(a[0]) {
        RunLengthBeforeSpace(a[1..], sp, b);
      }
    }
  }

  /** Appending one character never loses a word: each word of `s` is a prefix of the word
      at the same place in `s + [c]`. */
  lemma {:induction false} WordsExtend(s: string, c: char)
    ensures |Words(s)| <= |Words(s + [c])|
    ensures forall i :: 0 <= i < |Words(s)| ==> Words(s)[i] <= Words(s + [c])[i]
    decreases |s|
  {
    var t := s + [c];
    if s == [] {
    } else if IsSpace(s[0]) {
      assert t[0] == s[0] && t[1..] == s[1..] + [c];
      WordsExtend(s[1..], c);
    } else {
      var n, m := RunLength(s), RunLength(t);
      assert t[0] == s[0];
      if n < |s| {
        RunLengthPrefix(s, t, n);
        assert t[..m] == s[..n] && t[m..] == s[n..] + [c];
        WordsExtend(s[n..], c);
        PrefixwiseCons(s[..n], Words(s[n..]), Words(t[m..]));
      } else {
        assert n <= m;
        assert Words(s) == [s[..n]] + Words(s[n..]) && s[n..] == [];
        assert Words(t)[0] == t[..m];
        assert s[..n] <= t[..m];
      }
    }
  }

  /** Putting the same word in front keeps two word lists prefix-wise related. */
  lemma PrefixwiseCons(w: string, ws: seq<string>, wt: seq<string>)
    requires |ws| <= |wt| && forall i :: 0 <= i < |ws| ==> ws[i] <= wt[i]
    ensures |[w] + ws| <= |[w] + wt| && forall i :: 0 <= i < |[w] + ws| ==> ([w] + ws)[i] <= ([w] + wt)[i]
  {
    forall i | 0 <= i < |[w] + ws| ensures ([w] + ws)[i] <= ([w] + wt)[i] {
      if i > 0 {
        assert ([w] + ws)[i] == ws[i - 1] && ([w] + wt)[i] == wt[i - 1];
      }
    }
  }

  lemma {:induction false} RunLengthPrefix(s: string, t: string, n: nat)
    requires s <= t && n == RunLength(s) && n < |s|
    ensures RunLength(t) == n
    decreases n
  {
    if n > 0 {
      assert s[1..] <= t[1..];
      RunLengthPrefix(s[1..], t[1..], n - 1);
    }
  }

  /** Position of the first `c` in `s`, or -1 (`str.find`). */
  function IndexOf(s: string, c: char): (i: int)
    ensures -1 <= i < |s|
    ensures i == -1 <==> c !in s
    ensures 0 <= i ==> s[i] == c && c !in s[..i]
  {
    if s == [] then -1
    else if s[0] == c then 0
    else
      var j := IndexOf(s[1..], c);
      assert s == [s[0]] + s[1..];
      if j == -1 then -1
      else
        assert s[..j + 1] == [s[0]] + s[1..][..j];
        j + 1
  }

  /** Position of the last `c` in `s`, or -1 (`str.rfind`). */
  function LastIndexOf(s: string, c: char): (i: int)
    ensures -1 <= i < |s|
    ensures i == -1 <==> c !in s
    ensures 0 <= i ==> s[i] == c && c !in s[i + 1..]
  {
    if s == [] then -1
    else if s[|s| - 1] == c then |s| - 1
    else
      var init := s[..|s| - 1];
      assert s == init + [s[|s| - 1]];
      var j := LastIndexOf(init, c);
      assert 0 <= j ==> s[j + 1..] == init[j + 1..] + [s[|s| - 1]];
      j
  }

  /** The field before the first `;`: element 0 of `s.split(';')`. */
  function FirstField(s: string): (f: string)
    ensures f <= s && ';' !in f
    ensures |f| == |s| || s[|f|] == ';'
  {
    var i := IndexOf(s, ';');
    if i == -1 then s else s[..i]
  }

  /** A query split as `uniteMatch` does: element 0 and element 1 of `inputs.split(';')`. */
  datatype QueryParts = QueryParts(keywords: string, dir: string)

  function SplitQuery(q: string): (r: QueryParts)
    ensures ';' !in r.keywords && ';' !in r.dir
    ensures ';' !in q ==> r.keywords == q && r.dir == []
    ensures ';' in q ==> |r.keywords| < |q| && q[..|r.keywords|] == r.keywords
                         && q[|r.keywords|] == ';'
                         && r.dir == FirstField(q[|r.keywords| + 1..])
  {
    var i := IndexOf(q, ';');
    if i == -1 then QueryParts(q, [])
    else QueryParts(q[..i], FirstField(q[i + 1..]))
  }

  /** Appending one character to a query keeps its keyword text or extends it by that
      character, and only ever extends a non-empty directory filter. */
  lemma SplitQueryExtend(q: string, c: char)
    ensures var p, p' := SplitQuery(q), SplitQuery(q + [c]);
      (p'.keywords == p.keywords || p'.keywords == p.keywords + [c]) && p.dir <= p'.dir
  {
    var t := q + [c];
    var i := IndexOf(q, ';');
    if i == -1 {
      assert q == t[..|q|];
      if c == ';' {
        IndexOfAt(t, ';', |q|);
      } else {
        assert ';' !in t;
      }
    } else {
      assert t[..i] == q[..i];
      IndexOfAt(t, ';', i);
      var rest := q[i + 1..];
      assert t[i + 1..] == rest + [c];
      FirstFieldExtend(rest, c);
    }
  }

  lemma FirstFieldExtend(s: string, c: char)
    ensures FirstField(s) <= FirstField(s + [c])
  {
    var t := s + [c];
    var i := IndexOf(s, ';');
    if i == -1 {
      if c == ';' {
        IndexOfAt(t, ';', |s|);
        assert t[..|s|] == s;
      } else {
        assert ';' !in t;
      }
    } else {
      assert t[..i] == s[..i];
      IndexOfAt(t, ';', i);
    }
  }

  /** Separators the host platform can use: `/`, or `\` on Windows. */
  predicate IsSeparator(sep: char) {
    sep == '/' || sep == '\\'
  }

  /** The file name: what follows the last separator, or the whole path. */
  function Basename(path: string, sep: char): (name: string)
    ensures |name| <= |path| && name == path[|path| - |name|..]
    ensures sep !in name
    ensures sep !in path ==> name == path
    ensures sep in path ==> path[|path| - |name| - 1] == sep
  {
    var i := LastIndexOf(path, sep);
    if i == -1 then path else path[i + 1..]
  }

  /** The directory: what precedes the last separator, or empty when there is none. */
  function Dirname(path: string, sep: char): (dir: string)
    ensures sep in path ==> path == dir + [sep] + Basename(path, sep)
    ensures sep !in path ==> dir == []
  {
    var i := LastIndexOf(path, sep);
    if i == -1 then []
    else
      assert path == path[..i] + [sep] + path[i + 1..];
      path[..i]
  }

  /** Lower-casing commutes with the file name and directory split. */
  lemma LowerCommutesWithSplit(path: string, sep: char)
    requires IsSeparator(sep)
    ensures Basename(Lower(path), sep) == Lower(Basename(path, sep))
    ensures Dirname(Lower(path), sep) == Lower(Dirname(path, sep))
  {
    BasenameLower(path, sep);
    DirnameLower(path, sep);
  }

  lemma BasenameLower(path: string, sep: char)
    requires IsSeparator(sep)
    ensures Basename(Lower(path), sep) == Lower(Basename(path, sep))
  {
    LastIndexOfLower(path, sep);
    var i := LastIndexOf(path, sep);
    if i != -1 {
      LowerSlices(path, i + 1, |path|);
      assert path[i + 1..|path|] == path[i + 1..];
    }
  }

  lemma DirnameLower(path: string, sep: char)
    requires IsSeparator(sep)
    ensures Dirname(Lower(path), sep) == Lower(Dirname(path, sep))
  {
    LastIndexOfLower(path, sep);
    var i := LastIndexOf(path, sep);
    if i != -1 {
      LowerSlices(path, 0, i);
      assert path[0..i] == path[..i];
    }
  }

  lemma LowerSlices(s: string, lo: nat, hi: nat)
    requires lo <= hi <= |s|
    ensures Lower(s)[lo..hi] == Lower(s[lo..hi])
  {
    var a, b := Lower(s)[lo..hi], Lower(s[lo..hi]);
    assert |a| == |b|;
    forall k | 0 <= k < |a| ensures a[k] == b[k] {
      assert a[k] == Lower(s)[lo + k];
    }
  }

  lemma LastIndexOfLower(path: string, sep: char)
    requires IsSeparator(sep)
    ensures LastIndexOf(Lower(path), sep) == LastIndexOf(path, sep)
  {
    var lp := Lower(path);
    var i := LastIndexOf(path, sep);
    assert forall k :: 0 <= k < |path| ==> (lp[k] == sep <==> path[k] == sep);
    if i == -1 {
      assert forall k :: 0 <= k < |lp| ==> lp[k] != sep;
    } else {
      forall k | i + 1 <= k < |lp| ensures lp[k] != sep {
        assert path[i + 1..][k - i - 1] == path[k];
      }
      LastIndexOfAt(lp, sep, i);
    }
  }

  /** The last occurrence is the one with no further occurrence after it. */
  lemma LastIndexOfAt(s: string, c: char, k: nat)
    requires k < |s| && s[k] == c
    requires forall j :: k < j < |s| ==> s[j] != c
    ensures LastIndexOf(s, c) == k
  {
  }

  /** The first occurrence is the one with no earlier occurrence before it. */
  lemma IndexOfAt(s: string, c: char, k: nat)
    requires k < |s| && s[k] == c
    requires forall j :: 0 <= j < k ==> s[j] != c
    ensures IndexOf(s, c) == k
  {
  }

  /** Python's `a <= b` on strings: lexicographic order of code points. */
  predicate StrLe(a: string, b: string) {
    if a == [] then true
    else if b == [] then false
    else if a[0] != b[0] then a[0] < b[0]
    else StrLe(a[1..], b[1..])
  }

  lemma {:induction false} StrLeTotal(a: string, b: string)
    ensures StrLe(a, b) || StrLe(b, a)
  {
    if a != [] && b != [] && a[0] == b[0] {
      StrLeTotal(a[1..], b[1..]);
    }
  }

  lemma {:induction false} StrLeTransitive(a: string, b: string, c: string)
    requires StrLe(a, b) && StrLe(b, c)
    ensures StrLe(a, c)
  {
    if a != [] && b != [] && c != [] && a[0] == b[0] && b[0] == c[0] {
      StrLeTransitive(a[1..], b[1..], c[1..]);
    }
  }

  lemma {:induction false} StrLeAntisymmetric(a: string, b: string)
    requires StrLe(a, b) && StrLe(b, a)
    ensures a == b
  {
    if a != [] && b != [] {
      StrLeAntisymmetric(a[1..], b[1..]);
      assert a == [a[0]] + a[1..] && b == [b[0]] + b[1..];
    }
  }
}
