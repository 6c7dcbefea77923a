/**
 * `Sort`: the `limit` best `(score, row)` pairs by `heapq.nlargest`, best first, rows only.
 * `heapq.nlargest(n, xs)` returns `sorted(xs, reverse=True)[:n]`, and `[]` when `n <= 0`; the
 * pairs are compared as Python tuples, score first and then row.
 */
module Selection {
  import opened Text
  import opened Scoring

  /** Python's `a >= b` on `(score, row)` tuples. */
  predicate Outranks(a: Scored, b: Scored) {
    a.score > b.score || (a.score == b.score && StrLe(b.row, a.row))
  }

  lemma OutranksTotal(a: Scored, b: Scored)
    ensures Outranks(a, b) || Outranks(b, a)
  {
    StrLeTotal(a.row, b.row);
  }

  lemma OutranksTransitive(a: Scored, b: Scored, c: Scored)
    requires Outranks(a, b) && Outranks(b, c)
    ensures Outranks(a, c)
  {
    if a.score == c.score {
      StrLeTransitive(c.row, b.row, a.row);
    }
  }

  lemma OutranksAntisymmetric(a: Scored, b: Scored)
    requires Outranks(a, b) && Outranks(b, a)
    ensures a == b
  {
    StrLeAntisymmetric(a.row, b.row);
  }

  /** Best first, as `sorted(..., reverse=True)` leaves them. */
  predicate Descending(s: seq<Scored>) {
    forall i, j :: 0 <= i < j < |s| ==> Outranks(s[i], s[j])
  }

  /** Put `x` into a best-first list after every pair that outranks it. */
  function Insert(s: seq<Scored>, x: Scored): seq<Scored> {
    if s == [] then [x]
    else if Outranks(s[0], x) then [s[0]] + Insert(s[1..], x)
    else [x] + s
  }

  lemma {:induction false} InsertSorted(s: seq<Scored>, x: Scored)
    requires Descending(s)
    ensures multiset(Insert(s, x)) == multiset(s) + multiset{x}
    ensures Descending(Insert(s, x))
  {
    if s == [] {
    } else if Outranks(s[0], x) {
      var t := s[1..];
      assert s == [s[0]] + t;
      DescendingTail(s);
      InsertSorted(t, x);
      var r := Insert(t, x);
      assert Insert(s, x) == [s[0]] + r;
      forall j | 0 <= j < |r| ensures Outranks(s[0], r[j]) {
        assert r[j] in multiset(r);
        if r[j] != x {
          assert r[j] in t;
        }
      }
      ConsDescending(s[0], r);
    } else {
      OutranksTotal(s[0], x);
      forall j | 0 <= j < |s| ensures Outranks(x, s[j]) {
        if j > 0 {
          OutranksTransitive(x, s[0], s[j]);
        }
      }
      ConsDescending(x, s);
    }
  }

  /** A pair that outranks every pair of a best-first list can go in front of it. */
  lemma ConsDescending(h: Scored, r: seq<Scored>)
    requires Descending(r) && forall j :: 0 <= j < |r| ==> Outranks(h, r[j])
    ensures Descending([h] + r)
  {
    var s := [h] + r;
    forall i, j | 0 <= i < j < |s| ensures Outranks(s[i], s[j]) {
      assert s[j] == r[j - 1];
      if i > 0 {
        assert s[i] == r[i - 1];
      }
    }
  }

  /** `sorted(xs, reverse=True)`. */
  function SortDesc(xs: seq<Scored>): seq<Scored> {
    if xs == [] then []
    else Insert(SortDesc(xs[..|xs| - 1]), xs[|xs| - 1])
  }

  /** Sorting keeps exactly the pairs it was given and puts them best first. */
  lemma {:induction false} SortDescSpec(xs: seq<Scored>)
    ensures multiset(SortDesc(xs)) == multiset(xs)
    ensures Descending(SortDesc(xs))
  {
    if xs != [] {
      var init := xs[..|xs| - 1];
      assert xs == init + [xs[|xs| - 1]];
      SortDescSpec(init);
      InsertSorted(SortDesc(init), xs[|xs| - 1]);
    }
  }

  /** There is one best-first arrangement of a multiset of pairs, so any correct sort (the heap
      of `heapq.nlargest` included) yields `SortDesc`'s list. */
  lemma {:induction false} DescendingUnique(a: seq<Scored>, b: seq<Scored>)
    requires Descending(a) && Descending(b) && multiset(a) == multiset(b)
    ensures a == b
    decreases |a|
  {
    if a != [] {
      HeadsEqual(a, b);
      TailMultiset(a);
      TailMultiset(b);
      DescendingTail(a);
      DescendingTail(b);
      DescendingUnique(a[1..], b[1..]);
      assert a == [a[0]] + a[1..] && b == [b[0]] + b[1..];
    }
  }

  /** Two best-first arrangements of one multiset start with the same pair. */
  lemma HeadsEqual(a: seq<Scored>, b: seq<Scored>)
    requires Descending(a) && Descending(b) && multiset(a) == multiset(b) && a != []
    ensures b != [] && a[0] == b[0]
  {
    assert a[0] in multiset(b);
    assert b[0] in multiset(a);
    var i :| 0 <= i < |a| && a[i] == b[0];
    var j :| 0 <= j < |b| && b[j] == a[0];
    assert Outranks(a[0], b[0]) by {
      if i > 0 { assert Outranks(a[0], a[i]); } else { OutranksTotal(a[0], b[0]); }
    }
    assert Outranks(b[0], a[0]) by {
      if j > 0 { assert Outranks(b[0], b[j]); } else { OutranksTotal(a[0], b[0]); }
    }
    OutranksAntisymmetric(a[0], b[0]);
  }

  lemma TailMultiset(a: seq<Scored>)
    requires a != []
    ensures multiset(a[1..]) == multiset(a) - multiset{a[0]}
  {
    assert a == [a[0]] + a[1..];
    assert multiset(a) == multiset{a[0]} + multiset(a[1..]);
  }

  lemma DescendingTail(a: seq<Scored>)
    requires Descending(a) && a != []
    ensures Descending(a[1..])
  {
    forall i, j | 0 <= i < j < |a| - 1 ensures Outranks(a[1..][i], a[1..][j]) {
      assert a[1..][i] == a[i + 1] && a[1..][j] == a[j + 1];
    }
  }

  /** `n` as `heapq.nlargest` reads it: a count of zero or less returns nothing. */
  function Bound(limit: int): nat {
    if limit < 0 then 0 else limit
  }

  /** `heapq.nlargest(limit, xs)`. */
  function TopK(xs: seq<Scored>, limit: int): seq<Scored> {
    var s := SortDesc(xs);
    if Bound(limit) < |s| then s[..Bound(limit)] else s
  }

  /** The pairs with a non-zero score, in order: the `if score != 0` of `Sort`. */
  function NonZero(xs: seq<Scored>): seq<Scored> {
    if xs == [] then []
    else
      var rest := NonZero(xs[1..]);
      if xs[0].score != 0.0 then [xs[0]] + rest else rest
  }

  /** Dropping the zero scores keeps some of the pairs and no others. */
  lemma {:induction false} NonZeroShrinks(xs: seq<Scored>)
    ensures multiset(NonZero(xs)) <= multiset(xs) && |NonZero(xs)| <= |xs|
  {
    if xs != [] {
      assert xs == [xs[0]] + xs[1..];
      NonZeroShrinks(xs[1..]);
    }
  }

  /** No zero score is left. */
  lemma {:induction false} NonZeroScores(xs: seq<Scored>)
    ensures forall i :: 0 <= i < |NonZero(xs)| ==> NonZero(xs)[i].score != 0.0
  {
    if xs != [] {
      NonZeroScores(xs[1..]);
      var rest := NonZero(xs[1..]);
      if xs[0].score != 0.0 {
        forall i | 1 <= i < |NonZero(xs)| ensures NonZero(xs)[i] == rest[i - 1] {
        }
      }
    }
  }

  lemma {:induction false} NonZeroKeepsAll(xs: seq<Scored>)
    requires forall i :: 0 <= i < |xs| ==> xs[i].score != 0.0
    ensures NonZero(xs) == xs
  {
    if xs != [] {
      assert xs == [xs[0]] + xs[1..];
      NonZeroKeepsAll(xs[1..]);
    }
  }

  /** `Sort(rowsWithScore, limit)`. */
  function Sort(xs: seq<Scored>, limit: int): seq<string> {
    FilterRows(NonZero(TopK(xs, limit)))
  }

  /** `heapq.nlargest` keeps the best `limit` pairs: at most `limit` and all of them when there
      are fewer, best first, drawn from the input, and each outranking every pair left out. */
  lemma TopKSpec(xs: seq<Scored>, limit: int)
    ensures var t := TopK(xs, limit);
      && |t| == (if Bound(limit) < |xs| then Bound(limit) else |xs|)
      && Descending(t)
      && multiset(t) <= multiset(xs)
      && forall x, y :: x in t && y in multiset(xs) - multiset(t) ==> Outranks(x, y)
  {
    var s := SortDesc(xs);
    SortDescSpec(xs);
    assert |s| == |xs| by { assert |multiset(s)| == |multiset(xs)|; }
    var k := if Bound(limit) < |s| then Bound(limit) else |s|;
    assert TopK(xs, limit) == s[..k];
    DescendingPrefix(s, k);
  }

  /** The first `k` pairs of a best-first list are best first and outrank every pair after them. */
  lemma DescendingPrefix(s: seq<Scored>, k: nat)
    requires Descending(s) && k <= |s|
    ensures Descending(s[..k]) && multiset(s[..k]) <= multiset(s)
    ensures forall x, y :: x in s[..k] && y in multiset(s) - multiset(s[..k]) ==> Outranks(x, y)
  {
    var t, rest := s[..k], s[k..];
    assert s == t + rest;
    assert multiset(s) == multiset(t) + multiset(rest);
    forall x, y | x in t && y in multiset(s) - multiset(t) ensures Outranks(x, y) {
      var i :| 0 <= i < k && t[i] == x;
      assert y in rest;
      var j :| 0 <= j < |rest| && rest[j] == y;
      assert s[i] == x && s[k + j] == y;
    }
  }

  /** `Sort` returns at most `limit` rows, and only rows of the input. */
  lemma SortBounded(xs: seq<Scored>, limit: int)
    ensures |Sort(xs, limit)| <= Bound(limit) && |Sort(xs, limit)| <= |xs|
    ensures forall r :: r in Sort(xs, limit) ==> r in FilterRows(xs)
  {
    var t := TopK(xs, limit);
    TopKSpec(xs, limit);
    NonZeroShrinks(t);
    var n := NonZero(t);
    forall r | r in Sort(xs, limit) ensures r in FilterRows(xs) {
      var i :| 0 <= i < |n| && n[i].row == r;
      assert n[i] in multiset(xs);
      var j :| 0 <= j < |xs| && xs[j] == n[i];
      assert FilterRows(xs)[j] == r;
    }
  }

  /** Over a scored list that `Match` produced (no zero scores), `Sort` returns exactly the rows
      of `heapq.nlargest`'s pairs. */
  lemma SortOfMatched(xs: seq<Scored>, limit: int)
    requires forall i :: 0 <= i < |xs| ==> xs[i].score != 0.0
    ensures Sort(xs, limit) == FilterRows(TopK(xs, limit))
  {
    var t := TopK(xs, limit);
    TopKSpec(xs, limit);
    forall i | 0 <= i < |t| ensures t[i].score != 0.0 {
      assert t[i] in multiset(xs);
    }
    NonZeroKeepsAll(t);
  }
}
