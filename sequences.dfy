/** Order-preserving subsequences, the relation behind both the fuzzy match and the filtering. */
module Sequences {

  /** `a` can be obtained from `b` by deleting elements, keeping the order of the rest. */
  predicate IsSubseq<T(==)>(a: seq<T>, b: seq<T>)
    decreases |b|
  {
    a == [] || (b != [] && ((a[0] == b[0] && IsSubseq(a[1..], b[1..])) || IsSubseq(a, b[1..])))
  }

  lemma {:induction false} SubseqRefl<T>(a: seq<T>)
    ensures IsSubseq(a, a)
  {
    if a != [] {
      SubseqRefl(a[1..]);
    }
  }

  /** Every element of a subsequence is an element of the whole. */
  lemma {:induction false} SubseqMembers<T>(a: seq<T>, b: seq<T>)
    requires IsSubseq(a, b)
    ensures forall x :: x in a ==> x in b
    decreases |b|
  {
    if a != [] {
      if a[0] == b[0] && IsSubseq(a[1..], b[1..]) {
        SubseqMembers(a[1..], b[1..]);
        assert forall x :: x in a ==> x == a[0] || x in a[1..];
      } else {
        SubseqMembers(a, b[1..]);
      }
    }
  }

  /** Appending to the whole keeps a subsequence. */
  lemma {:induction false} SubseqAppendRight<T>(a: seq<T>, b: seq<T>, c: seq<T>)
    requires IsSubseq(a, b)
    ensures IsSubseq(a, b + c)
    decreases |b|
  {
    if a != [] {
      assert (b + c)[1..] == b[1..] + c;
      if a[0] == b[0] && IsSubseq(a[1..], b[1..]) {
        SubseqAppendRight(a[1..], b[1..], c);
      } else {
        SubseqAppendRight(a, b[1..], c);
      }
    }
  }

  /** Prepending to the whole keeps a subsequence. */
  lemma {:induction false} SubseqPrependRight<T>(a: seq<T>, c: seq<T>, b: seq<T>)
    requires IsSubseq(a, b)
    ensures IsSubseq(a, c + b)
    decreases |c|
  {
    if c != [] {
      SubseqPrependRight(a, c[1..], b);
      assert (c + b)[1..] == c[1..] + b;
    } else {
      assert c + b == b;
    }
  }

  /** Appending the same element to both sides keeps a subsequence. */
  lemma {:induction false} SubseqSnoc<T>(a: seq<T>, b: seq<T>, x: T)
    requires IsSubseq(a, b)
    ensures IsSubseq(a + [x], b + [x])
    decreases |b|
  {
    if a == [] {
      SubseqRefl([x]);
      SubseqPrependRight([x], b, [x]);
      assert a + [x] == [x];
    } else {
      assert (a + [x])[1..] == a[1..] + [x];
      assert (b + [x])[1..] == b[1..] + [x];
      if a[0] == b[0] && IsSubseq(a[1..], b[1..]) {
        SubseqSnoc(a[1..], b[1..], x);
      } else {
        SubseqSnoc(a, b[1..], x);
      }
    }
  }

  /** A prefix of a subsequence is a subsequence. */
  lemma {:induction false} SubseqPrefix<T>(a: seq<T>, a': seq<T>, b: seq<T>)
    requires a' <= a && IsSubseq(a, b)
    ensures IsSubseq(a', b)
    decreases |b|
  {
    if a' != [] {
      assert a'[0] == a[0] && a'[1..] <= a[1..];
      if a[0] == b[0] && IsSubseq(a[1..], b[1..]) {
        SubseqPrefix(a[1..], a'[1..], b[1..]);
      } else {
        SubseqPrefix(a, a', b[1..]);
      }
    }
  }

  /** A slice of `b` contributes its subsequences to `b`. */
  lemma SubseqOfSlice<T>(a: seq<T>, b: seq<T>, lo: nat, hi: nat)
    requires lo <= hi <= |b| && IsSubseq(a, b[lo..hi])
    ensures IsSubseq(a, b)
  {
    SubseqAppendRight(a, b[lo..hi], b[hi..]);
    SubseqPrependRight(a, b[..lo], b[lo..hi] + b[hi..]);
    assert b[..lo] + (b[lo..hi] + b[hi..]) == b;
  }
}
