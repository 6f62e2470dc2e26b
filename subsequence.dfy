/** Order-preserving deletion: `a` is obtained from `b` by deleting characters. */
module Subsequence {

  ghost predicate IsSubseq<T>(a: seq<T>, b: seq<T>)
    decreases |b|
  {
    a == [] || (b != [] && ((a[0] == b[0] && IsSubseq(a[1..], b[1..])) || IsSubseq(a, b[1..])))
  }

  /** Prepending characters to the larger sequence keeps a subsequence one. */
  lemma {:induction false} SubseqPrepend<T>(a: seq<T>, c: seq<T>, b: seq<T>)
    requires IsSubseq(a, b)
    ensures IsSubseq(a, c + b)
    decreases |c|
  {
    if c != [] {
      SubseqPrepend(a, c[1..], b);
      assert (c + b)[1..] == c[1..] + b;
      assert IsSubseq(a, (c + b)[1..]);
    } else {
      assert c + b == b;
    }
  }

  /** A common first element can be kept on both sides. */
  lemma SubseqCons<T>(x: T, a: seq<T>, b: seq<T>)
    requires IsSubseq(a, b)
    ensures IsSubseq([x] + a, [x] + b)
  {
    assert ([x] + a)[1..] == a && ([x] + b)[1..] == b;
  }

  /** Deleting from a sequence obtained by deleting is still deleting. */
  lemma {:induction false} SubseqTrans<T>(a: seq<T>, b: seq<T>, c: seq<T>)
    requires IsSubseq(a, b) && IsSubseq(b, c)
    ensures IsSubseq(a, c)
    decreases |c|
  {
    if a != [] {
      if IsSubseq(b, c[1..]) {
        SubseqTrans(a, b, c[1..]);
      } else if a[0] == b[0] && IsSubseq(a[1..], b[1..]) {
        SubseqTrans(a[1..], b[1..], c[1..]);
      } else {
        SubseqTrans(a, b[1..], c[1..]);
      }
    }
  }

  /** A subsequence is no longer, and uses no element that the larger one lacks. */
  lemma {:induction false} SubseqShrinks<T>(a: seq<T>, b: seq<T>)
    requires IsSubseq(a, b)
    ensures |a| <= |b|
    ensures multiset(a) <= multiset(b)
    decreases |b|
  {
    if a != [] {
      assert b == [b[0]] + b[1..];
      if a[0] == b[0] && IsSubseq(a[1..], b[1..]) {
        SubseqShrinks(a[1..], b[1..]);
        assert a == [a[0]] + a[1..];
      } else {
        SubseqShrinks(a, b[1..]);
      }
    }
  }
}
