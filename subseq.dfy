/** Order-preserving subsequences: `a` is obtained from `b` by deleting
    elements and keeping the others in their order. */
module Subsequences {

  ghost predicate IsSubseq<T>(a: seq<T>, b: seq<T>)
    decreases |b|
  {
    if b == [] then a == []
    else
      || IsSubseq(a, b[..|b| - 1])
      || (a != [] && a[|a| - 1] == b[|b| - 1] && IsSubseq(a[..|a| - 1], b[..|b| - 1]))
  }

  lemma {:induction false} SubseqEmpty<T>(b: seq<T>)
    ensures IsSubseq([], b)
    decreases |b|
  {
    if b != [] {
      SubseqEmpty(b[..|b| - 1]);
    }
  }

  lemma {:induction false} SubseqRefl<T>(a: seq<T>)
    ensures IsSubseq(a, a)
    decreases |a|
  {
    if a != [] {
      SubseqRefl(a[..|a| - 1]);
    }
  }

  /** Subsequences of the two halves concatenate to a subsequence of the
      whole. */
  lemma {:induction false} SubseqConcat<T>(a1: seq<T>, b1: seq<T>, a2: seq<T>, b2: seq<T>)
    requires IsSubseq(a1, b1) && IsSubseq(a2, b2)
    ensures IsSubseq(a1 + a2, b1 + b2)
    decreases |b2|
  {
    if b2 == [] {
      assert a2 == [];
      assert a1 + a2 == a1 && b1 + b2 == b1;
    } else {
      assert (b1 + b2)[..|b1 + b2| - 1] == b1 + b2[..|b2| - 1];
      if IsSubseq(a2, b2[..|b2| - 1]) {
        SubseqConcat(a1, b1, a2, b2[..|b2| - 1]);
      } else {
        assert (a1 + a2)[..|a1 + a2| - 1] == a1 + a2[..|a2| - 1];
        SubseqConcat(a1, b1, a2[..|a2| - 1], b2[..|b2| - 1]);
      }
    }
  }

  /** A subsequence is never longer. */
  lemma {:induction false} SubseqLength<T>(a: seq<T>, b: seq<T>)
    requires IsSubseq(a, b)
    ensures |a| <= |b|
    decreases |b|
  {
    if b != [] {
      if IsSubseq(a, b[..|b| - 1]) {
        SubseqLength(a, b[..|b| - 1]);
      } else {
        SubseqLength(a[..|a| - 1], b[..|b| - 1]);
      }
    }
  }

  /** Putting the same prefix in front of every element keeps the relation. */
  lemma {:induction false} SubseqPrepend<T>(prefix: seq<T>, a: seq<seq<T>>, b: seq<seq<T>>)
    requires IsSubseq(a, b)
    ensures IsSubseq(seq(|a|, i requires 0 <= i < |a| => prefix + a[i]),
                     seq(|b|, i requires 0 <= i < |b| => prefix + b[i]))
    decreases |b|
  {
    var pa := seq(|a|, i requires 0 <= i < |a| => prefix + a[i]);
    var pb := seq(|b|, i requires 0 <= i < |b| => prefix + b[i]);
    if b != [] {
      var b' := b[..|b| - 1];
      assert pb[..|pb| - 1] == seq(|b'|, i requires 0 <= i < |b'| => prefix + b'[i]);
      if IsSubseq(a, b') {
        SubseqPrepend(prefix, a, b');
      } else {
        var a' := a[..|a| - 1];
        assert pa[..|pa| - 1] == seq(|a'|, i requires 0 <= i < |a'| => prefix + a'[i]);
        SubseqPrepend(prefix, a', b');
      }
    }
  }
}
