/** Order-preserving helpers on sequences, used for node orders and
    adjacency lists, which networkx keeps in insertion order. */
module Seqs {

  predicate Distinct<T(==)>(s: seq<T>)
  {
    forall i, j | 0 <= i < j < |s| :: s[i] != s[j]
  }

  /** `a` can be obtained from `b` by deleting elements. */
  ghost predicate Subseq<T>(a: seq<T>, b: seq<T>)
    decreases |b|
  {
    |a| == 0 || (|b| > 0 && ((a[0] == b[0] && Subseq(a[1..], b[1..])) || Subseq(a, b[1..])))
  }

  /** The elements of `s` that belong to `keep`, in their order in `s`. */
  function Keep<T(==)>(s: seq<T>, keep: set<T>): (r: seq<T>)
    ensures forall x | x in r :: x in s && x in keep
    ensures forall x | x in s && x in keep :: x in r
    ensures |r| <= |s|
    ensures Subseq(r, s)
    ensures Distinct(s) ==> Distinct(r)
  {
    if |s| == 0 then []
    else
      var rest := Keep(s[1..], keep);
      if s[0] in keep then
        assert Distinct(s) ==> s[0] !in s[1..];
        [s[0]] + rest
      else rest
  }

  /** `s` with every occurrence of `x` dropped. */
  function Without<T(==)>(s: seq<T>, x: T): (r: seq<T>)
    ensures forall y | y in r :: y in s && y != x
    ensures forall y | y in s && y != x :: y in r
    ensures x !in s ==> r == s
    ensures Distinct(s) && x in s ==> |r| == |s| - 1
    ensures Distinct(s) ==> Distinct(r)
  {
    if |s| == 0 then []
    else
      var rest := Without(s[1..], x);
      if s[0] == x then rest
      else
        assert Distinct(s) ==> s[0] !in s[1..];
        [s[0]] + rest
  }

  /** Filtering twice is filtering once by both sets. */
  lemma {:induction false} KeepKeep<T>(s: seq<T>, a: set<T>, b: set<T>)
    ensures Keep(Keep(s, a), b) == Keep(s, a * b)
  {
    if |s| > 0 {
      KeepKeep(s[1..], a, b);
      if s[0] in a {
        assert Keep(s, a)[1..] == Keep(s[1..], a);
      }
    }
  }

  /** Filtering only looks at the elements that occur in the sequence. */
  lemma {:induction false} KeepSameOn<T>(s: seq<T>, a: set<T>, b: set<T>)
    requires forall x :: x in s ==> (x in a <==> x in b)
    ensures Keep(s, a) == Keep(s, b)
  {
    if |s| > 0 {
      KeepSameOn(s[1..], a, b);
    }
  }

  /** Dropping `x` commutes with appending something else. */
  lemma {:induction false} WithoutAppend<T>(s: seq<T>, x: T, y: T)
    requires y != x
    ensures Without(s + [y], x) == Without(s, x) + [y]
  {
    if |s| > 0 {
      assert (s + [y])[1..] == s[1..] + [y];
      WithoutAppend(s[1..], x, y);
    }
  }

  lemma {:induction false} SubseqRefl<T>(s: seq<T>)
    ensures Subseq(s, s)
  {
    if |s| > 0 {
      SubseqRefl(s[1..]);
    }
  }

  /** Keeping fewer elements keeps a shorter sequence. */
  lemma {:induction false} KeepShrinks<T>(s: seq<T>, a: set<T>, b: set<T>)
    requires a <= b
    ensures |Keep(s, a)| <= |Keep(s, b)|
  {
    if |s| > 0 {
      KeepShrinks(s[1..], a, b);
    }
  }

  lemma PrefixOfPrefix<T>(a: seq<T>, b: seq<T>, c: seq<T>)
    requires |a| <= |b| && b[..|a|] == a
    requires |b| <= |c| && c[..|b|] == b
    ensures c[..|a|] == a
  {
    assert c[..|a|] == c[..|b|][..|a|];
  }

  /** A sequence without repeats has as many distinct elements as entries. */
  lemma {:induction false} DistinctCard<T>(s: seq<T>)
    requires Distinct(s)
    ensures |set x | x in s| == |s|
  {
    if |s| > 0 {
      assert Distinct(s[1..]) by {
        assert forall i | 0 <= i < |s| - 1 :: s[1..][i] == s[i + 1];
      }
      DistinctCard(s[1..]);
      assert (set x | x in s) == (set x | x in s[1..]) + {s[0]};
      assert s[0] !in s[1..];
    }
  }
}
