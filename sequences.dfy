/** Generic facts about filtering sequences, used by the chapter grouping,
    the container stage and the binary-conversion stage. */
module Sequences {

  /** The elements of `s` that satisfy `p`, in their original order
      (a Python list comprehension with an `if` clause). */
  function Filter<T>(p: T -> bool, s: seq<T>): (r: seq<T>)
    ensures |r| <= |s|
    decreases |s|
  {
    if s == [] then []
    else (if p(s[0]) then [s[0]] else []) + Filter(p, s[1..])
  }

  /** Every position in `idx` moved one place to the right. */
  function Shift(idx: seq<nat>): seq<nat>
  {
    seq(|idx|, k requires 0 <= k < |idx| => idx[k] + 1)
  }

  /** The positions of `s` whose elements satisfy `p`, in increasing order. */
  function KeptPositions<T>(p: T -> bool, s: seq<T>): seq<nat>
    decreases |s|
  {
    if s == [] then []
    else (if p(s[0]) then [0] else []) + Shift(KeptPositions(p, s[1..]))
  }

  /** `xs` is `ys` with some elements left out: `idx` lists, in strictly
      increasing order, the positions of `ys` that `xs` keeps. */
  ghost predicate EmbeddedBy<T>(xs: seq<T>, ys: seq<T>, idx: seq<nat>)
  {
    && |idx| == |xs|
    && (forall k :: 0 <= k < |idx| ==> idx[k] < |ys| && ys[idx[k]] == xs[k])
    && (forall k, l :: 0 <= k < l < |idx| ==> idx[k] < idx[l])
  }

  /** `xs` is a subsequence of `ys`: same relative order, elements dropped. */
  ghost predicate IsSubsequence<T>(xs: seq<T>, ys: seq<T>)
  {
    exists idx :: EmbeddedBy(xs, ys, idx)
  }

  /** An element is kept exactly when it occurs in the input and satisfies `p`. */
  lemma {:induction false} FilterMembership<T>(p: T -> bool, s: seq<T>, x: T)
    ensures x in Filter(p, s) <==> x in s && p(x)
    decreases |s|
  {
    if s != [] {
      FilterMembership(p, s[1..], x);
      assert s == [s[0]] + s[1..];
    }
  }

  /** Filtering keeps every occurrence of a kept element and none of a
      dropped one: each accepted element is kept exactly as often as it occurs. */
  lemma {:induction false} FilterMultiplicity<T>(p: T -> bool, s: seq<T>, x: T)
    ensures multiset(Filter(p, s))[x] == if p(x) then multiset(s)[x] else 0
    decreases |s|
  {
    if s != [] {
      FilterMultiplicity(p, s[1..], x);
      assert s == [s[0]] + s[1..];
      assert multiset(s) == multiset([s[0]]) + multiset(s[1..]);
    }
  }

  /** An embedding survives putting one more element in front of the larger sequence. */
  lemma ShiftEmbedding<T>(xs: seq<T>, ys: seq<T>, idx: seq<nat>, y: T)
    requires EmbeddedBy(xs, ys, idx)
    ensures EmbeddedBy(xs, [y] + ys, Shift(idx))
  {
    forall k | 0 <= k < |idx|
      ensures Shift(idx)[k] < |[y] + ys| && ([y] + ys)[Shift(idx)[k]] == xs[k]
    {
      assert ([y] + ys)[idx[k] + 1] == ys[idx[k]];
    }
  }

  /** An embedding survives putting the same element in front of both sequences. */
  lemma ConsEmbedding<T>(xs: seq<T>, ys: seq<T>, idx: seq<nat>, x: T)
    requires EmbeddedBy(xs, ys, idx)
    ensures EmbeddedBy([x] + xs, [x] + ys, [0] + Shift(idx))
  {
    var idx' := [0] + Shift(idx);
    forall k | 0 <= k < |idx'|
      ensures idx'[k] < |[x] + ys| && ([x] + ys)[idx'[k]] == ([x] + xs)[k]
    {
      if k > 0 {
        assert idx'[k] == idx[k - 1] + 1;
        assert ([x] + ys)[idx[k - 1] + 1] == ys[idx[k - 1]];
      }
    }
  }

  /** Filtering keeps the input order: the kept positions embed the result
      into the input. */
  lemma {:induction false} FilterKeepsOrder<T>(p: T -> bool, s: seq<T>)
    ensures EmbeddedBy(Filter(p, s), s, KeptPositions(p, s))
    ensures IsSubsequence(Filter(p, s), s)
    decreases |s|
  {
    if s != [] {
      FilterKeepsOrder(p, s[1..]);
      assert s == [s[0]] + s[1..];
      if p(s[0]) {
        ConsEmbedding(Filter(p, s[1..]), s[1..], KeptPositions(p, s[1..]), s[0]);
      } else {
        ShiftEmbedding(Filter(p, s[1..]), s[1..], KeptPositions(p, s[1..]), s[0]);
      }
    }
  }

  /** Filtering with a predicate every element satisfies changes nothing. */
  lemma {:induction false} FilterAll<T>(p: T -> bool, s: seq<T>)
    requires forall k :: 0 <= k < |s| ==> p(s[k])
    ensures Filter(p, s) == s
    decreases |s|
  {
    if s != [] {
      FilterAll(p, s[1..]);
      assert s == [s[0]] + s[1..];
    }
  }

  /** Filtering a sequence with a given first element. */
  lemma FilterCons<T>(p: T -> bool, x: T, s: seq<T>)
    ensures Filter(p, [x] + s) == (if p(x) then [x] else []) + Filter(p, s)
  {
    assert ([x] + s)[1..] == s;
  }

  /** Filtering distributes over concatenation. */
  lemma {:induction false} FilterAppend<T>(p: T -> bool, a: seq<T>, b: seq<T>)
    ensures Filter(p, a + b) == Filter(p, a) + Filter(p, b)
    decreases |a|
  {
    if a != [] {
      FilterAppend(p, a[1..], b);
      assert (a + b)[1..] == a[1..] + b;
    } else {
      assert a + b == b;
    }
  }

  /** No element of `s` occurs twice. */
  predicate Distinct<T(==)>(s: seq<T>)
  {
    forall k, l :: 0 <= k < l < |s| ==> s[k] != s[l]
  }

  /** `s` with every repeated element dropped, keeping the first occurrence
      of each: the key order of a Python dict filled from `s`. */
  function FirstOccurrences<T(==)>(s: seq<T>): (r: seq<T>)
    ensures Distinct(r)
    ensures forall k :: 0 <= k < |r| ==> r[k] in s
    ensures forall k :: 0 <= k < |s| ==> s[k] in r
    decreases |s|
  {
    if s == [] then []
    else
      var prefix := FirstOccurrences(s[..|s| - 1]);
      var x := s[|s| - 1];
      assert forall k :: 0 <= k < |s| - 1 ==> s[k] == s[..|s| - 1][k];
      if x in prefix then prefix else prefix + [x]
  }
}
