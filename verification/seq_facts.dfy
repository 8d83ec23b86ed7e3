/** Small facts about sequences that the proofs of the other modules lean on. */
module SeqFacts {
  /** A sequence is what comes before index i, the element at i, and what comes after. */
  lemma SplitAt<T>(s: seq<T>, i: nat)
    requires i < |s|
    ensures s == s[..i] + [s[i]] + s[i + 1..]
  {
  }

  /** The middle part of a three-part concatenation. */
  lemma SliceOfMiddle<T>(first: seq<T>, middle: seq<T>, last: seq<T>)
    ensures (first + middle + last)[|first| .. |first| + |middle|] == middle
  {
  }

  /** The prefix one longer. */
  lemma PrefixSnoc<T>(s: seq<T>, i: nat)
    requires i < |s|
    ensures s[..i + 1] == s[..i] + [s[i]]
  {
  }

  /** Dropping the last element of a sequence extended by one. */
  lemma InitOfSnoc<T>(s: seq<T>, x: T)
    ensures (s + [x])[..|s|] == s
  {
  }

  /** Dropping the last element of a concatenation whose second part is not empty. */
  lemma InitOfAppend<T>(s: seq<T>, t: seq<T>)
    requires |t| > 0
    ensures (s + t)[..|s + t| - 1] == s + t[..|t| - 1]
  {
  }

  /** Appending the empty sequence. */
  lemma AppendEmpty<T>(s: seq<T>, t: seq<T>)
    requires |t| == 0
    ensures s + t == s
  {
  }

  /** Dropping the first element of a sequence extended at the front. */
  lemma TailOfCons<T>(x: T, s: seq<T>)
    ensures ([x] + s)[1..] == s
  {
  }

  /** The blocks `f(x)` of the elements of `xs`, one after the other, in order. */
  function FlatMap<T, U>(xs: seq<T>, f: T -> seq<U>): seq<U> {
    if |xs| == 0 then [] else FlatMap(xs[..|xs| - 1], f) + f(xs[|xs| - 1])
  }

  /** Blocks of a common length `k` make up `k` elements per element of `xs`. */
  lemma {:induction false} FlatMapLength<T, U>(xs: seq<T>, f: T -> seq<U>, k: nat)
    requires forall x :: |f(x)| == k
    ensures |FlatMap(xs, f)| == k * |xs|
  {
    if |xs| > 0 {
      FlatMapLength(xs[..|xs| - 1], f, k);
    }
  }

  /** The blocks of one more element: its block after the others. */
  lemma FlatMapSnoc<T, U>(xs: seq<T>, x: T, f: T -> seq<U>)
    ensures FlatMap(xs + [x], f) == FlatMap(xs, f) + f(x)
  {
    InitOfSnoc(xs, x);
  }

  /** The blocks of a concatenation are the blocks of the two parts one after the other. */
  lemma {:induction false} FlatMapAppend<T, U>(xs: seq<T>, ys: seq<T>, f: T -> seq<U>)
    ensures FlatMap(xs + ys, f) == FlatMap(xs, f) + FlatMap(ys, f)
    decreases |ys|
  {
    if |ys| == 0 {
      AppendEmpty(xs, ys);
    } else {
      InitOfAppend(xs, ys);
      FlatMapAppend(xs, ys[..|ys| - 1], f);
    }
  }

  /** Removing the first element removes one occurrence of it from the multiset. */
  lemma RemoveFirst<T>(s: seq<T>)
    requires |s| > 0
    ensures multiset(s[1..]) == multiset(s) - multiset{s[0]}
  {
    assert s == [s[0]] + s[1..];
  }

  /** Removing the element at `i` removes one occurrence of it from the multiset. */
  lemma RemoveAt<T>(s: seq<T>, i: nat)
    requires i < |s|
    ensures multiset(s[..i] + s[i + 1..]) == multiset(s) - multiset{s[i]}
  {
    SplitAt(s, i);
  }

  /** An element of the multiset of a sequence sits at some index of it. */
  lemma IndexOf<T>(s: seq<T>, x: T) returns (i: nat)
    requires x in multiset(s)
    ensures i < |s| && s[i] == x
  {
    assert x in s;
    i :| i < |s| && s[i] == x;
  }
}
