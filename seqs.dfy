/** Sequence helpers that model the library calls the source relies on. */
module Seqs {

  /** Position of the first occurrence of `x` in `s`, or -1 when `x` does not
      occur: the contract of Java's `String.indexOf` and `List.indexOf`. */
  function IndexOf<T(==)>(s: seq<T>, x: T): (r: int)
    ensures -1 <= r < |s|
    ensures r == -1 <==> x !in s
    ensures 0 <= r ==> s[r] == x && x !in s[..r]
  {
    if |s| == 0 then -1
    else if s[0] == x then 0
    else
      var k := IndexOf(s[1..], x);
      if k == -1 then -1 else k + 1
  }

  /** Position of the first occurrence of `x` at or after `from`, or -1:
      the contract of Java's `String.indexOf(ch, fromIndex)`. */
  function IndexOfFrom<T(==)>(s: seq<T>, x: T, from: int): (r: int)
    requires 0 <= from <= |s|
    ensures r == -1 || (from <= r < |s| && s[r] == x)
    decreases |s| - from
  {
    if from == |s| then -1
    else if s[from] == x then from
    else IndexOfFrom(s, x, from + 1)
  }

  /** indexOf(ch, fromIndex) finds the first occurrence at or after
      `from`, and fails exactly when there is none. */
  lemma {:induction false} IndexOfFromFirst<T>(s: seq<T>, x: T, from: int)
    requires 0 <= from <= |s|
    ensures IndexOfFrom(s, x, from) == -1 <==> forall j | from <= j < |s| :: s[j] != x
    ensures forall j | from <= j < IndexOfFrom(s, x, from) :: s[j] != x
    decreases |s| - from
  {
    if from < |s| && s[from] != x {
      IndexOfFromFirst(s, x, from + 1);
    }
  }

  /** Searching a suffix after a prefix finds what searching the suffix
      alone finds, moved by the prefix's length. */
  lemma {:induction false} IndexOfFromAfterPrefix<T>(a: seq<T>, b: seq<T>, x: T, from: int)
    requires 0 <= from <= |b|
    ensures IndexOfFrom(a + b, x, |a| + from) ==
              if IndexOfFrom(b, x, from) == -1 then -1 else |a| + IndexOfFrom(b, x, from)
    decreases |b| - from
  {
    if from < |b| {
      assert (a + b)[|a| + from] == b[from];
      IndexOfFromAfterPrefix(a, b, x, from + 1);
    }
  }

  /** Appending elements other than `x` does not change where `x` is
      found. */
  lemma {:induction false} IndexOfFromBeforeSuffix<T>(a: seq<T>, b: seq<T>, x: T, from: int)
    requires 0 <= from <= |a| && x !in b
    ensures IndexOfFrom(a + b, x, from) == IndexOfFrom(a, x, from)
    decreases |a| - from
  {
    if from < |a| {
      assert (a + b)[from] == a[from];
      IndexOfFromBeforeSuffix(a, b, x, from + 1);
    } else {
      IndexOfFromAbsent(a + b, x, from);
    }
  }

  /** Searching where `x` does not occur fails. */
  lemma {:induction false} IndexOfFromAbsent<T>(s: seq<T>, x: T, from: int)
    requires 0 <= from <= |s| && forall j | from <= j < |s| :: s[j] != x
    ensures IndexOfFrom(s, x, from) == -1
    decreases |s| - from
  {
    if from < |s| {
      IndexOfFromAbsent(s, x, from + 1);
    }
  }

  /** A slice of a suffix is the slice of the whole, moved by the prefix's
      length. */
  lemma {:induction false} SliceAfterPrefix<T>(a: seq<T>, b: seq<T>, i: int, j: int)
    requires 0 <= i <= j <= |b|
    ensures (a + b)[|a| + i..|a| + j] == b[i..j]
  {
  }

  /** A sequence that agrees with `b` on b's positions and holds `x` just
      after them is b with x appended. */
  lemma {:induction false} EqualSnoc<T>(a: seq<T>, b: seq<T>, x: T)
    requires |a| == |b| + 1 && a[|b|] == x
    requires forall j | 0 <= j < |b| :: a[j] == b[j]
    ensures a == b + [x]
  {
  }

  /** No element occurs twice. */
  predicate Distinct<T(==)>(s: seq<T>) {
    forall i, j | 0 <= i < j < |s| :: s[i] != s[j]
  }

  /** In a sequence without repetitions, the first occurrence of s[i] is i. */
  lemma {:induction false} IndexOfDistinct<T>(s: seq<T>, i: int)
    requires Distinct(s) && 0 <= i < |s|
    ensures IndexOf(s, s[i]) == i
  {
  }

  /** A sequence without repetitions has as many elements as its set. */
  lemma {:induction false} DistinctCard<T>(s: seq<T>)
    requires Distinct(s)
    ensures |set x | x in s| == |s|
  {
    if |s| > 0 {
      assert Distinct(s[1..]);
      DistinctCard(s[1..]);
      assert (set x | x in s) == {s[0]} + (set x | x in s[1..]);
    }
  }
}
