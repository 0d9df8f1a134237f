/** Facts about sequences used to state that a result keeps the order of
    the list it was filtered from. */
module Sequences {

  /** `a` can be obtained from `b` by deleting elements (order kept). */
  predicate IsSubsequence<T(==)>(a: seq<T>, b: seq<T>)
    decreases |b|
  {
    if a == [] then true
    else if b == [] then false
    else if a[0] == b[0] then IsSubsequence(a[1..], b[1..])
    else IsSubsequence(a, b[1..])
  }

  predicate Distinct<T(==)>(s: seq<T>)
  {
    forall i, j :: 0 <= i < j < |s| ==> s[i] != s[j]
  }

  lemma {:induction false} SubsequenceMembers<T>(a: seq<T>, b: seq<T>)
    requires IsSubsequence(a, b)
    ensures |a| <= |b|
    ensures forall x :: x in a ==> x in b
    decreases |b|
  {
    if a != [] {
      assert a == [a[0]] + a[1..];
      if a[0] == b[0] {
        SubsequenceMembers(a[1..], b[1..]);
      } else {
        SubsequenceMembers(a, b[1..]);
      }
    }
  }

  /** A subsequence of a tail is a subsequence of the whole. */
  lemma {:induction false} SubsequenceSkip<T>(a: seq<T>, b: seq<T>)
    requires b != [] && IsSubsequence(a, b[1..])
    ensures IsSubsequence(a, b)
    decreases |b|, 0
  {
    if a != [] && a[0] == b[0] {
      SubsequenceTail(a, b[1..]);
    }
  }

  /** Dropping the head of a subsequence keeps it a subsequence. */
  lemma {:induction false} SubsequenceTail<T>(a: seq<T>, c: seq<T>)
    requires a != [] && IsSubsequence(a, c)
    ensures IsSubsequence(a[1..], c)
    decreases |c|, 1
  {
    if a[0] == c[0] {
      SubsequenceSkip(a[1..], c);
    } else {
      SubsequenceTail(a, c[1..]);
      SubsequenceSkip(a[1..], c);
    }
  }

  lemma {:induction false} SubsequenceReflexive<T>(a: seq<T>)
    ensures IsSubsequence(a, a)
  {
    if a != [] {
      SubsequenceReflexive(a[1..]);
    }
  }

  /** Over a list without repetitions, a subsequence is determined by its
      members: two subsequences with the same members are equal. */
  lemma {:induction false} SubsequenceDeterminedByMembers<T>(a: seq<T>, b: seq<T>, names: seq<T>)
    requires Distinct(names)
    requires IsSubsequence(a, names) && IsSubsequence(b, names)
    requires forall x :: x in a <==> x in b
    ensures a == b
    decreases |names|
  {
    if names != [] {
      var n, rest := names[0], names[1..];
      assert Distinct(rest);
      if n in a {
        HeadOfSubsequence(a, names);
        HeadOfSubsequence(b, names);
        SubsequenceMembers(a[1..], rest);
        SubsequenceMembers(b[1..], rest);
        assert a == [n] + a[1..] && b == [n] + b[1..];
        forall x ensures x in a[1..] <==> x in b[1..] {
          if x in a[1..] { assert x != n && x in b; }
          if x in b[1..] { assert x != n && x in a; }
        }
        SubsequenceDeterminedByMembers(a[1..], b[1..], rest);
      } else {
        if a != [] { assert a[0] != n; }
        if b != [] { assert b[0] != n; }
        SubsequenceDeterminedByMembers(a, b, rest);
      }
    } else {
      SubsequenceMembers(a, names);
      SubsequenceMembers(b, names);
    }
  }

  /** If the first name of a repetition-free list is in a subsequence, it is its head. */
  lemma HeadOfSubsequence<T>(a: seq<T>, names: seq<T>)
    requires Distinct(names) && names != []
    requires IsSubsequence(a, names) && names[0] in a
    ensures a[0] == names[0] && IsSubsequence(a[1..], names[1..])
  {
    if a[0] != names[0] {
      SubsequenceMembers(a, names[1..]);
    }
  }

  lemma DistinctTail<T>(xs: seq<T>)
    requires xs != []
    ensures Distinct(xs) ==> Distinct(xs[1..]) && xs[0] !in xs[1..]
  {
  }
}
