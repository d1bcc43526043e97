/** Sequence helpers shared by the store and the views: `Keep` is
    JavaScript's `Array.prototype.filter`, which the dashboard uses for the
    view filter, for deletion and for counting completed tasks. */
module Seqs {

  /** The elements of `s` for which `f` holds, in their original order. */
  function Keep<T(==)>(s: seq<T>, f: T -> bool): (r: seq<T>)
    ensures |r| <= |s|
    ensures forall i :: 0 <= i < |r| ==> r[i] in s && f(r[i])
    ensures forall i :: 0 <= i < |s| && f(s[i]) ==> s[i] in r
    decreases |s|
  {
    if s == [] then []
    else (if f(s[0]) then [s[0]] else []) + Keep(s[1..], f)
  }

  /** `Keep` keeps every element `f` accepts as often as it occurs, and
      nothing else. */
  lemma {:induction false} KeepCounts<T>(s: seq<T>, f: T -> bool)
    ensures forall x :: multiset(Keep(s, f))[x] == if f(x) then multiset(s)[x] else 0
    decreases |s|
  {
    if s != [] {
      KeepCounts(s[1..], f);
      assert s == [s[0]] + s[1..];
    }
  }

  /** `a` can be obtained from `b` by deleting elements: it keeps their order. */
  predicate IsSubsequence<T(==)>(a: seq<T>, b: seq<T>)
    decreases |b|
  {
    a == [] ||
    (b != [] &&
     ((a[0] == b[0] && IsSubsequence(a[1..], b[1..])) || IsSubsequence(a, b[1..])))
  }

  /** Filtering preserves the relative order of what it keeps. */
  lemma {:induction false} KeepIsSubsequence<T>(s: seq<T>, f: T -> bool)
    ensures IsSubsequence(Keep(s, f), s)
    decreases |s|
  {
    if s != [] {
      KeepIsSubsequence(s[1..], f);
      if f(s[0]) {
        assert Keep(s, f) == [s[0]] + Keep(s[1..], f);
        assert Keep(s, f)[1..] == Keep(s[1..], f);
      } else {
        assert Keep(s, f) == Keep(s[1..], f);
      }
    }
  }

  /** Filtering a concatenation filters each part. */
  lemma {:induction false} KeepConcat<T>(a: seq<T>, b: seq<T>, f: T -> bool)
    ensures Keep(a + b, f) == Keep(a, f) + Keep(b, f)
    decreases |a|
  {
    if a == [] {
      assert a + b == b;
    } else {
      assert (a + b)[0] == a[0];
      assert (a + b)[1..] == a[1..] + b;
      KeepConcat(a[1..], b, f);
    }
  }

  /** Two filters that agree everywhere keep the same elements. */
  lemma {:induction false} KeepSameFilter<T>(s: seq<T>, f: T -> bool, g: T -> bool)
    requires forall x :: f(x) == g(x)
    ensures Keep(s, f) == Keep(s, g)
    decreases |s|
  {
    if s != [] {
      KeepSameFilter(s[1..], f, g);
    }
  }

  /** A filter and its negation split a sequence: their sizes add up. */
  lemma {:induction false} KeepComplement<T>(s: seq<T>, f: T -> bool, g: T -> bool)
    requires forall x :: g(x) == !f(x)
    ensures |Keep(s, f)| + |Keep(s, g)| == |s|
    decreases |s|
  {
    if s != [] {
      KeepComplement(s[1..], f, g);
    }
  }

  /** A filter that holds of every element keeps the whole sequence. */
  lemma {:induction false} KeepAll<T>(s: seq<T>, f: T -> bool)
    requires forall i :: 0 <= i < |s| ==> f(s[i])
    ensures Keep(s, f) == s
    decreases |s|
  {
    if s != [] {
      KeepAll(s[1..], f);
    }
  }

  /** A non-empty sequence is its prefix followed by its last element. */
  lemma SplitLast<T>(s: seq<T>)
    requires s != []
    ensures s == s[..|s| - 1] + [s[|s| - 1]]
  {
  }

  /** Concatenation is associative. */
  lemma ConcatAssoc<T>(a: seq<T>, b: seq<T>, c: seq<T>)
    ensures (a + b) + c == a + (b + c)
  {
  }
}
