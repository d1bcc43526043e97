/** `Array.prototype.sort(comparefn)`, which the language requires to be
    stable: modelled as insertion sort that places each element after every
    element that does not compare greater than it. */
module Sorting {
  import opened Seqs

  /** A comparator that orders consistently: swapping the arguments negates
      the answer, and "goes no later than" is transitive. */
  ghost predicate Consistent<T(!new)>(cmp: (T, T) -> int) {
    (forall a, b :: cmp(a, b) == -cmp(b, a)) &&
    (forall a, b, c :: cmp(a, b) <= 0 && cmp(b, c) <= 0 ==> cmp(a, c) <= 0)
  }

  /** Every pair appears in comparator order. */
  ghost predicate Sorted<T>(cmp: (T, T) -> int, r: seq<T>) {
    forall i, j :: 0 <= i < j < |r| ==> cmp(r[i], r[j]) <= 0
  }

  /** Inserts `x` after the longest tail of `p` that compares greater than it. */
  function Insert<T>(cmp: (T, T) -> int, p: seq<T>, x: T): (r: seq<T>)
    ensures |r| == |p| + 1
    decreases |p|
  {
    if p == [] || cmp(p[|p| - 1], x) <= 0 then p + [x]
    else Insert(cmp, p[..|p| - 1], x) + [p[|p| - 1]]
  }

  lemma {:induction false} InsertPermutes<T>(cmp: (T, T) -> int, p: seq<T>, x: T)
    ensures multiset(Insert(cmp, p, x)) == multiset(p) + multiset{x}
    decreases |p|
  {
    if p != [] && cmp(p[|p| - 1], x) > 0 {
      var init, last := p[..|p| - 1], p[|p| - 1];
      InsertPermutes(cmp, init, x);
      SplitLast(p);
    }
  }

  /** The stable sort of `s`: its elements inserted one by one in input order. */
  function Sort<T>(cmp: (T, T) -> int, s: seq<T>): (r: seq<T>)
    ensures |r| == |s|
    decreases |s|
  {
    if s == [] then []
    else Insert(cmp, Sort(cmp, s[..|s| - 1]), s[|s| - 1])
  }

  /** The result is a permutation of the input. */
  lemma {:induction false} SortPermutes<T>(cmp: (T, T) -> int, s: seq<T>)
    ensures multiset(Sort(cmp, s)) == multiset(s)
    decreases |s|
  {
    if s != [] {
      var init, last := s[..|s| - 1], s[|s| - 1];
      SortPermutes(cmp, init);
      InsertPermutes(cmp, Sort(cmp, init), last);
      SplitLast(s);
    }
  }

  lemma {:induction false} SortedAppend<T>(cmp: (T, T) -> int, q: seq<T>, y: T)
    requires Sorted(cmp, q)
    requires forall i :: 0 <= i < |q| ==> cmp(q[i], y) <= 0
    ensures Sorted(cmp, q + [y])
  {
    var r := q + [y];
    forall i, j | 0 <= i < j < |r| ensures cmp(r[i], r[j]) <= 0 {
      if j < |q| {
        assert r[i] == q[i] && r[j] == q[j];
      } else {
        assert r[i] == q[i];
      }
    }
  }

  lemma {:induction false} InsertSorted<T(!new)>(cmp: (T, T) -> int, p: seq<T>, x: T)
    requires Consistent(cmp) && Sorted(cmp, p)
    ensures Sorted(cmp, Insert(cmp, p, x))
    decreases |p|
  {
    if p == [] {
    } else if cmp(p[|p| - 1], x) <= 0 {
      var last := p[|p| - 1];
      forall i | 0 <= i < |p| ensures cmp(p[i], x) <= 0 {
        if i < |p| - 1 {
          assert cmp(p[i], last) <= 0;
        }
      }
      SortedAppend(cmp, p, x);
    } else {
      var init, last := p[..|p| - 1], p[|p| - 1];
      assert Sorted(cmp, init) by {
        forall i, j | 0 <= i < j < |init| ensures cmp(init[i], init[j]) <= 0 {
          assert init[i] == p[i] && init[j] == p[j];
        }
      }
      InsertSorted(cmp, init, x);
      var q := Insert(cmp, init, x);
      InsertPermutes(cmp, init, x);
      assert Insert(cmp, p, x) == q + [last];
      forall i | 0 <= i < |q| ensures cmp(q[i], last) <= 0 {
        assert q[i] in multiset(q);
        if q[i] != x {
          assert q[i] in multiset(init);
          var k :| 0 <= k < |init| && init[k] == q[i];
          assert p[k] == init[k];
        } else {
          assert cmp(x, last) == -cmp(last, x);
        }
      }
      SortedAppend(cmp, q, last);
    }
  }

  /** The result is ordered by the comparator. */
  lemma {:induction false} SortSorted<T(!new)>(cmp: (T, T) -> int, s: seq<T>)
    requires Consistent(cmp)
    ensures Sorted(cmp, Sort(cmp, s))
    decreases |s|
  {
    if s != [] {
      SortSorted(cmp, s[..|s| - 1]);
      InsertSorted(cmp, Sort(cmp, s[..|s| - 1]), s[|s| - 1]);
    }
  }

  /** The elements that compare equal to `t`. */
  function TiesWith<T>(cmp: (T, T) -> int, t: T): T -> bool {
    (x: T) => cmp(x, t) == 0
  }

  lemma {:induction false} InsertStable<T(!new)>(cmp: (T, T) -> int, p: seq<T>, x: T, t: T)
    requires Consistent(cmp)
    ensures Keep(Insert(cmp, p, x), TiesWith(cmp, t)) == Keep(p, TiesWith(cmp, t)) + Keep([x], TiesWith(cmp, t))
    decreases |p|
  {
    var f := TiesWith(cmp, t);
    if p == [] || cmp(p[|p| - 1], x) <= 0 {
      KeepConcat(p, [x], f);
    } else {
      var init, last := p[..|p| - 1], p[|p| - 1];
      var q := Insert(cmp, init, x);
      assert Insert(cmp, p, x) == q + [last];
      SplitLast(p);
      InsertStable(cmp, init, x, t);
      KeepConcat(q, [last], f);
      KeepConcat(init, [last], f);
      // `last` goes strictly after `x`, so it cannot tie with what `x` ties with
      assert !(f(x) && f(last));
      var a, kx, kl := Keep(init, f), Keep([x], f), Keep([last], f);
      assert kx + kl == kl + kx;
      calc {
        Keep(Insert(cmp, p, x), f);
        Keep(q, f) + kl;
        (a + kx) + kl;
        { ConcatAssoc(a, kx, kl); }
        a + (kl + kx);
        { ConcatAssoc(a, kl, kx); }
        Keep(p, f) + kx;
      }
    }
  }

  /** Stability: for every `t`, the elements that compare equal to `t`
      appear in the result in their input order. */
  lemma {:induction false} SortStable<T(!new)>(cmp: (T, T) -> int, s: seq<T>, t: T)
    requires Consistent(cmp)
    ensures Keep(Sort(cmp, s), TiesWith(cmp, t)) == Keep(s, TiesWith(cmp, t))
    decreases |s|
  {
    if s != [] {
      var init, last := s[..|s| - 1], s[|s| - 1];
      var f := TiesWith(cmp, t);
      assert Sort(cmp, s) == Insert(cmp, Sort(cmp, init), last);
      SortStable(cmp, init, t);
      InsertStable(cmp, Sort(cmp, init), last, t);
      SplitLast(s);
      KeepConcat(init, [last], f);
      assert Keep(s, f) == Keep(init, f) + Keep([last], f);
    }
  }

  /** A comparator that finds every pair equal leaves the order unchanged. */
  lemma {:induction false} SortAllEqual<T>(cmp: (T, T) -> int, s: seq<T>)
    requires forall a, b :: cmp(a, b) == 0
    ensures Sort(cmp, s) == s
    decreases |s|
  {
    if s != [] {
      var init, last := s[..|s| - 1], s[|s| - 1];
      SortAllEqual(cmp, init);
      assert Sort(cmp, s) == Insert(cmp, init, last);
      SplitLast(s);
    }
  }

  /** Sorts the array in place, with the result `Sort` describes. */
  method SortInPlace<T>(a: array<T>, cmp: (T, T) -> int)
    modifies a
    ensures a[..] == Sort(cmp, old(a[..]))
  {
    ghost var s := a[..];
    var i := 0;
    while i < a.Length
      invariant 0 <= i <= a.Length
      invariant a[..i] == Sort(cmp, s[..i])
      invariant forall k :: i <= k < a.Length ==> a[k] == s[k]
    {
      InsertLast(a, i, cmp);
      SortSnoc(cmp, s, i);
      i := i + 1;
    }
    assert a[..] == a[..a.Length] && s == s[..a.Length];
  }

  /** Moves `a[i]` left past the elements of `a[..i]` that compare greater
      than it: one pass of insertion sort. */
  method InsertLast<T>(a: array<T>, i: nat, cmp: (T, T) -> int)
    requires i < a.Length
    modifies a
    ensures a[..i + 1] == Insert(cmp, old(a[..i]), old(a[i]))
    ensures forall k :: i < k < a.Length ==> a[k] == old(a[k])
  {
    var x := a[i];
    ghost var p := a[..i];
    var j := i;
    while j > 0 && cmp(a[j - 1], x) > 0
      invariant 0 <= j <= i
      invariant forall k :: 0 <= k < j ==> a[k] == p[k]
      invariant forall k :: j < k <= i ==> a[k] == p[k - 1]
      invariant forall k :: i < k < a.Length ==> a[k] == old(a[k])
      invariant forall k :: j <= k < i ==> cmp(p[k], x) > 0
    {
      a[j] := a[j - 1];
      j := j - 1;
    }
    a[j] := x;
    InsertAt(cmp, p, j, x);
    Placed(p, j, x, a[..i + 1]);
  }

  /** Where `Insert` puts `x`: after position `j - 1`, when everything from
      `j` on compares greater than `x` and the element before does not. */
  lemma {:induction false} InsertAt<T>(cmp: (T, T) -> int, p: seq<T>, j: nat, x: T)
    requires j <= |p| && (j == 0 || cmp(p[j - 1], x) <= 0)
    requires forall k :: j <= k < |p| ==> cmp(p[k], x) > 0
    ensures Insert(cmp, p, x) == p[..j] + [x] + p[j..]
    decreases |p|
  {
    if j == |p| {
      assert Insert(cmp, p, x) == p + [x];
      assert p[..j] == p && p[j..] == [];
    } else {
      var init, last := p[..|p| - 1], p[|p| - 1];
      assert cmp(last, x) > 0;
      assert Insert(cmp, p, x) == Insert(cmp, init, x) + [last];
      assert j > 0 ==> init[j - 1] == p[j - 1];
      forall k | j <= k < |init| ensures cmp(init[k], x) > 0 {
        assert init[k] == p[k];
      }
      InsertAt(cmp, init, j, x);
      assert init[..j] == p[..j];
      assert init[j..] + [last] == p[j..];
      assert (p[..j] + [x] + init[j..]) + [last] == p[..j] + [x] + (init[j..] + [last]);
    }
  }

  /** A sequence that holds `p` with `x` placed at position `j`. */
  lemma {:induction false} Placed<T>(p: seq<T>, j: nat, x: T, b: seq<T>)
    requires j <= |p| && |b| == |p| + 1
    requires forall k :: 0 <= k < j ==> b[k] == p[k]
    requires b[j] == x
    requires forall k :: j < k <= |p| ==> b[k] == p[k - 1]
    ensures b == p[..j] + [x] + p[j..]
  {
    var r := p[..j] + [x] + p[j..];
    forall k | 0 <= k < |b| ensures b[k] == r[k] {
      if k > j {
        assert r[k] == p[j..][k - j - 1];
      }
    }
  }

  lemma {:induction false} SortSnoc<T>(cmp: (T, T) -> int, s: seq<T>, i: nat)
    requires i < |s|
    ensures Sort(cmp, s[..i + 1]) == Insert(cmp, Sort(cmp, s[..i]), s[i])
  {
    assert s[..i + 1][..i] == s[..i];
  }
}
