/** Generic sequence operations: the `Array.prototype.filter`, sum, maximum and minimum
    that the statistics and list operations are built from, with their laws. */
module Seqs {

  /** `s.filter(f)`: the elements of `s` that satisfy `f`, in order. */
  function Filter<T>(f: T -> bool, s: seq<T>): (r: seq<T>)
    ensures |r| <= |s|
    ensures forall x :: x in r ==> x in s && f(x)
  {
    if |s| == 0 then [] else (if f(s[0]) then [s[0]] else []) + Filter(f, s[1..])
  }

  /** The number of elements of `s` that satisfy `f`. */
  function Count<T>(f: T -> bool, s: seq<T>): nat {
    |Filter(f, s)|
  }

  /** `a` is obtained from `b` by deleting elements, keeping the order of the rest. */
  predicate IsSubsequence<T(==)>(a: seq<T>, b: seq<T>)
    decreases |b|
  {
    && |a| <= |b|
    && (|a| == 0 || (a[0] == b[0] && IsSubsequence(a[1..], b[1..])) || IsSubsequence(a, b[1..]))
  }

  /** An element is kept exactly when it occurs in the input and satisfies the predicate. */
  lemma {:induction false} FilterMembership<T>(f: T -> bool, s: seq<T>, x: T)
    ensures x in Filter(f, s) <==> x in s && f(x)
  {
    if |s| > 0 {
      FilterMembership(f, s[1..], x);
      assert x in s <==> x == s[0] || x in s[1..];
    }
  }

  /** Filtering distributes over concatenation. */
  lemma {:induction false} FilterConcat<T>(f: T -> bool, a: seq<T>, b: seq<T>)
    ensures Filter(f, a + b) == Filter(f, a) + Filter(f, b)
  {
    if |a| > 0 {
      assert (a + b)[1..] == a[1..] + b;
      FilterConcat(f, a[1..], b);
    } else {
      assert a + b == b;
    }
  }

  /** When every element satisfies the predicate nothing is removed. */
  lemma {:induction false} FilterKeepsAll<T>(f: T -> bool, s: seq<T>)
    requires forall i :: 0 <= i < |s| ==> f(s[i])
    ensures Filter(f, s) == s
  {
    if |s| > 0 {
      FilterKeepsAll(f, s[1..]);
    }
  }

  /** Filtering a middle part flanked by parts that are removed entirely. */
  lemma FilterMiddle<T>(f: T -> bool, a: seq<T>, b: seq<T>, c: seq<T>)
    requires Filter(f, a) == [] && Filter(f, c) == []
    ensures Filter(f, a + (b + c)) == Filter(f, b)
  {
    FilterConcat(f, a, b + c);
    FilterConcat(f, b, c);
  }

  /** When exactly one element fails the predicate, filtering removes just it. */
  lemma FilterRemovesOne<T>(f: T -> bool, a: seq<T>, x: T, b: seq<T>)
    requires forall i :: 0 <= i < |a| ==> f(a[i])
    requires !f(x)
    requires forall i :: 0 <= i < |b| ==> f(b[i])
    ensures Filter(f, a + ([x] + b)) == a + b
  {
    FilterKeepsAll(f, a);
    FilterKeepsAll(f, b);
    FilterSkipsHead(f, x, b);
    FilterConcat(f, a, [x] + b);
  }

  /** A leading element that fails the predicate is dropped. */
  lemma FilterSkipsHead<T>(f: T -> bool, x: T, s: seq<T>)
    requires !f(x)
    ensures Filter(f, [x] + s) == Filter(f, s)
  {
    assert ([x] + s)[1..] == s;
  }

  /** When no element satisfies the predicate everything is removed. */
  lemma {:induction false} FilterDropsAll<T>(f: T -> bool, s: seq<T>)
    requires forall i :: 0 <= i < |s| ==> !f(s[i])
    ensures Filter(f, s) == []
  {
    if |s| > 0 {
      FilterDropsAll(f, s[1..]);
    }
  }

  /** Two predicates that agree on the elements of `s` filter it alike. */
  lemma {:induction false} FilterCongruent<T>(f: T -> bool, g: T -> bool, s: seq<T>)
    requires forall i :: 0 <= i < |s| ==> f(s[i]) == g(s[i])
    ensures Filter(f, s) == Filter(g, s)
  {
    if |s| > 0 {
      FilterCongruent(f, g, s[1..]);
    }
  }

  /** Filtering by `g` and then by `f` is filtering once by their conjunction `h`. */
  lemma {:induction false} FilterOfFilter<T>(f: T -> bool, g: T -> bool, h: T -> bool, s: seq<T>)
    requires forall i :: 0 <= i < |s| ==> (h(s[i]) <==> g(s[i]) && f(s[i]))
    ensures Filter(f, Filter(g, s)) == Filter(h, s)
  {
    if |s| > 0 {
      FilterOfFilter(f, g, h, s[1..]);
      FilterConcat(f, if g(s[0]) then [s[0]] else [], Filter(g, s[1..]));
    }
  }

  /** Filtering keeps every copy of an element that satisfies the predicate and no copy of
      one that does not. */
  lemma {:induction false} FilterMultiplicity<T>(f: T -> bool, s: seq<T>, x: T)
    ensures multiset(Filter(f, s))[x] == if f(x) then multiset(s)[x] else 0
  {
    if |s| > 0 {
      FilterMultiplicity(f, s[1..], x);
      assert s == [s[0]] + s[1..];
      assert multiset(s) == multiset([s[0]]) + multiset(s[1..]);
    }
  }

  /** Filtering twice with the same predicate is filtering once. */
  lemma FilterIdempotent<T>(f: T -> bool, s: seq<T>)
    ensures Filter(f, Filter(f, s)) == Filter(f, s)
  {
    var r := Filter(f, s);
    forall i | 0 <= i < |r| ensures f(r[i]) {
      assert r[i] in r;
    }
    FilterKeepsAll(f, r);
  }

  /** The filtered sequence keeps the input's order. */
  lemma {:induction false} FilterIsSubsequence<T>(f: T -> bool, s: seq<T>)
    ensures IsSubsequence(Filter(f, s), s)
  {
    if |s| > 0 {
      FilterIsSubsequence(f, s[1..]);
      if f(s[0]) {
        assert Filter(f, s)[1..] == Filter(f, s[1..]);
      } else {
        assert Filter(f, s) == Filter(f, s[1..]);
      }
    }
  }

  /** Counting splits over two disjoint predicates whose union is `h`. */
  lemma {:induction false} CountDisjointUnion<T>(f: T -> bool, g: T -> bool, h: T -> bool, s: seq<T>)
    requires forall i :: 0 <= i < |s| ==> (h(s[i]) <==> f(s[i]) || g(s[i]))
    requires forall i :: 0 <= i < |s| ==> !(f(s[i]) && g(s[i]))
    ensures Count(h, s) == Count(f, s) + Count(g, s)
  {
    if |s| > 0 {
      CountDisjointUnion(f, g, h, s[1..]);
    }
  }

  /** A predicate implied by another is satisfied at least as often. */
  lemma {:induction false} CountMonotone<T>(f: T -> bool, g: T -> bool, s: seq<T>)
    requires forall i :: 0 <= i < |s| ==> f(s[i]) ==> g(s[i])
    ensures Count(f, s) <= Count(g, s)
  {
    if |s| > 0 {
      CountMonotone(f, g, s[1..]);
    }
  }

  /** `s.reduce((a, x) => a + x, 0)`. */
  function Sum(s: seq<int>): int {
    if |s| == 0 then 0 else s[0] + Sum(s[1..])
  }

  /** `Math.max(...s)` for a non-empty `s`. */
  function Max(s: seq<int>): (m: int)
    requires |s| > 0
    ensures m in s
    ensures forall i :: 0 <= i < |s| ==> s[i] <= m
  {
    if |s| == 1 then s[0]
    else
      var rest := Max(s[1..]);
      if s[0] >= rest then s[0] else rest
  }

  /** `Math.min(...s)` for a non-empty `s`. */
  function Min(s: seq<int>): (m: int)
    requires |s| > 0
    ensures m in s
    ensures forall i :: 0 <= i < |s| ==> m <= s[i]
  {
    if |s| == 1 then s[0]
    else
      var rest := Min(s[1..]);
      if s[0] <= rest then s[0] else rest
  }

  /** Every element between `lo` and `hi` bounds the sum between `|s| * lo` and `|s| * hi`. */
  lemma {:induction false} SumBounds(s: seq<int>, lo: int, hi: int)
    requires forall i :: 0 <= i < |s| ==> lo <= s[i] <= hi
    ensures |s| * lo <= Sum(s) <= |s| * hi
  {
    if |s| > 0 {
      SumBounds(s[1..], lo, hi);
    }
  }

  /** Sum distributes over concatenation. */
  lemma {:induction false} SumConcat(a: seq<int>, b: seq<int>)
    ensures Sum(a + b) == Sum(a) + Sum(b)
  {
    if |a| > 0 {
      assert (a + b)[1..] == a[1..] + b;
      SumConcat(a[1..], b);
    } else {
      assert a + b == b;
    }
  }
}
