/** Sequence helpers shared by the pipeline stages: order-preserving selection
    (a boolean-mask row filter), subsequences, sums and distinct elements. */
module Seqs {

  /** The distinct values occurring in `s`. */
  function Elems<T>(s: seq<T>): set<T>
  {
    set x | x in s
  }

  /** The elements of `s` that satisfy `p`, kept in their original order. */
  function Filter<T>(s: seq<T>, p: T -> bool): (r: seq<T>)
    ensures |r| <= |s|
    ensures forall k :: 0 <= k < |r| ==> p(r[k])
    ensures forall k :: 0 <= k < |s| && p(s[k]) ==> s[k] in r
    decreases |s|
  {
    if |s| == 0 then []
    else
      Filter(s[..|s| - 1], p) + (if p(s[|s| - 1]) then [s[|s| - 1]] else [])
  }

  /** Filtering only drops rows: every kept row occurs in the input at least
      as often. */
  lemma {:induction false} FilterSubMultiset<T>(s: seq<T>, p: T -> bool)
    ensures multiset(Filter(s, p)) <= multiset(s)
    decreases |s|
  {
    if |s| > 0 {
      FilterSubMultiset(s[..|s| - 1], p);
      assert s == s[..|s| - 1] + [s[|s| - 1]];
    }
  }

  /** Filtering keeps every copy of a selected value and no copy of any
      other value. */
  lemma {:induction false} FilterCount<T>(s: seq<T>, p: T -> bool, x: T)
    ensures multiset(Filter(s, p))[x] == if p(x) then multiset(s)[x] else 0
    decreases |s|
  {
    if |s| > 0 {
      FilterCount(s[..|s| - 1], p, x);
      assert s == s[..|s| - 1] + [s[|s| - 1]];
    }
  }

  lemma FilterCounts<T>(s: seq<T>, p: T -> bool)
    ensures forall x :: multiset(Filter(s, p))[x] == if p(x) then multiset(s)[x] else 0
  {
    forall x
      ensures multiset(Filter(s, p))[x] == if p(x) then multiset(s)[x] else 0
    {
      FilterCount(s, p, x);
    }
  }

  /** Every row `Filter` keeps comes from the input. */
  lemma FilterMember<T>(s: seq<T>, p: T -> bool, x: T)
    requires x in Filter(s, p)
    ensures x in s && p(x)
  {
    FilterSubMultiset(s, p);
    assert x in multiset(Filter(s, p));
  }

  /** A predicate every element satisfies keeps the whole sequence. */
  lemma {:induction false} FilterKeepsAll<T>(s: seq<T>, p: T -> bool)
    requires forall k :: 0 <= k < |s| ==> p(s[k])
    ensures Filter(s, p) == s
    decreases |s|
  {
    if |s| > 0 {
      FilterKeepsAll(s[..|s| - 1], p);
      assert s == s[..|s| - 1] + [s[|s| - 1]];
    }
  }

  /** A predicate no element satisfies keeps nothing. */
  lemma {:induction false} FilterNone<T>(s: seq<T>, p: T -> bool)
    requires forall k :: 0 <= k < |s| ==> !p(s[k])
    ensures Filter(s, p) == []
    decreases |s|
  {
    if |s| > 0 {
      FilterNone(s[..|s| - 1], p);
    }
  }

  /** Filtering distributes over concatenation. */
  lemma {:induction false} FilterAppend<T>(a: seq<T>, b: seq<T>, p: T -> bool)
    ensures Filter(a + b, p) == Filter(a, p) + Filter(b, p)
    decreases |b|
  {
    if |b| == 0 {
      assert a + b == a;
    } else {
      var b' := b[..|b| - 1];
      assert (a + b)[..|a + b| - 1] == a + b';
      assert (a + b)[|a + b| - 1] == b[|b| - 1];
      FilterAppend(a, b', p);
    }
  }

  /** Two predicates that agree on every element of `s` select the same rows. */
  lemma {:induction false} FilterCongruence<T>(s: seq<T>, p: T -> bool, q: T -> bool)
    requires forall k :: 0 <= k < |s| ==> p(s[k]) == q(s[k])
    ensures Filter(s, p) == Filter(s, q)
    decreases |s|
  {
    if |s| > 0 {
      FilterCongruence(s[..|s| - 1], p, q);
    }
  }

  lemma FilterSingleton<T>(x: T, p: T -> bool)
    ensures Filter([x], p) == if p(x) then [x] else []
  {
    assert [x][..0] == [];
  }

  lemma MultisetCancel<T>(a: multiset<T>, b: multiset<T>, x: T)
    requires a + multiset{x} == b + multiset{x}
    ensures a == b
  {
    forall y
      ensures a[y] == b[y]
    {
      assert (a + multiset{x})[y] == (b + multiset{x})[y];
    }
  }

  /** Removing position `i` from `t` removes one occurrence of `t[i]`, and
      one selected element if `t[i]` is selected. */
  lemma FilterRemove<T>(t: seq<T>, i: nat, p: T -> bool)
    requires i < |t|
    ensures multiset(t[..i] + t[i + 1..]) + multiset{t[i]} == multiset(t)
    ensures |Filter(t, p)| == |Filter(t[..i] + t[i + 1..], p)| + (if p(t[i]) then 1 else 0)
  {
    var before, after := t[..i], t[i + 1..];
    assert t == before + ([t[i]] + after);
    FilterAppend(before, [t[i]] + after, p);
    FilterAppend([t[i]], after, p);
    FilterAppend(before, after, p);
    FilterSingleton(t[i], p);
  }

  /** Two selected positions make at least two selected elements. */
  lemma FilterTwo<T>(s: seq<T>, i: nat, j: nat, p: T -> bool)
    requires i < j < |s| && p(s[i]) && p(s[j])
    ensures |Filter(s, p)| >= 2
  {
    FilterRemove(s, j, p);
    var rest := s[..j] + s[j + 1..];
    assert rest[i] == s[i];
  }

  /** How many elements a predicate selects depends only on the multiset of
      elements, not on their order. */
  lemma {:induction false} FilterLengthPermutation<T>(s: seq<T>, t: seq<T>, p: T -> bool)
    requires multiset(s) == multiset(t)
    ensures |Filter(s, p)| == |Filter(t, p)|
    decreases |s|
  {
    if |s| == 0 {
      assert |t| == |multiset(t)| == 0;
    } else {
      var x := s[|s| - 1];
      var s' := s[..|s| - 1];
      assert s == s' + [x];
      assert x in multiset(t);
      var i :| 0 <= i < |t| && t[i] == x;
      var rest := t[..i] + t[i + 1..];
      FilterRemove(t, i, p);
      MultisetCancel(multiset(rest), multiset(s'), x);
      FilterLengthPermutation(s', rest, p);
      FilterAppend(s', [x], p);
      FilterSingleton(x, p);
    }
  }

  /** A predicate and its complement split `s` into two parts that together hold
      every element exactly as often as `s` does. */
  lemma {:induction false} FilterPartition<T>(s: seq<T>, p: T -> bool, q: T -> bool)
    requires forall x :: q(x) == !p(x)
    ensures multiset(Filter(s, p)) + multiset(Filter(s, q)) == multiset(s)
    decreases |s|
  {
    if |s| > 0 {
      var s' := s[..|s| - 1];
      FilterPartition(s', p, q);
      assert s == s' + [s[|s| - 1]];
    }
  }

  /** `idx` maps each position of `a` to a position of `b` holding the same
      value, strictly increasingly. */
  ghost predicate Embeds<T>(idx: seq<nat>, a: seq<T>, b: seq<T>)
  {
    && |idx| == |a|
    && (forall k :: 0 <= k < |idx| ==> idx[k] < |b| && a[k] == b[idx[k]])
    && (forall k, l :: 0 <= k < l < |idx| ==> idx[k] < idx[l])
  }

  /** `a` is an order-preserving subsequence of `b`. */
  ghost predicate IsSubsequence<T>(a: seq<T>, b: seq<T>)
  {
    exists idx: seq<nat> :: Embeds(idx, a, b)
  }

  /** The positions of `s` that `Filter(s, p)` keeps. */
  lemma {:induction false} FilterEmbedding<T>(s: seq<T>, p: T -> bool) returns (idx: seq<nat>)
    ensures Embeds(idx, Filter(s, p), s)
    decreases |s|
  {
    if |s| == 0 {
      idx := [];
    } else {
      var s' := s[..|s| - 1];
      var idx' := FilterEmbedding(s', p);
      if p(s[|s| - 1]) {
        idx := idx' + [|s| - 1];
      } else {
        idx := idx';
      }
    }
  }

  /** Filtering keeps the surviving rows in their original relative order. */
  lemma FilterIsSubsequence<T>(s: seq<T>, p: T -> bool)
    ensures IsSubsequence(Filter(s, p), s)
  {
    var idx := FilterEmbedding(s, p);
  }

  lemma SubsequenceTransitive<T>(a: seq<T>, b: seq<T>, c: seq<T>)
    requires IsSubsequence(a, b) && IsSubsequence(b, c)
    ensures IsSubsequence(a, c)
  {
    var i1: seq<nat> :| Embeds(i1, a, b);
    var i2: seq<nat> :| Embeds(i2, b, c);
    var i3: seq<nat> := seq(|a|, k requires 0 <= k < |a| => i2[i1[k]]);
    assert Embeds(i3, a, c);
  }

  /** The sum of a sequence of counts. */
  function Sum(xs: seq<nat>): nat
    decreases |xs|
  {
    if |xs| == 0 then 0 else Sum(xs[..|xs| - 1]) + xs[|xs| - 1]
  }

  lemma {:induction false} SumAppend(a: seq<nat>, b: seq<nat>)
    ensures Sum(a + b) == Sum(a) + Sum(b)
    decreases |b|
  {
    if |b| == 0 {
      assert a + b == a;
    } else {
      var b' := b[..|b| - 1];
      assert (a + b)[..|a + b| - 1] == a + b';
      SumAppend(a, b');
    }
  }

  /** A sequence has at most as many distinct values as elements. */
  lemma {:induction false} ElemsBound<T>(s: seq<T>)
    ensures |Elems(s)| <= |s|
    decreases |s|
  {
    if |s| == 0 {
      assert Elems(s) == {};
    } else {
      var s' := s[..|s| - 1];
      ElemsBound(s');
      assert Elems(s) == Elems(s') + {s[|s| - 1]};
    }
  }

  /** A sequence without repeated values has exactly as many distinct values as
      elements. */
  lemma {:induction false} ElemsOfDistinct<T>(s: seq<T>)
    requires forall i, j :: 0 <= i < j < |s| ==> s[i] != s[j]
    ensures |Elems(s)| == |s|
    decreases |s|
  {
    if |s| == 0 {
      assert Elems(s) == {};
    } else {
      var s' := s[..|s| - 1];
      ElemsOfDistinct(s');
      assert s[|s| - 1] !in Elems(s');
      assert Elems(s) == Elems(s') + {s[|s| - 1]};
    }
  }
}
