/** The categorical encoding pandas applies with `astype("category")` and
    `.cat.codes`: the categories are the distinct values in sorted order, and a
    value's code is its position among them. */
module Categorical {
  import opened Seqs
  import opened Lex

  predicate StrictlySorted(xs: seq<string>)
  {
    forall i, j :: 0 <= i < j < |xs| ==> Less(xs[i], xs[j])
  }

  /** A strictly sorted list holds no value twice. */
  lemma SortedIsDistinct(xs: seq<string>)
    requires StrictlySorted(xs)
    ensures forall i, j :: 0 <= i < j < |xs| ==> xs[i] != xs[j]
  {
    forall i, j | 0 <= i < j < |xs|
      ensures xs[i] != xs[j]
    {
      LessIrreflexive(xs[i]);
    }
  }

  lemma PrependSmaller(x: string, xs: seq<string>)
    requires StrictlySorted(xs) && |xs| > 0 && Less(x, xs[0])
    ensures StrictlySorted([x] + xs)
  {
    forall j | 0 < j < |xs|
      ensures Less(x, xs[j])
    {
      LessTransitive(x, xs[0], xs[j]);
    }
  }

  lemma PrependLarger(y: string, ys: seq<string>)
    requires StrictlySorted(ys)
    requires forall j :: 0 <= j < |ys| ==> Less(y, ys[j])
    ensures StrictlySorted([y] + ys)
  {
  }

  /** Adds `x` to a strictly sorted list, unless it is already there. */
  function Insert(xs: seq<string>, x: string): (r: seq<string>)
    requires StrictlySorted(xs)
    ensures StrictlySorted(r)
    ensures Elems(r) == Elems(xs) + {x}
    decreases |xs|
  {
    if |xs| == 0 then [x]
    else if x == xs[0] then xs
    else if Less(x, xs[0]) then
      PrependSmaller(x, xs);
      [x] + xs
    else
      LessTotal(x, xs[0]);
      var rest := Insert(xs[1..], x);
      assert forall j :: 0 <= j < |rest| ==> Less(xs[0], rest[j]) by {
        forall j | 0 <= j < |rest|
          ensures Less(xs[0], rest[j])
        {
          assert rest[j] in Elems(rest);
        }
      }
      PrependLarger(xs[0], rest);
      assert Elems([xs[0]] + rest) == {xs[0]} + Elems(rest);
      assert Elems(xs) == {xs[0]} + Elems(xs[1..]) by {
        assert xs == [xs[0]] + xs[1..];
      }
      [xs[0]] + rest
  }

  /** The categories of a column: its distinct values, in sorted order. */
  function Categories(values: seq<string>): (cats: seq<string>)
    ensures StrictlySorted(cats)
    ensures Elems(cats) == Elems(values)
    decreases |values|
  {
    if |values| == 0 then []
    else
      var prefix := values[..|values| - 1];
      assert Elems(values) == Elems(prefix) + {values[|values| - 1]} by {
        assert values == prefix + [values[|values| - 1]];
      }
      Insert(Categories(prefix), values[|values| - 1])
  }

  /** The code of a value: its position in the category list. */
  function Code(cats: seq<string>, x: string): (c: nat)
    requires x in cats
    ensures c < |cats| && cats[c] == x
    decreases |cats|
  {
    if cats[0] == x then 0 else 1 + Code(cats[1..], x)
  }

  /** Codes are positions: decoding position `i` and encoding again gives `i`. */
  lemma CodeOfCategory(cats: seq<string>, i: nat)
    requires StrictlySorted(cats) && i < |cats|
    ensures Code(cats, cats[i]) == i
  {
    SortedIsDistinct(cats);
  }

  /** The reverse mapping `dict(enumerate(categories))`. For sorted
      categories it inverts the encoding both ways: decoding a value's code
      gives the value back, and every key is the code of its value. */
  function CategoryMap(cats: seq<string>): (m: map<nat, string>)
    ensures forall i: nat :: i in m <==> i < |cats|
    ensures StrictlySorted(cats) ==> forall x :: x in cats ==> Code(cats, x) in m && m[Code(cats, x)] == x
    ensures StrictlySorted(cats) ==> forall i :: i in m ==> m[i] in cats && Code(cats, m[i]) == i
  {
    var m := map i: nat | i < |cats| :: cats[i];
    if StrictlySorted(cats) then
      CodesInvertible(cats);
      m
    else m
  }

  lemma CodesInvertible(cats: seq<string>)
    requires StrictlySorted(cats)
    ensures forall i: nat :: i < |cats| ==> Code(cats, cats[i]) == i
  {
    forall i: nat | i < |cats|
      ensures Code(cats, cats[i]) == i
    {
      CodeOfCategory(cats, i);
    }
  }
}
