/** `groupby` on a non-negative integer key, as pandas does it by default:
    one group per key that occurs, keys in ascending order, each group holding
    its rows in their original order. */
module Grouping {
  import opened Seqs

  datatype Group<T> = Group(key: nat, members: seq<T>)

  function HasKey<T>(key: T -> nat, u: nat): T -> bool
  {
    x => key(x) == u
  }

  function KeyBelow<T>(key: T -> nat, n: nat): T -> bool
  {
    x => key(x) < n
  }

  /** The rows whose key is `u`, in order. */
  function Members<T>(xs: seq<T>, key: T -> nat, u: nat): seq<T>
  {
    Filter(xs, HasKey(key, u))
  }

  /** One more than the largest key (0 for no rows). */
  function KeyBound<T>(xs: seq<T>, key: T -> nat): (b: nat)
    ensures forall k :: 0 <= k < |xs| ==> key(xs[k]) < b
    decreases |xs|
  {
    if |xs| == 0 then 0
    else
      var b := KeyBound(xs[..|xs| - 1], key);
      if key(xs[|xs| - 1]) < b then b else key(xs[|xs| - 1]) + 1
  }

  /** The keys below `b` that some row carries, ascending. */
  function KeysBelow<T>(xs: seq<T>, key: T -> nat, b: nat): seq<nat>
    decreases b
  {
    if b == 0 then []
    else KeysBelow(xs, key, b - 1) + (if |Members(xs, key, b - 1)| > 0 then [b - 1] else [])
  }

  /** Every key `KeysBelow` lists is below `b` and has members. */
  lemma {:induction false} KeysBelowSound<T>(xs: seq<T>, key: T -> nat, b: nat)
    ensures forall g :: 0 <= g < |KeysBelow(xs, key, b)| ==>
      KeysBelow(xs, key, b)[g] < b && |Members(xs, key, KeysBelow(xs, key, b)[g])| > 0
    decreases b
  {
    if b > 0 {
      KeysBelowSound(xs, key, b - 1);
      var ks := KeysBelow(xs, key, b - 1);
      var ks' := KeysBelow(xs, key, b);
      forall g | 0 <= g < |ks'|
        ensures ks'[g] < b && |Members(xs, key, ks'[g])| > 0
      {
        if g < |ks| {
          assert ks'[g] == ks[g];
        }
      }
    }
  }

  /** `KeysBelow` lists its keys in strictly ascending order. */
  lemma {:induction false} KeysBelowAscending<T>(xs: seq<T>, key: T -> nat, b: nat)
    ensures forall g, h :: 0 <= g < h < |KeysBelow(xs, key, b)| ==>
      KeysBelow(xs, key, b)[g] < KeysBelow(xs, key, b)[h]
    decreases b
  {
    if b > 0 {
      KeysBelowAscending(xs, key, b - 1);
      KeysBelowSound(xs, key, b - 1);
      var ks := KeysBelow(xs, key, b - 1);
      var ks' := KeysBelow(xs, key, b);
      forall g, h | 0 <= g < h < |ks'|
        ensures ks'[g] < ks'[h]
      {
        assert ks'[g] == ks[g];
        if h < |ks| {
          assert ks'[h] == ks[h];
        }
      }
    }
  }

  /** Every key below `b` that has members is listed. */
  lemma {:induction false} KeysBelowComplete<T>(xs: seq<T>, key: T -> nat, b: nat, u: nat)
    requires u < b && |Members(xs, key, u)| > 0
    ensures u in KeysBelow(xs, key, b)
    decreases b
  {
    if u < b - 1 {
      KeysBelowComplete(xs, key, b - 1, u);
    }
  }

  /** `KeysBelow` lists, in ascending order, exactly the keys below `b` that
      have members. */
  lemma KeysBelowSpec<T>(xs: seq<T>, key: T -> nat, b: nat)
    ensures var ks := KeysBelow(xs, key, b);
      && (forall g :: 0 <= g < |ks| ==> ks[g] < b && |Members(xs, key, ks[g])| > 0)
      && (forall g, h :: 0 <= g < h < |ks| ==> ks[g] < ks[h])
      && (forall u: nat :: u < b && |Members(xs, key, u)| > 0 ==> u in ks)
  {
    KeysBelowSound(xs, key, b);
    KeysBelowAscending(xs, key, b);
    forall u: nat | u < b && |Members(xs, key, u)| > 0
      ensures u in KeysBelow(xs, key, b)
    {
      KeysBelowComplete(xs, key, b, u);
    }
  }

  function GroupsFor<T>(xs: seq<T>, key: T -> nat, ks: seq<nat>): seq<Group<T>>
  {
    seq(|ks|, g requires 0 <= g < |ks| => Group(ks[g], Members(xs, key, ks[g])))
  }

  /** `xs.groupby(key)`: the non-empty groups, in ascending key order. */
  function GroupBy<T>(xs: seq<T>, key: T -> nat): (gs: seq<Group<T>>)
    ensures forall g :: 0 <= g < |gs| ==>
      |gs[g].members| > 0 && gs[g].members == Members(xs, key, gs[g].key)
    ensures forall g, h :: 0 <= g < h < |gs| ==> gs[g].key < gs[h].key
    ensures forall k :: 0 <= k < |xs| ==> exists g :: 0 <= g < |gs| && gs[g].key == key(xs[k])
  {
    var ks := KeysBelow(xs, key, KeyBound(xs, key));
    KeysBelowSpec(xs, key, KeyBound(xs, key));
    var gs := GroupsFor(xs, key, ks);
    assert forall k :: 0 <= k < |xs| ==> exists g :: 0 <= g < |gs| && gs[g].key == key(xs[k]) by {
      forall k | 0 <= k < |xs|
        ensures exists g :: 0 <= g < |gs| && gs[g].key == key(xs[k])
      {
        assert xs[k] in Members(xs, key, key(xs[k]));
        var g :| 0 <= g < |ks| && ks[g] == key(xs[k]);
        assert gs[g].key == key(xs[k]);
      }
    }
    gs
  }

  /** The group sizes, `groupby(...).size()`. */
  function Sizes<T>(gs: seq<Group<T>>): seq<nat>
  {
    seq(|gs|, g requires 0 <= g < |gs| => |gs[g].members|)
  }

  /** The total size of the groups whose key is below `n`. */
  function SizeBelow<T>(gs: seq<Group<T>>, n: nat): nat
    decreases |gs|
  {
    if |gs| == 0 then 0
    else
      SizeBelow(gs[..|gs| - 1], n)
      + (if gs[|gs| - 1].key < n then |gs[|gs| - 1].members| else 0)
  }

  /** The number of rows whose key is below `b`, counted key by key. */
  function CountBelow<T>(xs: seq<T>, key: T -> nat, b: nat): nat
    decreases b
  {
    if b == 0 then 0 else CountBelow(xs, key, b - 1) + |Members(xs, key, b - 1)|
  }

  lemma MembersSnoc<T>(xs: seq<T>, x: T, key: T -> nat, u: nat)
    ensures |Members(xs + [x], key, u)| == |Members(xs, key, u)| + (if key(x) == u then 1 else 0)
  {
    FilterAppend(xs, [x], HasKey(key, u));
    assert [x][..0] == [];
  }

  lemma {:induction false} CountBelowSnoc<T>(xs: seq<T>, x: T, key: T -> nat, b: nat)
    ensures CountBelow(xs + [x], key, b) == CountBelow(xs, key, b) + (if key(x) < b then 1 else 0)
    decreases b
  {
    if b > 0 {
      CountBelowSnoc(xs, x, key, b - 1);
      MembersSnoc(xs, x, key, b - 1);
    }
  }

  /** Counting key by key below `b` counts exactly the rows with a key below `b`. */
  lemma {:induction false} CountBelowIsFilter<T>(xs: seq<T>, key: T -> nat, b: nat)
    ensures CountBelow(xs, key, b) == |Filter(xs, KeyBelow(key, b))|
    decreases |xs|
  {
    if |xs| == 0 {
      CountBelowEmpty(xs, key, b);
    } else {
      var xs' := xs[..|xs| - 1];
      var x := xs[|xs| - 1];
      assert xs == xs' + [x];
      CountBelowIsFilter(xs', key, b);
      CountBelowSnoc(xs', x, key, b);
    }
  }

  lemma {:induction false} CountBelowEmpty<T>(xs: seq<T>, key: T -> nat, b: nat)
    requires |xs| == 0
    ensures CountBelow(xs, key, b) == 0
    decreases b
  {
    if b > 0 {
      CountBelowEmpty(xs, key, b - 1);
    }
  }

  lemma GroupsForSnoc<T>(xs: seq<T>, key: T -> nat, ks: seq<nat>, u: nat)
    ensures GroupsFor(xs, key, ks + [u]) == GroupsFor(xs, key, ks) + [Group(u, Members(xs, key, u))]
  {
  }

  lemma SizeBelowSnoc<T>(gs: seq<Group<T>>, g: Group<T>, n: nat)
    ensures SizeBelow(gs + [g], n) == SizeBelow(gs, n) + (if g.key < n then |g.members| else 0)
  {
    assert (gs + [g])[..|gs|] == gs;
  }

  /** Raising the key bound by one adds the new key's group, if it has one. */
  lemma SizeBelowStep<T>(xs: seq<T>, key: T -> nat, b: nat, n: nat)
    requires b > 0
    ensures SizeBelow(GroupsFor(xs, key, KeysBelow(xs, key, b)), n)
         == SizeBelow(GroupsFor(xs, key, KeysBelow(xs, key, b - 1)), n)
            + (if b - 1 < n then |Members(xs, key, b - 1)| else 0)
  {
    var ks := KeysBelow(xs, key, b - 1);
    var m := Members(xs, key, b - 1);
    if |m| > 0 {
      assert KeysBelow(xs, key, b) == ks + [b - 1];
      GroupsForSnoc(xs, key, ks, b - 1);
      SizeBelowSnoc(GroupsFor(xs, key, ks), Group(b - 1, m), n);
    } else {
      assert KeysBelow(xs, key, b) == ks;
    }
  }

  lemma {:induction false} SizeBelowOfKeys<T>(xs: seq<T>, key: T -> nat, b: nat, n: nat)
    ensures SizeBelow(GroupsFor(xs, key, KeysBelow(xs, key, b)), n)
         == CountBelow(xs, key, if n < b then n else b)
    decreases b
  {
    if b > 0 {
      SizeBelowOfKeys(xs, key, b - 1, n);
      SizeBelowStep(xs, key, b, n);
      if b - 1 < n {
        assert CountBelow(xs, key, b) == CountBelow(xs, key, b - 1) + |Members(xs, key, b - 1)|;
      }
    }
  }

  /** The groups whose key is below `n` hold exactly the rows whose key is
      below `n`. */
  lemma GroupSizesBelow<T>(xs: seq<T>, key: T -> nat, n: nat)
    ensures SizeBelow(GroupBy(xs, key), n) == |Filter(xs, KeyBelow(key, n))|
  {
    var b := KeyBound(xs, key);
    var c := if n < b then n else b;
    SizeBelowOfKeys(xs, key, b, n);
    CountBelowIsFilter(xs, key, c);
    FilterCongruence(xs, KeyBelow(key, c), KeyBelow(key, n));
  }

  lemma {:induction false} SizeBelowIsSum<T>(gs: seq<Group<T>>, n: nat)
    requires forall g :: 0 <= g < |gs| ==> gs[g].key < n
    ensures SizeBelow(gs, n) == Sum(Sizes(gs))
    decreases |gs|
  {
    if |gs| > 0 {
      SizeBelowIsSum(gs[..|gs| - 1], n);
      assert Sizes(gs)[..|gs| - 1] == Sizes(gs[..|gs| - 1]);
    }
  }

  /** The groups partition the rows: their sizes add up to the row count. */
  lemma GroupSizesSum<T>(xs: seq<T>, key: T -> nat)
    ensures Sum(Sizes(GroupBy(xs, key))) == |xs|
  {
    var b := KeyBound(xs, key);
    var gs := GroupBy(xs, key);
    assert forall g :: 0 <= g < |gs| ==> gs[g].key < b by {
      forall g | 0 <= g < |gs|
        ensures gs[g].key < b
      {
        var m := gs[g].members;
        assert m[0] in m;
        FilterMember(xs, HasKey(key, gs[g].key), m[0]);
      }
    }
    SizeBelowIsSum(gs, b);
    GroupSizesBelow(xs, key, b);
    FilterKeepsAll(xs, KeyBelow(key, b));
  }

  // ----- Permutations and sorting -----------------------------------------------

  /** The keys of a list of groups, in order. */
  function Keys<T>(gs: seq<Group<T>>): seq<nat>
  {
    seq(|gs|, g requires 0 <= g < |gs| => gs[g].key)
  }

  predicate StrictlyAscending(ks: seq<nat>)
  {
    forall i, j :: 0 <= i < j < |ks| ==> ks[i] < ks[j]
  }

  /** `groupby` lists a key exactly when some row carries it. */
  lemma GroupByKeys<T>(xs: seq<T>, key: T -> nat, u: nat)
    ensures u in Keys(GroupBy(xs, key)) <==> |Members(xs, key, u)| > 0
  {
    var gs := GroupBy(xs, key);
    if |Members(xs, key, u)| > 0 {
      var m := Members(xs, key, u);
      assert m[0] in m;
      FilterMember(xs, HasKey(key, u), m[0]);
      var k :| 0 <= k < |xs| && xs[k] == m[0];
      var g :| 0 <= g < |gs| && gs[g].key == key(xs[k]);
      assert Keys(gs)[g] == u;
    }
  }

  lemma AscendingSameLength(a: seq<nat>, b: seq<nat>)
    requires StrictlyAscending(a) && StrictlyAscending(b)
    requires forall u :: u in a <==> u in b
    ensures |a| == |b|
  {
    assert Elems(a) == Elems(b);
    ElemsOfDistinct(a);
    ElemsOfDistinct(b);
  }

  lemma AscendingHeads(a: seq<nat>, b: seq<nat>)
    requires StrictlyAscending(a) && StrictlyAscending(b)
    requires forall u :: u in a <==> u in b
    requires |a| > 0 && |b| > 0
    ensures a[0] == b[0]
  {
    assert a[0] in b && b[0] in a;
    var i :| 0 <= i < |a| && a[i] == b[0];
    var j :| 0 <= j < |b| && b[j] == a[0];
    assert a[0] <= a[i] && b[0] <= b[j];
  }

  lemma AscendingTails(a: seq<nat>, b: seq<nat>)
    requires StrictlyAscending(a) && StrictlyAscending(b)
    requires forall u :: u in a <==> u in b
    requires |a| > 0 && |b| > 0 && a[0] == b[0]
    ensures forall u :: u in a[1..] <==> u in b[1..]
  {
    forall u | u in a[1..]
      ensures u in b[1..]
    {
      var k :| 1 <= k < |a| && a[k] == u;
      assert u in a;
      var l :| 0 <= l < |b| && b[l] == u;
      assert b[l] > b[0];
      assert b[1..][l - 1] == u;
    }
    forall u | u in b[1..]
      ensures u in a[1..]
    {
      var k :| 1 <= k < |b| && b[k] == u;
      assert u in b;
      var l :| 0 <= l < |a| && a[l] == u;
      assert a[l] > a[0];
      assert a[1..][l - 1] == u;
    }
  }

  /** Two strictly ascending sequences with the same elements are equal. */
  lemma {:induction false} AscendingUnique(a: seq<nat>, b: seq<nat>)
    requires StrictlyAscending(a) && StrictlyAscending(b)
    requires forall u :: u in a <==> u in b
    ensures a == b
    decreases |a|
  {
    AscendingSameLength(a, b);
    if |a| > 0 {
      AscendingHeads(a, b);
      AscendingTails(a, b);
      AscendingUnique(a[1..], b[1..]);
      assert a == [a[0]] + a[1..] && b == [b[0]] + b[1..];
    }
  }

  /** Reordering the rows changes neither the keys `groupby` finds nor the
      group sizes. */
  lemma GroupByPermutation<T>(a: seq<T>, b: seq<T>, key: T -> nat)
    requires multiset(a) == multiset(b)
    ensures Keys(GroupBy(a, key)) == Keys(GroupBy(b, key))
    ensures Sizes(GroupBy(a, key)) == Sizes(GroupBy(b, key))
  {
    var ga, gb := GroupBy(a, key), GroupBy(b, key);
    forall u
      ensures u in Keys(ga) <==> u in Keys(gb)
    {
      GroupByKeys(a, key, u);
      GroupByKeys(b, key, u);
      FilterLengthPermutation(a, b, HasKey(key, u));
    }
    AscendingUnique(Keys(ga), Keys(gb));
    forall g | 0 <= g < |ga|
      ensures Sizes(ga)[g] == Sizes(gb)[g]
    {
      assert Keys(ga)[g] == Keys(gb)[g];
      FilterLengthPermutation(a, b, HasKey(key, ga[g].key));
    }
  }

  /** The rows of the groups, group after group. */
  function Flatten<T>(gs: seq<Group<T>>): seq<T>
    decreases |gs|
  {
    if |gs| == 0 then [] else gs[0].members + Flatten(gs[1..])
  }

  lemma {:induction false} FlattenSnoc<T>(gs: seq<Group<T>>, g: Group<T>)
    ensures Flatten(gs + [g]) == Flatten(gs) + g.members
    decreases |gs|
  {
    if |gs| == 0 {
      assert [g][1..] == [];
    } else {
      assert (gs + [g])[1..] == gs[1..] + [g];
      FlattenSnoc(gs[1..], g);
    }
  }

  /** `xs.sort_values(key)`: the rows in ascending key order, rows with equal
      keys in their original order. */
  function SortByKey<T>(xs: seq<T>, key: T -> nat): seq<T>
  {
    Flatten(GroupBy(xs, key))
  }

  lemma {:induction false} FilterBelowStep<T>(xs: seq<T>, key: T -> nat, b: nat)
    requires b > 0
    ensures multiset(Filter(xs, KeyBelow(key, b)))
         == multiset(Filter(xs, KeyBelow(key, b - 1))) + multiset(Members(xs, key, b - 1))
    decreases |xs|
  {
    if |xs| > 0 {
      FilterBelowStep(xs[..|xs| - 1], key, b);
    }
  }

  /** The rows with a key below `b`, key by key. */
  function SortedBelow<T>(xs: seq<T>, key: T -> nat, b: nat): seq<T>
    decreases b
  {
    if b == 0 then [] else SortedBelow(xs, key, b - 1) + Members(xs, key, b - 1)
  }

  lemma FlattenKeysStep<T>(xs: seq<T>, key: T -> nat, b: nat)
    requires b > 0
    ensures Flatten(GroupsFor(xs, key, KeysBelow(xs, key, b)))
         == Flatten(GroupsFor(xs, key, KeysBelow(xs, key, b - 1))) + Members(xs, key, b - 1)
  {
    var ks := KeysBelow(xs, key, b - 1);
    var m := Members(xs, key, b - 1);
    if |m| > 0 {
      assert KeysBelow(xs, key, b) == ks + [b - 1];
      GroupsForSnoc(xs, key, ks, b - 1);
      FlattenSnoc(GroupsFor(xs, key, ks), Group(b - 1, m));
    } else {
      assert KeysBelow(xs, key, b) == ks;
      assert m == [];
    }
  }

  lemma {:induction false} FlattenKeysBelow<T>(xs: seq<T>, key: T -> nat, b: nat)
    ensures Flatten(GroupsFor(xs, key, KeysBelow(xs, key, b))) == SortedBelow(xs, key, b)
    decreases b
  {
    if b == 0 {
      assert GroupsFor(xs, key, KeysBelow(xs, key, 0)) == [];
    } else {
      FlattenKeysBelow(xs, key, b - 1);
      FlattenKeysStep(xs, key, b);
    }
  }

  lemma {:induction false} SortedBelowPermutation<T>(xs: seq<T>, key: T -> nat, b: nat)
    ensures multiset(SortedBelow(xs, key, b)) == multiset(Filter(xs, KeyBelow(key, b)))
    decreases b
  {
    if b == 0 {
      FilterNone(xs, KeyBelow(key, 0));
    } else {
      SortedBelowPermutation(xs, key, b - 1);
      FilterBelowStep(xs, key, b);
    }
  }

  /** Sorting only reorders: every row is kept, as often as it occurs. */
  lemma SortByKeyPermutation<T>(xs: seq<T>, key: T -> nat)
    ensures multiset(SortByKey(xs, key)) == multiset(xs)
  {
    var b := KeyBound(xs, key);
    FlattenKeysBelow(xs, key, b);
    SortedBelowPermutation(xs, key, b);
    FilterKeepsAll(xs, KeyBelow(key, b));
  }

  /** Every group holds only rows of its own key. */
  predicate Homogeneous<T>(gs: seq<Group<T>>, key: T -> nat)
  {
    forall g, k :: 0 <= g < |gs| && 0 <= k < |gs[g].members| ==> key(gs[g].members[k]) == gs[g].key
  }

  lemma GroupByHomogeneous<T>(xs: seq<T>, key: T -> nat)
    ensures Homogeneous(GroupBy(xs, key), key)
  {
  }

  lemma {:induction false} FlattenOrdered<T>(gs: seq<Group<T>>, key: T -> nat)
    requires Homogeneous(gs, key) && StrictlyAscending(Keys(gs))
    ensures forall i, j :: 0 <= i < j < |Flatten(gs)| ==> key(Flatten(gs)[i]) <= key(Flatten(gs)[j])
    ensures |gs| > 0 ==> forall k :: 0 <= k < |Flatten(gs)| ==> gs[0].key <= key(Flatten(gs)[k])
    decreases |gs|
  {
    if |gs| > 0 {
      var m, rest := gs[0].members, Flatten(gs[1..]);
      assert Keys(gs[1..]) == Keys(gs)[1..];
      FlattenOrdered(gs[1..], key);
      var f := m + rest;
      if |gs| == 1 {
        assert gs[1..] == [];
        assert rest == [];
      } else {
        forall k | 0 <= k < |rest|
          ensures gs[0].key < key(rest[k])
        {
          assert Keys(gs)[0] < Keys(gs)[1];
          assert gs[1..][0] == gs[1];
        }
      }
      forall k | 0 <= k < |f|
        ensures gs[0].key <= key(f[k])
      {
        if k >= |m| {
          assert f[k] == rest[k - |m|];
        }
      }
      forall i, j | 0 <= i < j < |f|
        ensures key(f[i]) <= key(f[j])
      {
        if j < |m| {
          assert key(f[i]) == gs[0].key == key(f[j]);
        } else if i < |m| {
          assert f[j] == rest[j - |m|];
        } else {
          assert f[i] == rest[i - |m|] && f[j] == rest[j - |m|];
        }
      }
    }
  }

  /** Sorting by key does sort: keys never decrease along the result. */
  lemma SortByKeyOrdered<T>(xs: seq<T>, key: T -> nat)
    ensures var r := SortByKey(xs, key);
      forall i, j :: 0 <= i < j < |r| ==> key(r[i]) <= key(r[j])
  {
    FlattenOrdered(GroupBy(xs, key), key);
  }

  /** Reading `sizes` as consecutive runs of `xs`, the way a learning-to-rank
      library reads query group sizes: the runs cover `xs` exactly, and all
      rows of a run share one key. */
  predicate SameKeyRuns<T>(xs: seq<T>, key: T -> nat, sizes: seq<nat>)
    decreases |sizes|
  {
    if |sizes| == 0 then |xs| == 0
    else
      && sizes[0] <= |xs|
      && (forall k :: 0 <= k < sizes[0] ==> key(xs[k]) == key(xs[0]))
      && SameKeyRuns(xs[sizes[0]..], key, sizes[1..])
  }

  lemma {:induction false} FlattenRuns<T>(gs: seq<Group<T>>, key: T -> nat)
    requires Homogeneous(gs, key)
    ensures SameKeyRuns(Flatten(gs), key, Sizes(gs))
    decreases |gs|
  {
    if |gs| > 0 {
      var f := Flatten(gs);
      var n := |gs[0].members|;
      assert f[..n] == gs[0].members;
      assert f[n..] == Flatten(gs[1..]);
      assert Sizes(gs)[1..] == Sizes(gs[1..]);
      FlattenRuns(gs[1..], key);
    }
  }

  /** After sorting by key, the group sizes mark off exactly the runs of
      equal keys. */
  lemma SortedRunsAreGroups<T>(xs: seq<T>, key: T -> nat)
    ensures SameKeyRuns(SortByKey(xs, key), key, Sizes(GroupBy(xs, key)))
  {
    FlattenRuns(GroupBy(xs, key), key);
  }
}
