/** `calculate_metrics`: global Recall@k of the retrieval stage over the test
    split. The test rows are grouped into one ground-truth item list per user;
    users the model does not know are skipped; every other user adds the
    number of distinct items shared by its list and its candidate list to the
    hits, and its list length to the targets. */
module Metrics {
  import opened Seqs
  import opened Grouping
  import Preprocessing

  type Row = Preprocessing.Interaction

  /** One entry of `test_df.groupby('user_idx')['item_idx'].apply(list)`. */
  datatype Truth = Truth(user: nat, items: seq<nat>)

  /** The running totals of the evaluation loop. */
  datatype Tally = Tally(hits: nat, targets: nat)

  // ----- Ground truth ---------------------------------------------------------

  function Truths(gs: seq<Group<Row>>): seq<Truth>
  {
    seq(|gs|, g requires 0 <= g < |gs| => Truth(gs[g].key, Preprocessing.ItemCodes(gs[g].members)))
  }

  /** The ground-truth dictionary, users ascending. Each list holds exactly
      the items of that user's test rows, in row order and with repeats: the
      rows the whole table holds for the user, none of another user's. */
  function GroundTruth(test: seq<Row>): (gt: seq<Truth>)
    ensures forall g :: 0 <= g < |gt| ==> |gt[g].items| > 0
    ensures forall g, h :: 0 <= g < h < |gt| ==> gt[g].user < gt[h].user
    ensures forall g :: 0 <= g < |gt| ==>
      gt[g].items == Preprocessing.ItemCodes(Members(test, Preprocessing.UserKey, gt[g].user))
  {
    Truths(GroupBy(test, Preprocessing.UserKey))
  }

  function Lengths(gt: seq<Truth>): seq<nat>
  {
    seq(|gt|, g requires 0 <= g < |gt| => |gt[g].items|)
  }

  /** The ground truth partitions the test rows by user: every row's item is
      in its user's list, and the list lengths add up to the number of rows. */
  lemma GroundTruthPartition(test: seq<Row>)
    ensures var gt := GroundTruth(test);
      && Sum(Lengths(gt)) == |test|
      && forall k :: 0 <= k < |test| ==>
           exists g :: 0 <= g < |gt| && gt[g].user == test[k].userIdx && test[k].itemIdx in gt[g].items
  {
    var gs := GroupBy(test, Preprocessing.UserKey);
    var gt := GroundTruth(test);
    forall g | 0 <= g < |gs|
      ensures Lengths(gt)[g] == Sizes(gs)[g]
    {
      assert gt[g] == Truth(gs[g].key, Preprocessing.ItemCodes(gs[g].members));
    }
    assert Lengths(gt) == Sizes(gs);
    GroupSizesSum(test, Preprocessing.UserKey);
    forall k | 0 <= k < |test|
      ensures exists g :: 0 <= g < |gt| && gt[g].user == test[k].userIdx && test[k].itemIdx in gt[g].items
    {
      RowInTruth(test, k);
    }
  }

  lemma RowInTruth(test: seq<Row>, k: nat)
    requires k < |test|
    ensures exists g :: 0 <= g < |GroundTruth(test)| && GroundTruth(test)[g].user == test[k].userIdx
                        && test[k].itemIdx in GroundTruth(test)[g].items
  {
    var gs := GroupBy(test, Preprocessing.UserKey);
    var gt := GroundTruth(test);
    var g :| 0 <= g < |gs| && gs[g].key == test[k].userIdx;
    var ms := gs[g].members;
    assert gt[g] == Truth(gs[g].key, Preprocessing.ItemCodes(ms));
    assert test[k] in ms;
    var j :| 0 <= j < |ms| && ms[j] == test[k];
    assert Preprocessing.ItemCodes(ms)[j] == test[k].itemIdx;
  }

  // ----- Hits and recall ------------------------------------------------------

  /** A finite set has at least as many elements as any subset. */
  lemma {:induction false} SubsetCard<T>(a: set<T>, b: set<T>)
    requires a <= b
    ensures |a| <= |b|
    decreases |b|
  {
    if a != {} {
      var x :| x in a;
      SubsetCard(a - {x}, b - {x});
    }
  }

  lemma CommonBounds(truth: seq<nat>, candidates: seq<nat>)
    ensures var common := Elems(truth) * Elems(candidates);
      && |common| <= |Elems(truth)| <= |truth|
      && |common| <= |Elems(candidates)|
      && (|common| == 0 <==> forall k :: 0 <= k < |truth| ==> truth[k] !in candidates)
  {
    var common := Elems(truth) * Elems(candidates);
    SubsetCard(common, Elems(truth));
    SubsetCard(common, Elems(candidates));
    ElemsBound(truth);
    forall k | 0 <= k < |truth| && truth[k] in candidates
      ensures truth[k] in common
    {
      assert truth[k] in Elems(truth);
    }
    if common != {} {
      var x :| x in common;
      var k :| 0 <= k < |truth| && truth[k] == x;
      assert truth[k] in candidates;
    }
  }

  /** `len(np.intersect1d(true_item_ids, ids))`: the number of distinct items
      in both lists. It never exceeds the number of distinct true items, nor
      the length of the true list, and is zero exactly when no true item is
      among the candidates. */
  function UserHits(truth: seq<nat>, candidates: seq<nat>): (h: nat)
    ensures h <= |Elems(truth)| <= |truth|
    ensures h <= |Elems(candidates)|
    ensures h == 0 <==> forall k :: 0 <= k < |truth| ==> truth[k] !in candidates
  {
    CommonBounds(truth, candidates);
    |Elems(truth) * Elems(candidates)|
  }

  /** The user the loop skips: its index is beyond the model's user factors. */
  predicate Known(e: Truth, nUsers: nat)
  {
    e.user < nUsers
  }

  /** The totals after the loop has visited `gt`, with `recommend(u)` the ids
      `model.recommend(u, ..., N=k)` returns for user `u`. */
  function Evaluate(gt: seq<Truth>, nUsers: nat, recommend: nat -> seq<nat>): (t: Tally)
    ensures t.hits <= t.targets
    decreases |gt|
  {
    if |gt| == 0 then Tally(0, 0)
    else
      var rest := Evaluate(gt[..|gt| - 1], nUsers, recommend);
      var e := gt[|gt| - 1];
      if !Known(e, nUsers) then rest
      else Tally(rest.hits + UserHits(e.items, recommend(e.user)), rest.targets + |e.items|)
  }

  /** `hits / total_targets if total_targets > 0 else 0`. */
  function Recall(t: Tally): (r: real)
    ensures 0.0 <= r
    ensures t.targets == 0 ==> r == 0.0
    ensures t.targets > 0 ==> r * (t.targets as real) == t.hits as real
    ensures t.hits <= t.targets ==> r <= 1.0
  {
    if t.targets > 0 then t.hits as real / t.targets as real else 0.0
  }

  /** The evaluation loop of `calculate_metrics`. */
  method CalculateMetrics(test: seq<Row>, nUsers: nat, recommend: nat -> seq<nat>) returns (recall: real)
    ensures 0.0 <= recall <= 1.0
    ensures recall == Recall(Evaluate(GroundTruth(test), nUsers, recommend))
  {
    var gt := GroundTruth(test);
    var hits: nat, targets: nat := 0, 0;
    for i := 0 to |gt|
      invariant Tally(hits, targets) == Evaluate(gt[..i], nUsers, recommend)
    {
      assert gt[..i + 1][..i] == gt[..i];
      if gt[i].user >= nUsers {
        continue;
      }
      var ids := recommend(gt[i].user);
      hits := hits + UserHits(gt[i].items, ids);
      targets := targets + |gt[i].items|;
    }
    assert gt[..|gt|] == gt;
    recall := Recall(Tally(hits, targets));
  }

  // ----- Properties of the evaluation -----------------------------------------

  lemma {:induction false} TargetsAreSizes(gs: seq<Group<Row>>, nUsers: nat, recommend: nat -> seq<nat>)
    ensures Evaluate(Truths(gs), nUsers, recommend).targets == SizeBelow(gs, nUsers)
    decreases |gs|
  {
    if |gs| > 0 {
      assert Truths(gs)[..|gs| - 1] == Truths(gs[..|gs| - 1]);
      TargetsAreSizes(gs[..|gs| - 1], nUsers, recommend);
    }
  }

  /** The targets are exactly the test rows of users the model knows,
      duplicates included, whatever the recommender returns. */
  lemma TargetsCountKnownRows(test: seq<Row>, nUsers: nat, recommend: nat -> seq<nat>)
    ensures Evaluate(GroundTruth(test), nUsers, recommend).targets
         == |Filter(test, KeyBelow(Preprocessing.UserKey, nUsers))|
  {
    TargetsAreSizes(GroupBy(test, Preprocessing.UserKey), nUsers, recommend);
    GroupSizesBelow(test, Preprocessing.UserKey, nUsers);
  }

  /** Skipped users add neither hits nor targets: evaluating only the known
      users gives the same totals. */
  lemma {:induction false} SkippedUsersContributeNothing(gt: seq<Truth>, nUsers: nat, recommend: nat -> seq<nat>)
    ensures Evaluate(gt, nUsers, recommend) == Evaluate(Filter(gt, e => Known(e, nUsers)), nUsers, recommend)
    decreases |gt|
  {
    if |gt| > 0 {
      var p := (e: Truth) => Known(e, nUsers);
      var init := gt[..|gt| - 1];
      var e := gt[|gt| - 1];
      SkippedUsersContributeNothing(init, nUsers, recommend);
      if Known(e, nUsers) {
        var f := Filter(init, p) + [e];
        assert Filter(gt, p) == f;
        assert f[..|f| - 1] == Filter(init, p);
      } else {
        assert Filter(gt, p) == Filter(init, p);
      }
    }
  }

  /** Only the set of candidates of each known user matters: recommenders
      that offer the same items to every known user, in any order and with any
      repetitions, give the same totals. */
  lemma {:induction false} RecommenderCongruence(gt: seq<Truth>, nUsers: nat, rec1: nat -> seq<nat>, rec2: nat -> seq<nat>)
    requires forall u: nat :: u < nUsers ==> Elems(rec1(u)) == Elems(rec2(u))
    ensures Evaluate(gt, nUsers, rec1) == Evaluate(gt, nUsers, rec2)
    decreases |gt|
  {
    if |gt| > 0 {
      RecommenderCongruence(gt[..|gt| - 1], nUsers, rec1, rec2);
    }
  }

  /** Offering a user more items never loses a hit. */
  lemma UserHitsMonotone(truth: seq<nat>, c1: seq<nat>, c2: seq<nat>)
    requires Elems(c1) <= Elems(c2)
    ensures UserHits(truth, c1) <= UserHits(truth, c2)
  {
    SubsetCard(Elems(truth) * Elems(c1), Elems(truth) * Elems(c2));
  }

  /** A recommender whose candidates contain another's, user by user, scores
      at least as many hits against the same targets, hence at least the same
      recall. */
  lemma {:induction false} MoreCandidatesMoreHits(gt: seq<Truth>, nUsers: nat, rec1: nat -> seq<nat>, rec2: nat -> seq<nat>)
    requires forall u: nat :: u < nUsers ==> Elems(rec1(u)) <= Elems(rec2(u))
    ensures Evaluate(gt, nUsers, rec1).targets == Evaluate(gt, nUsers, rec2).targets
    ensures Evaluate(gt, nUsers, rec1).hits <= Evaluate(gt, nUsers, rec2).hits
    ensures Recall(Evaluate(gt, nUsers, rec1)) <= Recall(Evaluate(gt, nUsers, rec2))
    decreases |gt|
  {
    if |gt| > 0 {
      var e := gt[|gt| - 1];
      MoreCandidatesMoreHits(gt[..|gt| - 1], nUsers, rec1, rec2);
      if Known(e, nUsers) {
        UserHitsMonotone(e.items, rec1(e.user), rec2(e.user));
      }
    }
    var t1 := Evaluate(gt, nUsers, rec1);
    var t2 := Evaluate(gt, nUsers, rec2);
    if t1.targets > 0 {
      RecallMonotone(t1.hits, t2.hits, t1.targets);
    }
  }

  lemma RecallMonotone(h1: nat, h2: nat, n: nat)
    requires h1 <= h2 && n > 0
    ensures h1 as real / n as real <= h2 as real / n as real
  {
  }

  /** A user who bought the same item twice counts two targets but at most one
      hit: even a recommender that returns everything stays below recall 1. */
  lemma RepeatedPurchaseCapsRecall()
    ensures var t := Evaluate([Truth(0, [3, 3])], 1, u => [3]);
      t == Tally(1, 2) && Recall(t) == 0.5
  {
    var gt := [Truth(0, [3, 3])];
    var truth: seq<nat>, ids: seq<nat> := [3, 3], [3];
    assert gt[..0] == [];
    assert Elems(truth) == {3};
    assert Elems(ids) == {3};
    assert |Elems(truth) * Elems(ids)| == 1;
    assert UserHits(truth, ids) == 1;
  }
}
