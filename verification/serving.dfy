/** The `/recommend` endpoint: bounds-check the user, score the retrieved
    candidates with the ranker on their dot-product feature, order them by
    score, keep the first `top_k`, and turn each internal item id into an
    ASIN and a product link. */
module Serving {
  import opened Wrappers
  import opened Factors
  import Ranking
  import Preprocessing

  /** The request body; both fields are non-negative here. */
  datatype Request = Request(userIdx: nat, topK: nat)

  /** `top_k` when the request leaves it out. */
  const DefaultTopK: nat := 10

  /** The ASIN reported for an id missing from the item map. */
  const UnknownAsin: string := "Unknown"

  const LinkPrefix: string := "https://www.amazon.com/dp/"

  datatype Recommendation = Recommendation(internalId: nat, asin: string, amazonLink: string)

  datatype Response = Response(userIdx: nat, recommendations: seq<Recommendation>)

  datatype HttpError = HttpError(status: nat, detail: string)

  const NotFound: HttpError := HttpError(404, "User ID not found")

  /** What `load_artifacts` loads: the retrieval model, the number of rows of
      the user-item matrix, and the internal id to ASIN map. */
  datatype Artifacts = Artifacts(model: Model, matrixRows: nat, itemMap: map<nat, string>)
  {
    /** Every user the matrix knows has a factor row. */
    predicate Consistent()
    {
      model.Valid() && matrixRows <= |model.userFactors|
    }
  }

  /** A retrieved item together with the ranker's score for it. */
  datatype Candidate = Candidate(id: nat, score: real)

  function Min(a: nat, b: nat): nat
  {
    if a <= b then a else b
  }

  // ----- Features and scores ---------------------------------------------------

  /** `(user_vec * item_vecs).sum(axis=1)`: the feature of each candidate,
      which is the `dot_prod` the training table gives the same user paired
      with the same item. */
  function Features(m: Model, u: nat, ids: seq<nat>): (f: seq<real>)
    requires m.Valid() && u < |m.userFactors|
    requires forall k :: 0 <= k < |ids| ==> ids[k] < |m.itemFactors|
    ensures |f| == |ids|
    ensures forall k :: 0 <= k < |ids| ==> f[k] == Ranking.NegativeSample(m, u, ids[k]).dotProd
  {
    seq(|ids|, k requires 0 <= k < |ids| => m.Affinity(u, ids[k]))
  }

  /** The feature served for a candidate is the `dot_prod` the ranker was
      trained on for the same user and item: there is no skew between
      training and serving features. */
  lemma ServingFeatureMatchesTraining(m: Model, rows: seq<Ranking.Row>, nNeg: nat, negItems: seq<nat>,
                                      p: nat, ids: seq<nat>, k: nat)
    requires Ranking.WellFormedInputs(m, rows, nNeg, negItems)
    requires p < |Ranking.GenerateFeatures(m, rows, nNeg, negItems)|
    requires forall k :: 0 <= k < |ids| ==> ids[k] < |m.itemFactors|
    requires k < |ids|
    requires Ranking.GenerateFeatures(m, rows, nNeg, negItems)[p].item == ids[k]
    ensures var s := Ranking.GenerateFeatures(m, rows, nNeg, negItems)[p];
      s.user < |m.userFactors| && Features(m, s.user, ids)[k] == s.dotProd
  {
    Ranking.SamplesAreScored(m, rows, nNeg, negItems, p);
  }

  /** `ranker.predict(features)` pairs each retrieved id with its score. */
  function Score(m: Model, ranker: real -> real, u: nat, ids: seq<nat>): (cs: seq<Candidate>)
    requires m.Valid() && u < |m.userFactors|
    requires forall k :: 0 <= k < |ids| ==> ids[k] < |m.itemFactors|
    ensures |cs| == |ids|
    ensures forall k :: 0 <= k < |ids| ==> cs[k].id == ids[k]
  {
    var f := Features(m, u, ids);
    seq(|ids|, k requires 0 <= k < |ids| => Candidate(ids[k], ranker(f[k])))
  }

  // ----- Ordering ---------------------------------------------------------------

  /** Scores never increase along `cs`. */
  predicate Descending(cs: seq<Candidate>)
  {
    forall i, j :: 0 <= i < j < |cs| ==> cs[i].score >= cs[j].score
  }

  /** Places `c` before the first candidate that does not outscore it. */
  function Insert(c: Candidate, cs: seq<Candidate>): (r: seq<Candidate>)
    ensures |r| == |cs| + 1
    ensures multiset(r) == multiset(cs) + multiset{c}
    decreases |cs|
  {
    if |cs| == 0 || cs[0].score <= c.score then [c] + cs
    else
      assert cs == [cs[0]] + cs[1..];
      [cs[0]] + Insert(c, cs[1..])
  }

  lemma {:induction false} InsertDescending(c: Candidate, cs: seq<Candidate>)
    requires Descending(cs)
    ensures Descending(Insert(c, cs))
    decreases |cs|
  {
    if |cs| > 0 && cs[0].score > c.score {
      var tail := Insert(c, cs[1..]);
      InsertDescending(c, cs[1..]);
      forall j | 0 <= j < |tail|
        ensures cs[0].score >= tail[j].score
      {
        assert tail[j] in multiset(tail);
        if tail[j] != c {
          assert tail[j] in multiset(cs[1..]);
          var i :| 0 <= i < |cs[1..]| && cs[1..][i] == tail[j];
          assert cs[i + 1] == tail[j];
        }
      }
      var r := [cs[0]] + tail;
      forall i, j | 0 <= i < j < |r|
        ensures r[i].score >= r[j].score
      {
        if i > 0 {
          assert r[i] == tail[i - 1] && r[j] == tail[j - 1];
        } else {
          assert r[j] == tail[j - 1];
        }
      }
    }
  }

  /** `np.argsort(final_scores)[::-1]` applied to the candidates: the same
      candidates, highest score first. Ties come out in some order; the
      source's unstable sort fixes none either. */
  function SortDescending(cs: seq<Candidate>): (r: seq<Candidate>)
    ensures |r| == |cs|
    ensures multiset(r) == multiset(cs)
    ensures Descending(r)
    decreases |cs|
  {
    if |cs| == 0 then []
    else
      var init := cs[..|cs| - 1];
      assert cs == init + [cs[|cs| - 1]];
      InsertDescending(cs[|cs| - 1], SortDescending(init));
      Insert(cs[|cs| - 1], SortDescending(init))
  }

  /** `ids[sorted_indices][:top_k]`, kept with the scores: the best `top_k`
      candidates in descending order of score. Every candidate left out
      scores at most as high as every one kept. */
  function TopCandidates(cs: seq<Candidate>, topK: nat): (top: seq<Candidate>)
    ensures |top| == Min(topK, |cs|)
    ensures multiset(top) <= multiset(cs)
    ensures Descending(top)
    ensures forall c | c in multiset(cs) - multiset(top) ::
              forall i :: 0 <= i < |top| ==> c.score <= top[i].score
  {
    var sorted := SortDescending(cs);
    var n := Min(topK, |cs|);
    TopDominates(sorted, n);
    sorted[..n]
  }

  lemma TopDominates(sorted: seq<Candidate>, n: nat)
    requires Descending(sorted) && n <= |sorted|
    ensures multiset(sorted[..n]) <= multiset(sorted)
    ensures forall c | c in multiset(sorted) - multiset(sorted[..n]) ::
              forall i :: 0 <= i < n ==> c.score <= sorted[i].score
  {
    var top, rest := sorted[..n], sorted[n..];
    assert sorted == top + rest;
    assert multiset(sorted) - multiset(top) == multiset(rest);
    forall c | c in multiset(sorted) - multiset(top)
      ensures forall i :: 0 <= i < n ==> c.score <= sorted[i].score
    {
      var j :| 0 <= j < |rest| && rest[j] == c;
      assert sorted[n + j] == c;
    }
  }

  // ----- The endpoint ----------------------------------------------------------

  /** `item_map.get(iid, "Unknown")`: the mapped ASIN, or the default for
      an id the map does not know. */
  function Asin(itemMap: map<nat, string>, iid: nat): (asin: string)
    ensures iid in itemMap ==> asin == itemMap[iid]
    ensures iid !in itemMap ==> asin == UnknownAsin
  {
    if iid in itemMap then itemMap[iid] else UnknownAsin
  }

  /** One entry of the response's `recommendations` list. The link is the
      product URL of the entry's own ASIN, which reads back off the link. */
  function Format(itemMap: map<nat, string>, c: Candidate): (r: Recommendation)
    ensures r.internalId == c.id && r.asin == Asin(itemMap, c.id)
    ensures |LinkPrefix| <= |r.amazonLink|
    ensures r.amazonLink[..|LinkPrefix|] == LinkPrefix && r.amazonLink[|LinkPrefix|..] == r.asin
  {
    var asin := Asin(itemMap, c.id);
    Recommendation(c.id, asin, LinkPrefix + asin)
  }

  /** `recommend(req)`, with `ids` the candidates retrieval returns for the
      user and `ranker` the booster's per-row prediction. */
  function Recommend(a: Artifacts, ranker: real -> real, req: Request, ids: seq<nat>): (r: Result<Response, HttpError>)
    requires a.Consistent()
    requires forall k :: 0 <= k < |ids| ==> ids[k] < |a.model.itemFactors|
    ensures r.Err? <==> req.userIdx >= a.matrixRows
    ensures r.Err? ==> r.error == NotFound
    ensures r.Ok? ==>
      var recs := r.value.recommendations;
      && r.value.userIdx == req.userIdx
      && |recs| == Min(req.topK, |ids|)
      && (forall i :: 0 <= i < |recs| ==>
            && (recs[i].internalId in a.itemMap ==> recs[i].asin == a.itemMap[recs[i].internalId])
            && (recs[i].internalId !in a.itemMap ==> recs[i].asin == UnknownAsin)
            && recs[i].amazonLink == LinkPrefix + recs[i].asin)
  {
    if req.userIdx >= a.matrixRows then Err(NotFound)
    else
      var top := TopCandidates(Score(a.model, ranker, req.userIdx, ids), req.topK);
      var recs := seq(|top|, i requires 0 <= i < |top| => Format(a.itemMap, top[i]));
      assert forall i :: 0 <= i < |recs| ==> recs[i] == Format(a.itemMap, top[i]);
      Ok(Response(req.userIdx, recs))
  }

  /** Every kept candidate is a retrieved item carrying the ranker's score
      of its dot-product feature. */
  lemma {:induction false} TopAreScoredRetrievals(m: Model, ranker: real -> real, u: nat, ids: seq<nat>, topK: nat)
    requires m.Valid() && u < |m.userFactors|
    requires forall k :: 0 <= k < |ids| ==> ids[k] < |m.itemFactors|
    ensures var top := TopCandidates(Score(m, ranker, u, ids), topK);
      forall i :: 0 <= i < |top| ==> top[i].id in ids && top[i].score == ranker(m.Affinity(u, top[i].id))
  {
    var cs := Score(m, ranker, u, ids);
    var top := TopCandidates(cs, topK);
    forall i | 0 <= i < |top|
      ensures top[i].id in ids && top[i].score == ranker(m.Affinity(u, top[i].id))
    {
      assert top[i] in multiset(top);
      ScoredMember(m, ranker, u, ids, top[i]);
    }
  }

  /** The ids of a list of candidates, in order. */
  function Ids(cs: seq<Candidate>): (r: seq<nat>)
    ensures |r| == |cs|
  {
    seq(|cs|, i requires 0 <= i < |cs| => cs[i].id)
  }

  /** The internal ids of a response's entries, in order. */
  function InternalIds(recs: seq<Recommendation>): (r: seq<nat>)
    ensures |r| == |recs|
  {
    seq(|recs|, i requires 0 <= i < |recs| => recs[i].internalId)
  }

  /** Keeping candidates at most as often as they occur keeps their ids at
      most as often as they occur. */
  lemma {:induction false} IdsSubMultiset(a: seq<Candidate>, b: seq<Candidate>)
    requires multiset(a) <= multiset(b)
    ensures multiset(Ids(a)) <= multiset(Ids(b))
    decreases |a|
  {
    if |a| > 0 {
      var n := |a| - 1;
      var x := a[n];
      assert x in multiset(b);
      var k :| 0 <= k < |b| && b[k] == x;
      var rest := b[..k] + b[k + 1..];
      RemoveOne(a, n);
      assert a[..n] + a[n + 1..] == a[..n];
      RemoveOne(b, k);
      forall y
        ensures multiset(a[..n])[y] <= multiset(rest)[y]
      {
        assert multiset(a)[y] <= multiset(b)[y];
      }
      IdsSubMultiset(a[..n], rest);
    }
  }

  /** Taking out entry `k` takes one copy of it, and of its id, out of the
      multisets. */
  lemma RemoveOne(s: seq<Candidate>, k: nat)
    requires k < |s|
    ensures var rest := s[..k] + s[k + 1..];
      && multiset(s) == multiset(rest) + multiset{s[k]}
      && multiset(Ids(s)) == multiset(Ids(rest)) + multiset{s[k].id}
  {
    var rest := s[..k] + s[k + 1..];
    assert s == s[..k] + [s[k]] + s[k + 1..];
    assert Ids(s) == Ids(s[..k]) + [s[k].id] + Ids(s[k + 1..]);
    assert Ids(rest) == Ids(s[..k]) + Ids(s[k + 1..]);
  }

  lemma ScoredMember(m: Model, ranker: real -> real, u: nat, ids: seq<nat>, c: Candidate)
    requires m.Valid() && u < |m.userFactors|
    requires forall k :: 0 <= k < |ids| ==> ids[k] < |m.itemFactors|
    requires c in multiset(Score(m, ranker, u, ids))
    ensures c.id in ids && c.score == ranker(m.Affinity(u, c.id))
  {
    var cs := Score(m, ranker, u, ids);
    var k :| 0 <= k < |cs| && cs[k] == c;
    assert ids[k] == c.id;
  }

  /** The recommendations of a known user are the kept candidates, in order:
      retrieved items, each at most as often as retrieval returned it, listed
      by non-increasing ranker score of their dot-product feature, with no
      retrieved item left out scoring higher than one returned. */
  lemma RecommendationsAreTopScored(a: Artifacts, ranker: real -> real, req: Request, ids: seq<nat>)
    requires a.Consistent()
    requires forall k :: 0 <= k < |ids| ==> ids[k] < |a.model.itemFactors|
    requires req.userIdx < a.matrixRows
    ensures var recs := Recommend(a, ranker, req, ids).value.recommendations;
      var top := TopCandidates(Score(a.model, ranker, req.userIdx, ids), req.topK);
      && |recs| == |top|
      && (forall i :: 0 <= i < |recs| ==>
            && recs[i].internalId == top[i].id
            && recs[i].internalId in ids
            && top[i].score == ranker(a.model.Affinity(req.userIdx, recs[i].internalId)))
      && (forall i, j :: 0 <= i < j < |recs| ==> top[i].score >= top[j].score)
      && (forall c | c in multiset(Score(a.model, ranker, req.userIdx, ids)) - multiset(top) ::
            forall i :: 0 <= i < |recs| ==> c.score <= top[i].score)
      && multiset(InternalIds(recs)) <= multiset(ids)
  {
    var cs := Score(a.model, ranker, req.userIdx, ids);
    var top := TopCandidates(cs, req.topK);
    var recs := Recommend(a, ranker, req, ids).value.recommendations;
    TopAreScoredRetrievals(a.model, ranker, req.userIdx, ids, req.topK);
    IdsSubMultiset(top, cs);
    assert Ids(cs) == ids;
    assert InternalIds(recs) == Ids(top);
  }

  /** An unknown user gets the 404 and nothing else, whatever was retrieved. */
  lemma UnknownUserNotFound(a: Artifacts, ranker: real -> real, userIdx: nat, ids: seq<nat>)
    requires a.Consistent()
    requires forall k :: 0 <= k < |ids| ==> ids[k] < |a.model.itemFactors|
    requires userIdx >= a.matrixRows
    ensures Recommend(a, ranker, Request(userIdx, DefaultTopK), ids) == Err(HttpError(404, "User ID not found"))
  {
  }

  /** Serving reverses the preprocessing encoding: the ASIN reported for the
      item code of any row the pipeline produced is that row's raw item id. */
  lemma AsinDecodesProcessedItem(records: seq<Preprocessing.RawRecord>, minRating: real, testDays: int,
                                 r: Preprocessing.Interaction)
    requires var out := Preprocessing.ProcessData(records, minRating, testDays);
      r in out.train || r in out.test
    ensures Asin(Preprocessing.ProcessData(records, minRating, testDays).itemMap, r.itemIdx) == r.itemId
  {
    Preprocessing.ProcessedMapsRoundTrip(records, minRating, testDays);
  }
}
