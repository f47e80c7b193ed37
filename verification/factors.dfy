/** The latent-factor model the retrieval stage produces: one row of `rank`
    factors per user and per item. */
module Factors {
  import opened Vectors

  datatype Model = Model(rank: nat, userFactors: seq<seq<real>>, itemFactors: seq<seq<real>>)
  {
    /** Both factor matrices have rows of the model's rank. */
    predicate Valid()
    {
      && (forall u :: 0 <= u < |userFactors| ==> |userFactors[u]| == rank)
      && (forall i :: 0 <= i < |itemFactors| ==> |itemFactors[i]| == rank)
    }

    /** `dot(user_factors[u], item_factors[i])`, the affinity feature. */
    function Affinity(u: nat, i: nat): real
      requires Valid() && u < |userFactors| && i < |itemFactors|
    {
      Dot(userFactors[u], itemFactors[i])
    }
  }
}
