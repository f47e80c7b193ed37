/** `generate_features_vectorized`, which lays out one positive and `n_neg`
    sampled negatives per training row in a flat table, and the per-user
    group sizes `train_ranker` passes to the ranker. */
module Ranking {
  import opened Seqs
  import opened Vectors
  import opened Factors
  import opened Grouping
  import Preprocessing

  type Row = Preprocessing.Interaction

  /** One row of the ranking table: `user_idx`, `item_idx`, `label` (here `relevance`), `dot_prod`. */
  datatype Sample = Sample(user: nat, item: nat, relevance: nat, dotProd: real)

  /** What the synthesis needs of its inputs: the training rows' codes index
      the factor matrices, and the negative draws are `n_rows * n_neg` item
      codes in [0, n_items), as `np.random.randint(0, n_items, ...)` yields. */
  predicate WellFormedInputs(m: Model, rows: seq<Row>, nNeg: nat, negItems: seq<nat>)
  {
    && m.Valid()
    && (forall k :: 0 <= k < |rows| ==> rows[k].userIdx < |m.userFactors| && rows[k].itemIdx < |m.itemFactors|)
    && |negItems| == |rows| * nNeg
    && (forall k :: 0 <= k < |negItems| ==> negItems[k] < |m.itemFactors|)
  }

  // ----- The stride layout ---------------------------------------------------

  /** `np.arange(0, total_samples, step)`: where the positives go. */
  function PositiveIndices(nRows: nat, nNeg: nat): (idx: seq<int>)
    ensures |idx| == nRows
    ensures forall j :: 0 <= j < nRows ==> 0 <= idx[j] < nRows * (nNeg + 1)
    ensures Distinct(idx)
  {
    var step := nNeg + 1;
    ArangeLength(0, nRows, step);
    var idx := Arange(0, nRows * step, step);
    assert Distinct(idx) by {
      forall k, l | 0 <= k < l < |idx|
        ensures idx[k] != idx[l]
      {
        ArangeAt(0, nRows * step, step, k);
        ArangeAt(0, nRows * step, step, l);
        MulMonotone(k + 1, l, step);
      }
    }
    idx
  }

  /** The `j`-th positive goes to position `j * step`. */
  lemma PositiveIndexAt(nRows: nat, nNeg: nat, j: nat)
    requires j < nRows
    ensures PositiveIndices(nRows, nNeg)[j] == j * (nNeg + 1)
  {
    ArangeLength(0, nRows, nNeg + 1);
    ArangeAt(0, nRows * (nNeg + 1), nNeg + 1, j);
  }

  /** The mask of negative slots: every position except the positives'. */
  function NegativeMask(nRows: nat, nNeg: nat): (mask: seq<bool>)
    ensures |mask| == nRows * (nNeg + 1)
  {
    Scatter(Fill(nRows * (nNeg + 1), true), PositiveIndices(nRows, nNeg), Fill(nRows, false))
  }

  lemma StrideStart(nRows: nat, nNeg: nat, p: nat)
    requires p < nRows * (nNeg + 1) && p % (nNeg + 1) == 0
    ensures p / (nNeg + 1) < nRows && p == (p / (nNeg + 1)) * (nNeg + 1)
  {
    var j := p / (nNeg + 1);
    if j >= nRows {
      MulMonotone(nRows, j, nNeg + 1);
    }
  }

  /** A position is a negative slot exactly when it is not a multiple of
      `step = n_neg + 1`. */
  lemma NegativeMaskAt(nRows: nat, nNeg: nat, p: nat)
    requires p < nRows * (nNeg + 1)
    ensures NegativeMask(nRows, nNeg)[p] == (p % (nNeg + 1) != 0)
  {
    var idx := PositiveIndices(nRows, nNeg);
    if p % (nNeg + 1) == 0 {
      StrideStart(nRows, nNeg, p);
      PositiveIndexAt(nRows, nNeg, p / (nNeg + 1));
    } else if p in idx {
      var k :| 0 <= k < |idx| && idx[k] == p;
      PositiveIndexAt(nRows, nNeg, k);
      DivModBlock(k, nNeg + 1, 0);
    }
  }

  /** How many negative slots precede position `p`. */
  function NegativesBefore(p: nat, nNeg: nat): nat
  {
    var step := nNeg + 1;
    (p / step) * nNeg + (if p % step == 0 then 0 else p % step - 1)
  }

  lemma NegativesBeforeStep(p: nat, nNeg: nat)
    ensures NegativesBefore(p + 1, nNeg)
         == NegativesBefore(p, nNeg) + (if p % (nNeg + 1) != 0 then 1 else 0)
  {
    var step := nNeg + 1;
    var q := p / step;
    var r := p % step;
    assert p == q * step + r;
    if r + 1 < step {
      DivModBlock(q, step, r + 1);
    } else {
      assert p + 1 == (q + 1) * step;
      DivModBlock(q + 1, step, 0);
      assert (q + 1) * nNeg == q * nNeg + nNeg;
    }
  }

  /** The mask's prefix before `p` holds `NegativesBefore(p)` true entries, so
      the negative at slot `p` is the `NegativesBefore(p)`-th one. */
  lemma {:induction false} MaskPrefixCount(nRows: nat, nNeg: nat, p: nat)
    requires p <= nRows * (nNeg + 1)
    ensures CountTrue(NegativeMask(nRows, nNeg)[..p]) == NegativesBefore(p, nNeg)
    decreases p
  {
    var mask := NegativeMask(nRows, nNeg);
    if p == 0 {
      assert mask[..p] == [];
    } else {
      MaskPrefixCount(nRows, nNeg, p - 1);
      NegativeMaskAt(nRows, nNeg, p - 1);
      assert mask[..p][..p - 1] == mask[..p - 1];
      NegativesBeforeStep(p - 1, nNeg);
    }
  }

  /** The mask has exactly `n_rows * n_neg` negative slots. */
  lemma MaskCount(nRows: nat, nNeg: nat)
    ensures CountTrue(NegativeMask(nRows, nNeg)) == nRows * nNeg
  {
    var mask := NegativeMask(nRows, nNeg);
    MaskPrefixCount(nRows, nNeg, |mask|);
    assert mask[..|mask|] == mask;
    DivModBlock(nRows, nNeg + 1, 0);
  }

  // ----- The four columns ----------------------------------------------------

  /** The fancy-index-then-mask pattern the user, item and score columns
      share: `pos` at the stride positions, `neg` in order in the other
      slots, `zero` nowhere once both are written. */
  function Layout<T>(nRows: nat, nNeg: nat, zero: T, pos: seq<T>, neg: seq<T>): (c: seq<T>)
    requires |pos| == nRows && |neg| == nRows * nNeg
    ensures |c| == nRows * (nNeg + 1)
  {
    MaskCount(nRows, nNeg);
    MaskAssign(Scatter(Fill(nRows * (nNeg + 1), zero), PositiveIndices(nRows, nNeg), pos),
               NegativeMask(nRows, nNeg), neg)
  }

  /** `users_arr`: positives' users at the stride positions, then
      `np.repeat(u_indices, n_neg)` into the negative slots. */
  function UserColumn(rows: seq<Row>, nNeg: nat): (c: seq<nat>)
    ensures |c| == |rows| * (nNeg + 1)
  {
    Layout(|rows|, nNeg, 0, Preprocessing.UserCodes(rows), Repeat(Preprocessing.UserCodes(rows), nNeg))
  }

  /** `items_arr`: positives' items at the stride positions, the negative
      draws in the other slots. */
  function ItemColumn(rows: seq<Row>, nNeg: nat, negItems: seq<nat>): (c: seq<nat>)
    requires |negItems| == |rows| * nNeg
    ensures |c| == |rows| * (nNeg + 1)
  {
    Layout(|rows|, nNeg, 0, Preprocessing.ItemCodes(rows), negItems)
  }

  /** `labels_arr`: ones at the stride positions, then the scalar 0
      broadcast into the negative slots. */
  function LabelColumn(nRows: nat, nNeg: nat): (c: seq<nat>)
    ensures |c| == nRows * (nNeg + 1)
  {
    MaskFill(Scatter(Fill(nRows * (nNeg + 1), 0), PositiveIndices(nRows, nNeg), Fill(nRows, 1)),
             NegativeMask(nRows, nNeg), 0)
  }

  /** Every user in `np.repeat(u_indices, n_neg)` indexes the user factors. */
  lemma RepeatedUsersInRange(m: Model, rows: seq<Row>, nNeg: nat, negItems: seq<nat>)
    requires WellFormedInputs(m, rows, nNeg, negItems)
    ensures forall k :: 0 <= k < |Repeat(Preprocessing.UserCodes(rows), nNeg)| ==> Repeat(Preprocessing.UserCodes(rows), nNeg)[k] < |m.userFactors|
  {
    var u := Repeat(Preprocessing.UserCodes(rows), nNeg);
    forall k | 0 <= k < |u|
      ensures u[k] < |m.userFactors|
    {
      var j :| 0 <= j < |rows| && Preprocessing.UserCodes(rows)[j] == u[k];
    }
  }

  /** The positives' dot products, one per training row. */
  function PositiveScores(m: Model, rows: seq<Row>, nNeg: nat, negItems: seq<nat>): (s: seq<real>)
    requires WellFormedInputs(m, rows, nNeg, negItems)
    ensures |s| == |rows|
  {
    seq(|rows|, k requires 0 <= k < |rows| => m.Affinity(rows[k].userIdx, rows[k].itemIdx))
  }

  /** The negatives' dot products, one per draw. */
  function NegativeScores(m: Model, rows: seq<Row>, nNeg: nat, negItems: seq<nat>): (s: seq<real>)
    requires WellFormedInputs(m, rows, nNeg, negItems)
    ensures |s| == |negItems|
  {
    var negUsers := Repeat(Preprocessing.UserCodes(rows), nNeg);
    RepeatedUsersInRange(m, rows, nNeg, negItems);
    seq(|negItems|, k requires 0 <= k < |negItems| => m.Affinity(negUsers[k], negItems[k]))
  }

  /** `scores_arr`: the dot products of the positives at the stride
      positions, those of the negatives in the other slots. */
  function ScoreColumn(m: Model, rows: seq<Row>, nNeg: nat, negItems: seq<nat>): (c: seq<real>)
    requires WellFormedInputs(m, rows, nNeg, negItems)
    ensures |c| == |rows| * (nNeg + 1)
  {
    Layout(|rows|, nNeg, 0.0, PositiveScores(m, rows, nNeg, negItems), NegativeScores(m, rows, nNeg, negItems))
  }

  /** The ranking table, `n_rows * (1 + n_neg)` rows long. */
  function GenerateFeatures(m: Model, rows: seq<Row>, nNeg: nat, negItems: seq<nat>): (t: seq<Sample>)
    requires WellFormedInputs(m, rows, nNeg, negItems)
    ensures |t| == |rows| * (1 + nNeg)
  {
    var total := |rows| * (nNeg + 1);
    var users := UserColumn(rows, nNeg);
    var items := ItemColumn(rows, nNeg, negItems);
    var labels := LabelColumn(|rows|, nNeg);
    var scores := ScoreColumn(m, rows, nNeg, negItems);
    seq(total, p requires 0 <= p < total => Sample(users[p], items[p], labels[p], scores[p]))
  }

  // ----- What each slot holds ------------------------------------------------

  function PositiveSample(m: Model, row: Row): Sample
    requires m.Valid() && row.userIdx < |m.userFactors| && row.itemIdx < |m.itemFactors|
  {
    Sample(row.userIdx, row.itemIdx, 1, m.Affinity(row.userIdx, row.itemIdx))
  }

  function NegativeSample(m: Model, user: nat, item: nat): Sample
    requires m.Valid() && user < |m.userFactors| && item < |m.itemFactors|
  {
    Sample(user, item, 0, m.Affinity(user, item))
  }

  lemma NegativeIndexBound(nRows: nat, nNeg: nat, j: nat, r: nat)
    requires j < nRows && 0 < r <= nNeg
    ensures j * nNeg + r - 1 < nRows * nNeg
  {
    MulMonotone(j + 1, nRows, nNeg);
  }

  /** Slot `r` of row `j`'s block: the positive for `r = 0`, otherwise the
      draw `neg_items[j * n_neg + r - 1]` paired with the same user. */
  function Slot(m: Model, rows: seq<Row>, nNeg: nat, negItems: seq<nat>, j: nat, r: nat): Sample
    requires WellFormedInputs(m, rows, nNeg, negItems) && j < |rows| && r <= nNeg
    requires r > 0 ==> j * nNeg + r - 1 < |negItems|
  {
    if r == 0 then PositiveSample(m, rows[j])
    else NegativeSample(m, rows[j].userIdx, negItems[j * nNeg + r - 1])
  }

  /** Position `p = j * step + r` lies in block `j`, at offset `r`, after
      `j * n_neg + r - 1` negatives (when `r > 0`). */
  lemma SlotPosition(nRows: nat, nNeg: nat, j: nat, r: nat, p: nat)
    requires j < nRows && r <= nNeg && p == j * (nNeg + 1) + r
    ensures p < nRows * (nNeg + 1)
    ensures p / (nNeg + 1) == j && p % (nNeg + 1) == r
    ensures r > 0 ==> NegativesBefore(p, nNeg) == j * nNeg + r - 1 < nRows * nNeg
  {
    MulMonotone(j + 1, nRows, nNeg + 1);
    DivModBlock(j, nNeg + 1, r);
    if r > 0 {
      NegativeIndexBound(nRows, nNeg, j, r);
    }
  }

  /** Block `j`'s first slot is the `j`-th stride position, which the
      mask leaves alone. */
  lemma PositiveSlotAt(nRows: nat, nNeg: nat, j: nat, p: nat)
    requires j < nRows && p == j * (nNeg + 1)
    ensures p < nRows * (nNeg + 1) && PositiveIndices(nRows, nNeg)[j] == p
    ensures !NegativeMask(nRows, nNeg)[p]
  {
    SlotPosition(nRows, nNeg, j, 0, p);
    PositiveIndexAt(nRows, nNeg, j);
    NegativeMaskAt(nRows, nNeg, p);
  }

  /** Slot `r > 0` of block `j` is masked and is the mask's
      `(j * n_neg + r - 1)`-th true entry. */
  lemma NegativeSlotAt(nRows: nat, nNeg: nat, j: nat, r: nat, p: nat, k: nat)
    requires j < nRows && 0 < r <= nNeg && p == j * (nNeg + 1) + r && k == j * nNeg + r - 1
    ensures p < nRows * (nNeg + 1) && NegativeMask(nRows, nNeg)[p]
    ensures CountTrue(NegativeMask(nRows, nNeg)[..p]) == k < nRows * nNeg
  {
    SlotPosition(nRows, nNeg, j, r, p);
    NegativeMaskAt(nRows, nNeg, p);
    MaskPrefixCount(nRows, nNeg, p);
  }

  lemma LayoutPositive<T>(nRows: nat, nNeg: nat, zero: T, pos: seq<T>, neg: seq<T>, j: nat, p: nat)
    requires |pos| == nRows && |neg| == nRows * nNeg
    requires j < nRows && p == j * (nNeg + 1)
    ensures p < nRows * (nNeg + 1) && Layout(nRows, nNeg, zero, pos, neg)[p] == pos[j]
  {
    PositiveSlotAt(nRows, nNeg, j, p);
    MaskCount(nRows, nNeg);
    var idx := PositiveIndices(nRows, nNeg);
    var base := Scatter(Fill(nRows * (nNeg + 1), zero), idx, pos);
    assert base[idx[j]] == pos[j];
  }

  lemma LayoutNegative<T>(nRows: nat, nNeg: nat, zero: T, pos: seq<T>, neg: seq<T>, j: nat, r: nat, p: nat, k: nat)
    requires |pos| == nRows && |neg| == nRows * nNeg
    requires j < nRows && 0 < r <= nNeg && p == j * (nNeg + 1) + r && k == j * nNeg + r - 1
    ensures p < nRows * (nNeg + 1) && k < |neg|
    ensures Layout(nRows, nNeg, zero, pos, neg)[p] == neg[k]
  {
    NegativeSlotAt(nRows, nNeg, j, r, p, k);
    MaskCount(nRows, nNeg);
    var base := Scatter(Fill(nRows * (nNeg + 1), zero), PositiveIndices(nRows, nNeg), pos);
    MaskAssignAt(base, NegativeMask(nRows, nNeg), neg, p, k);
  }

  lemma LabelColumnAt(nRows: nat, nNeg: nat, j: nat, r: nat, p: nat)
    requires j < nRows && r <= nNeg && p == j * (nNeg + 1) + r
    ensures p < |LabelColumn(nRows, nNeg)| && LabelColumn(nRows, nNeg)[p] == if r == 0 then 1 else 0
  {
    if r == 0 {
      PositiveSlotAt(nRows, nNeg, j, p);
      var idx := PositiveIndices(nRows, nNeg);
      assert Scatter(Fill(nRows * (nNeg + 1), 0), idx, Fill(nRows, 1))[idx[j]] == 1;
    } else {
      NegativeSlotAt(nRows, nNeg, j, r, p, j * nNeg + r - 1);
    }
  }

  /** The columns at block `j`'s first slot hold row `j` itself. */
  lemma PositiveColumnsAt(m: Model, rows: seq<Row>, nNeg: nat, negItems: seq<nat>, j: nat, p: nat)
    requires WellFormedInputs(m, rows, nNeg, negItems) && j < |rows| && p == j * (nNeg + 1)
    ensures p < |rows| * (nNeg + 1)
    ensures UserColumn(rows, nNeg)[p] == rows[j].userIdx
    ensures ItemColumn(rows, nNeg, negItems)[p] == rows[j].itemIdx
    ensures LabelColumn(|rows|, nNeg)[p] == 1
    ensures ScoreColumn(m, rows, nNeg, negItems)[p] == m.Affinity(rows[j].userIdx, rows[j].itemIdx)
  {
    LabelColumnAt(|rows|, nNeg, j, 0, p);
    LayoutPositive(|rows|, nNeg, 0, Preprocessing.UserCodes(rows), Repeat(Preprocessing.UserCodes(rows), nNeg), j, p);
    LayoutPositive(|rows|, nNeg, 0, Preprocessing.ItemCodes(rows), negItems, j, p);
    LayoutPositive(|rows|, nNeg, 0.0, PositiveScores(m, rows, nNeg, negItems),
                   NegativeScores(m, rows, nNeg, negItems), j, p);
  }

  /** The user column at slot `r > 0` of block `j` holds row `j`'s user. */
  lemma NegativeUserAt(rows: seq<Row>, nNeg: nat, j: nat, r: nat, p: nat)
    requires j < |rows| && 0 < r <= nNeg && p == j * (nNeg + 1) + r
    ensures p < |rows| * (nNeg + 1)
    ensures UserColumn(rows, nNeg)[p] == rows[j].userIdx
  {
    var codes := Preprocessing.UserCodes(rows);
    var neg := Repeat(codes, nNeg);
    var k := j * nNeg + (r - 1);
    RepeatAt(codes, nNeg, j, r - 1);
    assert neg[k] == codes[j] == rows[j].userIdx;
    LayoutNegative(|rows|, nNeg, 0, codes, neg, j, r, p, k);
    assert UserColumn(rows, nNeg) == Layout(|rows|, nNeg, 0, codes, neg);
  }

  /** The score column at slot `r > 0` of block `j` holds row `j`'s user's
      dot product with draw `k`. */
  lemma NegativeScoreAt(m: Model, rows: seq<Row>, nNeg: nat, negItems: seq<nat>, j: nat, r: nat, p: nat, k: nat)
    requires WellFormedInputs(m, rows, nNeg, negItems) && j < |rows| && 0 < r <= nNeg
    requires p == j * (nNeg + 1) + r && k == j * nNeg + r - 1
    ensures p < |rows| * (nNeg + 1) && k < |negItems|
    ensures ScoreColumn(m, rows, nNeg, negItems)[p] == m.Affinity(rows[j].userIdx, negItems[k])
  {
    RepeatAt(Preprocessing.UserCodes(rows), nNeg, j, r - 1);
    assert NegativeScores(m, rows, nNeg, negItems)[k] == m.Affinity(rows[j].userIdx, negItems[k]);
    LayoutNegative(|rows|, nNeg, 0.0, PositiveScores(m, rows, nNeg, negItems),
                   NegativeScores(m, rows, nNeg, negItems), j, r, p, k);
  }

  /** The item and label columns at slot `r > 0` of block `j`: draw `k`
      and label 0. */
  lemma NegativeItemAt(rows: seq<Row>, nNeg: nat, negItems: seq<nat>, j: nat, r: nat, p: nat, k: nat)
    requires |negItems| == |rows| * nNeg && j < |rows| && 0 < r <= nNeg
    requires p == j * (nNeg + 1) + r && k == j * nNeg + r - 1
    ensures p < |rows| * (nNeg + 1) && k < |negItems|
    ensures ItemColumn(rows, nNeg, negItems)[p] == negItems[k]
    ensures LabelColumn(|rows|, nNeg)[p] == 0
  {
    LabelColumnAt(|rows|, nNeg, j, r, p);
    LayoutNegative(|rows|, nNeg, 0, Preprocessing.ItemCodes(rows), negItems, j, r, p, k);
  }

  /** Row `p` of the table gathers position `p` of the four columns. */
  lemma TableRow(m: Model, rows: seq<Row>, nNeg: nat, negItems: seq<nat>, p: nat)
    requires WellFormedInputs(m, rows, nNeg, negItems) && p < |rows| * (nNeg + 1)
    ensures GenerateFeatures(m, rows, nNeg, negItems)[p]
         == Sample(UserColumn(rows, nNeg)[p], ItemColumn(rows, nNeg, negItems)[p],
                   LabelColumn(|rows|, nNeg)[p], ScoreColumn(m, rows, nNeg, negItems)[p])
  {
  }

  lemma PositiveRowAt(m: Model, rows: seq<Row>, nNeg: nat, negItems: seq<nat>, j: nat, p: nat)
    requires WellFormedInputs(m, rows, nNeg, negItems) && j < |rows| && p == j * (nNeg + 1)
    ensures p < |GenerateFeatures(m, rows, nNeg, negItems)|
    ensures GenerateFeatures(m, rows, nNeg, negItems)[p] == PositiveSample(m, rows[j])
  {
    PositiveColumnsAt(m, rows, nNeg, negItems, j, p);
    TableRow(m, rows, nNeg, negItems, p);
  }

  lemma NegativeRowAt(m: Model, rows: seq<Row>, nNeg: nat, negItems: seq<nat>, j: nat, r: nat, p: nat, k: nat)
    requires WellFormedInputs(m, rows, nNeg, negItems) && j < |rows| && 0 < r <= nNeg
    requires p == j * (nNeg + 1) + r && k == j * nNeg + r - 1
    ensures p < |GenerateFeatures(m, rows, nNeg, negItems)| && k < |negItems|
    ensures GenerateFeatures(m, rows, nNeg, negItems)[p] == NegativeSample(m, rows[j].userIdx, negItems[k])
  {
    NegativeUserAt(rows, nNeg, j, r, p);
    NegativeItemAt(rows, nNeg, negItems, j, r, p, k);
    NegativeScoreAt(m, rows, nNeg, negItems, j, r, p, k);
    TableRow(m, rows, nNeg, negItems, p);
  }

  /** Position `p = j * step + r` of the table (`step = n_neg + 1`) holds
      row `j`'s positive when `r = 0`, and otherwise negative draw
      `j * n_neg + r - 1` with row `j`'s user, label 0 and its own dot
      product. */
  lemma GenerateFeaturesAt(m: Model, rows: seq<Row>, nNeg: nat, negItems: seq<nat>, j: nat, r: nat, p: nat)
    requires WellFormedInputs(m, rows, nNeg, negItems) && j < |rows| && r <= nNeg
    requires p == j * (nNeg + 1) + r
    ensures p < |GenerateFeatures(m, rows, nNeg, negItems)|
    ensures r > 0 ==> j * nNeg + r - 1 < |negItems|
    ensures GenerateFeatures(m, rows, nNeg, negItems)[p] == Slot(m, rows, nNeg, negItems, j, r)
  {
    if r == 0 {
      PositiveRowAt(m, rows, nNeg, negItems, j, p);
    } else {
      NegativeRowAt(m, rows, nNeg, negItems, j, r, p, j * nNeg + r - 1);
    }
  }

  // ----- An independent reference: the table block by block ----------------

  /** One training row's block: its positive, then its own draws as negatives. */
  function Block(m: Model, row: Row, draws: seq<nat>): (b: seq<Sample>)
    requires m.Valid() && row.userIdx < |m.userFactors| && row.itemIdx < |m.itemFactors|
    requires forall k :: 0 <= k < |draws| ==> draws[k] < |m.itemFactors|
    ensures |b| == 1 + |draws|
  {
    [PositiveSample(m, row)]
      + seq(|draws|, k requires 0 <= k < |draws| => NegativeSample(m, row.userIdx, draws[k]))
  }

  /** The table as the loop the vectorised code replaces would build it:
      each training row in order, followed by the next `n_neg` draws. */
  function ReferenceTable(m: Model, rows: seq<Row>, nNeg: nat, negItems: seq<nat>): (t: seq<Sample>)
    requires WellFormedInputs(m, rows, nNeg, negItems)
    ensures |t| == |rows| * (nNeg + 1)
    decreases |rows|
  {
    if |rows| == 0 then []
    else
      assert |rows| * nNeg == nNeg + (|rows| - 1) * nNeg;
      assert |rows| * (nNeg + 1) == nNeg + 1 + (|rows| - 1) * (nNeg + 1);
      Block(m, rows[0], negItems[..nNeg]) + ReferenceTable(m, rows[1..], nNeg, negItems[nNeg..])
  }

  /** Dropping the first row and its `n_neg` draws leaves well-formed inputs. */
  lemma TailInputs(m: Model, rows: seq<Row>, nNeg: nat, negItems: seq<nat>)
    requires WellFormedInputs(m, rows, nNeg, negItems) && |rows| > 0
    ensures nNeg <= |negItems|
    ensures WellFormedInputs(m, rows[1..], nNeg, negItems[nNeg..])
  {
    assert |rows| * nNeg == nNeg + (|rows| - 1) * nNeg;
  }

  /** Slot `(j, r)` of the inputs is slot `(j - 1, r)` of their tail. */
  lemma SlotOfTail(m: Model, rows: seq<Row>, nNeg: nat, negItems: seq<nat>, j: nat, r: nat)
    requires WellFormedInputs(m, rows, nNeg, negItems) && 0 < j < |rows| && r <= nNeg
    requires r > 0 ==> j * nNeg + r - 1 < |negItems|
    ensures nNeg <= |negItems| && WellFormedInputs(m, rows[1..], nNeg, negItems[nNeg..])
    ensures r > 0 ==> (j - 1) * nNeg + r - 1 < |negItems| - nNeg
    ensures Slot(m, rows[1..], nNeg, negItems[nNeg..], j - 1, r) == Slot(m, rows, nNeg, negItems, j, r)
  {
    TailInputs(m, rows, nNeg, negItems);
    if r > 0 {
      var k := j * nNeg + r - 1;
      assert (j - 1) * nNeg + r - 1 == k - nNeg;
      assert negItems[nNeg..][k - nNeg] == negItems[k];
    }
  }

  /** The table opens with the first row's block. */
  lemma ReferenceHead(m: Model, rows: seq<Row>, nNeg: nat, negItems: seq<nat>, r: nat)
    requires WellFormedInputs(m, rows, nNeg, negItems) && 0 < |rows| && r <= nNeg
    requires r > 0 ==> r - 1 < |negItems|
    ensures r < |ReferenceTable(m, rows, nNeg, negItems)|
    ensures ReferenceTable(m, rows, nNeg, negItems)[r] == Slot(m, rows, nNeg, negItems, 0, r)
  {
    TailInputs(m, rows, nNeg, negItems);
    var b := Block(m, rows[0], negItems[..nNeg]);
    assert ReferenceTable(m, rows, nNeg, negItems)[r] == b[r];
  }

  /** Past the first block, the table is the tail's table. */
  lemma ReferenceTail(m: Model, rows: seq<Row>, nNeg: nat, negItems: seq<nat>, q: nat)
    requires WellFormedInputs(m, rows, nNeg, negItems) && 0 < |rows|
    requires nNeg <= |negItems| && q < |ReferenceTable(m, rows[1..], nNeg, negItems[nNeg..])|
    ensures q + nNeg + 1 < |ReferenceTable(m, rows, nNeg, negItems)|
    ensures ReferenceTable(m, rows, nNeg, negItems)[q + nNeg + 1]
         == ReferenceTable(m, rows[1..], nNeg, negItems[nNeg..])[q]
  {
    TailInputs(m, rows, nNeg, negItems);
  }

  lemma TailPosition(nNeg: nat, j: nat, r: nat, p: nat, q: int)
    requires 0 < j && p == j * (nNeg + 1) + r && q == p - (nNeg + 1)
    ensures 0 <= q == (j - 1) * (nNeg + 1) + r
  {
  }

  lemma {:induction false} ReferenceAt(m: Model, rows: seq<Row>, nNeg: nat, negItems: seq<nat>, j: nat, r: nat, p: nat)
    requires WellFormedInputs(m, rows, nNeg, negItems) && j < |rows| && r <= nNeg
    requires p == j * (nNeg + 1) + r
    requires r > 0 ==> j * nNeg + r - 1 < |negItems|
    ensures p < |ReferenceTable(m, rows, nNeg, negItems)|
    ensures ReferenceTable(m, rows, nNeg, negItems)[p] == Slot(m, rows, nNeg, negItems, j, r)
    decreases j
  {
    if j == 0 {
      ReferenceHead(m, rows, nNeg, negItems, r);
    } else {
      var q := p - (nNeg + 1);
      TailPosition(nNeg, j, r, p, q);
      SlotOfTail(m, rows, nNeg, negItems, j, r);
      ReferenceAt(m, rows[1..], nNeg, negItems[nNeg..], j - 1, r, q);
      ReferenceTail(m, rows, nNeg, negItems, q);
    }
  }

  /** Block and offset of a position in the table. */
  lemma BlockOf(nRows: nat, nNeg: nat, p: nat) returns (j: nat, r: nat)
    requires p < nRows * (nNeg + 1)
    ensures j < nRows && r <= nNeg && p == j * (nNeg + 1) + r
    ensures r > 0 ==> j * nNeg + r - 1 < nRows * nNeg
  {
    j := p / (nNeg + 1);
    r := p % (nNeg + 1);
    if j >= nRows {
      MulMonotone(nRows, j, nNeg + 1);
    }
    if r > 0 {
      NegativeIndexBound(nRows, nNeg, j, r);
    }
  }

  /** The vectorised layout builds exactly the block-by-block table. */
  lemma GenerateFeaturesIsReference(m: Model, rows: seq<Row>, nNeg: nat, negItems: seq<nat>)
    requires WellFormedInputs(m, rows, nNeg, negItems)
    ensures GenerateFeatures(m, rows, nNeg, negItems) == ReferenceTable(m, rows, nNeg, negItems)
  {
    var t := GenerateFeatures(m, rows, nNeg, negItems);
    var ref := ReferenceTable(m, rows, nNeg, negItems);
    forall p | 0 <= p < |t|
      ensures t[p] == ref[p]
    {
      var j, r := BlockOf(|rows|, nNeg, p);
      GenerateFeaturesAt(m, rows, nNeg, negItems, j, r, p);
      ReferenceAt(m, rows, nNeg, negItems, j, r, p);
    }
  }

  // ----- Properties of the table ---------------------------------------------

  function IsPositive(s: Sample): bool
  {
    s.relevance == 1
  }

  function IsNegative(s: Sample): bool
  {
    s.relevance == 0
  }

  function UserOf(s: Sample): nat
  {
    s.user
  }

  function ItemsOf(t: seq<Sample>): (items: seq<nat>)
    ensures |items| == |t|
  {
    seq(|t|, k requires 0 <= k < |t| => t[k].item)
  }

  /** The positives, one per training row, in row order. */
  function Positives(m: Model, rows: seq<Row>): (ps: seq<Sample>)
    requires m.Valid()
    requires forall k :: 0 <= k < |rows| ==> rows[k].userIdx < |m.userFactors| && rows[k].itemIdx < |m.itemFactors|
    ensures |ps| == |rows|
  {
    seq(|rows|, j requires 0 <= j < |rows| => PositiveSample(m, rows[j]))
  }

  lemma PositivesCons(m: Model, rows: seq<Row>)
    requires m.Valid() && |rows| > 0
    requires forall k :: 0 <= k < |rows| ==> rows[k].userIdx < |m.userFactors| && rows[k].itemIdx < |m.itemFactors|
    ensures Positives(m, rows) == [PositiveSample(m, rows[0])] + Positives(m, rows[1..])
  {
  }

  lemma ItemsOfAppend(a: seq<Sample>, b: seq<Sample>)
    ensures ItemsOf(a + b) == ItemsOf(a) + ItemsOf(b)
  {
  }

  /** A block holds exactly one positive, its first row. */
  lemma BlockPositives(m: Model, row: Row, draws: seq<nat>)
    requires m.Valid() && row.userIdx < |m.userFactors| && row.itemIdx < |m.itemFactors|
    requires forall k :: 0 <= k < |draws| ==> draws[k] < |m.itemFactors|
    ensures Filter(Block(m, row, draws), IsPositive) == [PositiveSample(m, row)]
  {
    var pos := [PositiveSample(m, row)];
    var negs := Block(m, row, draws)[1..];
    assert Block(m, row, draws) == pos + negs;
    FilterAppend(pos, negs, IsPositive);
    assert pos[..0] == [];
    FilterNone(negs, IsPositive);
  }

  lemma BlockNegativeRows(m: Model, row: Row, draws: seq<nat>)
    requires m.Valid() && row.userIdx < |m.userFactors| && row.itemIdx < |m.itemFactors|
    requires forall k :: 0 <= k < |draws| ==> draws[k] < |m.itemFactors|
    ensures Filter(Block(m, row, draws), IsNegative) == Block(m, row, draws)[1..]
  {
    var b := Block(m, row, draws);
    var pos, negs := b[..1], b[1..];
    assert b == pos + negs;
    assert pos == [PositiveSample(m, row)];
    forall k | 0 <= k < |negs|
      ensures IsNegative(negs[k])
    {
      assert negs[k] == NegativeSample(m, row.userIdx, draws[k]);
    }
    FilterSingleton(PositiveSample(m, row), IsNegative);
    FilterAppend(pos, negs, IsNegative);
    FilterKeepsAll(negs, IsNegative);
  }

  lemma BlockDrawItems(m: Model, row: Row, draws: seq<nat>)
    requires m.Valid() && row.userIdx < |m.userFactors| && row.itemIdx < |m.itemFactors|
    requires forall k :: 0 <= k < |draws| ==> draws[k] < |m.itemFactors|
    ensures ItemsOf(Block(m, row, draws)[1..]) == draws
  {
    var negs := Block(m, row, draws)[1..];
    forall k | 0 <= k < |negs|
      ensures ItemsOf(negs)[k] == draws[k]
    {
      assert negs[k] == NegativeSample(m, row.userIdx, draws[k]);
    }
  }

  /** A block's negatives carry its draws, in order. */
  lemma BlockNegatives(m: Model, row: Row, draws: seq<nat>)
    requires m.Valid() && row.userIdx < |m.userFactors| && row.itemIdx < |m.itemFactors|
    requires forall k :: 0 <= k < |draws| ==> draws[k] < |m.itemFactors|
    ensures ItemsOf(Filter(Block(m, row, draws), IsNegative)) == draws
  {
    BlockNegativeRows(m, row, draws);
    BlockDrawItems(m, row, draws);
  }

  lemma ReferenceUnfold(m: Model, rows: seq<Row>, nNeg: nat, negItems: seq<nat>)
    requires WellFormedInputs(m, rows, nNeg, negItems) && |rows| > 0
    ensures nNeg <= |negItems| && WellFormedInputs(m, rows[1..], nNeg, negItems[nNeg..])
    ensures ReferenceTable(m, rows, nNeg, negItems)
         == Block(m, rows[0], negItems[..nNeg]) + ReferenceTable(m, rows[1..], nNeg, negItems[nNeg..])
  {
    TailInputs(m, rows, nNeg, negItems);
  }

  lemma {:induction false} ReferencePositives(m: Model, rows: seq<Row>, nNeg: nat, negItems: seq<nat>)
    requires WellFormedInputs(m, rows, nNeg, negItems)
    ensures Filter(ReferenceTable(m, rows, nNeg, negItems), IsPositive) == Positives(m, rows)
    decreases |rows|
  {
    if |rows| > 0 {
      ReferenceUnfold(m, rows, nNeg, negItems);
      var b := Block(m, rows[0], negItems[..nNeg]);
      var tail := ReferenceTable(m, rows[1..], nNeg, negItems[nNeg..]);
      ReferencePositives(m, rows[1..], nNeg, negItems[nNeg..]);
      FilterAppend(b, tail, IsPositive);
      BlockPositives(m, rows[0], negItems[..nNeg]);
      PositivesCons(m, rows);
    }
  }

  lemma {:induction false} ReferenceNegativeItems(m: Model, rows: seq<Row>, nNeg: nat, negItems: seq<nat>)
    requires WellFormedInputs(m, rows, nNeg, negItems)
    ensures ItemsOf(Filter(ReferenceTable(m, rows, nNeg, negItems), IsNegative)) == negItems
    decreases |rows|
  {
    if |rows| > 0 {
      ReferenceUnfold(m, rows, nNeg, negItems);
      var b := Block(m, rows[0], negItems[..nNeg]);
      var tail := ReferenceTable(m, rows[1..], nNeg, negItems[nNeg..]);
      ReferenceNegativeItems(m, rows[1..], nNeg, negItems[nNeg..]);
      FilterAppend(b, tail, IsNegative);
      ItemsOfAppend(Filter(b, IsNegative), Filter(tail, IsNegative));
      BlockNegatives(m, rows[0], negItems[..nNeg]);
      assert negItems == negItems[..nNeg] + negItems[nNeg..];
    }
  }

  /** The label-1 rows are exactly the training rows' positives, in row
      order: one per row. */
  lemma PositivesInOrder(m: Model, rows: seq<Row>, nNeg: nat, negItems: seq<nat>)
    requires WellFormedInputs(m, rows, nNeg, negItems)
    ensures Filter(GenerateFeatures(m, rows, nNeg, negItems), IsPositive) == Positives(m, rows)
    ensures |Filter(GenerateFeatures(m, rows, nNeg, negItems), IsPositive)| == |rows|
  {
    GenerateFeaturesIsReference(m, rows, nNeg, negItems);
    ReferencePositives(m, rows, nNeg, negItems);
  }

  /** The label-0 rows carry the negative draws, every one of them, in the
      order they were drawn. */
  lemma NegativeDrawsInOrder(m: Model, rows: seq<Row>, nNeg: nat, negItems: seq<nat>)
    requires WellFormedInputs(m, rows, nNeg, negItems)
    ensures ItemsOf(Filter(GenerateFeatures(m, rows, nNeg, negItems), IsNegative)) == negItems
    ensures |Filter(GenerateFeatures(m, rows, nNeg, negItems), IsNegative)| == |rows| * nNeg
  {
    GenerateFeaturesIsReference(m, rows, nNeg, negItems);
    ReferenceNegativeItems(m, rows, nNeg, negItems);
  }

  /** Every row is labelled 0 or 1, indexes the factor matrices, and its
      `dot_prod` is the dot product of its own user's and item's factors. */
  lemma SamplesAreScored(m: Model, rows: seq<Row>, nNeg: nat, negItems: seq<nat>, p: nat)
    requires WellFormedInputs(m, rows, nNeg, negItems)
    requires p < |GenerateFeatures(m, rows, nNeg, negItems)|
    ensures var s := GenerateFeatures(m, rows, nNeg, negItems)[p];
      && (s.relevance == 0 || s.relevance == 1)
      && s.user < |m.userFactors| && s.item < |m.itemFactors|
      && s.dotProd == m.Affinity(s.user, s.item)
  {
    var j, r := BlockOf(|rows|, nNeg, p);
    GenerateFeaturesAt(m, rows, nNeg, negItems, j, r, p);
  }

  lemma {:induction false} ReferenceWithoutNegatives(m: Model, rows: seq<Row>, negItems: seq<nat>)
    requires WellFormedInputs(m, rows, 0, negItems)
    ensures ReferenceTable(m, rows, 0, negItems) == Positives(m, rows)
    decreases |rows|
  {
    if |rows| > 0 {
      TailInputs(m, rows, 0, negItems);
      ReferenceWithoutNegatives(m, rows[1..], negItems[0..]);
      assert Block(m, rows[0], negItems[..0]) == [PositiveSample(m, rows[0])];
      PositivesCons(m, rows);
    }
  }

  /** With no negatives the table is the positives alone. */
  lemma WithoutNegatives(m: Model, rows: seq<Row>, negItems: seq<nat>)
    requires WellFormedInputs(m, rows, 0, negItems)
    ensures GenerateFeatures(m, rows, 0, negItems) == Positives(m, rows)
  {
    GenerateFeaturesIsReference(m, rows, 0, negItems);
    ReferenceWithoutNegatives(m, rows, negItems);
  }

  /** Negatives are drawn without excluding the row's own item: a negative
      can repeat its block's positive pair with label 0. */
  lemma NegativeMayRepeatPositive()
    ensures var m := Model(1, [[1.0]], [[2.0]]);
      var rows := [Preprocessing.Interaction("u", "i", 5.0, 0, 1, 0, 0)];
      WellFormedInputs(m, rows, 1, [0])
      && GenerateFeatures(m, rows, 1, [0])
         == [Sample(0, 0, 1, 2.0), Sample(0, 0, 0, 2.0)]
  {
    var m := Model(1, [[1.0]], [[2.0]]);
    var rows := [Preprocessing.Interaction("u", "i", 5.0, 0, 1, 0, 0)];
    assert m.Affinity(0, 0) == 2.0;
    GenerateFeaturesAt(m, rows, 1, [0], 0, 0, 0);
    GenerateFeaturesAt(m, rows, 1, [0], 0, 1, 1);
  }

  // ----- Query groups ---------------------------------------------------------

  /** `rank_df.sort_values('user_idx').groupby('user_idx').size()`: the
      number of table rows per user, users ascending. */
  function QueryGroups(t: seq<Sample>): (gs: seq<nat>)
    ensures gs == Sizes(GroupBy(t, UserOf))
    ensures Sum(gs) == |t|
  {
    SortByKeyPermutation(t, UserOf);
    GroupByPermutation(SortByKey(t, UserOf), t, UserOf);
    GroupSizesSum(t, UserOf);
    Sizes(GroupBy(SortByKey(t, UserOf), UserOf))
  }

  /** Sorting before grouping changes nothing: the sizes are those of the
      unsorted table's groups. */
  lemma SortKeepsGroups(t: seq<Sample>)
    ensures QueryGroups(t) == Sizes(GroupBy(t, UserOf))
    ensures Keys(GroupBy(SortByKey(t, UserOf), UserOf)) == Keys(GroupBy(t, UserOf))
  {
    SortByKeyPermutation(t, UserOf);
    GroupByPermutation(SortByKey(t, UserOf), t, UserOf);
  }

  lemma BlockMembers(m: Model, row: Row, draws: seq<nat>, u: nat)
    requires m.Valid() && row.userIdx < |m.userFactors| && row.itemIdx < |m.itemFactors|
    requires forall k :: 0 <= k < |draws| ==> draws[k] < |m.itemFactors|
    ensures |Members(Block(m, row, draws), UserOf, u)| == if row.userIdx == u then 1 + |draws| else 0
  {
    var b := Block(m, row, draws);
    var p := HasKey(UserOf, u);
    forall k | 0 <= k < |b|
      ensures p(b[k]) == (row.userIdx == u)
    {
      if k > 0 {
        assert b[k] == NegativeSample(m, row.userIdx, draws[k - 1]);
      } else {
        assert b[k] == PositiveSample(m, row);
      }
      assert UserOf(b[k]) == row.userIdx;
    }
    if row.userIdx == u {
      FilterKeepsAll(b, p);
    } else {
      FilterNone(b, p);
    }
  }

  lemma MembersCons(rows: seq<Row>, u: nat)
    requires |rows| > 0
    ensures |Members(rows, Preprocessing.UserKey, u)| == |Members(rows[1..], Preprocessing.UserKey, u)| + (if rows[0].userIdx == u then 1 else 0)
  {
    assert rows == [rows[0]] + rows[1..];
    FilterAppend([rows[0]], rows[1..], HasKey(Preprocessing.UserKey, u));
    assert [rows[0]][..0] == [];
  }

  lemma MembersAppend(a: seq<Sample>, b: seq<Sample>, u: nat)
    ensures |Members(a + b, UserOf, u)| == |Members(a, UserOf, u)| + |Members(b, UserOf, u)|
  {
    FilterAppend(a, b, HasKey(UserOf, u));
  }

  lemma {:induction false} ReferenceMembers(m: Model, rows: seq<Row>, nNeg: nat, negItems: seq<nat>, u: nat)
    requires WellFormedInputs(m, rows, nNeg, negItems)
    ensures |Members(ReferenceTable(m, rows, nNeg, negItems), UserOf, u)| == (nNeg + 1) * |Members(rows, Preprocessing.UserKey, u)|
    decreases |rows|
  {
    if |rows| > 0 {
      ReferenceUnfold(m, rows, nNeg, negItems);
      var b := Block(m, rows[0], negItems[..nNeg]);
      var tail := ReferenceTable(m, rows[1..], nNeg, negItems[nNeg..]);
      var e := if rows[0].userIdx == u then 1 else 0;
      ReferenceMembers(m, rows[1..], nNeg, negItems[nNeg..], u);
      MembersAppend(b, tail, u);
      BlockMembers(m, rows[0], negItems[..nNeg], u);
      MembersCons(rows, u);
      ScaleStep(nNeg + 1, |Members(rows[1..], Preprocessing.UserKey, u)|, e);
    }
  }

  lemma ScaleStep(k: nat, c: nat, e: nat)
    ensures k * (c + e) == k * c + k * e
  {
  }

  /** The query groups handed to the ranker: one per user of the training
      rows, users ascending, each `1 + n_neg` times that user's number of
      training rows, adding up to the table's length. */
  lemma QueryGroupSizes(m: Model, rows: seq<Row>, nNeg: nat, negItems: seq<nat>)
    requires WellFormedInputs(m, rows, nNeg, negItems)
    ensures var t := GenerateFeatures(m, rows, nNeg, negItems);
      var gs := GroupBy(t, UserOf);
      && |QueryGroups(t)| == |gs|
      && Sum(QueryGroups(t)) == |rows| * (1 + nNeg)
      && (forall g :: 0 <= g < |gs| ==>
            QueryGroups(t)[g] == (1 + nNeg) * |Members(rows, Preprocessing.UserKey, gs[g].key)|
            && |Members(rows, Preprocessing.UserKey, gs[g].key)| > 0)
      && (forall g, h :: 0 <= g < h < |gs| ==> gs[g].key < gs[h].key)
  {
    var t := GenerateFeatures(m, rows, nNeg, negItems);
    var gs := GroupBy(t, UserOf);
    SortKeepsGroups(t);
    GroupSizesSum(t, UserOf);
    GenerateFeaturesIsReference(m, rows, nNeg, negItems);
    forall g | 0 <= g < |gs|
      ensures QueryGroups(t)[g] == (1 + nNeg) * |Members(rows, Preprocessing.UserKey, gs[g].key)|
    {
      ReferenceMembers(m, rows, nNeg, negItems, gs[g].key);
    }
  }

  // ----- What the ranker is fitted on ---------------------------------------------

  /** The rows `ranker.fit(X, y, group=q_groups)` sees (their `dot_prod` is
      `X`, their `label` is `y`) and the query group sizes. The library reads
      the sizes as consecutive runs of those rows. */
  datatype FitInputs = FitInputs(rows: seq<Sample>, groups: seq<nat>)

  /** As written: `X` and `y` are taken before `rank_df` is sorted by user,
      the group sizes after. The sizes still add up to the number of rows, so
      the library accepts them. */
  function FitAsWritten(t: seq<Sample>): (f: FitInputs)
    ensures Sum(f.groups) == |f.rows|
  {
    SortByKeyPermutation(t, UserOf);
    assert |SortByKey(t, UserOf)| == |multiset(SortByKey(t, UserOf))| == |t|;
    GroupSizesSum(SortByKey(t, UserOf), UserOf);
    FitInputs(t, QueryGroups(t))
  }

  /** Corrected: `X` and `y` are taken from the sorted table, so that every
      query is exactly one user's rows; the rows are the same, reordered. */
  function FitCorrected(t: seq<Sample>): (f: FitInputs)
    ensures multiset(f.rows) == multiset(t)
    ensures SameKeyRuns(f.rows, UserOf, f.groups)
    ensures f.groups == Sizes(GroupBy(t, UserOf))
  {
    SortByKeyPermutation(t, UserOf);
    SortedRunsAreGroups(t, UserOf);
    SortKeepsGroups(t);
    FitInputs(SortByKey(t, UserOf), QueryGroups(t))
  }

  /** A table that opens with a row of user 0 and has a row of another user
      within the first as many rows as user 0 has: the first query the ranker
      is told about is all of user 0's rows, yet that run of `X` mixes users. */
  lemma MixedFirstQuery(t: seq<Sample>, k: nat)
    requires |t| > 0 && t[0].user == 0
    requires k < |Members(t, UserOf, 0)| && k < |t| && t[k].user != 0
    ensures FitAsWritten(t).groups[0] == |Members(t, UserOf, 0)|
    ensures !SameKeyRuns(FitAsWritten(t).rows, UserOf, FitAsWritten(t).groups)
  {
    var gs := GroupBy(t, UserOf);
    var g :| 0 <= g < |gs| && gs[g].key == UserOf(t[0]);
    assert gs[0].key <= gs[g].key;
  }

  /** Training rows for users 0, 1, 0, whatever negatives are drawn: the
      first query holds user 0's `2 * (1 + n_neg)` rows, but row `1 + n_neg`
      of `X` inside it opens user 1's block. */
  lemma ThreeRowsMixUsers(m: Model, rows: seq<Row>, nNeg: nat, negItems: seq<nat>)
    requires WellFormedInputs(m, rows, nNeg, negItems)
    requires |rows| == 3 && rows[0].userIdx == 0 && rows[1].userIdx == 1 && rows[2].userIdx == 0
    ensures var t := GenerateFeatures(m, rows, nNeg, negItems);
      && t[0].user == 0
      && t[nNeg + 1].user == 1
      && FitAsWritten(t).groups[0] == 2 * (nNeg + 1)
      && !SameKeyRuns(FitAsWritten(t).rows, UserOf, FitAsWritten(t).groups)
  {
    var t := GenerateFeatures(m, rows, nNeg, negItems);
    SampleUserAt(m, rows, nNeg, negItems, 0, 0, 0);
    SampleUserAt(m, rows, nNeg, negItems, 1, 0, nNeg + 1);
    ThreeRowsUserZero(m, rows, nNeg, negItems);
    MixedFirstQuery(t, nNeg + 1);
  }

  lemma SampleUserAt(m: Model, rows: seq<Row>, nNeg: nat, negItems: seq<nat>, j: nat, r: nat, p: nat)
    requires WellFormedInputs(m, rows, nNeg, negItems) && j < |rows| && r <= nNeg
    requires p == j * (nNeg + 1) + r
    ensures p < |GenerateFeatures(m, rows, nNeg, negItems)|
    ensures GenerateFeatures(m, rows, nNeg, negItems)[p].user == rows[j].userIdx
  {
    GenerateFeaturesAt(m, rows, nNeg, negItems, j, r, p);
    assert Slot(m, rows, nNeg, negItems, j, r).user == rows[j].userIdx;
  }

  lemma ThreeRowsUserZero(m: Model, rows: seq<Row>, nNeg: nat, negItems: seq<nat>)
    requires WellFormedInputs(m, rows, nNeg, negItems)
    requires |rows| == 3 && rows[0].userIdx == 0 && rows[1].userIdx == 1 && rows[2].userIdx == 0
    ensures |Members(GenerateFeatures(m, rows, nNeg, negItems), UserOf, 0)| == 2 * (nNeg + 1)
  {
    MembersCons(rows, 0);
    assert rows[1..][1..] == rows[2..] && rows[2..][1..] == [];
    MembersCons(rows[1..], 0);
    MembersCons(rows[2..], 0);
    var c := |Members(rows, Preprocessing.UserKey, 0)|;
    assert c == 2;
    GenerateFeaturesIsReference(m, rows, nNeg, negItems);
    ReferenceMembers(m, rows, nNeg, negItems, 0);
    assert (nNeg + 1) * c == 2 * (nNeg + 1);
  }

  /** With the default seven negatives per row: the first query has sixteen
      rows, but row 8 of `X` is user 1's positive. */
  lemma FitAsWrittenMixesUsers()
    ensures var m := Model(1, [[1.0], [1.0]], [[1.0], [1.0]]);
      var rows := [Preprocessing.Interaction("a", "x", 5.0, 0, 1, 0, 0),
                   Preprocessing.Interaction("b", "x", 5.0, 0, 1, 1, 0),
                   Preprocessing.Interaction("a", "y", 4.0, 1, 1, 0, 1)];
      var negItems := seq(21, _ => 0);
      var t := GenerateFeatures(m, rows, 7, negItems);
      && WellFormedInputs(m, rows, 7, negItems)
      && t[0].user == 0
      && t[8].user == 1
      && FitAsWritten(t).groups[0] == 16
      && !SameKeyRuns(FitAsWritten(t).rows, UserOf, FitAsWritten(t).groups)
  {
    var m := Model(1, [[1.0], [1.0]], [[1.0], [1.0]]);
    var rows := [Preprocessing.Interaction("a", "x", 5.0, 0, 1, 0, 0),
                 Preprocessing.Interaction("b", "x", 5.0, 0, 1, 1, 0),
                 Preprocessing.Interaction("a", "y", 4.0, 1, 1, 0, 1)];
    var negItems := seq(21, _ => 0);
    assert WellFormedInputs(m, rows, 7, negItems);
    ThreeRowsMixUsers(m, rows, 7, negItems);
  }
}
