# Two-stage recommender: a Dafny model

This project models the core of a two-stage (retrieve, then re-rank)
recommender built on Amazon review data:

- `process_data` turns raw reviews into implicit positives, encodes user and
  item ids as dense category codes, splits the table in time and removes
  cold-start rows from the test split (`preprocessing.dfy`, on top of
  `categorical.dfy` and `lex.dfy`);
- `generate_features_vectorized` synthesises the re-ranker's training table
  with numpy stride, fancy-index and boolean-mask writes (`ranking.dfy`, on
  top of `vectors.dfy` and `factors.dfy`);
- `train_ranker` groups that table into per-user queries for a
  learning-to-rank fit (`ranking.dfy`, on top of `grouping.dfy`);
- `calculate_metrics` computes global Recall@k of the retrieval stage
  (`metrics.dfy`);
- the `/recommend` endpoint bounds-checks the user, scores the retrieved
  candidates, sorts them and formats the answer (`serving.dfy`).

`seqs.dfy` holds sequence filters, sums and element sets. `wrappers.dfy`
holds `Option` and `Result`.

The trained models are inputs:
- the ALS retrieval model is a pair of factor matrices (`Factors.Model`);
- its `recommend` call is a function from user to candidate ids, or the
  candidate list itself;
- the LightGBM booster's prediction is a function `real -> real` applied to
  each row's single `dot_prod` feature.

The random negative draws are an input sequence. Floats are `real`.

Four behaviours of the code shape the model:
- The endpoint bounds-checks `user_idx` against the rows of the user-item
  matrix, not the factor matrix. `Serving.Artifacts.Consistent` relates the
  two.
- The evaluation ground truth is a list per user, so a repeated test
  purchase counts twice in the targets (`Metrics.RepeatedPurchaseCapsRecall`).
- Training takes `X` and `y` from the table before it is sorted by user;
  see Findings.
- Retrieval is fixed at `N=50`, so `top_k` may exceed the candidate count;
  the endpoint then returns `min(top_k, |ids|)` entries.

## Model

| member | source | states |
|---|---|---|
| Categorical.Insert | src/preprocessing/transformers.py:38-39 | inserting an id into a strictly sorted category list keeps it strictly sorted and adds exactly that id |
| Categorical.Categories | src/preprocessing/transformers.py:38-39 | the categories of a column are strictly sorted in Python string order and hold exactly the column's distinct values |
| Categorical.SortedIsDistinct | src/preprocessing/transformers.py:38-39 | a strictly sorted category list holds no value twice |
| Lex.LessTotal | src/preprocessing/transformers.py:38-39 | Python string order ranks any two different ids one way or the other, so the category order is total |
| Lex.LessTransitive | src/preprocessing/transformers.py:38-39 | Python string order is transitive |
| Lex.LessIrreflexive | src/preprocessing/transformers.py:38-39 | no id is ordered before itself |
| Categorical.Code | src/preprocessing/transformers.py:41-42 | a value's code is a position in the category list holding that value |
| Categorical.CodeOfCategory | src/preprocessing/transformers.py:41-46 | encoding the category at position i gives back i: codes and categories are inverse |
| Categorical.CategoryMap | src/preprocessing/transformers.py:41-46 | `dict(enumerate(categories))` is keyed by exactly [0, N); for sorted categories it inverts the codes: it maps the code of each category back to that category, and every entry's code is its key |
| Categorical.CodesInvertible | src/preprocessing/transformers.py:41-46 | in a sorted category list every position is the code of the category stored there |
| Preprocessing.IdsCategorised | src/preprocessing/transformers.py:38-39 | every raw user and item id of the table has a category |
| Preprocessing.Encode | src/preprocessing/transformers.py:34-42 | each row keeps its raw columns, gets interaction 1, and its codes index categories equal to its own raw ids |
| Preprocessing.UserCodesGapFree | src/preprocessing/transformers.py:41 | the user codes used are exactly [0, N), with N the number of distinct raw user ids |
| Preprocessing.ItemCodesGapFree | src/preprocessing/transformers.py:42 | the item codes used are exactly [0, N), with N the number of distinct raw item ids |
| Preprocessing.EncodeGapFree | src/preprocessing/transformers.py:38-42 | both code columns are gap-free ranges sized by the distinct raw ids |
| Preprocessing.EncodeInjective | src/preprocessing/transformers.py:38-42 | two encoded rows share a code exactly when they share the raw id |
| Preprocessing.MaxTimestamp | src/preprocessing/transformers.py:56 | the maximum is some row's timestamp and bounds all of them |
| Preprocessing.TemporalSplit | src/preprocessing/transformers.py:56-60 | the cutoff is absent exactly for an empty table; train lies strictly before it and test at or after it; the two are disjoint, order-preserving and together hold every row |
| Preprocessing.TestWindowNonEmpty | src/preprocessing/transformers.py:56-60 | with a non-negative window a non-empty table gives a non-empty test split |
| Preprocessing.ColdStartFilter | src/preprocessing/transformers.py:64-69 | a test row survives exactly when its user and its item both occur in train; every copy of a surviving row is kept and none of a dropped one; survivors keep their order |
| Preprocessing.ColdStartSteps | src/preprocessing/transformers.py:64-69 | the two successive filters keep every copy of the rows passing both and nothing else, in order |
| Preprocessing.SplitMember | src/preprocessing/transformers.py:59-60 | both splits hold only rows of the table they were cut from |
| Preprocessing.ImplicitFeedback | src/preprocessing/transformers.py:33-34 | the positives are every copy of the records rated at least `min_rating` and nothing else, in input order |
| Preprocessing.Cutoff | src/preprocessing/transformers.py:56-57 | the cutoff is absent exactly for an empty table; otherwise it is some row's timestamp less the window and no row's shifted timestamp exceeds it |
| Preprocessing.SplitTrain | src/preprocessing/transformers.py:59 | train holds every copy of the rows strictly before the cutoff and nothing else |
| Preprocessing.SplitTest | src/preprocessing/transformers.py:60 | test holds every copy of the rows at or after the cutoff and nothing else |
| Preprocessing.ProcessData | src/preprocessing/transformers.py:9-75 | every test row's user and item occur in train, and no row lies in both splits |
| Preprocessing.ProcessedRowsAreEncoded | src/preprocessing/transformers.py:9-75 | every output row is a row of the encoded table |
| Preprocessing.ProcessedRowsArePositive | src/preprocessing/transformers.py:33-34 | every output row comes from an input record rated at least `min_rating` and has interaction 1 |
| Preprocessing.ProcessedMapsGapFree | src/preprocessing/transformers.py:45-46 | the saved reverse maps are keyed by exactly [0, N), with N the distinct raw ids among the kept positives |
| Preprocessing.ProcessedMapsRoundTrip | src/preprocessing/transformers.py:41-46 | the saved maps decode every output row's codes back to its raw ids |
| Preprocessing.SharedIndexSpace | src/preprocessing/transformers.py:36-42 | a train row and a test row have equal codes exactly when they have equal raw ids |
| Preprocessing.ProcessedSplitByCutoff | src/preprocessing/transformers.py:54-60 | train is every encoded row before the cutoff; test rows are at or after it; train and the test split before cold-start cleanup partition the encoded rows |
| Preprocessing.ColdStartCleanup | src/preprocessing/transformers.py:62-69 | the cleanup leaves train unchanged and removes from test exactly the rows whose user or item is unseen in train, keeping every copy of the others |
| Vectors.Arange | src/ranking/train_ranker.py:39 | every entry of `np.arange(start, stop, step)` lies in [start, stop) |
| Vectors.ArangeAt | src/ranking/train_ranker.py:39 | entry j is `start + j * step` |
| Vectors.ArangeLength | src/ranking/train_ranker.py:39 | `np.arange(0, n * step, step)` has n entries |
| Vectors.Scatter | src/ranking/train_ranker.py:41-44 | `arr[idx] = vals` writes vals[k] at idx[k] when the indices are distinct and leaves the other positions alone |
| Vectors.MaskAssign | src/ranking/train_ranker.py:64-67 | `arr[mask] = vals` gives the k-th masked position vals[k] and leaves unmasked positions alone |
| Vectors.MaskAssignAt | src/ranking/train_ranker.py:64-67 | a masked position receives the value whose rank it has among the masked positions |
| Vectors.MaskFill | src/ranking/train_ranker.py:66 | a scalar assigned through a mask is the value broadcast to one copy per masked position and assigned through the mask |
| Vectors.Repeat | src/ranking/train_ranker.py:53 | `np.repeat(s, n)` is n times as long as s and holds only entries of s |
| Vectors.RepeatAt | src/ranking/train_ranker.py:53 | entry `j * n + i` of `np.repeat(s, n)` is s[j] |
| Ranking.PositiveIndices | src/ranking/train_ranker.py:38-39 | the stride positions are distinct, one per training row, all inside the table |
| Ranking.PositiveIndexAt | src/ranking/train_ranker.py:38-39 | the j-th positive goes to position `j * step` |
| Ranking.NegativeMaskAt | src/ranking/train_ranker.py:61-62 | a position is masked exactly when it is not a multiple of `step` |
| Ranking.MaskCount | src/ranking/train_ranker.py:49-62 | the mask has exactly `n_rows * n_neg` true entries, one per negative draw |
| Ranking.MaskPrefixCount | src/ranking/train_ranker.py:61-67 | the number of masked positions before p is the number of non-stride positions before p |
| Ranking.GenerateFeatures | src/ranking/train_ranker.py:29 | the table has `n_rows * (1 + n_neg)` rows |
| Ranking.SlotPosition | src/ranking/train_ranker.py:36-67 | position `j * step + r` lies in block j at offset r, after `j * n_neg + r - 1` negatives |
| Ranking.PositiveColumnsAt | src/ranking/train_ranker.py:41-44 | at block j's first slot the four columns hold row j's user, item, label 1 and dot product |
| Ranking.NegativeUserAt | src/ranking/train_ranker.py:53-64 | at a negative slot of block j the user column holds row j's user |
| Ranking.NegativeItemAt | src/ranking/train_ranker.py:65-66 | at a negative slot the item column holds the matching draw and the label is 0 |
| Ranking.NegativeScoreAt | src/ranking/train_ranker.py:56-67 | at a negative slot the score is row j's user's dot product with the matching draw |
| Ranking.GenerateFeaturesAt | src/ranking/train_ranker.py:29-67 | position `j * step + r` holds row j's positive for r = 0, else draw `j * n_neg + r - 1` with row j's user, label 0 and its own dot product |
| Ranking.ReferenceTable | src/ranking/train_ranker.py:10-13 | the block-by-block table the vectorised code replaces has the same length |
| Ranking.ReferenceAt | src/ranking/train_ranker.py:10-13 | position `j * step + r` of the block-by-block table holds the same slot |
| Ranking.GenerateFeaturesIsReference | src/ranking/train_ranker.py:10-74 | the vectorised layout equals the table built one row at a time, each positive followed by its own draws |
| Ranking.BlockPositives | src/ranking/train_ranker.py:36-44 | a block holds exactly one positive, its first row |
| Ranking.BlockNegatives | src/ranking/train_ranker.py:46-67 | a block's negatives carry its draws in order |
| Ranking.PositivesInOrder | src/ranking/train_ranker.py:36-44 | the label-1 rows are exactly the training rows' positives, one per row, in row order |
| Ranking.NegativeDrawsInOrder | src/ranking/train_ranker.py:46-67 | the label-0 rows carry every negative draw, in draw order, `n_rows * n_neg` of them |
| Ranking.SamplesAreScored | src/ranking/train_ranker.py:25-56 | every row is labelled 0 or 1, indexes both factor matrices, and its dot_prod is its own user's and item's affinity |
| Ranking.WithoutNegatives | src/ranking/train_ranker.py:29-67 | with `n_neg = 0` the table is the positives alone |
| Ranking.NegativeMayRepeatPositive | src/ranking/train_ranker.py:49 | a draw may equal the row's own item, giving a label-0 copy of the positive pair |
| Ranking.QueryGroups | src/ranking/train_ranker.py:99-100 | the sizes after sorting are the group sizes of the unsorted table, and they add up to its length |
| Ranking.SortKeepsGroups | src/ranking/train_ranker.py:99-100 | sorting before grouping keeps the group keys and sizes of the unsorted table |
| Ranking.QueryGroupSizes | src/ranking/train_ranker.py:99-100 | one group per training user, ascending; each is `1 + n_neg` times that user's row count; the sizes add up to the table length |
| Ranking.FitAsWritten | src/ranking/train_ranker.py:95-100 | the group sizes handed to the fit add up to the row count of X |
| Ranking.MixedFirstQuery | src/ranking/train_ranker.py:95-114 | when the table opens with user 0 and another user's row lies within user 0's row count, the first query is all of user 0's rows yet its run of `X` mixes users |
| Ranking.ThreeRowsMixUsers | src/ranking/train_ranker.py:10-114 | training rows for users 0, 1, 0 with any `n_neg` give a first query of `2 * (1 + n_neg)` rows whose run of `X` holds user 1's positive at row `1 + n_neg` |
| Ranking.FitAsWrittenMixesUsers | src/ranking/train_ranker.py:95-114 | with the default `n_neg = 7`, training rows for users 0, 1, 0 give a first query of 16 rows whose row 8 of `X` is user 1's |
| Ranking.FitCorrected | src/ranking/train_ranker.py:95-114 | the sorted rows are a permutation of the table and every query run is exactly one user's rows |
| Grouping.GroupBy | src/ranking/train_ranker.py:100 | groups are non-empty, hold exactly the rows of their key, come in ascending key order, and cover every row |
| Grouping.GroupByKeys | src/ranking/train_ranker.py:100 | a key is listed exactly when some row carries it |
| Grouping.GroupSizesSum | src/ranking/train_ranker.py:100 | the group sizes add up to the row count |
| Grouping.GroupByPermutation | src/ranking/train_ranker.py:99-100 | reordering the rows leaves the group keys and sizes unchanged |
| Grouping.SortByKeyPermutation | src/ranking/train_ranker.py:99 | sorting by key is a permutation |
| Grouping.SortByKeyOrdered | src/ranking/train_ranker.py:99 | keys never decrease along the sorted rows |
| Grouping.SortedRunsAreGroups | src/ranking/train_ranker.py:99-100 | after sorting, the group sizes mark off exactly the runs of equal keys |
| Metrics.GroundTruth | src/evaluation/metrics.py:40 | one non-empty list per test user, users ascending, each exactly the items of that user's test rows in row order |
| Metrics.GroundTruthPartition | src/evaluation/metrics.py:40 | the lists partition the test rows: their lengths add up to the row count and each row's item is in its own user's list |
| Metrics.UserHits | src/evaluation/metrics.py:59-61 | the hits are at most the distinct true items and the distinct candidates, and zero exactly when no true item is a candidate |
| Metrics.Evaluate | src/evaluation/metrics.py:49-62 | the hits never exceed the targets |
| Metrics.Recall | src/evaluation/metrics.py:65 | recall is 0 without targets, otherwise recall times targets equals hits; it lies in [0, 1] |
| Metrics.CalculateMetrics | src/evaluation/metrics.py:42-65 | the loop's result is the recall of the totals over the known users, in [0, 1] |
| Metrics.TargetsCountKnownRows | src/evaluation/metrics.py:49-62 | the targets are exactly the test rows of users the model knows, duplicates included, whatever the recommender returns |
| Metrics.SkippedUsersContributeNothing | src/evaluation/metrics.py:51-52 | evaluating only the known users gives the same totals |
| Metrics.RecommenderCongruence | src/evaluation/metrics.py:56-61 | recommenders offering each known user the same set of items give the same totals |
| Metrics.UserHitsMonotone | src/evaluation/metrics.py:59-61 | offering a user more items never loses a hit |
| Metrics.MoreCandidatesMoreHits | src/evaluation/metrics.py:49-65 | a recommender whose candidates contain another's, user by user, has the same targets, at least the hits and at least the recall |
| Metrics.RepeatedPurchaseCapsRecall | src/evaluation/metrics.py:59-65 | a test item bought twice counts two targets but one hit, so recall is 0.5 even when the item is recommended |
| Serving.ServingFeatureMatchesTraining | src/api/app.py:50-52 | the feature served for a candidate equals the dot_prod the ranker was trained on for the same user and item |
| Serving.ScoredMember | src/api/app.py:50-57 | every scored candidate is a retrieved id carrying the ranker's prediction on its own user-item dot product |
| Serving.Asin | src/api/app.py:66 | the ASIN is the item map's entry for a mapped id and exactly "Unknown" for any other id |
| Serving.AsinDecodesProcessedItem | src/api/app.py:66 | for any row the preprocessing produced, the saved item map turns the row's item code back into its raw ASIN |
| Serving.Format | src/api/app.py:66-70 | an entry echoes the id, carries its ASIN, and its link is the product URL prefix followed by exactly that ASIN |
| Serving.Insert | src/api/app.py:60 | insertion adds exactly the candidate |
| Serving.InsertDescending | src/api/app.py:60 | inserting into a descending list keeps it descending |
| Serving.SortDescending | src/api/app.py:60 | the sorted candidates are a permutation of the input, highest score first |
| Serving.TopCandidates | src/api/app.py:60-61 | keeps `min(top_k, |ids|)` candidates from the input, highest first, none scoring below a candidate left out |
| Serving.TopDominates | src/api/app.py:61 | cutting a descending list keeps candidates scoring at least as high as any dropped |
| Serving.Recommend | src/api/app.py:41-76 | fails, with the 404, exactly for a user beyond the matrix rows; otherwise echoes the user and returns `min(top_k, |ids|)` entries whose ASIN comes from the item map or is "Unknown" and whose link is the product URL of that ASIN |
| Serving.TopAreScoredRetrievals | src/api/app.py:47-61 | every kept candidate is a retrieved id carrying the ranker's score of its dot product |
| Serving.RecommendationsAreTopScored | src/api/app.py:47-61 | the recommendations are retrieved ids with non-increasing ranker scores of their own dot products, no scored candidate left out beats any of them, and each id is returned at most as often as retrieval returned it |
| Serving.UnknownUserNotFound | src/api/app.py:42-43 | an unknown user gets the 404 "User ID not found", whatever was retrieved |

## Left out

- File I/O, pickling, parquet and JSON reading, the missing-file and bad-JSON error paths, and logging: these are environment effects. Each stage starts from its data in memory.
- Column selection and renaming in `process_data` (transformers.py:14-23): the model starts from the renamed records.
- The ALS fit and its `recommend` call: the factor matrices and the candidate ids are inputs. The masking of already-liked items is the retriever's business and is left out for the same reason.
- The user-item sparse matrix: only its row count matters to the endpoint, and in evaluation it is passed through to the retriever.
- LightGBM training, its hyperparameters and saving the booster: the fit is modelled only as the inputs it receives.
- The booster's prediction: a given function `real -> real` on the single feature.
- The random generator: the `n_rows * n_neg` draws are an input, constrained only to [0, n_items).
- Floating point: all scores, ratings and recalls are `real`, with no rounding.
- Serving.Request: fields are `nat`, so negative `user_idx` and `top_k` are left out. Python would index from the end for a negative user and slice from the end for a negative `top_k`.
- Serving.SortDescending: `np.argsort(...)[::-1]` has its own tie order. The model promises only descending scores and a permutation, not which of two equal-score candidates comes first.
- Grouping.SortByKey: `sort_values` is not stable by default. The model keeps rows with equal keys in their original order, so the row order within a user in `Ranking.FitCorrected` is that choice. The contracts about the sorted table speak only of the permutation (`Grouping.SortByKeyPermutation`), non-decreasing keys (`Grouping.SortByKeyOrdered`), runs of equal keys matching the groups (`Grouping.SortedRunsAreGroups`) and the group keys and sizes (`Ranking.SortKeepsGroups`, `Ranking.QueryGroups`); none names the order of rows within a user.
- Metrics.CalculateMetrics: the cutoff k and `N=k` belong to the retriever. The model takes the candidate lists as given and does not check their length.
- `load_artifacts`, the FastAPI wiring, the dashboard, configuration loading and the ALS training script: these are I/O wrappers with no logic of their own.

## Findings

| source | as written | input that shows it | evidently intended | confidence | as-written member | corrected member |
|---|---|---|---|---|---|---|
| src/ranking/train_ranker.py:95-114 | `X` and `y` are taken from the table before it is sorted by `user_idx`; the group sizes are computed after sorting, and the fit reads them as consecutive runs of the unsorted rows | training rows for users 0, 1, 0 (items x, x, y) with the default `n_neg = 7`: the first query has user 0's 16 rows, but row 8 of `X` is user 1's positive | take `X` and `y` from the sorted table so that each query is one user's rows | not executed | Ranking.FitAsWrittenMixesUsers | Ranking.FitCorrected |
