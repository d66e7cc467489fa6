# Tree metrics and tree ranking of the distributed random forest

This project models `distributed_random_forest/models/tree_utils.py`, the code that
scores the decision trees of a client's random forest on validation data and ranks
them before federated aggregation picks the best ones. It covers:

- **overall accuracy** (`compute_accuracy`): the fraction of rows whose predicted
  label equals the true label;
- **weighted accuracy** (`compute_weighted_accuracy`): overall accuracy multiplied
  by the mean of the per-class accuracies. The class list defaults to the distinct
  labels of the ground truth. A class with no true instance is skipped. When no
  class qualifies the result is 0.0;
- **tree evaluation** (`evaluate_tree`): predict with the tree, then report its
  accuracy and weighted accuracy;
- **tree ranking** (`rank_trees_by_metric`): pair each tree with the score that the
  named metric picks from its evaluation, then sort the pairs by descending score
  with Python's stable `list.sort`.

Modules:

- `Wrappers` (`wrappers.dfy`): `Option` and `Result`.
- `TreeMetrics` (`tree_metrics.dfy`): labels are `int`, label vectors `seq<int>`, and
  scores are exact `real` ratios of counts. `WeightedAccuracy` is the specification
  function. `ComputeWeightedAccuracy` is the source's loop that appends to the
  per-class list, proved equal to it.
- `TreeRanking` (`tree_ranking.dfy`): a tree is an opaque value of a type parameter
  `T`, and its `predict` applied to the validation features is a function parameter
  `predict: T -> seq<int>`. `ScoreTrees` is the scoring loop. `RankTrees` copies the
  scored pairs into an array and sorts it in place with a stable descending
  insertion sort (`SortByScoreInPlace`), proved equal to the functional
  `SortByScore`. `SortByScore` is proved to be sorted, a permutation and stable.
  It is also proved to be the only ordering with those properties.

In the model, a metric name other than `"accuracy"` or `"weighted_accuracy"` has no
entry in a tree's evaluation, and the lookup returns `Err(UnknownMetric(name))`, as a
`KeyError` would. As in the source, the lookup happens inside the per-tree loop, so an
empty tree list gives an empty ranking whatever the name.

The source's default arguments are kept as Dafny default parameter values:
`classes := None` on `WeightedAccuracy`, `ComputeWeightedAccuracy`, `EvaluateTree`,
`ScoreTrees` and `RankTrees`, and `metric := "accuracy"` on `ScoreTrees` and `RankTrees`.

## Model

| member | source | states |
|---|---|---|
| TreeMetrics.Matches | distributed_random_forest/models/tree_utils.py:7-17 | The match count never exceeds the number of rows, and it equals that number exactly when the prediction equals the ground truth. |
| TreeMetrics.Accuracy | distributed_random_forest/models/tree_utils.py:7-17 | For non-empty equal-length label vectors, accuracy lies in [0, 1]. It is 1 exactly when every prediction is right, so `Accuracy(y, y) == 1`. |
| TreeMetrics.CountPositive | distributed_random_forest/models/tree_utils.py:44-45 | The sum of the class mask `y_true == cls` is positive exactly when `cls` occurs in `y_true`. |
| TreeMetrics.MaskedAgree | distributed_random_forest/models/tree_utils.py:44-46 | The masked prediction equals the masked ground truth exactly when every true instance of the class is predicted as that class. |
| TreeMetrics.Count | distributed_random_forest/models/tree_utils.py:44-45 | The sum of the class mask counts the rows of that class, so it never exceeds the number of rows. |
| TreeMetrics.Masked | distributed_random_forest/models/tree_utils.py:44-46 | Boolean-mask indexing keeps one entry per row of the class. Masking the ground truth by itself keeps only that class's label. |
| TreeMetrics.ClassAccuracy | distributed_random_forest/models/tree_utils.py:44-46 | The accuracy on the rows of one class lies in [0, 1]. It is 1 exactly when every true instance of the class is predicted correctly. |
| TreeMetrics.Unique | distributed_random_forest/models/tree_utils.py:37-38 | The default class list is strictly increasing, so it has no duplicates, and it holds exactly the values that occur in `y_true`. |
| TreeMetrics.ClassesUsed | distributed_random_forest/models/tree_utils.py:37-38 | A given class list is used as it is. Without one, the classes are strictly increasing and are exactly the values that occur in `y_true`. |
| TreeMetrics.Qualifying | distributed_random_forest/models/tree_utils.py:43-45 | The classes that pass the `sum(mask) > 0` test are at most as many as the listed classes, and each has a true instance. |
| TreeMetrics.QualifyingMembers | distributed_random_forest/models/tree_utils.py:43-45 | A class qualifies exactly when it is listed and occurs in the ground truth. |
| TreeMetrics.PerClassAccuracies | distributed_random_forest/models/tree_utils.py:42-47 | The per-class list has one entry per qualifying class, never more entries than listed classes, and every entry lies in [0, 1]. |
| TreeMetrics.PerClassStep | distributed_random_forest/models/tree_utils.py:43-47 | One more loop iteration appends that class's accuracy if it has a true instance, and appends nothing otherwise. |
| TreeMetrics.PerClassSkipsAbsentClass | distributed_random_forest/models/tree_utils.py:43-47 | A class with no true instance is skipped, not scored 0: inserting it anywhere in the class list leaves the per-class list unchanged. |
| TreeMetrics.PerClassEmptyIff | distributed_random_forest/models/tree_utils.py:42-50 | The per-class list is empty exactly when no listed class occurs in the ground truth. |
| TreeMetrics.PerClassPerfect | distributed_random_forest/models/tree_utils.py:42-47 | With a perfect prediction every per-class accuracy is 1. |
| TreeMetrics.SumBounds | distributed_random_forest/models/tree_utils.py:52 | A sum of n scores in [0, 1] lies in [0, n], and it equals n exactly when every score is 1. |
| TreeMetrics.Mean | distributed_random_forest/models/tree_utils.py:52 | The mean of a non-empty list of scores in [0, 1] lies in [0, 1], and it is 1 exactly when every score is 1. |
| TreeMetrics.Scale | distributed_random_forest/models/tree_utils.py:53 | Multiplying the overall accuracy by the mean never exceeds either factor. It keeps the overall accuracy exactly when that is 0 or the mean is 1. |
| TreeMetrics.Combine | distributed_random_forest/models/tree_utils.py:49-53 | The final step lies between 0 and the overall accuracy. When some class qualified, it is at most the mean per-class accuracy, and it equals the overall accuracy exactly when that is 0 or the mean is 1. |
| TreeMetrics.WeightedAccuracy | distributed_random_forest/models/tree_utils.py:20-53 | Weighted accuracy lies in [0, 1] and never exceeds overall accuracy. |
| TreeMetrics.WeightedAccuracyNoClass | distributed_random_forest/models/tree_utils.py:49-50 | When no listed class occurs in the ground truth the result is exactly 0.0. |
| TreeMetrics.DefaultClassesQualify | distributed_random_forest/models/tree_utils.py:37-50 | With the default class list some class always qualifies, so the 0.0 fallback never applies to it. |
| TreeMetrics.WeightedAccuracyPerfect | distributed_random_forest/models/tree_utils.py:37-53 | A perfect non-empty prediction has weighted accuracy 1 with the default classes. The same holds with an explicit list that names at least one occurring class. |
| TreeMetrics.WeightedAccuracyPenalty | distributed_random_forest/models/tree_utils.py:40-53 | When some class qualifies, weighted accuracy is at most the mean per-class accuracy. It equals overall accuracy exactly when that is 0 or every qualifying class is predicted perfectly. |
| TreeMetrics.ComputeWeightedAccuracy | distributed_random_forest/models/tree_utils.py:20-53 | The loop that appends per-class accuracies, followed by the fallback or the product, computes exactly `WeightedAccuracy`. |
| TreeRanking.EvaluateTree | distributed_random_forest/models/tree_utils.py:70-87 | The reported metrics satisfy 0 <= weighted accuracy <= accuracy <= 1. Accuracy is 1 exactly when the tree predicts every validation label. A perfect tree has weighted accuracy 1 under the default classes. |
| TreeRanking.MetricNamed | distributed_random_forest/models/tree_utils.py:106 | The name `"accuracy"` selects accuracy and `"weighted_accuracy"` selects weighted accuracy. Every other name finds no entry. |
| TreeRanking.Score | distributed_random_forest/models/tree_utils.py:106 | The lookup returns the entry the metric names. For an evaluation that `EvaluateTree` can produce, the score lies between 0 and the accuracy. |
| TreeRanking.ScoredTrees | distributed_random_forest/models/tree_utils.py:103-107 | The scored list has one pair per tree. |
| TreeRanking.InsertPos | distributed_random_forest/models/tree_utils.py:109 | A new pair goes after every pair that scores at least as much and before every pair that scores less. This is what keeps equal scores in input order. |
| TreeRanking.InsertByScore | distributed_random_forest/models/tree_utils.py:109 | Inserting into a non-increasing list keeps it non-increasing and adds exactly the new pair. |
| TreeRanking.SortByScore | distributed_random_forest/models/tree_utils.py:109 | The sorted list has non-increasing scores and is a permutation of its input. |
| TreeRanking.InsertByScoreWithScore | distributed_random_forest/models/tree_utils.py:109 | Inserting a pair places it after all existing pairs of the same score. |
| TreeRanking.SortByScoreKeepsTrees | distributed_random_forest/models/tree_utils.py:109 | Sorting keeps every tree with its multiplicity. |
| TreeRanking.SortByScoreStable | distributed_random_forest/models/tree_utils.py:109 | For every score value, the pairs with that score appear in the sorted list in their input order: the sort is stable. |
| TreeRanking.SortByScoreIsStableDescending | distributed_random_forest/models/tree_utils.py:109 | The sort result is non-increasing and stable with respect to its input. |
| TreeRanking.StableDescendingUnique | distributed_random_forest/models/tree_utils.py:109 | Two non-increasing lists with the same pairs of each score, in the same order, are equal. |
| TreeRanking.StableDescendingIsSortByScore | distributed_random_forest/models/tree_utils.py:109 | Any stable descending ordering of the input is exactly the sort result. |
| TreeRanking.SortByScoreInPlace | distributed_random_forest/models/tree_utils.py:109 | The in-place sort leaves the array holding the stable descending ordering of its old contents. |
| TreeRanking.InsertLast | distributed_random_forest/models/tree_utils.py:109 | One step of the in-place sort inserts the next pair into the sorted prefix and leaves the rest of the array unchanged. |
| TreeRanking.OpenGap | distributed_random_forest/models/tree_utils.py:109 | The inner loop shifts right by one exactly the prefix entries that score below the pair being inserted. It stops after an entry that scores at least as much, or at the start of the array. |
| TreeRanking.ScoreTrees | distributed_random_forest/models/tree_utils.py:103-107 | With no trees the result is empty. With an unknown metric name and at least one tree the lookup fails. Otherwise the result pairs each tree, in input order, with its named metric. |
| TreeRanking.RankTrees | distributed_random_forest/models/tree_utils.py:90-110 | Same error cases as `ScoreTrees`. Otherwise the result is the stable descending sort of the scored trees: one pair per tree, with non-increasing scores. |
| TreeRanking.RankingIsStableDescending | distributed_random_forest/models/tree_utils.py:103-110 | The ranking is a stable descending ordering of the scored trees, and no other list is one. |
| TreeRanking.RankingPermutesTrees | distributed_random_forest/models/tree_utils.py:103-110 | The ranked trees are a permutation of the input trees. |
| TreeRanking.RankedPairsAreScoredTrees | distributed_random_forest/models/tree_utils.py:104-110 | Every ranked pair is some input tree with the score that `evaluate_tree` gives it under the chosen metric. |
| TreeRanking.ScoredTreesAreRanked | distributed_random_forest/models/tree_utils.py:103-110 | Every input tree appears in the ranking with its own score. |

## Left out

- `compute_f1_score` and the `f1_score` entry of `evaluate_tree` are not modelled. sklearn's F1 computation is not part of this model. Ranking by the name `"f1_score"` is therefore reported as an unknown metric, where the source would rank by F1.
- Behaviour on empty or length-mismatched label vectors is not modelled: every metric requires non-empty vectors of equal length. sklearn's own handling of those inputs is not part of this model.
- Scores are exact reals, not floating-point numbers, and `np.mean` is an exact arithmetic mean. Rounding is not modelled. This affects ranking in one way. Two weighted-accuracy scores that are equal as exact ratios can differ as floats, and two that differ can round to the same float. On such near-ties, the model's groups of equal scores can differ from the program's, and so can the stable order within them. Accuracy ties are unaffected, because every tree's accuracy has the same denominator, the number of validation rows.
- `tree.predict(X_val)` is an opaque function parameter with the validation features folded in. Fitted estimators are not part of this model.
- The `np.asarray` conversions are not modelled: label vectors are already sequences.
- `RankTrees` sorts with insertion sort on an array copy. The result is proved to equal the unique stable descending ordering, which is what Python's stable `list.sort` with `reverse=True` returns. The source builds its own local list `scored_trees`, sorts that list in place and returns it. The model sorts a fresh array holding the same pairs and returns its contents, so the result is the same. Neither changes any list the caller owns, and the model leaves out only which sorting algorithm runs.
- The experiment scripts (`run_exp1_hparams.py`, `run_exp2_clients.py`, `run_exp3_federation.py`, `run_exp4_dp_federation.py`) and the re-export files `federation/__init__.py` and `models/__init__.py` are not part of this model. The aggregator, voting, random forest and differentially private forest modules they point to are not part of this model either.
