/**
 * evaluate_tree and rank_trees_by_metric of models/tree_utils.py.
 *
 * A tree is an opaque value of type `T`. Its fitted `predict` applied to the
 * validation features is the total function `predict: T -> seq<int>`, so the
 * features themselves never appear. Ranking produces `(tree, score)` pairs in
 * descending score order, keeping the input order among equal scores, as the
 * stable `list.sort(key=..., reverse=True)` of the source does.
 */
module TreeRanking {
  import opened Wrappers
  import opened TreeMetrics

  /** The metrics evaluate_tree reports for one tree (its F1 entry is not
      part of this model). */
  datatype Evaluation = Evaluation(accuracy: real, weightedAccuracy: real)

  /** The keys of an Evaluation that a ranking may name. */
  datatype Metric = AccuracyMetric | WeightedAccuracyMetric

  /** Looking up a missing key in the metrics dictionary (a KeyError). */
  datatype RankError = UnknownMetric(name: string)

  /** The dictionary key for a metric name, if there is one. */
  function MetricNamed(name: string): (m: Option<Metric>)
    ensures m == Some(AccuracyMetric) <==> name == "accuracy"
    ensures m == Some(WeightedAccuracyMetric) <==> name == "weighted_accuracy"
    ensures m.None? <==> name != "accuracy" && name != "weighted_accuracy"
  {
    if name == "accuracy" then Some(AccuracyMetric)
    else if name == "weighted_accuracy" then Some(WeightedAccuracyMetric)
    else None
  }

  /** Predicts the validation labels with `tree` and scores the prediction
      against `yVal`. */
  function EvaluateTree<T>(tree: T, predict: T -> seq<int>, yVal: seq<int>, classes: Option<seq<int>> := None): (e: Evaluation)
    requires |predict(tree)| == |yVal| > 0
    ensures 0.0 <= e.weightedAccuracy <= e.accuracy <= 1.0
    ensures e.accuracy == 1.0 <==> predict(tree) == yVal
    ensures predict(tree) == yVal && (classes.None? || exists c :: c in classes.value && c in yVal)
            ==> e.weightedAccuracy == 1.0
  {
    var yPred := predict(tree);
    assert yPred == yVal && (classes.None? || exists c :: c in classes.value && c in yVal)
           ==> WeightedAccuracy(yVal, yPred, classes) == 1.0 by {
      if yPred == yVal && (classes.None? || exists c :: c in classes.value && c in yVal) {
        WeightedAccuracyPerfect(yVal, classes);
      }
    }
    Evaluation(Accuracy(yVal, yPred), WeightedAccuracy(yVal, yPred, classes))
  }

  /** The entry of an evaluation that metric `m` names. */
  function Score(e: Evaluation, m: Metric): (s: real)
    ensures m == AccuracyMetric ==> s == e.accuracy
    ensures m == WeightedAccuracyMetric ==> s == e.weightedAccuracy
    ensures 0.0 <= e.weightedAccuracy <= e.accuracy <= 1.0 ==> 0.0 <= s <= e.accuracy
  {
    match m
    case AccuracyMetric => e.accuracy
    case WeightedAccuracyMetric => e.weightedAccuracy
  }

  /** Every tree predicts one label per validation row. */
  ghost predicate PredictsAll<T>(trees: seq<T>, predict: T -> seq<int>, yVal: seq<int>)
  {
    forall i :: 0 <= i < |trees| ==> |predict(trees[i])| == |yVal|
  }

  /** The score of a tree under metric `m`, defined for every tree that
      predicts one label per validation row. */
  function Scorer<T>(predict: T -> seq<int>, yVal: seq<int>, m: Metric, classes: Option<seq<int>>): T --> real
  {
    t requires |predict(t)| == |yVal| > 0 => Score(EvaluateTree(t, predict, yVal, classes), m)
  }

  /** Each tree paired with its score, in input order. */
  function Paired<T>(trees: seq<T>, score: T --> real): (s: seq<(T, real)>)
    requires forall k :: 0 <= k < |trees| ==> score.requires(trees[k])
    ensures |s| == |trees|
  {
    seq(|trees|, k requires 0 <= k < |trees| => (trees[k], score(trees[k])))
  }

  /** Pairing one more tree appends its pair. */
  lemma PairedSnoc<T>(trees: seq<T>, score: T --> real, i: nat)
    requires i < |trees|
    requires forall k :: 0 <= k < |trees| ==> score.requires(trees[k])
    ensures Paired(trees[..i + 1], score) == Paired(trees[..i], score) + [(trees[i], score(trees[i]))]
  {
    assert forall k :: 0 <= k <= i ==> trees[..i + 1][k] == trees[k];
  }

  /** Every tree paired with its score under metric `m`, in input order. */
  function ScoredTrees<T>(trees: seq<T>, predict: T -> seq<int>, yVal: seq<int>, m: Metric, classes: Option<seq<int>>): (s: seq<(T, real)>)
    requires |yVal| > 0
    requires PredictsAll(trees, predict, yVal)
    ensures |s| == |trees|
  {
    Paired(trees, Scorer(predict, yVal, m, classes))
  }

  /** The trees of a list of `(tree, score)` pairs, in order. */
  function TreesOf<T>(s: seq<(T, real)>): (ts: seq<T>)
    ensures |ts| == |s|
  {
    seq(|s|, k requires 0 <= k < |s| => s[k].0)
  }

  lemma TreesOfAppend<T>(s: seq<(T, real)>, t: seq<(T, real)>)
    ensures TreesOf(s + t) == TreesOf(s) + TreesOf(t)
  {
  }

  // ---------------------------------------------------------------------------
  // Stable descending order by score
  // ---------------------------------------------------------------------------

  /** Scores never increase along the sequence. */
  ghost predicate NonIncreasing<T>(s: seq<(T, real)>)
  {
    forall i, j :: 0 <= i < j < |s| ==> s[i].1 >= s[j].1
  }

  /** The entries whose score is `v`, in their order in `s`. */
  function WithScore<T>(s: seq<(T, real)>, v: real): seq<(T, real)>
  {
    if s == [] then []
    else WithScore(s[..|s| - 1], v) + (if s[|s| - 1].1 == v then [s[|s| - 1]] else [])
  }

  /** `r` is `s` ordered by descending score, with equal scores in the order
      they have in `s`. */
  ghost predicate StableDescendingOf<T>(r: seq<(T, real)>, s: seq<(T, real)>)
  {
    NonIncreasing(r) && forall v :: WithScore(r, v) == WithScore(s, v)
  }

  /** WithScore of a sequence extended by one entry. */
  lemma WithScoreSnoc<T>(s: seq<(T, real)>, e: (T, real), v: real)
    ensures WithScore(s + [e], v) == WithScore(s, v) + (if e.1 == v then [e] else [])
  {
    assert (s + [e])[..|s|] == s;
  }

  /** WithScore distributes over concatenation. */
  lemma {:induction false} WithScoreAppend<T>(s: seq<(T, real)>, t: seq<(T, real)>, v: real)
    ensures WithScore(s + t, v) == WithScore(s, v) + WithScore(t, v)
    decreases |t|
  {
    if t != [] {
      var n := |t| - 1;
      assert s + t == (s + t[..n]) + [t[n]];
      assert t == t[..n] + [t[n]];
      WithScoreAppend(s, t[..n], v);
      WithScoreSnoc(s + t[..n], t[n], v);
      WithScoreSnoc(t[..n], t[n], v);
    } else {
      assert s + t == s;
    }
  }

  /** WithScore keeps exactly the entries of the given score. */
  lemma {:induction false} WithScoreMember<T>(s: seq<(T, real)>, v: real, e: (T, real))
    ensures e in WithScore(s, v) <==> e in s && e.1 == v
  {
    if s != [] {
      var n := |s| - 1;
      WithScoreMember(s[..n], v, e);
      assert s == s[..n] + [s[n]];
    }
  }

  /** A sequence with no entry scoring `v` contributes nothing for `v`. */
  lemma WithScoreAbsent<T>(s: seq<(T, real)>, v: real)
    requires forall k :: 0 <= k < |s| ==> s[k].1 != v
    ensures WithScore(s, v) == []
  {
    if WithScore(s, v) != [] {
      var e := WithScore(s, v)[0];
      WithScoreMember(s, v, e);
    }
  }

  /** Where `x` goes in a non-increasing sequence: after every entry whose
      score is at least its own. */
  function InsertPos<T>(sorted: seq<(T, real)>, x: (T, real)): (p: nat)
    requires NonIncreasing(sorted)
    ensures p <= |sorted|
    ensures forall k :: 0 <= k < p ==> sorted[k].1 >= x.1
    ensures forall k :: p <= k < |sorted| ==> sorted[k].1 < x.1
  {
    if sorted == [] || sorted[|sorted| - 1].1 >= x.1 then |sorted|
    else InsertPos(sorted[..|sorted| - 1], x)
  }

  /** Inserts `x` into a non-increasing sequence at InsertPos. */
  function InsertByScore<T>(sorted: seq<(T, real)>, x: (T, real)): (r: seq<(T, real)>)
    requires NonIncreasing(sorted)
    ensures |r| == |sorted| + 1
    ensures NonIncreasing(r)
    ensures multiset(r) == multiset(sorted) + multiset{x}
  {
    var p := InsertPos(sorted, x);
    assert sorted == sorted[..p] + sorted[p..];
    sorted[..p] + [x] + sorted[p..]
  }

  /** Insertion sort by descending score, the reference for the ranking. */
  function SortByScore<T>(s: seq<(T, real)>): (r: seq<(T, real)>)
    ensures |r| == |s|
    ensures NonIncreasing(r)
    ensures multiset(r) == multiset(s)
  {
    if s == [] then []
    else
      var n := |s| - 1;
      assert s == s[..n] + [s[n]];
      InsertByScore(SortByScore(s[..n]), s[n])
  }

  /** Inserting `x` adds it after the entries of equal score. */
  lemma InsertByScoreWithScore<T>(sorted: seq<(T, real)>, x: (T, real), v: real)
    requires NonIncreasing(sorted)
    ensures WithScore(InsertByScore(sorted, x), v)
            == WithScore(sorted, v) + (if x.1 == v then [x] else [])
  {
    var p := InsertPos(sorted, x);
    var lo, hi := sorted[..p], sorted[p..];
    assert sorted == lo + hi;
    assert InsertByScore(sorted, x) == (lo + [x]) + hi;
    WithScoreAppend(lo, hi, v);
    WithScoreAppend(lo + [x], hi, v);
    WithScoreSnoc(lo, x, v);
    if x.1 == v {
      WithScoreAbsent(hi, v);
    }
  }

  /** Inserting a pair adds its tree once and keeps every other tree. */
  lemma InsertByScoreKeepsTrees<T>(sorted: seq<(T, real)>, x: (T, real))
    requires NonIncreasing(sorted)
    ensures multiset(TreesOf(InsertByScore(sorted, x))) == multiset(TreesOf(sorted)) + multiset{x.0}
  {
    var p := InsertPos(sorted, x);
    var lo, hi := sorted[..p], sorted[p..];
    assert sorted == lo + hi;
    TreesOfAppend(lo, hi);
    TreesOfAppend(lo + [x], hi);
    TreesOfAppend(lo, [x]);
    assert TreesOf([x]) == [x.0];
  }

  /** Sorting only reorders the trees: each one keeps its multiplicity. */
  lemma {:induction false} SortByScoreKeepsTrees<T>(s: seq<(T, real)>)
    ensures multiset(TreesOf(SortByScore(s))) == multiset(TreesOf(s))
  {
    if s != [] {
      var n := |s| - 1;
      var init, last := s[..n], s[n];
      var prev := SortByScore(init);
      assert multiset(TreesOf(s)) == multiset(TreesOf(init)) + multiset{last.0} by {
        assert s == init + [last];
        TreesOfAppend(init, [last]);
        assert TreesOf([last]) == [last.0];
      }
      assert multiset(TreesOf(SortByScore(s))) == multiset(TreesOf(prev)) + multiset{last.0} by {
        assert SortByScore(s) == InsertByScore(prev, last);
        InsertByScoreKeepsTrees(prev, last);
      }
      SortByScoreKeepsTrees(init);
    }
  }

  /** Sorting keeps, for every score, the entries with that score in their
      input order: the sort is stable. */
  lemma {:induction false} SortByScoreStable<T>(s: seq<(T, real)>, v: real)
    ensures WithScore(SortByScore(s), v) == WithScore(s, v)
  {
    if s != [] {
      var n := |s| - 1;
      SortByScoreStable(s[..n], v);
      InsertByScoreWithScore(SortByScore(s[..n]), s[n], v);
      assert s == s[..n] + [s[n]];
      WithScoreSnoc(s[..n], s[n], v);
    }
  }

  /** The sort is a stable descending ordering of its input. */
  lemma SortByScoreIsStableDescending<T>(s: seq<(T, real)>)
    ensures StableDescendingOf(SortByScore(s), s)
  {
    forall v
      ensures WithScore(SortByScore(s), v) == WithScore(s, v)
    {
      SortByScoreStable(s, v);
    }
  }

  /** The last entry of a non-increasing `b` scores at most the last entry
      of `a` when `b` holds `a`'s entries of that score. */
  lemma LastScoreBelow<T>(a: seq<(T, real)>, b: seq<(T, real)>)
    requires a != [] && b != []
    requires NonIncreasing(b)
    requires WithScore(a, a[|a| - 1].1) == WithScore(b, a[|a| - 1].1)
    ensures b[|b| - 1].1 <= a[|a| - 1].1
  {
    var la := a[|a| - 1];
    WithScoreMember(a, la.1, la);
    WithScoreMember(b, la.1, la);
  }

  /** Two non-empty stable descending orderings of the same entries end with
      the same score, the smallest one. */
  lemma LastScoresAgree<T>(a: seq<(T, real)>, b: seq<(T, real)>)
    requires a != [] && b != []
    requires NonIncreasing(a) && NonIncreasing(b)
    requires forall v :: WithScore(a, v) == WithScore(b, v)
    ensures a[|a| - 1].1 == b[|b| - 1].1
  {
    LastScoreBelow(a, b);
    LastScoreBelow(b, a);
  }

  /** Only the empty sequence has no entry of any score. */
  lemma EmptyAgrees<T>(a: seq<(T, real)>, b: seq<(T, real)>)
    requires a == []
    requires forall v :: WithScore(a, v) == WithScore(b, v)
    ensures b == []
  {
    if b != [] {
      var e := b[0];
      assert WithScore(a, e.1) == WithScore(b, e.1);
      WithScoreMember(b, e.1, e);
    }
  }

  /** A stable descending ordering is unique: two of them of the same input
      are equal. */
  lemma {:induction false} StableDescendingUnique<T>(a: seq<(T, real)>, b: seq<(T, real)>)
    requires NonIncreasing(a) && NonIncreasing(b)
    requires forall v :: WithScore(a, v) == WithScore(b, v)
    ensures a == b
    decreases |a|
  {
    if a == [] {
      EmptyAgrees(a, b);
    } else if b == [] {
      EmptyAgrees(b, a);
    } else {
      LastScoresAgree(a, b);
      var na, nb := |a| - 1, |b| - 1;
      var la, lb := a[na], b[nb];
      var a', b' := a[..na], b[..nb];
      assert a == a' + [la] && b == b' + [lb];
      WithScoreSnoc(a', la, la.1);
      WithScoreSnoc(b', lb, la.1);
      var wa, wb := WithScore(a', la.1), WithScore(b', la.1);
      assert wa + [la] == wb + [lb] by {
        assert WithScore(a, la.1) == WithScore(b, la.1);
      }
      assert la == lb by {
        assert (wa + [la])[|wa|] == la && (wb + [lb])[|wb|] == lb;
      }
      assert wa == wb by {
        assert (wa + [la])[..|wa|] == wa && (wb + [lb])[..|wb|] == wb;
      }
      forall v
        ensures WithScore(a', v) == WithScore(b', v)
      {
        if v != la.1 {
          WithScoreSnoc(a', la, v);
          WithScoreSnoc(b', lb, v);
          assert WithScore(a, v) == WithScore(b, v);
          assert WithScore(a, v) == WithScore(a', v) + [] == WithScore(a', v);
          assert WithScore(b, v) == WithScore(b', v) + [] == WithScore(b', v);
        } else {
          assert WithScore(a', v) == wa == wb == WithScore(b', v);
        }
      }
      StableDescendingUnique(a', b');
    }
  }

  /** Any stable descending ordering of the input is exactly SortByScore. */
  lemma StableDescendingIsSortByScore<T>(r: seq<(T, real)>, s: seq<(T, real)>)
    requires StableDescendingOf(r, s)
    ensures r == SortByScore(s)
  {
    SortByScoreIsStableDescending(s);
    StableDescendingUnique(r, SortByScore(s));
  }

  /** The in-place sort of the source's list, as insertion sort on an array:
      afterwards the array holds SortByScore of its old contents. */
  method SortByScoreInPlace<T>(a: array<(T, real)>)
    modifies a
    ensures a[..] == SortByScore(old(a[..]))
  {
    ghost var input := a[..];
    for i := 0 to a.Length
      invariant a[..i] == SortByScore(input[..i])
      invariant forall k :: i <= k < a.Length ==> a[k] == input[k]
    {
      InsertLast(a, i);
      SortByScorePrefix(input, i);
    }
    assert a[..] == a[..a.Length] && input == input[..a.Length];
  }

  /** Sorting one more entry inserts it into the sorted prefix. */
  lemma SortByScorePrefix<T>(s: seq<(T, real)>, i: nat)
    requires i < |s|
    ensures SortByScore(s[..i + 1]) == InsertByScore(SortByScore(s[..i]), s[i])
  {
    assert s[..i + 1][..i] == s[..i];
  }

  /** One step of insertion sort: moves `a[i]` back into the non-increasing
      run `a[..i]`, past every entry that scores strictly less. */
  method InsertLast<T>(a: array<(T, real)>, i: nat)
    requires i < a.Length
    requires NonIncreasing(a[..i])
    modifies a
    ensures a[..i + 1] == InsertByScore(old(a[..i]), old(a[i]))
    ensures forall k :: i < k < a.Length ==> a[k] == old(a[k])
  {
    var x := a[i];
    ghost var prefix := a[..i];
    var j := OpenGap(a, i);
    assert forall k :: j <= k < i ==> prefix[k].1 < x.1;
    assert j == 0 || prefix[j - 1].1 >= x.1;
    InsertPosAt(prefix, x, j);
    a[j] := x;
    ghost var s := a[..i + 1];
    assert forall k :: 0 <= k < j ==> s[k] == prefix[k];
    assert forall k :: j < k <= i ==> s[k] == prefix[k - 1];
    Spliced(s, prefix, x, j);
  }

  /** Shifts right by one every entry of the run `a[..i]` that scores below
      `a[i]`, from the end of the run backwards, and returns the gap left. */
  method OpenGap<T>(a: array<(T, real)>, i: nat) returns (j: nat)
    requires i < a.Length
    modifies a
    ensures j <= i
    ensures forall k :: 0 <= k < j ==> a[k] == old(a[k])
    ensures forall k :: j < k <= i ==> a[k] == old(a[k - 1])
    ensures forall k :: i < k < a.Length ==> a[k] == old(a[k])
    ensures forall k :: j <= k < i ==> old(a[k]).1 < old(a[i]).1
    ensures j == 0 || old(a[j - 1]).1 >= old(a[i]).1
  {
    var x := a[i];
    j := i;
    while j > 0 && a[j - 1].1 < x.1
      invariant 0 <= j <= i
      invariant forall k :: 0 <= k < j ==> a[k] == old(a[k])
      invariant forall k :: j < k <= i ==> a[k] == old(a[k - 1])
      invariant forall k :: i < k < a.Length ==> a[k] == old(a[k])
      invariant forall k :: j <= k < i ==> old(a[k]).1 < x.1
    {
      a[j] := a[j - 1];
      j := j - 1;
    }
  }

  /** A sequence that agrees with `prefix` before `j`, holds `x` at `j` and
      agrees with `prefix` shifted by one after it, is `x` spliced in at `j`. */
  lemma Spliced<T>(s: seq<(T, real)>, prefix: seq<(T, real)>, x: (T, real), j: nat)
    requires j <= |prefix| && |s| == |prefix| + 1
    requires forall k :: 0 <= k < j ==> s[k] == prefix[k]
    requires s[j] == x
    requires forall k :: j < k <= |prefix| ==> s[k] == prefix[k - 1]
    ensures s == prefix[..j] + [x] + prefix[j..]
  {
  }

  /** The gap the inner loop stops at is InsertPos. */
  lemma InsertPosAt<T>(prefix: seq<(T, real)>, x: (T, real), j: nat)
    requires j <= |prefix|
    requires NonIncreasing(prefix)
    requires j == 0 || prefix[j - 1].1 >= x.1
    requires forall k :: j <= k < |prefix| ==> prefix[k].1 < x.1
    ensures InsertPos(prefix, x) == j
  {
  }

  /** The scoring loop of rank_trees_by_metric: evaluate every tree and look
      the metric up in its results. The lookup happens once per tree, so an
      unknown name is reported only when there is a tree to score. */
  method ScoreTrees<T>(trees: seq<T>, predict: T -> seq<int>, yVal: seq<int>, metric: string := "accuracy", classes: Option<seq<int>> := None)
    returns (r: Result<seq<(T, real)>, RankError>)
    requires |yVal| > 0
    requires PredictsAll(trees, predict, yVal)
    ensures trees == [] ==> r == Ok([])
    ensures trees != [] && MetricNamed(metric).None? ==> r == Err(UnknownMetric(metric))
    ensures trees != [] && MetricNamed(metric).Some? ==>
              r == Ok(ScoredTrees(trees, predict, yVal, MetricNamed(metric).value, classes))
  {
    var scored: seq<(T, real)> := [];
    for i := 0 to |trees|
      invariant i == 0 ==> scored == []
      invariant i > 0 ==> MetricNamed(metric).Some?
      invariant i > 0 ==> scored == Paired(trees[..i], Scorer(predict, yVal, MetricNamed(metric).value, classes))
    {
      var tree := trees[i];
      var metrics := EvaluateTree(tree, predict, yVal, classes);
      var key := MetricNamed(metric);
      if key.None? {
        return Err(UnknownMetric(metric));
      }
      ghost var score := Scorer(predict, yVal, key.value, classes);
      PairedSnoc(trees, score, i);
      scored := scored + [(tree, Score(metrics, key.value))];
    }
    assert trees[..|trees|] == trees;
    return Ok(scored);
  }

  /** rank_trees_by_metric: score every tree with the named metric, then
      order the pairs by descending score, keeping input order among equal
      scores. */
  method RankTrees<T>(trees: seq<T>, predict: T -> seq<int>, yVal: seq<int>, metric: string := "accuracy", classes: Option<seq<int>> := None)
    returns (r: Result<seq<(T, real)>, RankError>)
    requires |yVal| > 0
    requires PredictsAll(trees, predict, yVal)
    ensures trees == [] ==> r == Ok([])
    ensures trees != [] && MetricNamed(metric).None? ==> r == Err(UnknownMetric(metric))
    ensures trees != [] && MetricNamed(metric).Some? ==>
              r == Ok(SortByScore(ScoredTrees(trees, predict, yVal, MetricNamed(metric).value, classes)))
    ensures r.Ok? ==> |r.value| == |trees| && NonIncreasing(r.value)
  {
    var scored := ScoreTrees(trees, predict, yVal, metric, classes);
    if scored.Err? {
      return scored;
    }
    var s := scored.value;
    var a := new (T, real)[|s|](k requires 0 <= k < |s| => s[k]);
    assert a[..] == s;
    SortByScoreInPlace(a);
    r := Ok(a[..]);
  }

  /** Ranking returns a stable descending ordering of the scored trees, and
      nothing else is one. */
  lemma RankingIsStableDescending<T>(trees: seq<T>, predict: T -> seq<int>, yVal: seq<int>, m: Metric, classes: Option<seq<int>>, r: seq<(T, real)>)
    requires |yVal| > 0
    requires PredictsAll(trees, predict, yVal)
    ensures r == SortByScore(ScoredTrees(trees, predict, yVal, m, classes))
            <==> StableDescendingOf(r, ScoredTrees(trees, predict, yVal, m, classes))
  {
    var s := ScoredTrees(trees, predict, yVal, m, classes);
    SortByScoreIsStableDescending(s);
    if StableDescendingOf(r, s) {
      StableDescendingIsSortByScore(r, s);
    }
  }

  /** Ranking returns every tree exactly as often as it was given: the
      ranked trees are a permutation of the input trees. */
  lemma RankingPermutesTrees<T>(trees: seq<T>, predict: T -> seq<int>, yVal: seq<int>, m: Metric, classes: Option<seq<int>>)
    requires |yVal| > 0
    requires PredictsAll(trees, predict, yVal)
    ensures multiset(TreesOf(SortByScore(ScoredTrees(trees, predict, yVal, m, classes)))) == multiset(trees)
  {
    var s := ScoredTrees(trees, predict, yVal, m, classes);
    SortByScoreKeepsTrees(s);
    assert TreesOf(s) == trees;
  }

  /** Every ranked pair is an input tree with its own score. */
  lemma RankedPairsAreScoredTrees<T>(trees: seq<T>, predict: T -> seq<int>, yVal: seq<int>, m: Metric, classes: Option<seq<int>>)
    requires |yVal| > 0
    requires PredictsAll(trees, predict, yVal)
    ensures forall k :: 0 <= k < |SortByScore(ScoredTrees(trees, predict, yVal, m, classes))| ==>
              exists i :: 0 <= i < |trees| &&
                SortByScore(ScoredTrees(trees, predict, yVal, m, classes))[k]
                == (trees[i], Score(EvaluateTree(trees[i], predict, yVal, classes), m))
  {
    var s := ScoredTrees(trees, predict, yVal, m, classes);
    var r := SortByScore(s);
    forall k | 0 <= k < |r|
      ensures exists i :: 0 <= i < |trees| && r[k] == (trees[i], Score(EvaluateTree(trees[i], predict, yVal, classes), m))
    {
      assert r[k] in multiset(r);
      var i :| 0 <= i < |s| && s[i] == r[k];
    }
  }

  /** Every input tree's pair, with its own score, is among the ranked ones. */
  lemma ScoredTreesAreRanked<T>(trees: seq<T>, predict: T -> seq<int>, yVal: seq<int>, m: Metric, classes: Option<seq<int>>)
    requires |yVal| > 0
    requires PredictsAll(trees, predict, yVal)
    ensures forall i :: 0 <= i < |trees| ==>
              (trees[i], Score(EvaluateTree(trees[i], predict, yVal, classes), m))
              in SortByScore(ScoredTrees(trees, predict, yVal, m, classes))
  {
    var s := ScoredTrees(trees, predict, yVal, m, classes);
    var r := SortByScore(s);
    forall i | 0 <= i < |trees|
      ensures (trees[i], Score(EvaluateTree(trees[i], predict, yVal, classes), m)) in r
    {
      assert s[i] in multiset(s);
    }
  }
}
