/**
 * The label metrics of models/tree_utils.py: overall accuracy, the
 * per-class accuracies and the weighted accuracy built from them.
 *
 * Labels are integers, a label vector is a `seq<int>`, and every score is an
 * exact ratio of counts (a `real`) rather than a floating-point number.
 */
module TreeMetrics {
  import opened Wrappers

  // ---------------------------------------------------------------------------
  // Overall accuracy
  // ---------------------------------------------------------------------------

  /** Number of positions at which the prediction equals the ground truth. */
  function Matches(yTrue: seq<int>, yPred: seq<int>): (n: nat)
    requires |yTrue| == |yPred|
    ensures n <= |yTrue|
    ensures n == |yTrue| <==> yTrue == yPred
  {
    if yTrue == [] then 0
    else
      var rest := Matches(yTrue[1..], yPred[1..]);
      assert yTrue == [yTrue[0]] + yTrue[1..] && yPred == [yPred[0]] + yPred[1..];
      (if yTrue[0] == yPred[0] then 1 else 0) + rest
  }

  /** A ratio of a part to a positive whole lies in [0, 1] and is 1 exactly
      when the part is the whole. */
  lemma RatioBounds(part: real, whole: real)
    requires 0.0 <= part <= whole && whole > 0.0
    ensures 0.0 <= part / whole <= 1.0
    ensures part / whole == 1.0 <==> part == whole
  {
  }

  /** Fraction of exact label matches (compute_accuracy). */
  function Accuracy(yTrue: seq<int>, yPred: seq<int>): (a: real)
    requires |yTrue| == |yPred| > 0
    ensures 0.0 <= a <= 1.0
    ensures a == 1.0 <==> yTrue == yPred
  {
    RatioBounds(Matches(yTrue, yPred) as real, |yTrue| as real);
    Matches(yTrue, yPred) as real / |yTrue| as real
  }

  // ---------------------------------------------------------------------------
  // Class masks
  // ---------------------------------------------------------------------------

  /** Number of occurrences of label `c` in `y` (the sum of the mask `y == c`). */
  function Count(y: seq<int>, c: int): (n: nat)
    ensures n <= |y|
  {
    if y == [] then 0
    else Count(y[..|y| - 1], c) + (if y[|y| - 1] == c then 1 else 0)
  }

  /** A label has a positive count exactly when it occurs. */
  lemma {:induction false} CountPositive(y: seq<int>, c: int)
    ensures Count(y, c) > 0 <==> c in y
  {
    if y != [] {
      var n := |y| - 1;
      CountPositive(y[..n], c);
      assert y == y[..n] + [y[n]];
    }
  }

  /** The entries of `s` at the positions where `key` holds label `c`:
      boolean-mask indexing `s[key == c]`. */
  function Masked(s: seq<int>, key: seq<int>, c: int): (r: seq<int>)
    requires |s| == |key|
    ensures |r| == Count(key, c)
    ensures s == key ==> forall i :: 0 <= i < |r| ==> r[i] == c
  {
    if s == [] then []
    else
      Masked(s[..|s| - 1], key[..|key| - 1], c)
      + (if key[|key| - 1] == c then [s[|s| - 1]] else [])
  }

  /** Masking the prediction by class `c` of the ground truth gives the same
      vector as masking the ground truth itself exactly when every true
      instance of `c` is predicted as `c`. */
  lemma {:induction false} MaskedAgree(yTrue: seq<int>, yPred: seq<int>, c: int)
    requires |yTrue| == |yPred|
    ensures Masked(yTrue, yTrue, c) == Masked(yPred, yTrue, c)
            <==> forall i :: 0 <= i < |yTrue| && yTrue[i] == c ==> yPred[i] == c
  {
    if yTrue != [] {
      var n := |yTrue| - 1;
      MaskedAgree(yTrue[..n], yPred[..n], c);
      var t, p := Masked(yTrue[..n], yTrue[..n], c), Masked(yPred[..n], yTrue[..n], c);
      if yTrue[n] == c {
        assert Masked(yTrue, yTrue, c) == t + [c];
        assert Masked(yPred, yTrue, c) == p + [yPred[n]];
        if Masked(yTrue, yTrue, c) == Masked(yPred, yTrue, c) {
          assert |t| == |p|;
          assert t == (t + [c])[..|t|] && p == (p + [yPred[n]])[..|p|];
          assert (t + [c])[|t|] == (p + [yPred[n]])[|p|];
        }
      } else {
        assert Masked(yTrue, yTrue, c) == t;
        assert Masked(yPred, yTrue, c) == p;
      }
    }
  }

  /** Accuracy restricted to the true instances of class `c`. */
  function ClassAccuracy(yTrue: seq<int>, yPred: seq<int>, c: int): (a: real)
    requires |yTrue| == |yPred|
    requires Count(yTrue, c) > 0
    ensures 0.0 <= a <= 1.0
    ensures a == 1.0 <==> forall i :: 0 <= i < |yTrue| && yTrue[i] == c ==> yPred[i] == c
  {
    MaskedAgree(yTrue, yPred, c);
    Accuracy(Masked(yTrue, yTrue, c), Masked(yPred, yTrue, c))
  }

  // ---------------------------------------------------------------------------
  // Class lists
  // ---------------------------------------------------------------------------

  ghost predicate StrictlyIncreasing(u: seq<int>)
  {
    forall i, j :: 0 <= i < j < |u| ==> u[i] < u[j]
  }

  /** Inserts `x` into a strictly increasing sequence, keeping it strictly
      increasing and free of duplicates. */
  function InsertSorted(u: seq<int>, x: int): (r: seq<int>)
    requires StrictlyIncreasing(u)
    ensures StrictlyIncreasing(r)
    ensures forall z :: z in r <==> z in u || z == x
  {
    if u == [] then [x]
    else if x < u[0] then [x] + u
    else if x == u[0] then u
    else
      var rest := InsertSorted(u[1..], x);
      assert forall z :: z in u <==> z == u[0] || z in u[1..];
      forall z | z in u[1..]
        ensures u[0] < z
      {
        var k :| 0 <= k < |u[1..]| && u[1..][k] == z;
        assert u[k + 1] == z;
      }
      assert forall j :: 0 <= j < |rest| ==> rest[j] in rest;
      [u[0]] + rest
  }

  /** The sorted distinct labels of `y` (NumPy's unique). */
  function Unique(y: seq<int>): (u: seq<int>)
    ensures StrictlyIncreasing(u)
    ensures forall x :: x in u <==> x in y
  {
    if y == [] then []
    else
      var rest := Unique(y[..|y| - 1]);
      assert forall x :: x in y <==> x in y[..|y| - 1] || x == y[|y| - 1];
      InsertSorted(rest, y[|y| - 1])
  }

  /** The classes weighted accuracy iterates over: the caller's list when one
      is given, otherwise the distinct labels of the ground truth. */
  function ClassesUsed(yTrue: seq<int>, classes: Option<seq<int>>): (r: seq<int>)
    ensures classes.Some? ==> r == classes.value
    ensures classes.None? ==> StrictlyIncreasing(r) && forall x :: x in r <==> x in yTrue
  {
    match classes
    case None => Unique(yTrue)
    case Some(cs) => cs
  }

  // ---------------------------------------------------------------------------
  // Per-class accuracies and their mean
  // ---------------------------------------------------------------------------

  /** The listed classes that have at least one true instance (the classes
      whose mask has a positive sum), in class-list order. */
  function Qualifying(yTrue: seq<int>, classes: seq<int>): (q: seq<int>)
    ensures |q| <= |classes|
    ensures forall i :: 0 <= i < |q| ==> Count(yTrue, q[i]) > 0
  {
    if classes == [] then []
    else
      var n := |classes| - 1;
      Qualifying(yTrue, classes[..n])
      + (if Count(yTrue, classes[n]) > 0 then [classes[n]] else [])
  }

  /** The qualifying classes are exactly the listed classes that occur in
      the ground truth. */
  lemma {:induction false} QualifyingMembers(yTrue: seq<int>, classes: seq<int>)
    ensures forall c :: c in Qualifying(yTrue, classes) <==> c in classes && c in yTrue
  {
    if classes != [] {
      var n := |classes| - 1;
      QualifyingMembers(yTrue, classes[..n]);
      CountPositive(yTrue, classes[n]);
      assert classes == classes[..n] + [classes[n]];
    }
  }

  /** Qualifying distributes over concatenation of class lists. */
  lemma {:induction false} QualifyingAppend(yTrue: seq<int>, cs1: seq<int>, cs2: seq<int>)
    ensures Qualifying(yTrue, cs1 + cs2) == Qualifying(yTrue, cs1) + Qualifying(yTrue, cs2)
  {
    if cs2 == [] {
      assert cs1 + cs2 == cs1;
    } else {
      var n := |cs2| - 1;
      QualifyingAppend(yTrue, cs1, cs2[..n]);
      var whole := cs1 + cs2;
      assert whole[..|whole| - 1] == cs1 + cs2[..n] && whole[|whole| - 1] == cs2[n];
    }
  }

  /** The per-class accuracies, in class-list order, of the classes that have
      at least one true instance; a class without one is skipped rather than
      scored 0. */
  function PerClassAccuracies(yTrue: seq<int>, yPred: seq<int>, classes: seq<int>): (accs: seq<real>)
    requires |yTrue| == |yPred|
    ensures |accs| == |Qualifying(yTrue, classes)| <= |classes|
    ensures UnitScores(accs)
  {
    var q := Qualifying(yTrue, classes);
    seq(|q|, i requires 0 <= i < |q| => ClassAccuracy(yTrue, yPred, q[i]))
  }

  /** One more class in the list adds its class accuracy when it has a true
      instance and nothing otherwise. */
  lemma PerClassStep(yTrue: seq<int>, yPred: seq<int>, classes: seq<int>, c: int)
    requires |yTrue| == |yPred|
    ensures PerClassAccuracies(yTrue, yPred, classes + [c])
            == PerClassAccuracies(yTrue, yPred, classes)
               + (if Count(yTrue, c) > 0 then [ClassAccuracy(yTrue, yPred, c)] else [])
  {
    assert (classes + [c])[..|classes|] == classes;
  }

  /** A class with no true instance contributes nothing: listing it anywhere
      in the class list leaves the per-class accuracies unchanged. */
  lemma PerClassSkipsAbsentClass(yTrue: seq<int>, yPred: seq<int>, cs1: seq<int>, c: int, cs2: seq<int>)
    requires |yTrue| == |yPred|
    requires c !in yTrue
    ensures PerClassAccuracies(yTrue, yPred, cs1 + [c] + cs2)
            == PerClassAccuracies(yTrue, yPred, cs1 + cs2)
  {
    CountPositive(yTrue, c);
    QualifyingAppend(yTrue, cs1 + [c], cs2);
    QualifyingAppend(yTrue, cs1, [c]);
    QualifyingAppend(yTrue, cs1, cs2);
    assert [c][..0] == [];
  }

  /** The per-class list is empty exactly when no listed class has a true
      instance. */
  lemma PerClassEmptyIff(yTrue: seq<int>, yPred: seq<int>, classes: seq<int>)
    requires |yTrue| == |yPred|
    ensures PerClassAccuracies(yTrue, yPred, classes) == []
            <==> forall c :: c in classes ==> c !in yTrue
  {
    var q := Qualifying(yTrue, classes);
    QualifyingMembers(yTrue, classes);
    if q != [] {
      assert q[0] in q;
    }
  }

  /** With a perfect prediction every qualifying class scores 1. */
  lemma PerClassPerfect(y: seq<int>, classes: seq<int>)
    ensures AllPerfect(PerClassAccuracies(y, y, classes))
  {
  }

  /** Every score is exactly 1. */
  ghost predicate AllPerfect(s: seq<real>)
  {
    forall i :: 0 <= i < |s| ==> s[i] == 1.0
  }

  /** Every score lies in [0, 1]. */
  ghost predicate UnitScores(s: seq<real>)
  {
    forall i :: 0 <= i < |s| ==> 0.0 <= s[i] <= 1.0
  }

  function Sum(s: seq<real>): real
  {
    if s == [] then 0.0 else Sum(s[..|s| - 1]) + s[|s| - 1]
  }

  lemma {:induction false} SumBounds(s: seq<real>)
    requires UnitScores(s)
    ensures 0.0 <= Sum(s) <= |s| as real
    ensures Sum(s) == |s| as real <==> AllPerfect(s)
  {
    if s != [] {
      SumBounds(s[..|s| - 1]);
    }
  }

  /** Arithmetic mean (NumPy's mean) of a non-empty list of scores in [0, 1]. */
  function Mean(s: seq<real>): (m: real)
    requires |s| > 0
    requires UnitScores(s)
    ensures 0.0 <= m <= 1.0
    ensures m == 1.0 <==> AllPerfect(s)
  {
    SumBounds(s);
    RatioBounds(Sum(s), |s| as real);
    Sum(s) / |s| as real
  }

  // ---------------------------------------------------------------------------
  // Weighted accuracy
  // ---------------------------------------------------------------------------

  /** The product of two values in [0, 1] lies below both, and equals the
      first exactly when that is 0 or the second is 1. */
  lemma ProductBounds(a: real, f: real, p: real)
    requires 0.0 <= a <= 1.0 && 0.0 <= f <= 1.0
    requires p == a * f
    ensures 0.0 <= p <= a && p <= f
    ensures p == a <==> a == 0.0 || f == 1.0
  {
    assert a * f <= a * 1.0;
    assert a * f <= 1.0 * f;
    if p == a && a != 0.0 {
      assert a * (f - 1.0) == 0.0;
    }
  }

  /** Scales the overall accuracy `a` by the mean per-class accuracy `f`. */
  function Scale(a: real, f: real): (p: real)
    requires 0.0 <= a <= 1.0 && 0.0 <= f <= 1.0
    ensures 0.0 <= p <= a && p <= f
    ensures p == a <==> a == 0.0 || f == 1.0
  {
    var p := a * f;
    ProductBounds(a, f, p);
    p
  }

  /** The final combination: 0.0 when no class qualified, otherwise the
      overall accuracy scaled by the mean per-class accuracy. */
  function Combine(overall: real, perClass: seq<real>): (w: real)
    requires 0.0 <= overall <= 1.0
    requires UnitScores(perClass)
    ensures 0.0 <= w <= overall
    ensures perClass != [] ==> w <= Mean(perClass)
    ensures perClass != [] ==> (w == overall <==> overall == 0.0 || Mean(perClass) == 1.0)
  {
    if perClass == [] then 0.0
    else
      Scale(overall, Mean(perClass))
  }

  /** Overall accuracy times the mean per-class accuracy, or 0.0 when no
      listed class has a true instance (compute_weighted_accuracy). */
  function WeightedAccuracy(yTrue: seq<int>, yPred: seq<int>, classes: Option<seq<int>> := None): (w: real)
    requires |yTrue| == |yPred| > 0
    ensures 0.0 <= w <= Accuracy(yTrue, yPred) <= 1.0
  {
    Combine(Accuracy(yTrue, yPred), PerClassAccuracies(yTrue, yPred, ClassesUsed(yTrue, classes)))
  }

  /** When no listed class occurs in the ground truth the result is exactly 0. */
  lemma WeightedAccuracyNoClass(yTrue: seq<int>, yPred: seq<int>, classes: seq<int>)
    requires |yTrue| == |yPred| > 0
    requires forall c :: c in classes ==> c !in yTrue
    ensures WeightedAccuracy(yTrue, yPred, Some(classes)) == 0.0
  {
    PerClassEmptyIff(yTrue, yPred, classes);
  }

  /** With the default class list some class always qualifies, so the
      zero fallback never applies. */
  lemma DefaultClassesQualify(yTrue: seq<int>, yPred: seq<int>)
    requires |yTrue| == |yPred| > 0
    ensures PerClassAccuracies(yTrue, yPred, ClassesUsed(yTrue, None)) != []
  {
    PerClassEmptyIff(yTrue, yPred, Unique(yTrue));
    assert yTrue[0] in Unique(yTrue);
  }

  /** A perfect prediction scores 1 whenever some listed class occurs in the
      ground truth; in particular with the default class list. */
  lemma WeightedAccuracyPerfect(y: seq<int>, classes: Option<seq<int>>)
    requires |y| > 0
    requires classes.None? || exists c :: c in classes.value && c in y
    ensures WeightedAccuracy(y, y, classes) == 1.0
  {
    var cs := ClassesUsed(y, classes);
    if classes.None? {
      DefaultClassesQualify(y, y);
    } else {
      PerClassEmptyIff(y, y, cs);
    }
    PerClassPerfect(y, cs);
  }

  /** When some class qualifies, weighted accuracy is bounded by both of its
      factors, and it reaches overall accuracy only when the prediction is
      entirely wrong or every qualifying class is predicted perfectly. */
  lemma WeightedAccuracyPenalty(yTrue: seq<int>, yPred: seq<int>, classes: Option<seq<int>>)
    requires |yTrue| == |yPred| > 0
    requires PerClassAccuracies(yTrue, yPred, ClassesUsed(yTrue, classes)) != []
    ensures WeightedAccuracy(yTrue, yPred, classes)
            <= Mean(PerClassAccuracies(yTrue, yPred, ClassesUsed(yTrue, classes)))
    ensures WeightedAccuracy(yTrue, yPred, classes) == Accuracy(yTrue, yPred)
            <==> Accuracy(yTrue, yPred) == 0.0
                 || AllPerfect(PerClassAccuracies(yTrue, yPred, ClassesUsed(yTrue, classes)))
  {
  }

  /** Combine unfolded for an abstract overall accuracy and list. */
  lemma CombineCases(overall: real, perClass: seq<real>)
    requires 0.0 <= overall <= 1.0
    requires UnitScores(perClass)
    ensures perClass == [] ==> Combine(overall, perClass) == 0.0
    ensures perClass != [] ==> Combine(overall, perClass) == overall * Mean(perClass)
  {
  }

  /** The computation as the source writes it: collect the accuracies of the
      qualifying classes in a loop, then fall back to 0.0 or multiply the
      overall accuracy by their mean. */
  method ComputeWeightedAccuracy(yTrue: seq<int>, yPred: seq<int>, classes: Option<seq<int>> := None) returns (w: real)
    requires |yTrue| == |yPred| > 0
    ensures w == WeightedAccuracy(yTrue, yPred, classes)
  {
    var cs := if classes.None? then Unique(yTrue) else classes.value;
    var overall := Accuracy(yTrue, yPred);
    var perClass: seq<real> := [];
    for i := 0 to |cs|
      invariant perClass == PerClassAccuracies(yTrue, yPred, cs[..i])
    {
      var cls := cs[i];
      assert cs[..i + 1] == cs[..i] + [cls];
      PerClassStep(yTrue, yPred, cs[..i], cls);
      if Count(yTrue, cls) > 0 {
        perClass := perClass + [ClassAccuracy(yTrue, yPred, cls)];
      }
    }
    assert cs[..|cs|] == cs;
    assert WeightedAccuracy(yTrue, yPred, classes) == Combine(overall, perClass);
    CombineCases(overall, perClass);
    if |perClass| == 0 {
      return 0.0;
    }
    w := overall * Mean(perClass);
  }
}
