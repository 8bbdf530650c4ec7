/** get_smallest_diff_alternative: the margin by which the predicted label
    sequence outscores its closest alternative. The trained model's score,
    w . joint_feature(x, y), is the parameter `score`. */
module MarginScorer {
  import opened Common
  import opened Taxonomy
  import opened Alternatives

  /** The starting value of min_difference. */
  const Sentinel: int := 10000

  /** min_difference once the loop has seen the given alternatives. */
  function MinDifference<X>(score: (X, seq<int>) -> int, x: X, yi: seq<int>, alts: seq<seq<int>>): int
  {
    if alts == [] then Sentinel
    else
      var m := MinDifference(score, x, yi, alts[..|alts| - 1]);
      var d := score(x, yi) - score(x, alts[|alts| - 1]);
      if d < m then d else m
  }

  /** What get_smallest_diff_alternative returns for one prediction, or the
      error get_permutations stops with. */
  function Margin<X>(score: (X, seq<int>) -> int, x: X, t: Taxonomy, yi: seq<int>): Result<int>
  {
    match Permutations(t, yi)
    case Err(e) => Err(e)
    case Ok(alts) => Ok(MinDifference(score, x, yi, alts))
  }

  /** The margin is at most the sentinel and at most every alternative's
      score difference, and it is the sentinel or one of those differences. */
  lemma {:induction false} MinDifferenceIsMinimum<X>(score: (X, seq<int>) -> int, x: X, yi: seq<int>,
                                                     alts: seq<seq<int>>)
    ensures MinDifference(score, x, yi, alts) <= Sentinel
    ensures forall a :: a in alts ==> MinDifference(score, x, yi, alts) <= score(x, yi) - score(x, a)
    ensures alts == [] ==> MinDifference(score, x, yi, alts) == Sentinel
    ensures MinDifference(score, x, yi, alts) == Sentinel ||
            exists a :: a in alts && MinDifference(score, x, yi, alts) == score(x, yi) - score(x, a)
  {
    if alts != [] {
      var init := alts[..|alts| - 1];
      MinDifferenceIsMinimum(score, x, yi, init);
      assert forall a :: a in alts <==> a in init || a == alts[|alts| - 1];
    }
  }

  /** Under the cap, the margin is at most the score difference to every
      grammatical labelling that differs from the prediction. */
  lemma MarginBelowEveryAlternative<X>(score: (X, seq<int>) -> int, x: X, t: Taxonomy, yi: seq<int>, alt: seq<int>)
    requires Margin(score, x, t, yi).Ok? && FlaggedCount(t, yi) <= 6
    requires Grammatical(t, yi, alt) && alt != yi
    ensures Margin(score, x, t, yi).value <= score(x, yi) - score(x, alt)
  {
    AlternativesAreGrammatical(t, yi, alt);
    MinDifferenceIsMinimum(score, x, yi, Permutations(t, yi).value);
  }

  /** get_smallest_diff_alternative. */
  method GetSmallestDiffAlternative<X>(score: (X, seq<int>) -> int, x: X, t: Taxonomy, yi: seq<int>)
    returns (r: Result<int>)
    requires IndexedLabels(t) && LabelsKnown(t, yi)
    ensures r == Margin(score, x, t, yi)
  {
    var predicted := score(x, yi);
    var minDifference := Sentinel;
    var alternatives := GetPermutations(yi, t);
    if alternatives.Err? {
      return Err(alternatives.error);
    }
    var alts := alternatives.value;
    for k := 0 to |alts|
      invariant minDifference == MinDifference(score, x, yi, alts[..k])
    {
      assert alts[..k + 1][..k] == alts[..k];
      var difference := predicted - score(x, alts[k]);
      if difference < minDifference {
        minDifference := difference;
      }
    }
    assert alts[..|alts|] == alts;
    r := Ok(minDifference);
  }
}
