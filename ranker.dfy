/** get_uncertainty_unlabelled: picks the unlabelled sentences the current
    model is least sure about. A random subsample of the pool is predicted,
    sentences with a minority-class prediction become candidates ranked by
    their margin, the diversity selector picks a batch, and the batch is
    removed from the pool. The learner's predictions are the parameter
    `predict`, the model's score the parameter `score`, and the shuffled pool
    indices the parameter `shuffled`. */
module Ranker {
  import opened Common
  import opened Taxonomy
  import opened Alternatives
  import opened MarginScorer
  import opened Selector

  // ---------------------------------------------------------------------
  // is_minority_classes_in_vector

  /** Whether some minority class occurs in the predicted labels. */
  function HoldsMinorityClass(predicted: seq<int>, minorityClasses: seq<int>): (r: bool)
    ensures r <==> exists m :: m in minorityClasses && m in predicted
  {
    if minorityClasses == [] then false
    else
      assert forall m :: m in minorityClasses <==> m == minorityClasses[0] || m in minorityClasses[1..];
      minorityClasses[0] in predicted || HoldsMinorityClass(predicted, minorityClasses[1..])
  }

  /** is_minority_classes_in_vector: try the minority classes in order and
      stop at the first one that was predicted. */
  method IsMinorityClassesInVector(predicted: seq<int>, minorityClasses: seq<int>) returns (r: bool)
    ensures r == HoldsMinorityClass(predicted, minorityClasses)
    ensures r <==> exists m :: m in minorityClasses && m in predicted
  {
    for k := 0 to |minorityClasses|
      invariant HoldsMinorityClass(predicted, minorityClasses[k..]) == HoldsMinorityClass(predicted, minorityClasses)
    {
      assert minorityClasses[k..][1..] == minorityClasses[k + 1..];
      if minorityClasses[k] in predicted {
        return true;
      }
    }
    return false;
  }

  // ---------------------------------------------------------------------
  // sorted(scores_with_index)

  /** Python's order on the (margin, index, predicted, sentence) tuples.
      The pool indices of the candidates differ, so margin and then index
      decide it. */
  predicate Precedes(a: Candidate, b: Candidate)
  {
    a.margin < b.margin || (a.margin == b.margin && a.index <= b.index)
  }

  predicate Ascending(cs: seq<Candidate>)
  {
    forall i, j :: 0 <= i < j < |cs| ==> Precedes(cs[i], cs[j])
  }

  /** c placed in front of the first element it precedes. */
  function Insert(c: Candidate, s: seq<Candidate>): (r: seq<Candidate>)
    ensures |r| == |s| + 1
    ensures multiset(r) == multiset(s) + multiset{c}
  {
    if s == [] || Precedes(c, s[0]) then [c] + s
    else
      assert s == [s[0]] + s[1..];
      [s[0]] + Insert(c, s[1..])
  }

  /** The candidates in ascending order. */
  function SortCandidates(cs: seq<Candidate>): (r: seq<Candidate>)
    ensures |r| == |cs|
    ensures multiset(r) == multiset(cs)
  {
    if cs == [] then []
    else
      assert cs == cs[..|cs| - 1] + [cs[|cs| - 1]];
      Insert(cs[|cs| - 1], SortCandidates(cs[..|cs| - 1]))
  }

  lemma {:induction false} InsertAscending(c: Candidate, s: seq<Candidate>)
    requires Ascending(s)
    ensures Ascending(Insert(c, s))
  {
    if s != [] && !Precedes(c, s[0]) {
      InsertAscending(c, s[1..]);
      var tail := Insert(c, s[1..]);
      var r := Insert(c, s);
      assert r == [s[0]] + tail;
      forall i, j | 0 <= i < j < |r| ensures Precedes(r[i], r[j]) {
        if i == 0 {
          var x := tail[j - 1];
          assert r[0] == s[0] && r[j] == x;
          assert x in multiset(tail);
          if x != c {
            assert x in multiset(s[1..]);
            var k :| 0 <= k < |s[1..]| && s[1..][k] == x;
            assert s[k + 1] == x && Precedes(s[0], s[k + 1]);
          } else {
            assert Precedes(s[0], c);
          }
        } else {
          assert r[i] == tail[i - 1] && r[j] == tail[j - 1];
        }
      }
    }
  }

  /** Distinct pool indices, stated candidate by candidate. */
  lemma IndicesDistinctIff(cs: seq<Candidate>)
    ensures Distinct(Indices(cs)) <==> forall i, j :: 0 <= i < j < |cs| ==> cs[i].index != cs[j].index
  {
  }

  lemma {:induction false} InsertApart(c: Candidate, s: seq<Candidate>)
    requires forall i, j :: 0 <= i < j < |s| ==> s[i].index != s[j].index
    requires forall k :: 0 <= k < |s| ==> s[k].index != c.index
    ensures forall i, j :: 0 <= i < j < |Insert(c, s)| ==> Insert(c, s)[i].index != Insert(c, s)[j].index
  {
    var r := Insert(c, s);
    if s == [] || Precedes(c, s[0]) {
      assert r == [c] + s;
      forall i, j | 0 <= i < j < |r| ensures r[i].index != r[j].index {
        assert r[j] == s[j - 1];
        if i > 0 {
          assert r[i] == s[i - 1];
        } else {
          assert r[i] == c && s[j - 1].index != c.index;
        }
      }
    } else {
      InsertApart(c, s[1..]);
      var tail := Insert(c, s[1..]);
      assert r == [s[0]] + tail;
      forall i, j | 0 <= i < j < |r| ensures r[i].index != r[j].index {
        if i == 0 {
          var x := tail[j - 1];
          assert r[0] == s[0] && r[j] == x;
          assert x in multiset(tail);
          if x != c {
            assert x in multiset(s[1..]);
            var k :| 0 <= k < |s[1..]| && s[1..][k] == x;
            assert s[k + 1] == x && s[0].index != s[k + 1].index;
          }
        } else {
          assert r[i] == tail[i - 1] && r[j] == tail[j - 1];
        }
      }
    }
  }

  /** Inserting a candidate with a new pool index keeps the indices
      distinct. */
  lemma InsertDistinct(c: Candidate, s: seq<Candidate>)
    requires Distinct(Indices(s))
    requires forall k :: 0 <= k < |s| ==> s[k].index != c.index
    ensures Distinct(Indices(Insert(c, s)))
  {
    IndicesDistinctIff(s);
    InsertApart(c, s);
    IndicesDistinctIff(Insert(c, s));
  }

  /** sorted returns the candidates ascending by (margin, index), as a
      permutation, and keeps the pool indices distinct. */
  lemma {:induction false} SortedIsAscendingPermutation(cs: seq<Candidate>)
    ensures Ascending(SortCandidates(cs))
    ensures multiset(SortCandidates(cs)) == multiset(cs)
    ensures Distinct(Indices(cs)) ==> Distinct(Indices(SortCandidates(cs)))
  {
    if cs != [] {
      var init := cs[..|cs| - 1];
      var c := cs[|cs| - 1];
      SortedIsAscendingPermutation(init);
      InsertAscending(c, SortCandidates(init));
      if Distinct(Indices(cs)) {
        var s := SortCandidates(init);
        forall k | 0 <= k < |s| ensures s[k].index != c.index {
          assert s[k] in multiset(init);
          var m :| 0 <= m < |init| && init[m] == s[k];
          assert cs[m] == s[k];
        }
        InsertDistinct(c, s);
      }
    }
  }

  // ---------------------------------------------------------------------
  // np.delete(a, index_to_select_among_checked, 0)

  /** The rows of s whose positions are not in drop, in their order. */
  function Delete<T>(s: seq<T>, drop: set<int>): seq<T>
  {
    if s == [] then []
    else
      var init := Delete(s[..|s| - 1], drop);
      if |s| - 1 in drop then init else init + [s[|s| - 1]]
  }

  /** The positions below n that drop does not name, ascending. */
  function Kept(n: nat, drop: set<int>): seq<int>
  {
    if n == 0 then []
    else if n - 1 in drop then Kept(n - 1, drop)
    else Kept(n - 1, drop) + [n - 1]
  }

  /** The positions below n that drop names. */
  function Dropped(n: nat, drop: set<int>): set<int>
  {
    set p | 0 <= p < n && p in drop
  }

  /** Kept lists each surviving position once, in increasing order, and
      together with the dropped positions accounts for all n. */
  lemma {:induction false} KeptPositions(n: nat, drop: set<int>)
    ensures forall p :: p in Kept(n, drop) <==> 0 <= p < n && p !in drop
    ensures forall i, j :: 0 <= i < j < |Kept(n, drop)| ==> Kept(n, drop)[i] < Kept(n, drop)[j]
    ensures |Kept(n, drop)| + |Dropped(n, drop)| == n
  {
    if n > 0 {
      KeptPositions(n - 1, drop);
      if n - 1 in drop {
        assert Dropped(n, drop) == Dropped(n - 1, drop) + {n - 1};
      } else {
        assert Dropped(n, drop) == Dropped(n - 1, drop);
        var K := Kept(n - 1, drop);
        forall i | 0 <= i < |K| ensures K[i] < n - 1 {
          assert K[i] in K;
        }
      }
    }
  }

  /** Deleting keeps exactly the rows at the kept positions, in order. */
  lemma {:induction false} DeleteKeepsOrder<T>(s: seq<T>, drop: set<int>)
    ensures |Delete(s, drop)| == |Kept(|s|, drop)|
    ensures forall j :: 0 <= j < |Kept(|s|, drop)| ==>
              0 <= Kept(|s|, drop)[j] < |s| && Delete(s, drop)[j] == s[Kept(|s|, drop)[j]]
  {
    if s != [] {
      var init := s[..|s| - 1];
      DeleteKeepsOrder(init, drop);
      KeptPositions(|init|, drop);
      var K := Kept(|s|, drop);
      forall j | 0 <= j < |K|
        ensures 0 <= K[j] < |s| && Delete(s, drop)[j] == s[K[j]]
      {
        if j < |Kept(|init|, drop)| {
          assert K[j] == Kept(|init|, drop)[j];
          assert Delete(s, drop)[j] == Delete(init, drop)[j];
          assert init[K[j]] == s[K[j]];
        }
      }
    }
  }

  /** A duplicate-free sequence has as many distinct elements as entries. */
  lemma {:induction false} DistinctCardinality(s: seq<int>)
    requires Distinct(s)
    ensures |set x | x in s| == |s|
  {
    if s != [] {
      var init := s[..|s| - 1];
      assert Distinct(init);
      DistinctCardinality(init);
      assert (set x | x in s) == (set x | x in init) + {s[|s| - 1]};
      assert s[|s| - 1] !in init by {
        forall k | 0 <= k < |init| ensures init[k] != s[|s| - 1] {
          assert s[k] != s[|s| - 1];
        }
      }
    }
  }

  /** Removing distinct in-range positions shortens the rows by exactly
      their number. */
  lemma DeleteDistinctIndices<T>(s: seq<T>, chosen: seq<int>)
    requires Distinct(chosen)
    requires forall k :: 0 <= k < |chosen| ==> 0 <= chosen[k] < |s|
    ensures |Delete(s, set y | y in chosen)| == |s| - |chosen|
  {
    var drop := set y | y in chosen;
    KeptPositions(|s|, drop);
    DeleteKeepsOrder(s, drop);
    assert Dropped(|s|, drop) == drop;
    DistinctCardinality(chosen);
  }

  // ---------------------------------------------------------------------
  // The scan over the subsample.

  /** The learner's prediction for every pool entry is a sequence of the
      taxonomy's label indices, no longer than the entry's sentence. */
  predicate PredictionsFit<X>(pool: seq<X>, texts: seq<seq<string>>, t: Taxonomy, predict: X -> seq<int>)
    requires |texts| == |pool|
  {
    forall i :: 0 <= i < |pool| ==>
      LabelsKnown(t, predict(pool[i])) &&
      |predict(pool[i])| <= |texts[i]|
  }

  /** shuffle(range(0, len(unlabelled_x))): every pool index once. */
  predicate IsShuffle(shuffled: seq<int>, n: nat)
  {
    |shuffled| == n && Distinct(shuffled) && forall k :: 0 <= k < |shuffled| ==> 0 <= shuffled[k] < n
  }

  /** selected_indeces: the first maximum_samples_to_search_among indices. */
  function Sample(shuffled: seq<int>, maxSearch: nat): (r: seq<int>)
    ensures r <= shuffled && |r| == Min(maxSearch, |shuffled|)
  {
    shuffled[..Min(maxSearch, |shuffled|)]
  }

  /** scores_with_index after scanning the given pool indices, or the error
      the first failing margin computation stops with. */
  function Candidates<X>(pool: seq<X>, texts: seq<seq<string>>, t: Taxonomy, predict: X -> seq<int>,
                         score: (X, seq<int>) -> int, sample: seq<int>): (r: Result<seq<Candidate>>)
    requires |texts| == |pool|
    requires forall k :: 0 <= k < |sample| ==> 0 <= sample[k] < |pool|
  {
    if sample == [] then Ok([])
    else
      match Candidates(pool, texts, t, predict, score, sample[..|sample| - 1])
      case Err(e) => Err(e)
      case Ok(cs) =>
        var i := sample[|sample| - 1];
        var yi := predict(pool[i]);
        if HoldsMinorityClass(yi, t.minorityClassesIndex) then
          match Margin(score, pool[i], t, yi)
          case Err(e) => Err(e)
          case Ok(m) => Ok(cs + [Candidate(m, i, yi, texts[i])])
        else Ok(cs)
  }

  /** One entry of scores_with_index for pool index i: its margin, i, the
      prediction and the sentence, for a prediction holding a minority
      class. */
  predicate ScoredEntry<X>(c: Candidate, pool: seq<X>, texts: seq<seq<string>>, t: Taxonomy,
                           predict: X -> seq<int>, score: (X, seq<int>) -> int)
    requires |texts| == |pool|
  {
    0 <= c.index < |pool| &&
    c.predicted == predict(pool[c.index]) &&
    c.sentence == texts[c.index] &&
    HoldsMinorityClass(c.predicted, t.minorityClassesIndex) &&
    Margin(score, pool[c.index], t, c.predicted) == Ok(c.margin)
  }

  /** Every candidate is a scanned pool entry whose prediction holds a
      minority class, with its margin, prediction and sentence. */
  lemma {:induction false} CandidatesAreScoredEntries<X>(pool: seq<X>, texts: seq<seq<string>>, t: Taxonomy,
                                                         predict: X -> seq<int>, score: (X, seq<int>) -> int,
                                                         sample: seq<int>)
    requires |texts| == |pool| && PredictionsFit(pool, texts, t, predict)
    requires forall k :: 0 <= k < |sample| ==> 0 <= sample[k] < |pool|
    requires Candidates(pool, texts, t, predict, score, sample).Ok?
    ensures var cs := Candidates(pool, texts, t, predict, score, sample).value;
            |cs| <= |sample| && AllAligned(cs) &&
            forall k :: 0 <= k < |cs| ==> cs[k].index in sample && ScoredEntry(cs[k], pool, texts, t, predict, score)
  {
    if sample != [] {
      var init := sample[..|sample| - 1];
      CandidatesAreScoredEntries(pool, texts, t, predict, score, init);
      var prev := Candidates(pool, texts, t, predict, score, init).value;
      var cs := Candidates(pool, texts, t, predict, score, sample).value;
      var i := sample[|sample| - 1];
      assert sample == init + [i];
      if HoldsMinorityClass(predict(pool[i]), t.minorityClassesIndex) {
        var m := Margin(score, pool[i], t, predict(pool[i])).value;
        assert cs == prev + [Candidate(m, i, predict(pool[i]), texts[i])];
        assert ScoredEntry(cs[|cs| - 1], pool, texts, t, predict, score);
      } else {
        assert cs == prev;
      }
      forall k | 0 <= k < |cs|
        ensures cs[k].index in sample && ScoredEntry(cs[k], pool, texts, t, predict, score)
      {
        if k < |prev| {
          assert cs[k] == prev[k];
          assert prev[k].index in init;
        }
      }
    }
  }

  /** Every scanned pool entry whose prediction holds a minority class
      becomes a candidate. */
  lemma {:induction false} MinorityPredictionsAreCandidates<X>(pool: seq<X>, texts: seq<seq<string>>, t: Taxonomy,
                                                               predict: X -> seq<int>, score: (X, seq<int>) -> int,
                                                               sample: seq<int>, i: int)
    requires |texts| == |pool|
    requires forall k :: 0 <= k < |sample| ==> 0 <= sample[k] < |pool|
    requires Candidates(pool, texts, t, predict, score, sample).Ok?
    requires i in sample && HoldsMinorityClass(predict(pool[i]), t.minorityClassesIndex)
    ensures i in Indices(Candidates(pool, texts, t, predict, score, sample).value)
  {
    var init := sample[..|sample| - 1];
    var cs := Candidates(pool, texts, t, predict, score, sample).value;
    assert sample == init + [sample[|sample| - 1]];
    if i in init {
      MinorityPredictionsAreCandidates(pool, texts, t, predict, score, init, i);
      var prev := Candidates(pool, texts, t, predict, score, init).value;
      var k :| 0 <= k < |prev| && Indices(prev)[k] == i;
      assert Indices(cs)[k] == i;
    } else {
      assert Indices(cs)[|cs| - 1] == i;
    }
  }

  /** Scanning distinct pool indices gives candidates with distinct
      indices. */
  lemma {:induction false} CandidatesDistinct<X>(pool: seq<X>, texts: seq<seq<string>>, t: Taxonomy,
                                                 predict: X -> seq<int>, score: (X, seq<int>) -> int,
                                                 sample: seq<int>)
    requires |texts| == |pool|
    requires forall k :: 0 <= k < |sample| ==> 0 <= sample[k] < |pool|
    requires Candidates(pool, texts, t, predict, score, sample).Ok? && Distinct(sample)
    ensures Distinct(Indices(Candidates(pool, texts, t, predict, score, sample).value))
    ensures forall y :: y in Indices(Candidates(pool, texts, t, predict, score, sample).value) ==> y in sample
  {
    if sample != [] {
      var init := sample[..|sample| - 1];
      var i := sample[|sample| - 1];
      assert sample == init + [i];
      FreshValue(sample, |sample| - 1);
      assert Distinct(init);
      CandidatesDistinct(pool, texts, t, predict, score, init);
      var prev := Candidates(pool, texts, t, predict, score, init).value;
      var cs := Candidates(pool, texts, t, predict, score, sample).value;
      if HoldsMinorityClass(predict(pool[i]), t.minorityClassesIndex) {
        var m := Margin(score, pool[i], t, predict(pool[i])).value;
        assert cs == prev + [Candidate(m, i, predict(pool[i]), texts[i])];
        assert Indices(cs) == Indices(prev) + [i];
        assert forall y :: y in Indices(cs) <==> y in Indices(prev) || y == i;
        assert i !in Indices(prev);
        DistinctInsert(Indices(prev), [], i);
        assert Indices(prev) + [i] + [] == Indices(cs);
      } else {
        assert cs == prev;
      }
    }
  }

  /** An error met while scanning a prefix of the sample ends the scan. */
  lemma {:induction false} CandidatesPrefixErr<X>(pool: seq<X>, texts: seq<seq<string>>, t: Taxonomy,
                                                  predict: X -> seq<int>, score: (X, seq<int>) -> int,
                                                  sample: seq<int>, k: nat)
    requires |texts| == |pool|
    requires forall j :: 0 <= j < |sample| ==> 0 <= sample[j] < |pool|
    requires k <= |sample| && Candidates(pool, texts, t, predict, score, sample[..k]).Err?
    ensures Candidates(pool, texts, t, predict, score, sample) == Candidates(pool, texts, t, predict, score, sample[..k])
    decreases |sample| - k
  {
    if k < |sample| {
      var next := sample[..k + 1];
      assert next[..|next| - 1] == sample[..k];
      CandidatesPrefixErr(pool, texts, t, predict, score, sample, k + 1);
    } else {
      assert sample[..k] == sample;
    }
  }

  // ---------------------------------------------------------------------
  // The selection.

  /** index_to_select_among_checked, or the error the call stops with. */
  function Chosen<X>(pool: seq<X>, texts: seq<seq<string>>, stepSize: nat, t: Taxonomy,
                     predict: X -> seq<int>, score: (X, seq<int>) -> int,
                     shuffled: seq<int>, maxSearch: nat): Result<seq<int>>
    requires |texts| == |pool| && PredictionsFit(pool, texts, t, predict) && IsShuffle(shuffled, |pool|)
  {
    if stepSize == 0 then Err(ZeroStepSize)
    else
      var sample := Sample(shuffled, maxSearch);
      match Candidates(pool, texts, t, predict, score, sample)
      case Err(e) => Err(e)
      case Ok(cs) =>
        CandidatesAreScoredEntries(pool, texts, t, predict, score, sample);
        SortedIsAscendingPermutation(cs);
        SortedAligned(cs);
        Ok(Select(SortCandidates(cs), Min(Min(stepSize, |pool|), |cs|), t.majorityClass))
  }

  lemma SortedAligned(cs: seq<Candidate>)
    requires AllAligned(cs)
    ensures AllAligned(SortCandidates(cs))
  {
    var s := SortCandidates(cs);
    forall k | 0 <= k < |s| ensures Aligned(s[k]) {
      assert s[k] in multiset(cs);
    }
  }

  /** A step size of 0 is refused; otherwise the call fails exactly when
      the scan does, with an unknown prefix or the IndexError of line 102. */
  lemma ChosenErrors<X>(pool: seq<X>, texts: seq<seq<string>>, stepSize: nat, t: Taxonomy,
                        predict: X -> seq<int>, score: (X, seq<int>) -> int, shuffled: seq<int>, maxSearch: nat)
    requires |texts| == |pool| && PredictionsFit(pool, texts, t, predict) && IsShuffle(shuffled, |pool|)
    ensures stepSize == 0 ==> Chosen(pool, texts, stepSize, t, predict, score, shuffled, maxSearch) == Err(ZeroStepSize)
    ensures stepSize > 0 ==>
              (Chosen(pool, texts, stepSize, t, predict, score, shuffled, maxSearch).Err? <==>
               Candidates(pool, texts, t, predict, score, Sample(shuffled, maxSearch)).Err?)
    ensures Chosen(pool, texts, stepSize, t, predict, score, shuffled, maxSearch).Err? ==>
              Chosen(pool, texts, stepSize, t, predict, score, shuffled, maxSearch).error.ZeroStepSize? ||
              Chosen(pool, texts, stepSize, t, predict, score, shuffled, maxSearch).error.UnknownPrefix? ||
              Chosen(pool, texts, stepSize, t, predict, score, shuffled, maxSearch).error == InsideAtStart
  {
    if stepSize > 0 {
      CandidatesErrors(pool, texts, t, predict, score, Sample(shuffled, maxSearch));
    }
  }

  /** The scan fails only with the error get_permutations stops with on a
      scanned prediction holding a minority class: an unknown prefix or the
      IndexError of line 102. */
  lemma {:induction false} CandidatesErrors<X>(pool: seq<X>, texts: seq<seq<string>>, t: Taxonomy,
                                               predict: X -> seq<int>, score: (X, seq<int>) -> int, sample: seq<int>)
    requires |texts| == |pool|
    requires forall k :: 0 <= k < |sample| ==> 0 <= sample[k] < |pool|
    ensures Candidates(pool, texts, t, predict, score, sample).Err? ==>
              exists k :: 0 <= k < |sample| &&
                HoldsMinorityClass(predict(pool[sample[k]]), t.minorityClassesIndex) &&
                Permutations(t, predict(pool[sample[k]])) == Err(Candidates(pool, texts, t, predict, score, sample).error)
    ensures Candidates(pool, texts, t, predict, score, sample).Err? ==>
              Candidates(pool, texts, t, predict, score, sample).error.UnknownPrefix? ||
              Candidates(pool, texts, t, predict, score, sample).error == InsideAtStart
  {
    if sample != [] {
      var init := sample[..|sample| - 1];
      CandidatesErrors(pool, texts, t, predict, score, init);
      var i := sample[|sample| - 1];
      InsideAtStartIsFatal(t, predict(pool[i]));
      if Candidates(pool, texts, t, predict, score, init).Err? {
        var k :| 0 <= k < |init| &&
                 HoldsMinorityClass(predict(pool[init[k]]), t.minorityClassesIndex) &&
                 Permutations(t, predict(pool[init[k]])) == Err(Candidates(pool, texts, t, predict, score, init).error);
        assert sample[k] == init[k];
      } else if Candidates(pool, texts, t, predict, score, sample).Err? {
        assert sample[|sample| - 1] == i;
      }
    }
  }

  /** The batch has min(step_size, pool size, candidates, 50) entries: both
      clampings and the selector's window. */
  lemma ChosenSize<X>(pool: seq<X>, texts: seq<seq<string>>, stepSize: nat, t: Taxonomy,
                      predict: X -> seq<int>, score: (X, seq<int>) -> int, shuffled: seq<int>, maxSearch: nat)
    requires |texts| == |pool| && PredictionsFit(pool, texts, t, predict) && IsShuffle(shuffled, |pool|)
    requires Chosen(pool, texts, stepSize, t, predict, score, shuffled, maxSearch).Ok?
    ensures var cs := Candidates(pool, texts, t, predict, score, Sample(shuffled, maxSearch)).value;
            |Chosen(pool, texts, stepSize, t, predict, score, shuffled, maxSearch).value| ==
            Min(Min(stepSize, |pool|), Min(|cs|, Window))
  {
    var sample := Sample(shuffled, maxSearch);
    var cs := Candidates(pool, texts, t, predict, score, sample).value;
    CandidatesAreScoredEntries(pool, texts, t, predict, score, sample);
    SortedIsAscendingPermutation(cs);
    SortedAligned(cs);
    var sorted := SortCandidates(cs);
    assert |sorted| == |cs| by {
      assert |multiset(sorted)| == |multiset(cs)|;
    }
    var step := Min(Min(stepSize, |pool|), |cs|);
    SelectSize(sorted, step, t.majorityClass);
  }

  /** The batch holds distinct pool indices, each a scanned entry whose
      prediction holds a minority class, taken from the 50 best-ranked. */
  lemma ChosenAreMinorityCandidates<X>(pool: seq<X>, texts: seq<seq<string>>, stepSize: nat, t: Taxonomy,
                                       predict: X -> seq<int>, score: (X, seq<int>) -> int,
                                       shuffled: seq<int>, maxSearch: nat)
    requires |texts| == |pool| && PredictionsFit(pool, texts, t, predict) && IsShuffle(shuffled, |pool|)
    requires Chosen(pool, texts, stepSize, t, predict, score, shuffled, maxSearch).Ok?
    ensures var chosen := Chosen(pool, texts, stepSize, t, predict, score, shuffled, maxSearch).value;
            Distinct(chosen) &&
            forall k :: 0 <= k < |chosen| ==>
              0 <= chosen[k] < |pool| && chosen[k] in Sample(shuffled, maxSearch) &&
              HoldsMinorityClass(predict(pool[chosen[k]]), t.minorityClassesIndex)
    ensures var cs := Candidates(pool, texts, t, predict, score, Sample(shuffled, maxSearch)).value;
            forall y :: y in Chosen(pool, texts, stepSize, t, predict, score, shuffled, maxSearch).value ==>
              y in Indices(SortCandidates(cs))[..Min(Window, |cs|)]
  {
    var sample := Sample(shuffled, maxSearch);
    var cs := Candidates(pool, texts, t, predict, score, sample).value;
    assert Distinct(sample);
    CandidatesAreScoredEntries(pool, texts, t, predict, score, sample);
    CandidatesDistinct(pool, texts, t, predict, score, sample);
    var step := Min(Min(stepSize, |pool|), |cs|);
    var chosen := Chosen(pool, texts, stepSize, t, predict, score, shuffled, maxSearch).value;
    SortedAligned(cs);
    assert chosen == Select(SortCandidates(cs), step, t.majorityClass);
    SelectedAreCandidates(cs, step, t.majorityClass);
    forall k | 0 <= k < |chosen|
      ensures 0 <= chosen[k] < |pool| && chosen[k] in sample &&
              HoldsMinorityClass(predict(pool[chosen[k]]), t.minorityClassesIndex)
    {
      assert chosen[k] in chosen;
      var i :| 0 <= i < |cs| && cs[i].index == chosen[k];
      assert ScoredEntry(cs[i], pool, texts, t, predict, score);
    }
  }

  /** The selector, run on the sorted candidates, returns distinct indices
      of candidates. */
  lemma SelectedAreCandidates(cs: seq<Candidate>, step: nat, majority: int)
    requires AllAligned(cs) && Distinct(Indices(cs))
    ensures AllAligned(SortCandidates(cs))
    ensures Distinct(Select(SortCandidates(cs), step, majority))
    ensures forall y :: y in Select(SortCandidates(cs), step, majority) ==>
              exists i :: 0 <= i < |cs| && cs[i].index == y
    ensures forall y :: y in Select(SortCandidates(cs), step, majority) ==>
              y in Indices(SortCandidates(cs))[..Min(Window, |cs|)]
  {
    SortedIsAscendingPermutation(cs);
    SortedAligned(cs);
    var sorted := SortCandidates(cs);
    assert |sorted| == |cs| by {
      assert |multiset(sorted)| == |multiset(cs)|;
    }
    SelectDistinct(sorted, step, majority);
    forall y | y in Select(sorted, step, majority)
      ensures exists i :: 0 <= i < |cs| && cs[i].index == y
    {
      var j := PositionInWindow(sorted, y);
      assert sorted[j] in multiset(cs);
      var i :| 0 <= i < |cs| && cs[i] == sorted[j];
    }
  }

  /** The position among the ranked candidates of an index in the window. */
  lemma PositionInWindow(ranked: seq<Candidate>, y: int) returns (j: nat)
    requires y in Indices(ranked)[..Min(Window, |ranked|)]
    ensures j < |ranked| && ranked[j].index == y
  {
    var ids := Indices(ranked)[..Min(Window, |ranked|)];
    var k :| 0 <= k < |ids| && ids[k] == y;
    j := k;
  }

  // ---------------------------------------------------------------------
  // The method.

  /** What get_uncertainty_unlabelled returns, and the batch's indices. */
  datatype Selection<X> = Selection(
    chosen: seq<int>,                  // index_to_select_among_checked
    toSelectX: seq<X>,
    unlabelledX: seq<X>,
    toSelectText: seq<seq<string>>,
    sentencesUnlabelled: seq<seq<string>>,
    predictedForSelected: seq<seq<int>>)

  /** The scan at lines 166-180: predict the sampled pool entries and
      score those whose prediction holds a minority class. */
  method ScanSample<X>(unlabelledX: seq<X>, sentencesUnlabelled: seq<seq<string>>, t: Taxonomy,
                       predict: X -> seq<int>, score: (X, seq<int>) -> int, selectedIndeces: seq<int>)
    returns (r: Result<seq<Candidate>>)
    requires |sentencesUnlabelled| == |unlabelledX| && IndexedLabels(t)
    requires PredictionsFit(unlabelledX, sentencesUnlabelled, t, predict)
    requires forall k :: 0 <= k < |selectedIndeces| ==> 0 <= selectedIndeces[k] < |unlabelledX|
    ensures r == Candidates(unlabelledX, sentencesUnlabelled, t, predict, score, selectedIndeces)
  {
    var toSearchAmongX: seq<X> := [];
    for k := 0 to |selectedIndeces|
      invariant |toSearchAmongX| == k
      invariant forall j :: 0 <= j < k ==> toSearchAmongX[j] == unlabelledX[selectedIndeces[j]]
    {
      toSearchAmongX := toSearchAmongX + [unlabelledX[selectedIndeces[k]]];
    }
    var ys := seq(|toSearchAmongX|, j requires 0 <= j < |toSearchAmongX| => predict(toSearchAmongX[j]));
    r := ScoreSample(unlabelledX, sentencesUnlabelled, t, predict, score, selectedIndeces, toSearchAmongX, ys);
  }

  /** The loop at lines 174-180: score every sampled prediction that holds
      a minority class, stopping at the first error. */
  method ScoreSample<X>(unlabelledX: seq<X>, sentencesUnlabelled: seq<seq<string>>, t: Taxonomy,
                        predict: X -> seq<int>, score: (X, seq<int>) -> int, selectedIndeces: seq<int>,
                        toSearchAmongX: seq<X>, ys: seq<seq<int>>)
    returns (r: Result<seq<Candidate>>)
    requires |sentencesUnlabelled| == |unlabelledX| && IndexedLabels(t)
    requires PredictionsFit(unlabelledX, sentencesUnlabelled, t, predict)
    requires forall k :: 0 <= k < |selectedIndeces| ==> 0 <= selectedIndeces[k] < |unlabelledX|
    requires |toSearchAmongX| == |ys| == |selectedIndeces|
    requires forall j :: 0 <= j < |selectedIndeces| ==>
               toSearchAmongX[j] == unlabelledX[selectedIndeces[j]] && ys[j] == predict(toSearchAmongX[j])
    ensures r == Candidates(unlabelledX, sentencesUnlabelled, t, predict, score, selectedIndeces)
  {
    var scoresWithIndex: seq<Candidate> := [];
    for k := 0 to |selectedIndeces|
      invariant Candidates(unlabelledX, sentencesUnlabelled, t, predict, score, selectedIndeces[..k]) == Ok(scoresWithIndex)
    {
      assert selectedIndeces[..k + 1][..k] == selectedIndeces[..k];
      var index := selectedIndeces[k];
      var x := toSearchAmongX[k];
      var yi := ys[k];
      assert x == unlabelledX[index] && yi == predict(x);
      assert LabelsKnown(t, yi);
      var hasMinority := IsMinorityClassesInVector(yi, t.minorityClassesIndex);
      if hasMinority {
        var difference := GetSmallestDiffAlternative(score, x, t, yi);
        if difference.Err? {
          CandidatesPrefixErr(unlabelledX, sentencesUnlabelled, t, predict, score, selectedIndeces, k + 1);
          return Err(difference.error);
        }
        scoresWithIndex := scoresWithIndex + [Candidate(difference.value, index, yi, sentencesUnlabelled[index])];
      }
    }
    assert selectedIndeces[..|selectedIndeces|] == selectedIndeces;
    r := Ok(scoresWithIndex);
  }

  /** The loop at lines 210-216: the selected rows, texts and predictions. */
  method GatherSelected<X>(unlabelledX: seq<X>, sentencesUnlabelled: seq<seq<string>>,
                           predict: X -> seq<int>, indexToSelect: seq<int>)
    returns (toSelectX: seq<X>, toSelectText: seq<seq<string>>, predictedForSelected: seq<seq<int>>)
    requires |sentencesUnlabelled| == |unlabelledX|
    requires forall k :: 0 <= k < |indexToSelect| ==> 0 <= indexToSelect[k] < |unlabelledX|
    ensures |toSelectX| == |toSelectText| == |predictedForSelected| == |indexToSelect|
    ensures forall j :: 0 <= j < |indexToSelect| ==>
              toSelectX[j] == unlabelledX[indexToSelect[j]] &&
              toSelectText[j] == sentencesUnlabelled[indexToSelect[j]] &&
              predictedForSelected[j] == predict(unlabelledX[indexToSelect[j]])
  {
    toSelectX, toSelectText, predictedForSelected := [], [], [];
    for k := 0 to |indexToSelect|
      invariant |toSelectX| == |toSelectText| == |predictedForSelected| == k
      invariant forall j :: 0 <= j < k ==>
                  toSelectX[j] == unlabelledX[indexToSelect[j]] &&
                  toSelectText[j] == sentencesUnlabelled[indexToSelect[j]] &&
                  predictedForSelected[j] == predict(unlabelledX[indexToSelect[j]])
    {
      var its := indexToSelect[k];
      toSelectX := toSelectX + [unlabelledX[its]];
      toSelectText := toSelectText + [sentencesUnlabelled[its]];
      predictedForSelected := predictedForSelected + [predict(unlabelledX[its])];
    }
  }

  /** get_uncertainty_unlabelled. */
  method GetUncertaintyUnlabelled<X>(unlabelledX: seq<X>, stepSize: nat, t: Taxonomy,
                                     sentencesUnlabelled: seq<seq<string>>,
                                     maximumSamplesToSearchAmong: nat,
                                     predict: X -> seq<int>, score: (X, seq<int>) -> int, shuffled: seq<int>)
    returns (r: Result<Selection<X>>)
    requires |sentencesUnlabelled| == |unlabelledX| && IndexedLabels(t)
    requires PredictionsFit(unlabelledX, sentencesUnlabelled, t, predict)
    requires IsShuffle(shuffled, |unlabelledX|)
    ensures var spec := Chosen(unlabelledX, sentencesUnlabelled, stepSize, t, predict, score, shuffled,
                               maximumSamplesToSearchAmong);
            (r.Err? <==> spec.Err?) && (r.Err? ==> r.error == spec.error) &&
            (r.Ok? ==> r.value.chosen == spec.value)
    ensures r.Ok? ==>
              var s := r.value;
              Distinct(s.chosen) &&
              (forall k :: 0 <= k < |s.chosen| ==> 0 <= s.chosen[k] < |unlabelledX|) &&
              |s.toSelectX| == |s.toSelectText| == |s.predictedForSelected| == |s.chosen| &&
              (forall k :: 0 <= k < |s.chosen| ==>
                 s.toSelectX[k] == unlabelledX[s.chosen[k]] &&
                 s.toSelectText[k] == sentencesUnlabelled[s.chosen[k]] &&
                 s.predictedForSelected[k] == predict(unlabelledX[s.chosen[k]])) &&
              s.unlabelledX == Delete(unlabelledX, set y | y in s.chosen) &&
              s.sentencesUnlabelled == Delete(sentencesUnlabelled, set y | y in s.chosen) &&
              |s.unlabelledX| == |s.sentencesUnlabelled| == |unlabelledX| - |s.chosen|
  {
    if stepSize == 0 {
      return Err(ZeroStepSize);
    }
    var step := stepSize;
    if step > |unlabelledX| {
      step := |unlabelledX|;
    }
    var selectedIndeces := Sample(shuffled, maximumSamplesToSearchAmong);

    var scoresWithIndex := ScanSample(unlabelledX, sentencesUnlabelled, t, predict, score, selectedIndeces);
    if scoresWithIndex.Err? {
      return Err(scoresWithIndex.error);
    }
    var candidates := scoresWithIndex.value;

    if |candidates| < step {
      step := |candidates|;
    }
    CandidatesAreScoredEntries(unlabelledX, sentencesUnlabelled, t, predict, score, selectedIndeces);
    var sortedScoreIndex := SortCandidates(candidates);
    SortedAligned(candidates);
    var indexToSelect := SelectWithDifferentVocabulary(sortedScoreIndex, step, t.majorityClass);
    ChosenAreMinorityCandidates(unlabelledX, sentencesUnlabelled, stepSize, t, predict, score, shuffled,
                                maximumSamplesToSearchAmong);

    var toSelectX, toSelectText, predictedForSelected :=
      GatherSelected(unlabelledX, sentencesUnlabelled, predict, indexToSelect);
    var drop := set y | y in indexToSelect;
    DeleteDistinctIndices(unlabelledX, indexToSelect);
    DeleteDistinctIndices(sentencesUnlabelled, indexToSelect);
    r := Ok(Selection(indexToSelect, toSelectX, Delete(unlabelledX, drop), toSelectText,
                      Delete(sentencesUnlabelled, drop), predictedForSelected));
  }
}
