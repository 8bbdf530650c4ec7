/** get_uncertainty_selected_sentences_with_different_vocabulary: a greedy
    pass over the best-ranked candidates that prefers sentences whose
    minority-predicted tokens have not been seen yet, topped up from the
    passed-over ones when too few qualify. */
module Selector {
  import opened Common

  /** One entry of scores_with_index: the margin, the pool index, the
      predicted labels and the sentence's tokens. */
  datatype Candidate = Candidate(margin: int, index: int, predicted: seq<int>, sentence: seq<string>)

  /** Only the first 50 ranked candidates are looked at. */
  const Window: nat := 50

  /** Every predicted position has a token (sentence[i] is read for it). */
  predicate Aligned(c: Candidate)
  {
    |c.predicted| <= |c.sentence|
  }

  predicate AllAligned(cs: seq<Candidate>)
  {
    forall k :: 0 <= k < |cs| ==> Aligned(cs[k])
  }

  /** The pool indices of the candidates, in order. */
  function Indices(cs: seq<Candidate>): (r: seq<int>)
    ensures |r| == |cs|
    ensures forall k :: 0 <= k < |cs| ==> r[k] == cs[k].index
  {
    if cs == [] then [] else Indices(cs[..|cs| - 1]) + [cs[|cs| - 1].index]
  }

  /** The tokens at the first k positions of c that are predicted as
      something other than the majority class. */
  function MinorityWords(c: Candidate, majority: int, k: nat): set<string>
    requires Aligned(c) && k <= |c.predicted|
  {
    set i | 0 <= i < k && c.predicted[i] != majority :: c.sentence[i]
  }

  function Words(c: Candidate, majority: int): set<string>
    requires Aligned(c)
  {
    MinorityWords(c, majority, |c.predicted|)
  }

  /** sentence_has_already_used_word after k positions: some minority-
      predicted token among them is in `used` or occurred, minority-
      predicted, earlier in the same sentence. */
  predicate ReusesUpTo(used: set<string>, c: Candidate, majority: int, k: nat)
    requires Aligned(c) && k <= |c.predicted|
  {
    exists i :: 0 <= i < k && c.predicted[i] != majority && c.sentence[i] in used + MinorityWords(c, majority, i)
  }

  predicate Reuses(used: set<string>, c: Candidate, majority: int)
    requires Aligned(c)
  {
    ReusesUpTo(used, c, majority, |c.predicted|)
  }

  /** The state of the greedy pass: indeces_to_use, indeces_not_to_use and
      predicted_words. */
  datatype Pass = Pass(accepted: seq<int>, rejected: seq<int>, words: set<string>)

  /** One iteration of the loop at line 29. */
  function Visit(st: Pass, c: Candidate, majority: int): Pass
    requires Aligned(c)
  {
    if Reuses(st.words, c, majority) then Pass(st.accepted, st.rejected + [c.index], st.words + Words(c, majority))
    else Pass(st.accepted + [c.index], st.rejected, st.words + Words(c, majority))
  }

  /** The pass after visiting the first k candidates. */
  function Fold(cs: seq<Candidate>, majority: int, k: nat): Pass
    requires AllAligned(cs) && k <= |cs|
  {
    if k == 0 then Pass([], [], {}) else Visit(Fold(cs, majority, k - 1), cs[k - 1], majority)
  }

  /** How many candidates the loop visits when it has visited k without
      reaching step_size: it stops after the first visit that does. */
  function StopAfter(cs: seq<Candidate>, stepSize: nat, majority: int, k: nat): (r: nat)
    requires AllAligned(cs) && k <= |cs|
    ensures k <= r <= |cs|
    decreases |cs| - k
  {
    if k == |cs| then k
    else if |Fold(cs, majority, k + 1).accepted| >= stepSize then k + 1
    else StopAfter(cs, stepSize, majority, k + 1)
  }

  /** The indices the selector returns for the ranked candidates. */
  function Select(ranked: seq<Candidate>, stepSize: nat, majority: int): seq<int>
    requires AllAligned(ranked)
  {
    var window := ranked[..Min(Window, |ranked|)];
    var st := Fold(window, majority, StopAfter(window, stepSize, majority, 0));
    if |st.accepted| < stepSize
    then st.accepted + st.rejected[..Min(stepSize - |st.accepted|, |st.rejected|)]
    else st.accepted
  }

  // ---------------------------------------------------------------------
  // What the greedy pass promises.

  /** Every visited candidate lands in exactly one of the two lists, and
      each visit accepts at most one more. */
  lemma {:induction false} FoldCounts(cs: seq<Candidate>, majority: int, k: nat)
    requires AllAligned(cs) && k <= |cs|
    ensures |Fold(cs, majority, k).accepted| + |Fold(cs, majority, k).rejected| == k
    ensures k > 0 ==> |Fold(cs, majority, k).accepted| <= |Fold(cs, majority, k - 1).accepted| + 1
  {
    if k > 0 {
      FoldCounts(cs, majority, k - 1);
    }
  }

  /** The loop stops after the first visit that reaches step_size, or at the
      end of the window. */
  lemma {:induction false} StopAfterIsFirstReach(cs: seq<Candidate>, stepSize: nat, majority: int, k: nat)
    requires AllAligned(cs) && k <= |cs|
    ensures var r := StopAfter(cs, stepSize, majority, k);
            (k < |cs| ==> k < r) &&
            (forall j :: k < j < r ==> |Fold(cs, majority, j).accepted| < stepSize) &&
            (r == |cs| || |Fold(cs, majority, r).accepted| >= stepSize)
    decreases |cs| - k
  {
    if k < |cs| && |Fold(cs, majority, k + 1).accepted| < stepSize {
      StopAfterIsFirstReach(cs, stepSize, majority, k + 1);
    }
  }

  /** Inserting a fresh value between two parts keeps them duplicate-free. */
  lemma DistinctInsert(a: seq<int>, b: seq<int>, x: int)
    requires Distinct(a + b) && x !in a + b
    ensures Distinct(a + [x] + b)
  {
    var u := a + [x] + b;
    var v := a + b;
    forall i, j | 0 <= i < j < |u| ensures u[i] != u[j] {
      var n := |a|;
      if i == n {
        assert u[j] == v[j - 1];
      } else if j == n {
        assert u[i] == v[i];
      } else {
        var i' := if i < n then i else i - 1;
        var j' := if j < n then j else j - 1;
        assert u[i] == v[i'] && u[j] == v[j'];
      }
    }
  }

  /** The k-th value of a duplicate-free sequence is not among the first k. */
  lemma FreshValue(s: seq<int>, k: nat)
    requires Distinct(s) && k < |s|
    ensures s[k] !in s[..k]
  {
    forall i | 0 <= i < k ensures s[..k][i] != s[k] {
      assert s[i] != s[k];
    }
  }

  /** The candidates visited so far contribute each index once: the two
      lists together hold distinct indices of the first k candidates. */
  lemma {:induction false} FoldIndicesDistinct(cs: seq<Candidate>, majority: int, k: nat)
    requires AllAligned(cs) && k <= |cs| && Distinct(Indices(cs))
    ensures var st := Fold(cs, majority, k);
            Distinct(st.accepted + st.rejected) &&
            forall y :: y in st.accepted + st.rejected ==> y in Indices(cs)[..k]
  {
    if k > 0 {
      FoldIndicesDistinct(cs, majority, k - 1);
      var prev := Fold(cs, majority, k - 1);
      var st := Fold(cs, majority, k);
      var x := cs[k - 1].index;
      var ids := Indices(cs);
      FreshValue(ids, k - 1);
      assert ids[..k] == ids[..k - 1] + [x];
      var both := prev.accepted + prev.rejected;
      if Reuses(prev.words, cs[k - 1], majority) {
        assert st.accepted + st.rejected == both + [x];
        DistinctInsert(both, [], x);
      } else {
        assert st.accepted + st.rejected == prev.accepted + [x] + prev.rejected;
        DistinctInsert(prev.accepted, prev.rejected, x);
      }
      forall y | y in st.accepted + st.rejected ensures y in ids[..k] {
        assert y in both || y == x;
      }
    }
  }

  /** predicted_words holds the minority-predicted tokens of every visited
      candidate, accepted or rejected. */
  lemma {:induction false} FoldWords(cs: seq<Candidate>, majority: int, k: nat, w: string)
    requires AllAligned(cs) && k <= |cs|
    ensures w in Fold(cs, majority, k).words <==> exists i :: 0 <= i < k && w in Words(cs[i], majority)
  {
    if k > 0 {
      FoldWords(cs, majority, k - 1, w);
    }
  }

  /** A visited candidate is accepted exactly when none of its minority-
      predicted tokens was already in predicted_words (or repeated inside
      it); otherwise it is rejected. */
  lemma {:induction false} FoldAcceptance(cs: seq<Candidate>, majority: int, k: nat, j: nat)
    requires AllAligned(cs) && k <= |cs| && Distinct(Indices(cs)) && j < k
    ensures cs[j].index in Fold(cs, majority, k).accepted <==> !Reuses(Fold(cs, majority, j).words, cs[j], majority)
    ensures cs[j].index in Fold(cs, majority, k).rejected <==> Reuses(Fold(cs, majority, j).words, cs[j], majority)
  {
    FoldIndicesDistinct(cs, majority, k - 1);
    FreshValue(Indices(cs), k - 1);
    var x := cs[k - 1].index;
    if j < k - 1 {
      FoldAcceptance(cs, majority, k - 1, j);
      assert cs[j].index != x by {
        assert Indices(cs)[j] != Indices(cs)[k - 1];
      }
    }
  }

  /** A candidate that reuses nothing shares no minority-predicted token
      with the tokens seen before it. */
  lemma NoReuseIsDisjoint(used: set<string>, c: Candidate, majority: int)
    requires Aligned(c) && !Reuses(used, c, majority)
    ensures Words(c, majority) * used == {}
  {
    forall w | w in Words(c, majority)
      ensures w !in used
    {
      var i :| 0 <= i < |c.predicted| && c.predicted[i] != majority && c.sentence[i] == w;
      assert !(c.sentence[i] in used + MinorityWords(c, majority, i));
    }
  }

  /** An accepted candidate shares no minority-predicted token with any
      candidate visited before it, accepted or not. */
  lemma AcceptedVocabularyIsNew(cs: seq<Candidate>, majority: int, k: nat, i: nat, j: nat)
    requires AllAligned(cs) && k <= |cs| && Distinct(Indices(cs))
    requires i < j < k && cs[j].index in Fold(cs, majority, k).accepted
    ensures Words(cs[i], majority) * Words(cs[j], majority) == {}
  {
    FoldAcceptance(cs, majority, k, j);
    NoReuseIsDisjoint(Fold(cs, majority, j).words, cs[j], majority);
    forall w | w in Words(cs[i], majority)
      ensures w in Fold(cs, majority, j).words
    {
      FoldWords(cs, majority, j, w);
    }
  }

  /** The accepted list keeps rank order: earlier entries come from
      earlier candidates. */
  lemma {:induction false} AcceptedInRankOrder(cs: seq<Candidate>, majority: int, k: nat, a: nat, b: nat)
    requires AllAligned(cs) && k <= |cs|
    requires a < b < |Fold(cs, majority, k).accepted|
    ensures exists i, j :: 0 <= i < j < k && Fold(cs, majority, k).accepted[a] == cs[i].index
                                        && Fold(cs, majority, k).accepted[b] == cs[j].index
  {
    var prev := Fold(cs, majority, k - 1);
    var acc := Fold(cs, majority, k).accepted;
    if b < |prev.accepted| {
      AcceptedInRankOrder(cs, majority, k - 1, a, b);
    } else {
      assert acc[b] == cs[k - 1].index;
      AcceptedFrom(cs, majority, k - 1, a);
    }
  }

  /** Every accepted entry is the index of a visited candidate. */
  lemma {:induction false} AcceptedFrom(cs: seq<Candidate>, majority: int, k: nat, a: nat)
    requires AllAligned(cs) && k <= |cs| && a < |Fold(cs, majority, k).accepted|
    ensures exists i :: 0 <= i < k && Fold(cs, majority, k).accepted[a] == cs[i].index
  {
    var prev := Fold(cs, majority, k - 1);
    if a < |prev.accepted| {
      AcceptedFrom(cs, majority, k - 1, a);
    }
  }

  /** The rejected list keeps rank order too, so the top-up takes the
      best-ranked rejected candidates first. */
  lemma {:induction false} RejectedInRankOrder(cs: seq<Candidate>, majority: int, k: nat, a: nat, b: nat)
    requires AllAligned(cs) && k <= |cs|
    requires a < b < |Fold(cs, majority, k).rejected|
    ensures exists i, j :: 0 <= i < j < k && Fold(cs, majority, k).rejected[a] == cs[i].index
                                        && Fold(cs, majority, k).rejected[b] == cs[j].index
  {
    var prev := Fold(cs, majority, k - 1);
    var rej := Fold(cs, majority, k).rejected;
    if b < |prev.rejected| {
      RejectedInRankOrder(cs, majority, k - 1, a, b);
    } else {
      assert rej[b] == cs[k - 1].index;
      RejectedFrom(cs, majority, k - 1, a);
    }
  }

  /** Every rejected entry is the index of a visited candidate. */
  lemma {:induction false} RejectedFrom(cs: seq<Candidate>, majority: int, k: nat, a: nat)
    requires AllAligned(cs) && k <= |cs| && a < |Fold(cs, majority, k).rejected|
    ensures exists i :: 0 <= i < k && Fold(cs, majority, k).rejected[a] == cs[i].index
  {
    var prev := Fold(cs, majority, k - 1);
    if a < |prev.rejected| {
      RejectedFrom(cs, majority, k - 1, a);
    }
  }

  /** For step_size >= 1 the selector returns min(step_size, 50, #ranked)
      indices; for step_size 0 it still visits one candidate and may
      return it. */
  lemma SelectSize(ranked: seq<Candidate>, stepSize: nat, majority: int)
    requires AllAligned(ranked)
    ensures stepSize >= 1 ==> |Select(ranked, stepSize, majority)| == Min(stepSize, Min(Window, |ranked|))
    ensures stepSize == 0 ==> |Select(ranked, stepSize, majority)| <= 1
  {
    var window := ranked[..Min(Window, |ranked|)];
    var n := StopAfter(window, stepSize, majority, 0);
    var st := Fold(window, majority, n);
    StopAfterIsFirstReach(window, stepSize, majority, 0);
    FoldCounts(window, majority, n);
    if n > 0 {
      FoldCounts(window, majority, n - 1);
      if n > 1 {
        assert |Fold(window, majority, n - 1).accepted| < stepSize;
      }
    }
  }

  /** With distinct pool indices, the selected indices are distinct, they
      are the accepted ones followed by a prefix of the rejected ones, and
      they come from the first 50 ranked candidates. */
  lemma SelectDistinct(ranked: seq<Candidate>, stepSize: nat, majority: int)
    requires AllAligned(ranked) && Distinct(Indices(ranked))
    ensures Distinct(Select(ranked, stepSize, majority))
    ensures forall y :: y in Select(ranked, stepSize, majority) ==> y in Indices(ranked)[..Min(Window, |ranked|)]
    ensures var window := ranked[..Min(Window, |ranked|)];
            var st := Fold(window, majority, StopAfter(window, stepSize, majority, 0));
            Select(ranked, stepSize, majority) <= st.accepted + st.rejected &&
            st.accepted <= Select(ranked, stepSize, majority)
  {
    var m := Min(Window, |ranked|);
    var window := ranked[..m];
    IndicesPrefix(ranked, m);
    var ids := Indices(window);
    PrefixOfDistinct(Indices(ranked), m);
    var n := StopAfter(window, stepSize, majority, 0);
    var st := Fold(window, majority, n);
    FoldIndicesDistinct(window, majority, n);
    var both := st.accepted + st.rejected;
    var len := if |st.accepted| < stepSize then |st.accepted| + Min(stepSize - |st.accepted|, |st.rejected|)
               else |st.accepted|;
    assert Select(ranked, stepSize, majority) == both[..len];
    PrefixOfDistinct(both, len);
    forall y | y in both[..len] ensures y in ids {
      assert y in both;
      assert y in ids[..n];
    }
  }

  /** The indices of a prefix are the prefix of the indices. */
  lemma IndicesPrefix(cs: seq<Candidate>, m: nat)
    requires m <= |cs|
    ensures Indices(cs[..m]) == Indices(cs)[..m]
  {
  }

  /** A prefix of a duplicate-free sequence is duplicate-free and draws
      from it. */
  lemma PrefixOfDistinct(s: seq<int>, n: nat)
    requires Distinct(s) && n <= |s|
    ensures Distinct(s[..n]) && forall y :: y in s[..n] ==> y in s
  {
  }

  // ---------------------------------------------------------------------
  // The source's loops.

  /** The inner loop at lines 31-36 for one candidate: whether it reuses a
      token, and predicted_words with its minority-predicted tokens added. */
  method ScanSentence(c: Candidate, majority: int, used: set<string>)
    returns (reused: bool, words: set<string>)
    requires Aligned(c)
    ensures reused == Reuses(used, c, majority)
    ensures words == used + Words(c, majority)
  {
    reused := false;
    words := used;
    for i := 0 to |c.predicted|
      invariant reused == ReusesUpTo(used, c, majority, i)
      invariant words == used + MinorityWords(c, majority, i)
    {
      if c.predicted[i] != majority {
        var predictedWord := c.sentence[i];
        if predictedWord in words {
          reused := true;
        }
        words := words + {predictedWord};
      }
      ReusesStep(used, c, majority, i);
    }
  }

  /** One more position of the inner loop. */
  lemma ReusesStep(used: set<string>, c: Candidate, majority: int, i: nat)
    requires Aligned(c) && i < |c.predicted|
    ensures MinorityWords(c, majority, i + 1) ==
            MinorityWords(c, majority, i) + (if c.predicted[i] != majority then {c.sentence[i]} else {})
    ensures ReusesUpTo(used, c, majority, i + 1) <==>
            ReusesUpTo(used, c, majority, i) ||
            (c.predicted[i] != majority && c.sentence[i] in used + MinorityWords(c, majority, i))
  {
  }

  /** get_uncertainty_selected_sentences_with_different_vocabulary. */
  method SelectWithDifferentVocabulary(sortedScoreIndex: seq<Candidate>, stepSize: nat, majorityCategory: int)
    returns (indecesToUse: seq<int>)
    requires AllAligned(sortedScoreIndex)
    ensures indecesToUse == Select(sortedScoreIndex, stepSize, majorityCategory)
  {
    var window := sortedScoreIndex[..Min(Window, |sortedScoreIndex|)];
    var toUse: seq<int> := [];
    var notToUse: seq<int> := [];
    var predictedWords: set<string> := {};
    var k := 0;
    while k < |window|
      invariant k <= |window|
      invariant Pass(toUse, notToUse, predictedWords) == Fold(window, majorityCategory, k)
      invariant StopAfter(window, stepSize, majorityCategory, 0) == StopAfter(window, stepSize, majorityCategory, k)
    {
      var c := window[k];
      var reused;
      reused, predictedWords := ScanSentence(c, majorityCategory, predictedWords);
      if !reused {
        toUse := toUse + [c.index];
      } else {
        notToUse := notToUse + [c.index];
      }
      k := k + 1;
      if |toUse| >= stepSize {
        break;
      }
    }
    assert Pass(toUse, notToUse, predictedWords) ==
           Fold(window, majorityCategory, StopAfter(window, stepSize, majorityCategory, 0));

    if |toUse| < stepSize {
      indecesToUse := toUse + notToUse[..Min(stepSize - |toUse|, |notToUse|)];
    } else {
      indecesToUse := toUse;
    }
  }
}
