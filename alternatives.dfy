/** get_permutations: the alternative label sequences a predicted sequence
    is compared against. Positions predicted as a minority label may change,
    subject to the begin/inside span grammar; every other position keeps the
    majority label. */
module Alternatives {
  import opened Common
  import opened Taxonomy

  /** How the first loop of get_permutations classifies a predicted label. */
  datatype Kind = Majority | Begin | Inside | Unknown

  function KindOf(t: Taxonomy, el: int): Kind
  {
    if el == t.majorityClass then Majority
    else if StartsWith(Label(t, el), t.beginningPrefix) then Begin
    else if StartsWith(Label(t, el), t.insidePrefix) then Inside
    else Unknown
  }

  /** The categories tried at a flagged position: range(0, len(minority) + 1). */
  function CategoryCount(t: Taxonomy): nat
  {
    |t.minorityClassesIndex| + 1
  }

  /** A begin position may take a begin-prefixed label or the outside label. */
  predicate BeginAllowed(t: Taxonomy, c: int)
  {
    StartsWith(Label(t, c), t.beginningPrefix) || Label(t, c) == t.outsideClass
  }

  /** An inside label c may follow prev when prev is a begin or inside label
      and both have the same category once the inside prefix's length is cut
      off. */
  predicate Continues(t: Taxonomy, prev: int, c: int)
  {
    (StartsWith(Label(t, prev), t.insidePrefix) || StartsWith(Label(t, prev), t.beginningPrefix)) &&
    Drop(Label(t, prev), |t.insidePrefix|) == Drop(Label(t, c), |t.insidePrefix|)
  }

  /** An inside position may take an inside label that continues the partial
      sequence's last label, or the outside label. */
  predicate InsideAllowed(t: Taxonomy, partial: seq<int>, c: int)
  {
    if StartsWith(Label(t, c), t.insidePrefix) then partial != [] && Continues(t, partial[|partial| - 1], c)
    else Label(t, c) == t.outsideClass
  }

  /** Label c may follow the partial sequence at position p of yi. */
  predicate StepOk(t: Taxonomy, yi: seq<int>, partial: seq<int>, c: int, p: nat)
    requires p < |yi|
  {
    match KindOf(t, yi[p])
    case Begin => 0 <= c < CategoryCount(t) && BeginAllowed(t, c)
    case Inside => 0 <= c < CategoryCount(t) && InsideAllowed(t, partial, c)
    case _ => c == t.majorityClass
  }

  predicate PositionOk(t: Taxonomy, yi: seq<int>, alt: seq<int>, p: nat)
    requires p < |yi| && p < |alt|
  {
    StepOk(t, yi, alt[..p], alt[p], p)
  }

  /** The reference description of an alternative: same length as yi and
      every position allowed by the span grammar. */
  predicate Grammatical(t: Taxonomy, yi: seq<int>, alt: seq<int>)
  {
    |alt| == |yi| && PrefixOk(t, yi, alt, |alt|)
  }

  // ---------------------------------------------------------------------
  // The generator as functions, one per loop of the source.

  /** Every partial sequence extended by c, in order. */
  function AppendAll(alts: seq<seq<int>>, c: int): (r: seq<seq<int>>)
    ensures |r| == |alts|
  {
    if alts == [] then [] else AppendAll(alts[..|alts| - 1], c) + [alts[|alts| - 1] + [c]]
  }

  /** Lines 87-95, over the first k categories. */
  function BeginBranch(t: Taxonomy, alts: seq<seq<int>>, k: nat): seq<seq<int>>
  {
    if k == 0 then []
    else BeginBranch(t, alts, k - 1) + (if BeginAllowed(t, k - 1) then AppendAll(alts, k - 1) else [])
  }

  /** The copies lines 98-112 make for one category c: every partial
      sequence that c may extend, extended by c. */
  function InsideCategory(t: Taxonomy, alts: seq<seq<int>>, c: int): seq<seq<int>>
  {
    if alts == [] then []
    else
      var el := alts[|alts| - 1];
      InsideCategory(t, alts[..|alts| - 1], c) + (if InsideAllowed(t, el, c) then [el + [c]] else [])
  }

  /** Lines 97-114, over the first k categories. */
  function InsideBranch(t: Taxonomy, alts: seq<seq<int>>, k: nat): seq<seq<int>>
  {
    if k == 0 then [] else InsideBranch(t, alts, k - 1) + InsideCategory(t, alts, k - 1)
  }

  /** One pass of the loop at line 85. */
  function Extend(t: Taxonomy, yi: seq<int>, alts: seq<seq<int>>, p: nat): seq<seq<int>>
    requires p < |yi|
  {
    match KindOf(t, yi[p])
    case Begin => BeginBranch(t, alts, CategoryCount(t))
    case Inside => InsideBranch(t, alts, CategoryCount(t))
    case _ => AppendAll(alts, t.majorityClass)
  }

  /** The alternatives for the first k positions. */
  function Build(t: Taxonomy, yi: seq<int>, k: nat): seq<seq<int>>
    requires k <= |yi|
  {
    if k == 0 then [[]] else Extend(t, yi, Build(t, yi, k - 1), k - 1)
  }

  /** Line 118: drop every alternative equal to yi. */
  function Without(alts: seq<seq<int>>, yi: seq<int>): seq<seq<int>>
  {
    if alts == [] then []
    else Without(alts[..|alts| - 1], yi) + (if alts[|alts| - 1] == yi then [] else [alts[|alts| - 1]])
  }

  /** The first of the first k positions whose label has neither prefix. */
  function FirstUnknown(t: Taxonomy, yi: seq<int>, k: nat): (r: Option<nat>)
    requires k <= |yi|
    ensures r.Some? ==> r.value < k
  {
    if k == 0 then None
    else
      match FirstUnknown(t, yi, k - 1)
      case Some(p) => Some(p)
      case None => if KindOf(t, yi[k - 1]) == Unknown then Some(k - 1) else None
  }

  /** index_to_permute_beginning / index_to_permute_inside over the first k positions. */
  function Flagged(t: Taxonomy, yi: seq<int>, kind: Kind, k: nat): set<nat>
    requires k <= |yi|
  {
    set p: nat | p < k && KindOf(t, yi[p]) == kind
  }

  /** Begin- and inside-flagged positions together. */
  function FlaggedCount(t: Taxonomy, yi: seq<int>): nat
  {
    |Flagged(t, yi, Begin, |yi|)| + |Flagged(t, yi, Inside, |yi|)|
  }

  /** Some category tried at an inside position is inside-prefixed. */
  predicate HasInsideCategory(t: Taxonomy)
  {
    exists c :: 0 <= c < CategoryCount(t) && StartsWith(Label(t, c), t.insidePrefix)
  }

  /** Position 0 is inside-flagged and some category is inside-prefixed, so
      line 102 reads el[-1] of the only partial sequence, which is empty. */
  predicate StartsInside(t: Taxonomy, yi: seq<int>)
  {
    |yi| > 0 && KindOf(t, yi[0]) == Inside && HasInsideCategory(t)
  }

  /** What get_permutations returns, or the error that stops it. */
  function Permutations(t: Taxonomy, yi: seq<int>): Result<seq<seq<int>>>
  {
    match FirstUnknown(t, yi, |yi|)
    case Some(p) => Err(UnknownPrefix(Label(t, yi[p])))
    case None =>
      if FlaggedCount(t, yi) > 6 then Ok(Without([Repeat(t.majorityClass, |yi|)], yi))
      else if StartsInside(t, yi) then Err(InsideAtStart)
      else Ok(Without(Build(t, yi, |yi|), yi))
  }

  // ---------------------------------------------------------------------
  // Membership, loop by loop.

  lemma {:induction false} AppendAllMember(alts: seq<seq<int>>, c: int, x: seq<int>)
    ensures x in AppendAll(alts, c) <==> x != [] && x[|x| - 1] == c && x[..|x| - 1] in alts
  {
    if alts != [] {
      var init := alts[..|alts| - 1];
      var el := alts[|alts| - 1];
      AppendAllMember(init, c, x);
      assert AppendAll(alts, c) == AppendAll(init, c) + [el + [c]];
      assert x in AppendAll(alts, c) <==> x in AppendAll(init, c) || x == el + [c];
      assert (el + [c])[..|el|] == el;
      if x != [] && x[|x| - 1] == c && x[..|x| - 1] == el {
        assert x == el + [c];
      }
      assert x in alts <==> x in init || x == el;
    }
  }

  lemma {:induction false} AppendAllAt(alts: seq<seq<int>>, c: int)
    ensures forall i :: 0 <= i < |alts| ==> AppendAll(alts, c)[i] == alts[i] + [c]
  {
    if alts != [] {
      AppendAllAt(alts[..|alts| - 1], c);
    }
  }

  /** A category that is neither inside-prefixed nor the outside label adds
      nothing at an inside position. */
  lemma {:induction false} InsideCategoryEmpty(t: Taxonomy, alts: seq<seq<int>>, c: int)
    requires !StartsWith(Label(t, c), t.insidePrefix) && Label(t, c) != t.outsideClass
    ensures InsideCategory(t, alts, c) == []
  {
    if alts != [] {
      InsideCategoryEmpty(t, alts[..|alts| - 1], c);
    }
  }

  lemma {:induction false} BeginBranchMember(t: Taxonomy, alts: seq<seq<int>>, k: nat, x: seq<int>)
    ensures x in BeginBranch(t, alts, k) <==>
              x != [] && 0 <= x[|x| - 1] < k && BeginAllowed(t, x[|x| - 1]) && x[..|x| - 1] in alts
  {
    if k > 0 {
      BeginBranchMember(t, alts, k - 1, x);
      AppendAllMember(alts, k - 1, x);
      var earlier := BeginBranch(t, alts, k - 1);
      var last := if BeginAllowed(t, k - 1) then AppendAll(alts, k - 1) else [];
      assert BeginBranch(t, alts, k) == earlier + last;
      assert x in earlier + last <==> x in earlier || x in last;
    }
  }

  lemma {:induction false} InsideCategoryMember(t: Taxonomy, alts: seq<seq<int>>, c: int, x: seq<int>)
    ensures x in InsideCategory(t, alts, c) <==>
              x != [] && x[|x| - 1] == c && InsideAllowed(t, x[..|x| - 1], c) && x[..|x| - 1] in alts
  {
    if alts != [] {
      var init := alts[..|alts| - 1];
      var el := alts[|alts| - 1];
      InsideCategoryMember(t, init, c, x);
      var ok := InsideAllowed(t, el, c);
      assert InsideCategory(t, alts, c) == InsideCategory(t, init, c) + (if ok then [el + [c]] else []);
      assert x in InsideCategory(t, alts, c) <==> x in InsideCategory(t, init, c) || (ok && x == el + [c]);
      assert (el + [c])[..|el|] == el;
      if x != [] && x[|x| - 1] == c && x[..|x| - 1] == el {
        assert x == el + [c];
      }
      assert x in alts <==> x in init || x == el;
    }
  }

  lemma {:induction false} InsideBranchMember(t: Taxonomy, alts: seq<seq<int>>, k: nat, x: seq<int>)
    ensures x in InsideBranch(t, alts, k) <==>
              x != [] && 0 <= x[|x| - 1] < k && InsideAllowed(t, x[..|x| - 1], x[|x| - 1]) && x[..|x| - 1] in alts
  {
    if k == 0 {
      assert InsideBranch(t, alts, k) == [];
    } else {
      InsideBranchMember(t, alts, k - 1, x);
      InsideCategoryMember(t, alts, k - 1, x);
      var earlier := InsideBranch(t, alts, k - 1);
      var last := InsideCategory(t, alts, k - 1);
      assert InsideBranch(t, alts, k) == earlier + last;
      InsideBranchStep(t, alts, k, x, earlier, last);
    }
  }

  /** Adding category k - 1 to the first k - 1 categories. */
  lemma InsideBranchStep(t: Taxonomy, alts: seq<seq<int>>, k: nat, x: seq<int>,
                         earlier: seq<seq<int>>, last: seq<seq<int>>)
    requires k > 0
    requires x in earlier <==>
               x != [] && 0 <= x[|x| - 1] < k - 1 && InsideAllowed(t, x[..|x| - 1], x[|x| - 1]) && x[..|x| - 1] in alts
    requires x in last <==>
               x != [] && x[|x| - 1] == k - 1 && InsideAllowed(t, x[..|x| - 1], k - 1) && x[..|x| - 1] in alts
    ensures x in earlier + last <==>
              x != [] && 0 <= x[|x| - 1] < k && InsideAllowed(t, x[..|x| - 1], x[|x| - 1]) && x[..|x| - 1] in alts
  {
    assert x in earlier + last <==> x in earlier || x in last;
  }

  lemma ExtendMember(t: Taxonomy, yi: seq<int>, alts: seq<seq<int>>, p: nat, x: seq<int>)
    requires p < |yi|
    ensures x in Extend(t, yi, alts, p) <==>
              x != [] && x[..|x| - 1] in alts && StepOk(t, yi, x[..|x| - 1], x[|x| - 1], p)
  {
    match KindOf(t, yi[p])
    case Begin => BeginBranchMember(t, alts, CategoryCount(t), x);
    case Inside => InsideBranchMember(t, alts, CategoryCount(t), x);
    case _ => AppendAllMember(alts, t.majorityClass, x);
  }

  /** Every one of the first k positions of x is allowed. */
  predicate PrefixOk(t: Taxonomy, yi: seq<int>, x: seq<int>, k: nat)
    requires k <= |yi| && k <= |x|
  {
    forall p :: 0 <= p < k ==> PositionOk(t, yi, x, p)
  }

  lemma PrefixOkStep(t: Taxonomy, yi: seq<int>, x: seq<int>)
    requires 0 < |x| <= |yi|
    ensures PrefixOk(t, yi, x, |x|) <==>
              PrefixOk(t, yi, x[..|x| - 1], |x| - 1) && StepOk(t, yi, x[..|x| - 1], x[|x| - 1], |x| - 1)
  {
    var init := x[..|x| - 1];
    forall p | 0 <= p < |x| - 1
      ensures PositionOk(t, yi, x, p) == PositionOk(t, yi, init, p)
    {
      assert init[..p] == x[..p];
    }
    assert PositionOk(t, yi, x, |x| - 1) == StepOk(t, yi, init, x[|x| - 1], |x| - 1);
    if PrefixOk(t, yi, init, |x| - 1) && StepOk(t, yi, init, x[|x| - 1], |x| - 1) {
      forall p | 0 <= p < |x| ensures PositionOk(t, yi, x, p) {
        if p < |x| - 1 {
          assert PositionOk(t, yi, init, p);
        }
      }
    }
  }

  /** One branching step: if the old partial sequences are exactly the
      allowed ones of length k - 1, the new ones are exactly the allowed ones
      of length k. */
  lemma BuildStep(t: Taxonomy, yi: seq<int>, alts: seq<seq<int>>, k: nat, x: seq<int>)
    requires 0 < k <= |yi|
    requires x != [] ==> (x[..|x| - 1] in alts <==> |x| - 1 == k - 1 && PrefixOk(t, yi, x[..|x| - 1], k - 1))
    ensures x in Extend(t, yi, alts, k - 1) <==> |x| == k && PrefixOk(t, yi, x, k)
  {
    ExtendMember(t, yi, alts, k - 1, x);
    if x != [] && |x| == k {
      PrefixOkStep(t, yi, x);
    }
  }

  /** The alternatives built for the first k positions are exactly the
      sequences of length k that the span grammar allows at each of them. */
  lemma {:induction false} BuildMember(t: Taxonomy, yi: seq<int>, k: nat, x: seq<int>)
    requires k <= |yi|
    ensures x in Build(t, yi, k) <==> |x| == k && PrefixOk(t, yi, x, k)
  {
    if k > 0 {
      var alts := Build(t, yi, k - 1);
      assert Build(t, yi, k) == Extend(t, yi, alts, k - 1);
      if x != [] {
        BuildMember(t, yi, k - 1, x[..|x| - 1]);
      }
      BuildStep(t, yi, alts, k, x);
    }
  }

  lemma {:induction false} WithoutMember(alts: seq<seq<int>>, yi: seq<int>, x: seq<int>)
    ensures x in Without(alts, yi) <==> x in alts && x != yi
  {
    if alts != [] {
      WithoutMember(alts[..|alts| - 1], yi, x);
      assert x in alts <==> x in alts[..|alts| - 1] || x == alts[|alts| - 1];
    }
  }

  lemma {:induction false} FirstUnknownFinds(t: Taxonomy, yi: seq<int>, k: nat)
    requires k <= |yi|
    ensures FirstUnknown(t, yi, k).None? <==> forall p :: 0 <= p < k ==> KindOf(t, yi[p]) != Unknown
    ensures FirstUnknown(t, yi, k).Some? ==>
              var p := FirstUnknown(t, yi, k).value;
              p < k && KindOf(t, yi[p]) == Unknown
  {
    if k > 0 {
      FirstUnknownFinds(t, yi, k - 1);
    }
  }

  lemma {:induction false} FirstUnknownStable(t: Taxonomy, yi: seq<int>, k: nat, n: nat)
    requires k <= n <= |yi| && FirstUnknown(t, yi, k).Some?
    ensures FirstUnknown(t, yi, n) == FirstUnknown(t, yi, k)
    decreases n
  {
    if k < n {
      FirstUnknownStable(t, yi, k, n - 1);
    }
  }

  // ---------------------------------------------------------------------
  // What get_permutations promises.

  /** get_permutations stops at line 70 exactly when some predicted label
      is neither the majority index nor begin- or inside-prefixed, and it
      names the first such label. */
  lemma UnknownPrefixIsFatal(t: Taxonomy, yi: seq<int>)
    ensures (Permutations(t, yi).Err? && Permutations(t, yi).error.UnknownPrefix?) <==>
            exists p :: 0 <= p < |yi| && KindOf(t, yi[p]) == Unknown
    ensures (Permutations(t, yi).Err? && Permutations(t, yi).error.UnknownPrefix?) ==>
              exists p :: 0 <= p < |yi| && KindOf(t, yi[p]) == Unknown &&
                          Permutations(t, yi).error == UnknownPrefix(Label(t, yi[p])) &&
                          forall q :: 0 <= q < p ==> KindOf(t, yi[q]) != Unknown
  {
    FirstUnknownFinds(t, yi, |yi|);
    if FirstUnknown(t, yi, |yi|).Some? {
      var p := FirstUnknown(t, yi, |yi|).value;
      FirstUnknownFinds(t, yi, p);
      FirstUnknownStable(t, yi, p + 1, |yi|);
    }
  }

  /** Otherwise get_permutations raises at line 102 exactly when, under the
      cap, position 0 is inside-flagged and some category is
      inside-prefixed; these are its only two ways to fail. */
  lemma InsideAtStartIsFatal(t: Taxonomy, yi: seq<int>)
    ensures Permutations(t, yi) == Err(InsideAtStart) <==>
              (forall p :: 0 <= p < |yi| ==> KindOf(t, yi[p]) != Unknown) &&
              FlaggedCount(t, yi) <= 6 && StartsInside(t, yi)
    ensures Permutations(t, yi).Err? ==>
              Permutations(t, yi).error.UnknownPrefix? || Permutations(t, yi).error == InsideAtStart
  {
    FirstUnknownFinds(t, yi, |yi|);
  }

  /** More than six flagged positions: the only alternative is the
      all-majority sequence of the same length. */
  lemma CapGivesAllMajority(t: Taxonomy, yi: seq<int>)
    requires Permutations(t, yi).Ok? && FlaggedCount(t, yi) > 6
    ensures Permutations(t, yi).value == [Repeat(t.majorityClass, |yi|)]
  {
    var flagged := Flagged(t, yi, Begin, |yi|) + Flagged(t, yi, Inside, |yi|);
    assert flagged != {};
    var p :| p in flagged;
    assert yi[p] != t.majorityClass;
    assert Repeat(t.majorityClass, |yi|)[p] != yi[p];
    assert Without([], yi) == [];
    assert [Repeat(t.majorityClass, |yi|)][..0] == [];
  }

  /** At most six flagged positions: an alternative is returned exactly
      when it is grammatical and differs from the prediction. */
  lemma AlternativesAreGrammatical(t: Taxonomy, yi: seq<int>, x: seq<int>)
    requires Permutations(t, yi).Ok? && FlaggedCount(t, yi) <= 6
    ensures x in Permutations(t, yi).value <==> Grammatical(t, yi, x) && x != yi
  {
    WithoutMember(Build(t, yi, |yi|), yi, x);
    BuildMember(t, yi, |yi|, x);
  }

  /** Every alternative has the prediction's length, differs from it, and
      keeps the majority label wherever the prediction has it. */
  lemma AlternativesKeepMajority(t: Taxonomy, yi: seq<int>, x: seq<int>)
    requires Permutations(t, yi).Ok? && x in Permutations(t, yi).value
    ensures |x| == |yi| && x != yi
    ensures forall p :: 0 <= p < |yi| && yi[p] == t.majorityClass ==> x[p] == t.majorityClass
  {
    if FlaggedCount(t, yi) > 6 {
      CapGivesAllMajority(t, yi);
    } else {
      AlternativesAreGrammatical(t, yi, x);
      forall p | 0 <= p < |yi| && yi[p] == t.majorityClass
        ensures x[p] == t.majorityClass
      {
        assert PositionOk(t, yi, x, p);
      }
    }
  }

  /** Under the cap, a begin-flagged position holds a begin-prefixed label
      or the outside label, and an inside-flagged position holds the
      outside label or an inside label that continues the label before it. */
  lemma FlaggedPositionsFollowGrammar(t: Taxonomy, yi: seq<int>, x: seq<int>, p: nat)
    requires Permutations(t, yi).Ok? && FlaggedCount(t, yi) <= 6
    requires x in Permutations(t, yi).value && p < |yi|
    ensures |x| == |yi|
    ensures KindOf(t, yi[p]) == Begin ==>
              StartsWith(Label(t, x[p]), t.beginningPrefix) || Label(t, x[p]) == t.outsideClass
    ensures KindOf(t, yi[p]) == Inside ==>
              Label(t, x[p]) == t.outsideClass ||
              (StartsWith(Label(t, x[p]), t.insidePrefix) && p > 0 && Continues(t, x[p - 1], x[p]))
  {
    AlternativesAreGrammatical(t, yi, x);
    assert PositionOk(t, yi, x, p);
    if p > 0 {
      assert x[..p][p - 1] == x[p - 1];
    }
  }

  /** Every label an alternative carries is in the inverse dictionary, so
      each lookup get_permutations makes on a partial sequence succeeds. */
  lemma AlternativeLabelsIndexed(t: Taxonomy, yi: seq<int>, k: nat, x: seq<int>)
    requires IndexedLabels(t) && k <= |yi| && x in Build(t, yi, k)
    ensures |x| == k && forall p :: 0 <= p < k ==> x[p] in t.invLabelDict
  {
    BuildMember(t, yi, k, x);
    forall p | 0 <= p < k ensures x[p] in t.invLabelDict {
      assert PositionOk(t, yi, x, p);
    }
  }

  // ---------------------------------------------------------------------
  // The source's loops.

  /** Lines 87-95: branch every partial sequence over the begin labels and
      the outside label, category by category. */
  method BranchBegin(t: Taxonomy, alts: seq<seq<int>>) returns (next: seq<seq<int>>)
    ensures next == BeginBranch(t, alts, CategoryCount(t))
  {
    next := [];
    for category := 0 to CategoryCount(t)
      invariant next == BeginBranch(t, alts, category)
    {
      var name := Label(t, category);
      if StartsWith(name, t.beginningPrefix) || name == t.outsideClass {
        for j := 0 to |alts|
          invariant next == BeginBranch(t, alts, category) + AppendAll(alts[..j], category)
        {
          assert alts[..j + 1][..j] == alts[..j];
          next := next + [alts[j] + [category]];
        }
        assert alts[..|alts|] == alts;
      }
    }
  }

  /** Lines 99-112 for one category: append to new_yi_alternatives every
      partial sequence that the category may extend, extended by it. An
      inside category meeting the empty partial sequence raises. */
  method ExtendInside(t: Taxonomy, alts: seq<seq<int>>, category: int, acc: seq<seq<int>>)
    returns (r: Result<seq<seq<int>>>)
    ensures r.Err? <==> StartsWith(Label(t, category), t.insidePrefix) && [] in alts
    ensures r.Err? ==> r.error == InsideAtStart
    ensures r.Ok? ==> r.value == acc + InsideCategory(t, alts, category)
  {
    var name := Label(t, category);
    if StartsWith(name, t.insidePrefix) {
      r := ContinueSpans(t, alts, category, acc);
    } else if name == t.outsideClass {
      var next := CloseSpans(t, alts, category, acc);
      r := Ok(next);
    } else {
      InsideCategoryEmpty(t, alts, category);
      r := Ok(acc);
    }
  }

  /** Lines 100-107: an inside category extends the partial sequences whose
      last label is a begin or inside label of the same category; el[-1] of
      an empty partial sequence raises IndexError. */
  method ContinueSpans(t: Taxonomy, alts: seq<seq<int>>, category: int, acc: seq<seq<int>>)
    returns (r: Result<seq<seq<int>>>)
    requires StartsWith(Label(t, category), t.insidePrefix)
    ensures r.Err? <==> [] in alts
    ensures r.Err? ==> r.error == InsideAtStart
    ensures r.Ok? ==> r.value == acc + InsideCategory(t, alts, category)
  {
    var next := acc;
    var name := Label(t, category);
    for j := 0 to |alts|
      invariant [] !in alts[..j]
      invariant next == acc + InsideCategory(t, alts[..j], category)
    {
      assert alts[..j + 1][..j] == alts[..j];
      var el := alts[j];
      if el == [] {
        return Err(InsideAtStart);
      }
      assert InsideCategory(t, alts[..j + 1], category) ==
             InsideCategory(t, alts[..j], category) + (if InsideAllowed(t, el, category) then [el + [category]] else []);
      var prev := Label(t, el[|el| - 1]);
      if (StartsWith(prev, t.insidePrefix) || StartsWith(prev, t.beginningPrefix)) &&
         Drop(prev, |t.insidePrefix|) == Drop(name, |t.insidePrefix|) {
        next := next + [el + [category]];
      }
    }
    assert alts[..|alts|] == alts;
    r := Ok(next);
  }

  /** Lines 108-112: the outside label extends every partial sequence. */
  method CloseSpans(t: Taxonomy, alts: seq<seq<int>>, category: int, acc: seq<seq<int>>)
    returns (next: seq<seq<int>>)
    requires !StartsWith(Label(t, category), t.insidePrefix) && Label(t, category) == t.outsideClass
    ensures next == acc + InsideCategory(t, alts, category)
  {
    next := acc;
    for j := 0 to |alts|
      invariant next == acc + InsideCategory(t, alts[..j], category)
    {
      assert alts[..j + 1][..j] == alts[..j];
      next := next + [alts[j] + [category]];
    }
    assert alts[..|alts|] == alts;
  }

  /** Lines 97-114: branch every partial sequence over the inside labels
      that continue its last label, and over the outside label; the first
      inside-prefixed category raises when a partial sequence is empty. */
  method BranchInside(t: Taxonomy, alts: seq<seq<int>>) returns (r: Result<seq<seq<int>>>)
    ensures r.Err? <==> [] in alts && HasInsideCategory(t)
    ensures r.Err? ==> r.error == InsideAtStart
    ensures r.Ok? ==> r.value == InsideBranch(t, alts, CategoryCount(t))
  {
    var next := [];
    for category := 0 to CategoryCount(t)
      invariant [] in alts ==> forall c :: 0 <= c < category ==> !StartsWith(Label(t, c), t.insidePrefix)
      invariant next == InsideBranch(t, alts, category)
    {
      var step := ExtendInside(t, alts, category, next);
      if step.Err? {
        return Err(InsideAtStart);
      }
      next := step.value;
    }
    r := Ok(next);
  }

  /** Lines 116-117: append the majority label to every partial sequence,
      in place. */
  method AppendMajority(t: Taxonomy, alts: seq<seq<int>>) returns (next: seq<seq<int>>)
    ensures next == AppendAll(alts, t.majorityClass)
  {
    next := alts;
    for j := 0 to |alts|
      invariant |next| == |alts|
      invariant forall i :: 0 <= i < j ==> next[i] == alts[i] + [t.majorityClass]
      invariant forall i :: j <= i < |alts| ==> next[i] == alts[i]
    {
      next := next[j := next[j] + [t.majorityClass]];
    }
    AppendAllAt(alts, t.majorityClass);
  }

  /** Lines 59-78: collect the begin- and inside-flagged positions, or stop
      at the first label with neither prefix. */
  method FlagPositions(yi: seq<int>, t: Taxonomy) returns (r: Result<(set<nat>, set<nat>)>)
    requires LabelsKnown(t, yi)
    ensures r.Err? <==> FirstUnknown(t, yi, |yi|).Some?
    ensures r.Err? ==> r.error == UnknownPrefix(Label(t, yi[FirstUnknown(t, yi, |yi|).value]))
    ensures r.Ok? ==> r.value == (Flagged(t, yi, Begin, |yi|), Flagged(t, yi, Inside, |yi|))
  {
    var begins: set<nat> := {};
    var insides: set<nat> := {};
    for index := 0 to |yi|
      invariant FirstUnknown(t, yi, index).None?
      invariant begins == Flagged(t, yi, Begin, index)
      invariant insides == Flagged(t, yi, Inside, index)
    {
      var el := yi[index];
      if el != t.majorityClass {
        var name := t.invLabelDict[el];
        if StartsWith(name, t.beginningPrefix) {
          begins := begins + {index};
        } else if StartsWith(name, t.insidePrefix) {
          insides := insides + {index};
        } else {
          FirstUnknownStable(t, yi, index + 1, |yi|);
          return Err(UnknownPrefix(name));
        }
      }
    }
    r := Ok((begins, insides));
  }

  /** Lines 85-117: build the alternatives position by position. Only the
      first position meets the empty partial sequence. */
  method BuildAlternatives(yi: seq<int>, t: Taxonomy, begins: set<nat>, insides: set<nat>)
    returns (r: Result<seq<seq<int>>>)
    requires IndexedLabels(t)
    requires begins == Flagged(t, yi, Begin, |yi|) && insides == Flagged(t, yi, Inside, |yi|)
    ensures r.Err? <==> StartsInside(t, yi)
    ensures r.Err? ==> r.error == InsideAtStart
    ensures r.Ok? ==> r.value == Build(t, yi, |yi|)
  {
    var alts := [[]];
    for position := 0 to |yi|
      invariant alts == Build(t, yi, position)
      invariant 0 < position ==> !StartsInside(t, yi)
    {
      assert Build(t, yi, position + 1) == Extend(t, yi, alts, position);
      if position in begins {
        assert KindOf(t, yi[position]) == Begin;
        alts := BranchBegin(t, alts);
      } else if position in insides {
        assert KindOf(t, yi[position]) == Inside;
        var branched := BranchInside(t, alts);
        if branched.Err? {
          EmptyOnlyAtStart(t, yi, position);
          return Err(InsideAtStart);
        }
        alts := branched.value;
      } else {
        assert KindOf(t, yi[position]) != Begin && KindOf(t, yi[position]) != Inside;
        alts := AppendMajority(t, alts);
      }
    }
    r := Ok(alts);
  }

  /** Only the first position meets an empty partial sequence. */
  lemma EmptyOnlyAtStart(t: Taxonomy, yi: seq<int>, k: nat)
    requires k <= |yi| && [] in Build(t, yi, k)
    ensures k == 0
  {
    BuildMember(t, yi, k, []);
  }

  /** get_permutations. The predictor only emits known indices. */
  method GetPermutations(yi: seq<int>, t: Taxonomy) returns (r: Result<seq<seq<int>>>)
    requires IndexedLabels(t) && LabelsKnown(t, yi)
    ensures r == Permutations(t, yi)
  {
    var flagged := FlagPositions(yi, t);
    if flagged.Err? {
      return Err(flagged.error);
    }
    var (begins, insides) := flagged.value;
    var alts: seq<seq<int>>;
    if |begins| + |insides| > 6 {
      alts := [Repeat(t.majorityClass, |yi|)];
    } else {
      var built := BuildAlternatives(yi, t, begins, insides);
      if built.Err? {
        return Err(built.error);
      }
      alts := built.value;
    }
    r := Ok(Without(alts, yi));
  }
}
