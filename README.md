# Uncertainty sampling for named-entity pre-annotation, in Dafny

This project models the selection core of `classify_and_select.py`, an
active-learning step for sequence labelling with begin/inside/outside
labels. A structured classifier trained on the labelled sentences predicts
a label for every token. The core then chooses the unlabelled sentences the
classifier is least sure about, as follows:

- **Label taxonomy** (`StructuredModel.__init__`). Looks up the minority
  (entity) classes in the label dictionary. Builds the inverse dictionary.
  Takes as the majority class the last index that is not a minority index.
- **Alternative sequences** (`get_permutations`). For a predicted label
  sequence, it lists every sequence that re-labels only the begin- and
  inside-labelled positions and respects the span grammar. There is no
  branching when more than six positions are flagged. The prediction
  itself is dropped from the list.
- **Margin** (`get_smallest_diff_alternative`). The smallest amount by
  which the prediction's score exceeds an alternative's score. It starts
  from the sentinel 10000.
- **Ranking** (`get_uncertainty_unlabelled`, `is_minority_classes_in_vector`):
  1. Refuses a batch size of 0.
  2. Clamps the batch size to the pool.
  3. Predicts a shuffled subsample.
  4. Keeps the predictions that contain a minority class, with their margins.
  5. Clamps the batch size again, to the number of those candidates.
  6. Sorts the candidates.
  7. Lets the selector pick the batch.
  8. Removes the batch from the pool and from the pool's texts.
- **Diversity selection**
  (`get_uncertainty_selected_sentences_with_different_vocabulary`). A
  greedy pass over at most the 50 best-ranked candidates. It accepts a
  candidate only if none of its minority-predicted tokens was seen before.
  It tops up from the passed-over candidates when too few are accepted.

Modules, one per component: `Common` (error results, string and sequence
helpers), `Taxonomy`, `Alternatives`, `MarginScorer`, `Selector`, `Ranker`.

Every `for` loop of the source is a `method` with the same loop, including
the early-return loop of `is_minority_classes_in_vector`. The method is
proved equal to a recursive specification function, or its result is
described element by element (the gathering loops of `GatherSelected` and
`ScanSample`), and the properties are lemmas about those functions. Functions and lemmas refer to the same
definitions, so each method's `ensures` connects it to every property proved
about its specification function. The list comprehension at line 118,
which filters the prediction out of the alternatives, is an expression
rather than a loop, and is the recursive function `Without`.

Where the Python stops the process or raises, the model returns an
`Err(...)` result:

| source behaviour | model |
|---|---|
| a `KeyError` on an unknown minority name | `UnknownMinorityClass` |
| `majority_class` never assigned | `NoMajorityClass` |
| `exit(1)` on an unknown prefix | `UnknownPrefix` |
| `exit(1)` on a step size of 0 | `ZeroStepSize` |
| `IndexError` from `el[-1]` on an empty partial sequence (line 102) | `InsideAtStart` |

The trained model is represented by two parameters:

- `predict: X -> seq<int>`, the learner's prediction for one sentence;
- `score: (X, seq<int>) -> int`, the value of `w . joint_feature(x, y)`.

The output of `shuffle(range(n))` is the parameter `shuffled`, a permutation
of the pool's indices.

The label dictionary is a sequence of `(name, index)` entries, in the
dictionary's insertion order (the iteration order of Python 3.7 and later).
The order matters twice:

- when two names share an index, the later one wins in `inv_label_dict`;
- the keys of `inv_label_dict` are visited in first-insertion order, which
  decides the majority class.

Preconditions, each what the source relies on without checking:

- `IndexedLabels`: every category index `0..len(minority_classes_index)` and
  the majority index are keys of `inv_label_dict`. Lines 88, 98 and 102 look
  these up.
- `LabelsKnown`: every predicted label is a key of `inv_label_dict` (line 63).
- `KeysDistinct`: no label name occurs twice in `label_dict`, as the keys of
  a Python dict never do.
- A sentence has a token for every predicted position (line 33).
- The batch size is a natural number.

A prediction that starts with an inside-prefixed label is not excluded.
When every label of the prediction is the majority class or has a begin or
inside prefix, at most six positions are flagged and some category is
inside-prefixed, line 102 reads `el[-1]` of the empty partial sequence at
position 0 and Python raises `IndexError`, which the model returns as
`InsideAtStart`. When a label has neither prefix, the loop at lines 61-70
reaches it first and exits at line 70, so line 102 never runs. When every
label has a prefix and more than six positions are flagged, the source never
reaches line 102 and returns the all-majority alternative.

## Model

| member | source | states |
|---|---|---|
| Common.Drop | classify_and_select.py:103 | `s[n:]` is the suffix after the first n characters, and empty when n is past the end |
| Common.Repeat | classify_and_select.py:82 | `[x] * n` has length n and holds x everywhere |
| Taxonomy.Lookup | classify_and_select.py:255 | `label_dict[name]` is absent exactly when no entry has that name; a found index belongs to an entry with that name |
| Taxonomy.MinorityIndices | classify_and_select.py:252-255 | the minority indices are found exactly when every minority name is a key; then there is one per name, in order, each the name's index |
| Taxonomy.NewTaxonomy | classify_and_select.py:242-261 | the constructor's three loops produce exactly the specified taxonomy: minority indices, inverse dictionary, last non-minority key as majority; or the KeyError / unassigned-majority error |
| Taxonomy.MinorityIndicesPrefixErr | classify_and_select.py:252-255 | the first minority name missing from the dictionary ends the lookup with that error |
| Taxonomy.InverseDictionary | classify_and_select.py:257 | the inverse dictionary's keys are the indices in use, each listed once; each maps to the name of the last entry holding it |
| Taxonomy.InverseRoundTrip | classify_and_select.py:257 | with distinct names and indices, `inv_label_dict` and `label_dict` undo each other in both directions |
| Taxonomy.LastNotInIsLastNonMinority | classify_and_select.py:258-260 | the majority loop finds a key exactly when some key is not a minority index, and it is the last such key |
| Taxonomy.MajorityIsNonMinorityIndex | classify_and_select.py:252-260 | `majority_class` is a key of `inv_label_dict` and not a minority index; it is missing exactly when every index in use is a minority index |
| Alternatives.GetPermutations | classify_and_select.py:53-126 | the generator's loops return exactly the specified alternatives, or the unknown-prefix error, or the IndexError of line 102 |
| Alternatives.FlagPositions | classify_and_select.py:59-78 | the first loop collects exactly the begin- and inside-labelled positions, or stops with the first label that has neither prefix |
| Alternatives.BuildAlternatives | classify_and_select.py:85-117 | the position loop builds exactly the specified partial sequences, one branching step per position; it raises exactly when position 0 is inside-flagged and some category is inside-prefixed |
| Alternatives.BranchBegin | classify_and_select.py:87-95 | a begin position extends every partial sequence by every begin-prefixed or outside category, category by category |
| Alternatives.ExtendInside | classify_and_select.py:99-112 | one category at an inside position extends exactly the partial sequences it may follow; an inside category meeting an empty partial sequence raises |
| Alternatives.ContinueSpans | classify_and_select.py:100-107 | an inside category extends exactly the partial sequences whose last label is a begin or inside label of the same category; it raises exactly when some partial sequence is empty |
| Alternatives.CloseSpans | classify_and_select.py:108-112 | the outside label extends every partial sequence at an inside position |
| Alternatives.BranchInside | classify_and_select.py:96-114 | an inside position extends each partial sequence by the outside label and by the inside labels continuing its last label; it raises exactly when a partial sequence is empty and some category is inside-prefixed |
| Alternatives.AppendMajority | classify_and_select.py:115-117 | an unflagged position appends the majority class to every partial sequence in place, keeping their order |
| Alternatives.AppendAllMember | classify_and_select.py:116-117 | after appending c, the sequences are exactly the old ones extended by c |
| Alternatives.BeginBranchMember | classify_and_select.py:87-95 | a sequence leaves a begin position exactly when it extends an old one by an allowed category below the count |
| Alternatives.InsideCategoryMember | classify_and_select.py:99-112 | one inside category yields exactly the old sequences it may continue, extended by it |
| Alternatives.InsideCategoryEmpty | classify_and_select.py:98-112 | a category that is neither inside-prefixed nor outside adds nothing |
| Alternatives.InsideBranchMember | classify_and_select.py:96-114 | a sequence leaves an inside position exactly when it extends an old one by an allowed category below the count |
| Alternatives.ExtendMember | classify_and_select.py:85-117 | one position's step keeps exactly the extensions the span grammar allows there |
| Alternatives.BuildMember | classify_and_select.py:85-117 | the sequences built for the first k positions are exactly the length-k sequences the grammar allows at every position |
| Alternatives.WithoutMember | classify_and_select.py:118 | the final filter keeps exactly the alternatives different from the prediction |
| Alternatives.FirstUnknownFinds | classify_and_select.py:61-70 | the scan finds a label with neither prefix exactly when there is one, and it names such a position |
| Alternatives.UnknownPrefixIsFatal | classify_and_select.py:61-70 | get_permutations stops with the unknown-prefix error exactly when some non-majority label has neither prefix, naming the first such label |
| Alternatives.InsideAtStartIsFatal | classify_and_select.py:80-104 | with every label known and at most six flagged positions, get_permutations raises at line 102 exactly when position 0 is inside-flagged and some category is inside-prefixed; these two errors are its only failures |
| Alternatives.CapGivesAllMajority | classify_and_select.py:80-82 | when get_permutations succeeds (every label known), more than six flagged positions yield exactly one alternative, the all-majority sequence of the prediction's length |
| Alternatives.AlternativesAreGrammatical | classify_and_select.py:85-118 | with at most six flagged positions, a sequence is an alternative exactly when it is grammatical and differs from the prediction |
| Alternatives.AlternativesKeepMajority | classify_and_select.py:80-118 | every alternative has the prediction's length, differs from it, and keeps the majority class wherever the prediction has it |
| Alternatives.FlaggedPositionsFollowGrammar | classify_and_select.py:86-112 | with at most six flagged positions, a begin-flagged position holds a begin or outside label; an inside-flagged one holds outside or an inside label continuing the previous begin/inside label's category |
| Alternatives.AlternativeLabelsIndexed | classify_and_select.py:88-117 | every label of a built alternative is a key of `inv_label_dict` |
| MarginScorer.GetSmallestDiffAlternative | classify_and_select.py:129-148 | the loop's `min_difference` is the specified margin, or get_permutations' error |
| MarginScorer.MinDifferenceIsMinimum | classify_and_select.py:135-146 | the margin is at most 10000 and at most every score difference; it is 10000 for no alternatives, else 10000 or one of the differences |
| MarginScorer.MarginBelowEveryAlternative | classify_and_select.py:129-148 | under the cap, the margin is at most the score difference to every grammatical labelling other than the prediction |
| Selector.ScanSentence | classify_and_select.py:31-36 | the inner loop flags reuse exactly as specified and adds every minority-predicted token to `predicted_words` |
| Selector.SelectWithDifferentVocabulary | classify_and_select.py:25-50 | the greedy pass with its early break and top-up returns exactly the specified indices |
| Selector.StopAfterIsFirstReach | classify_and_select.py:29-42 | the loop stops right after the first visit that brings the accepted count to `step_size`, or at the window's end |
| Selector.FoldCounts | classify_and_select.py:29-40 | every visited candidate goes to exactly one list; each visit accepts at most one |
| Selector.FoldIndicesDistinct | classify_and_select.py:29-40 | with distinct pool indices, the two lists hold distinct indices of visited candidates |
| Selector.FoldWords | classify_and_select.py:30-35 | `predicted_words` is the set of minority-predicted tokens of every visited candidate, accepted or rejected |
| Selector.FoldAcceptance | classify_and_select.py:30-40 | with distinct pool indices, a visited candidate is accepted exactly when it reuses no token seen earlier (or earlier in itself), and rejected otherwise |
| Selector.NoReuseIsDisjoint | classify_and_select.py:32-36 | a candidate that reuses nothing shares no minority-predicted token with the words seen before it |
| Selector.AcceptedVocabularyIsNew | classify_and_select.py:29-40 | with distinct pool indices, an accepted candidate shares no minority-predicted token with any earlier visited candidate |
| Selector.AcceptedInRankOrder | classify_and_select.py:29-38 | accepted indices appear in rank order |
| Selector.RejectedInRankOrder | classify_and_select.py:29-40 | rejected indices appear in rank order, so the top-up takes the best-ranked ones first |
| Selector.SelectSize | classify_and_select.py:25-47 | for `step_size >= 1` exactly `min(step_size, 50, len(ranked))` indices are returned |
| Selector.SelectDistinct | classify_and_select.py:25-47 | with distinct pool indices, the result is distinct, comes from the first 50 ranked, starts with all accepted indices and is a prefix of accepted followed by rejected |
| Ranker.HoldsMinorityClass | classify_and_select.py:19-23 | true exactly when some minority class occurs in the prediction |
| Ranker.IsMinorityClassesInVector | classify_and_select.py:19-23 | the early-return loop answers true exactly when some minority class occurs in the prediction |
| Ranker.SortCandidates | classify_and_select.py:196 | the sort returns a permutation of the candidates |
| Ranker.SortedIsAscendingPermutation | classify_and_select.py:196 | `sorted` orders the candidates ascending by (margin, index) as a permutation, keeping indices distinct |
| Ranker.KeptPositions | classify_and_select.py:219-220 | the surviving positions are the undeleted ones, increasing, and with the deleted ones they account for every row |
| Ranker.DeleteKeepsOrder | classify_and_select.py:219-220 | `np.delete` keeps exactly the rows at the surviving positions, in their order |
| Ranker.DeleteDistinctIndices | classify_and_select.py:219-220 | deleting distinct in-range indices shortens the rows by exactly their number |
| Ranker.Sample | classify_and_select.py:164 | the subsample is the first `min(maximum_samples_to_search_among, n)` shuffled indices |
| Ranker.CandidatesAreScoredEntries | classify_and_select.py:175-180 | every candidate is a sampled entry with a minority prediction, carrying its margin, prediction and sentence |
| Ranker.MinorityPredictionsAreCandidates | classify_and_select.py:175-180 | every sampled entry whose prediction holds a minority class becomes a candidate |
| Ranker.CandidatesDistinct | classify_and_select.py:164-180 | candidates from a shuffled sample have distinct pool indices, each taken from the sample |
| Ranker.CandidatesPrefixErr | classify_and_select.py:175-179 | the first failing margin computation ends the scan with its error |
| Ranker.CandidatesErrors | classify_and_select.py:175-179 | the scan fails only with get_permutations' error on some scanned prediction holding a minority class: an unknown prefix or the IndexError of line 102 |
| Ranker.ScanSample | classify_and_select.py:166-180 | gathering, predicting and scoring the subsample yields exactly the specified candidates or error |
| Ranker.ScoreSample | classify_and_select.py:174-180 | the scoring loop over the predicted subsample yields exactly the specified candidates, or stops with the first margin computation's error |
| Ranker.GatherSelected | classify_and_select.py:210-216 | the selected rows, texts and predictions are those at the selected indices, in selection order |
| Ranker.ChosenErrors | classify_and_select.py:152-188 | a step size of 0 is refused; otherwise the call fails exactly when the scan does, with an unknown prefix or the IndexError of line 102 |
| Ranker.ChosenSize | classify_and_select.py:155-197 | the batch has `min(step_size, pool size, candidates, 50)` entries |
| Ranker.ChosenAreMinorityCandidates | classify_and_select.py:164-197 | the batch's indices are distinct sampled pool indices whose predictions hold a minority class, each among the 50 best-ranked candidates |
| Ranker.SelectedAreCandidates | classify_and_select.py:196-197 | the selector run on the sorted candidates returns distinct candidate indices, all from the first 50 sorted |
| Ranker.GetUncertaintyUnlabelled | classify_and_select.py:151-222 | returns the specified batch or error; the batch's indices are distinct; the returned rows, texts and predictions are the batch's, and the remaining pool and texts are the originals without the batch, in order, shorter by exactly the batch size |

## Left out

- Training and inference of the chain CRF (`ChainCRF`, `FrankWolfeSSVM`,
  `fit`, `predict`). These are library calls. `predict` is a parameter. It
  is applied to each sentence separately, which is what the batch call at
  line 170 and the single-row call at line 216 compute for a chain model.
- GetSmallestDiffAlternative: `np.dot(w, joint_feature(x, y))` is floating
  point. The model takes an integer-valued `score` parameter, so rounding in
  the differences is not modelled.
- `sklearn.utils.shuffle`: its random permutation is the parameter
  `shuffled`.
- Every `print`, the "most certain" listing (lines 199-208), the unused
  `first_indeces` (line 48) and the unused `predicted_y` in `get_new_data`.
- The `get_new_data` orchestration and `StructuredModel.fit` / `predict`.
  They only construct, train and call into the components modelled here.
- The dead `if False:` branch (lines 71-75). It refers to an undefined
  `index_to_permute`.
- The unused imports (joblib, `GridSearchCV`, `LinearSVC`, the metrics and
  cross-validation helpers).
- `get_permutations` converts its result to a NumPy array (line 124). The
  model keeps it as a sequence of sequences.
- GetUncertaintyUnlabelled: a negative `step_size` or
  `maximum_samples_to_search_among` is not modelled, since both are
  natural numbers here. In Python a negative step size would make the
  selector return at most one index, and a negative search bound would
  slice from the end.
- SortCandidates: Python compares the whole tuple, so for two candidates
  with equal margin and equal index it would go on to compare the NumPy
  predictions, which raises `ValueError` for predictions of more than one
  token. Pool indices are distinct, so that comparison is never reached,
  and the model orders by margin and then index only.
- SelectSize: with `step_size` 0 the selector still visits one candidate and
  can return it. Only the bound `<= 1` is stated for that case, because
  get_uncertainty_unlabelled calls it with 0 only when there are no
  candidates.
- DeleteKeepsOrder: `np.delete` with an empty index list is taken to return
  the rows unchanged.

Three behaviours of the code that a reader might not expect, and that the
model keeps:

- **Words seen.** Tokens count as used not only once an accepted candidate
  registered them: the code adds the minority-predicted tokens of every
  visited candidate, rejected ones included. It also rejects a candidate
  that repeats a token within its own sentence (lines 31-35).
- **Empty batch.** When no candidate has a minority prediction, the code
  only prints a message (lines 192-193) and returns an empty batch, with
  the pool unchanged; it does not stop.
- **Batch size.** The batch size is clamped to the number of candidates
  (lines 186-188) and, in addition, capped at the selector's window of 50
  (line 29).
