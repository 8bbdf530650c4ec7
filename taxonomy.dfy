/** The label taxonomy that StructuredModel's constructor sets up: the
    indices of the minority categories, the inverse label dictionary and
    the majority ("outside") index. */
module Taxonomy {
  import opened Common

  /** A Python dict from label string to label index, as its entries in
      insertion order (the order decides which index becomes the majority). */
  type LabelDict = seq<(string, int)>

  /** A dict never holds the same key twice. */
  predicate KeysDistinct(d: LabelDict)
  {
    forall i, j :: 0 <= i < j < |d| ==> d[i].0 != d[j].0
  }

  /** No two labels share an index, so the dictionary is invertible. */
  predicate ValuesDistinct(d: LabelDict)
  {
    forall i, j :: 0 <= i < j < |d| ==> d[i].1 != d[j].1
  }

  /** The taxonomy fields of a StructuredModel; the trained chain model and
      learner it also owns are not part of this value. */
  datatype Taxonomy = Taxonomy(
    labelDict: LabelDict,
    minorityClasses: seq<string>,
    minorityClassesIndex: seq<int>,
    invLabelDict: map<int, string>,
    majorityClass: int,
    outsideClass: string,
    beginningPrefix: string,
    insidePrefix: string)

  /** inv_label_dict[c]; the empty string for an index the dictionary
      lacks (where the source would raise KeyError, which the callers'
      preconditions rule out). */
  function Label(t: Taxonomy, c: int): string
  {
    if c in t.invLabelDict then t.invLabelDict[c] else ""
  }

  /** The indices get_permutations looks up are in the inverse dictionary:
      the majority index and every index in range(0, len(minority) + 1). */
  predicate IndexedLabels(t: Taxonomy)
  {
    t.majorityClass in t.invLabelDict &&
    forall c :: 0 <= c <= |t.minorityClassesIndex| ==> c in t.invLabelDict
  }

  /** Every label of a predicted sequence is a known index. */
  predicate LabelsKnown(t: Taxonomy, y: seq<int>)
  {
    forall p :: 0 <= p < |y| ==> y[p] in t.invLabelDict
  }

  /** label_dict[key]. */
  function Lookup(d: LabelDict, key: string): (r: Option<int>)
    ensures r.None? <==> forall i :: 0 <= i < |d| ==> d[i].0 != key
    ensures r.Some? ==> exists i :: 0 <= i < |d| && d[i] == (key, r.value)
  {
    if d == [] then None
    else if d[0].0 == key then Some(d[0].1)
    else
      var r := Lookup(d[1..], key);
      assert r.Some? ==> exists i :: 1 <= i < |d| && d[i] == (key, r.value) by {
        if r.Some? {
          var i :| 0 <= i < |d[1..]| && d[1..][i] == (key, r.value);
          assert d[i + 1] == (key, r.value);
        }
      }
      r
  }

  /** minority_classes_index: the index of every minority class name, in
      order, or the first name that the dictionary lacks. */
  function MinorityIndices(d: LabelDict, names: seq<string>): (r: Result<seq<int>>)
    ensures r.Ok? ==> |r.value| == |names|
    ensures r.Ok? ==> forall k :: 0 <= k < |names| ==> Lookup(d, names[k]) == Some(r.value[k])
    ensures r.Ok? <==> forall k :: 0 <= k < |names| ==> Lookup(d, names[k]).Some?
  {
    if names == [] then Ok([])
    else
      var init := names[..|names| - 1];
      var name := names[|names| - 1];
      match MinorityIndices(d, init)
      case Err(e) => Err(e)
      case Ok(p) =>
        match Lookup(d, name)
        case None => Err(UnknownMinorityClass(name))
        case Some(v) => Ok(p + [v])
  }

  /** Some entry of the dictionary has index v. */
  predicate HasIndex(d: LabelDict, v: int)
  {
    exists i :: 0 <= i < |d| && d[i].1 == v
  }

  /** Entry i is the last one with its index. */
  predicate LastWithIndex(d: LabelDict, i: int)
    requires 0 <= i < |d|
  {
    forall j :: i < j < |d| ==> d[j].1 != d[i].1
  }

  /** The keys of inv_label_dict in its iteration order: each index the
      first time it appears as a value. */
  function InvKeys(d: LabelDict): seq<int>
  {
    if d == [] then []
    else
      var p := InvKeys(d[..|d| - 1]);
      var v := d[|d| - 1].1;
      if v in p then p else p + [v]
  }

  /** inv_label_dict = {v: k for k, v in label_dict.items()}: a later
      entry with the same index overwrites an earlier one. */
  function InvLabelDict(d: LabelDict): map<int, string>
  {
    if d == [] then map[]
    else
      var p := InvLabelDict(d[..|d| - 1]);
      p[d[|d| - 1].1 := d[|d| - 1].0]
  }

  lemma HasIndexInit(d: LabelDict, v: int)
    requires d != []
    ensures HasIndex(d, v) <==> HasIndex(d[..|d| - 1], v) || d[|d| - 1].1 == v
  {
    if HasIndex(d, v) && d[|d| - 1].1 != v {
      var i :| 0 <= i < |d| && d[i].1 == v;
      assert d[..|d| - 1][i].1 == v;
    }
    if HasIndex(d[..|d| - 1], v) {
      var i :| 0 <= i < |d| - 1 && d[..|d| - 1][i].1 == v;
      assert d[i].1 == v;
    }
  }

  /** The inverse dictionary's keys are exactly the indices in use, each
      once, and each maps to the label of the last entry holding it. */
  lemma {:induction false} InverseDictionary(d: LabelDict)
    ensures Distinct(InvKeys(d))
    ensures forall v :: v in InvKeys(d) <==> HasIndex(d, v)
    ensures forall v :: v in InvLabelDict(d) <==> HasIndex(d, v)
    ensures forall i :: 0 <= i < |d| && LastWithIndex(d, i) ==> d[i].1 in InvLabelDict(d) && InvLabelDict(d)[d[i].1] == d[i].0
  {
    if d != [] {
      var init := d[..|d| - 1];
      InverseDictionary(init);
      forall v
        ensures HasIndex(d, v) <==> HasIndex(init, v) || d[|d| - 1].1 == v
      {
        HasIndexInit(d, v);
      }
      forall i | 0 <= i < |d| && LastWithIndex(d, i)
        ensures InvLabelDict(d)[d[i].1] == d[i].0
      {
        if i < |d| - 1 {
          assert init[i] == d[i];
          assert LastWithIndex(init, i);
        }
      }
    }
  }

  /** The loop over inv_label_dict's keys: the last key that is not a
      minority index, if there is one. */
  function LastNotIn(keys: seq<int>, minority: seq<int>): Option<int>
  {
    if keys == [] then None
    else if keys[|keys| - 1] !in minority then Some(keys[|keys| - 1])
    else LastNotIn(keys[..|keys| - 1], minority)
  }

  /** The majority choice finds a key outside the minority indices exactly
      when there is one, and it is the last such key. */
  lemma {:induction false} LastNotInIsLastNonMinority(keys: seq<int>, minority: seq<int>)
    ensures LastNotIn(keys, minority).None? <==> forall k :: k in keys ==> k in minority
    ensures LastNotIn(keys, minority).Some? ==>
              exists i :: 0 <= i < |keys| && keys[i] == LastNotIn(keys, minority).value
                          && keys[i] !in minority
                          && forall j :: i < j < |keys| ==> keys[j] in minority
  {
    if keys != [] {
      var init := keys[..|keys| - 1];
      LastNotInIsLastNonMinority(init, minority);
      assert forall k :: k in keys <==> k in init || k == keys[|keys| - 1];
      if keys[|keys| - 1] in minority && LastNotIn(init, minority).Some? {
        var i :| 0 <= i < |init| && init[i] == LastNotIn(init, minority).value
                 && init[i] !in minority
                 && forall j :: i < j < |init| ==> init[j] in minority;
        assert keys[i] == init[i];
        assert forall j :: i < j < |keys| ==> keys[j] in minority by {
          forall j | i < j < |keys| ensures keys[j] in minority {
            if j < |keys| - 1 { assert keys[j] == init[j]; }
          }
        }
      }
    }
  }

  /** Once a prefix of the minority names fails, the whole lookup fails
      with the same error. */
  lemma {:induction false} MinorityIndicesPrefixErr(d: LabelDict, names: seq<string>, k: nat)
    requires k <= |names| && MinorityIndices(d, names[..k]).Err?
    ensures MinorityIndices(d, names) == MinorityIndices(d, names[..k])
    decreases |names|
  {
    if k < |names| {
      var init := names[..|names| - 1];
      assert init[..k] == names[..k];
      MinorityIndicesPrefixErr(d, init, k);
    } else {
      assert names[..k] == names;
    }
  }

  /** The taxonomy a StructuredModel ends up with, or the error that stops
      its constructor. */
  function MakeTaxonomy(labelDict: LabelDict, minorityClasses: seq<string>, outsideClass: string,
                        beginningPrefix: string, insidePrefix: string): Result<Taxonomy>
    requires KeysDistinct(labelDict)
  {
    match MinorityIndices(labelDict, minorityClasses)
    case Err(e) => Err(e)
    case Ok(idx) =>
      match LastNotIn(InvKeys(labelDict), idx)
      case None => Err(NoMajorityClass)
      case Some(majority) =>
        Ok(Taxonomy(labelDict, minorityClasses, idx, InvLabelDict(labelDict), majority,
                    outsideClass, beginningPrefix, insidePrefix))
  }

  /** StructuredModel.__init__, without the chain model it also creates. */
  method NewTaxonomy(labelDict: LabelDict, minorityClasses: seq<string>, outsideClass: string,
                     beginningPrefix: string, insidePrefix: string) returns (r: Result<Taxonomy>)
    requires KeysDistinct(labelDict)
    ensures r == MakeTaxonomy(labelDict, minorityClasses, outsideClass, beginningPrefix, insidePrefix)
  {
    var minorityClassesIndex: seq<int> := [];
    for k := 0 to |minorityClasses|
      invariant MinorityIndices(labelDict, minorityClasses[..k]) == Ok(minorityClassesIndex)
    {
      assert minorityClasses[..k + 1][..k] == minorityClasses[..k];
      var v := Lookup(labelDict, minorityClasses[k]);
      if v.None? {
        MinorityIndicesPrefixErr(labelDict, minorityClasses, k + 1);
        return Err(UnknownMinorityClass(minorityClasses[k]));
      }
      minorityClassesIndex := minorityClassesIndex + [v.value];
    }
    assert minorityClasses[..|minorityClasses|] == minorityClasses;

    var invLabelDict: map<int, string> := map[];
    var invKeys: seq<int> := [];
    for i := 0 to |labelDict|
      invariant invLabelDict == InvLabelDict(labelDict[..i])
      invariant invKeys == InvKeys(labelDict[..i])
    {
      assert labelDict[..i + 1][..i] == labelDict[..i];
      var (k, v) := labelDict[i];
      if v !in invKeys {
        invKeys := invKeys + [v];
      }
      invLabelDict := invLabelDict[v := k];
    }
    assert labelDict[..|labelDict|] == labelDict;

    var majority: Option<int> := None;
    for i := 0 to |invKeys|
      invariant majority == LastNotIn(invKeys[..i], minorityClassesIndex)
    {
      assert invKeys[..i + 1][..i] == invKeys[..i];
      if invKeys[i] !in minorityClassesIndex {
        majority := Some(invKeys[i]);
      }
    }
    assert invKeys[..|invKeys|] == invKeys;
    if majority.None? {
      return Err(NoMajorityClass);
    }
    r := Ok(Taxonomy(labelDict, minorityClasses, minorityClassesIndex, invLabelDict, majority.value,
                     outsideClass, beginningPrefix, insidePrefix));
  }

  /** The majority class is an index of the inverse dictionary that is not
      a minority index; there is none exactly when every index in use is a
      minority index. */
  lemma MajorityIsNonMinorityIndex(labelDict: LabelDict, minorityClasses: seq<string>, outsideClass: string,
                                   beginningPrefix: string, insidePrefix: string)
    requires KeysDistinct(labelDict)
    ensures var r := MakeTaxonomy(labelDict, minorityClasses, outsideClass, beginningPrefix, insidePrefix);
            r.Ok? ==> r.value.majorityClass in r.value.invLabelDict
                      && r.value.majorityClass !in r.value.minorityClassesIndex
    ensures var r := MakeTaxonomy(labelDict, minorityClasses, outsideClass, beginningPrefix, insidePrefix);
            r == Err(NoMajorityClass) <==>
              MinorityIndices(labelDict, minorityClasses).Ok? &&
              forall i :: 0 <= i < |labelDict| ==> labelDict[i].1 in MinorityIndices(labelDict, minorityClasses).value
  {
    InverseDictionary(labelDict);
    var keys := InvKeys(labelDict);
    match MinorityIndices(labelDict, minorityClasses)
    case Err(_) =>
    case Ok(idx) =>
      LastNotInIsLastNonMinority(keys, idx);
      assert (forall k :: k in keys ==> k in idx) <==>
             (forall i :: 0 <= i < |labelDict| ==> labelDict[i].1 in idx) by {
        forall i | 0 <= i < |labelDict| ensures labelDict[i].1 in keys {
          assert HasIndex(labelDict, labelDict[i].1);
        }
      }
      if LastNotIn(keys, idx).Some? {
        assert LastNotIn(keys, idx).value in keys;
      }
  }

  /** With one index per label, the inverse dictionary undoes the label
      dictionary in both directions. */
  lemma InverseRoundTrip(d: LabelDict)
    requires KeysDistinct(d) && ValuesDistinct(d)
    ensures forall i :: 0 <= i < |d| ==> d[i].1 in InvLabelDict(d) && InvLabelDict(d)[d[i].1] == d[i].0
    ensures forall v :: v in InvLabelDict(d) ==> Lookup(d, InvLabelDict(d)[v]) == Some(v)
  {
    InverseDictionary(d);
    var m := InvLabelDict(d);
    forall i | 0 <= i < |d|
      ensures d[i].1 in m && m[d[i].1] == d[i].0
    {
      assert LastWithIndex(d, i);
    }
    forall v | v in m
      ensures Lookup(d, m[v]) == Some(v)
    {
      var i :| 0 <= i < |d| && d[i].1 == v;
      assert LastWithIndex(d, i);
      var j :| 0 <= j < |d| && d[j] == (m[v], Lookup(d, m[v]).value);
      assert d[j].0 == d[i].0;
      assert i == j;
    }
  }
}
