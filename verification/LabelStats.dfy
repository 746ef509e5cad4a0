/**
 * Integer label statistics over a list of examples: the frequencies that
 * the classifier counts with Collections.frequency, the per-label count map
 * stored at a leaf, and what a majority label is.
 */
module LabelStats {
  import opened Instances

  /** The labels of the examples, in order. */
  function Labels(examples: seq<Instance>): (r: seq<string>)
    ensures |r| == |examples|
    ensures forall i :: 0 <= i < |r| ==> r[i] == examples[i].classLabel
  {
    seq(|examples|, i requires 0 <= i < |examples| => examples[i].classLabel)
  }

  /** The distinct elements of `s` (new HashSet<>(s)). */
  function ElementSet(s: seq<string>): set<string>
  {
    set l | l in s
  }

  /** The distinct labels present. */
  function LabelSet(examples: seq<Instance>): set<string>
  {
    ElementSet(Labels(examples))
  }

  /** Collections.frequency: how often `l` occurs in `s`. */
  function Count(s: seq<string>, l: string): nat
  {
    if s == [] then 0 else Count(s[..|s| - 1], l) + (if s[|s| - 1] == l then 1 else 0)
  }

  /** How many elements of `s` lie in `keys`. */
  function CountIn(s: seq<string>, keys: set<string>): nat
  {
    if s == [] then 0 else CountIn(s[..|s| - 1], keys) + (if s[|s| - 1] in keys then 1 else 0)
  }

  /** Each of `keys` with its frequency in `s`. */
  function CountMap(s: seq<string>, keys: set<string>): map<string, nat>
  {
    map l | l in keys :: Count(s, l)
  }

  /** The classCounts map: every present label with its exact frequency. */
  function LabelCounts(examples: seq<Instance>): map<string, nat>
  {
    CountMap(Labels(examples), LabelSet(examples))
  }

  /** `l` is present and no present label is more frequent. */
  ghost predicate IsMajority(l: string, examples: seq<Instance>)
  {
    && l in LabelSet(examples)
    && forall m :: m in LabelSet(examples) ==> Count(Labels(examples), m) <= Count(Labels(examples), l)
  }

  /** All examples carry the label of the first. */
  ghost predicate AllSameLabel(examples: seq<Instance>)
  {
    forall i :: 0 <= i < |examples| ==> examples[i].classLabel == examples[0].classLabel
  }

  /** The sum of the values of a map. */
  ghost function SumValues(m: map<string, nat>): nat
  {
    if m == map[] then 0 else var k :| k in m; m[k] + SumValues(m - {k})
  }

  /** The sum of a sequence of counts. */
  function Sum(xs: seq<nat>): nat
  {
    if xs == [] then 0 else Sum(xs[..|xs| - 1]) + xs[|xs| - 1]
  }

  /** Counting one more key extends the map by that key's frequency. */
  lemma CountMapAdd(s: seq<string>, keys: set<string>, l: string)
    ensures CountMap(s, keys + {l}) == CountMap(s, keys)[l := Count(s, l)]
  {
  }

  /**
   * `frequencies[i]` is the positive frequency in `labels` of the distinct
   * label `order[i]`, the labels in `order` are those of `done`, and the
   * frequencies add up to the number of elements in `done`.
   */
  ghost predicate FrequenciesOf(labels: seq<string>, done: set<string>, frequencies: seq<nat>, order: seq<string>)
  {
    && |frequencies| == |order|
    && (forall i, j :: 0 <= i < j < |order| ==> order[i] != order[j])
    && (forall l :: l in order <==> l in done)
    && (forall i :: 0 <= i < |order| ==> frequencies[i] == Count(labels, order[i]) && frequencies[i] > 0)
    && Sum(frequencies) == CountIn(labels, done)
  }

  /** One more present label extends the frequency list. */
  lemma FrequenciesSnoc(labels: seq<string>, done: set<string>, frequencies: seq<nat>, order: seq<string>, l: string)
    requires FrequenciesOf(labels, done, frequencies, order)
    requires l !in done && l in labels
    ensures FrequenciesOf(labels, done + {l}, frequencies + [Count(labels, l)], order + [l])
  {
    CountInAdd(labels, done, l);
    CountPositive(labels, l);
    SumSnoc(frequencies, Count(labels, l));
  }

  /** Once every present label is listed, the frequencies add up to the number of examples. */
  lemma FrequenciesComplete(examples: seq<Instance>, frequencies: seq<nat>, order: seq<string>)
    requires FrequenciesOf(Labels(examples), LabelSet(examples), frequencies, order)
    ensures Sum(frequencies) == |examples|
  {
    var labels := Labels(examples);
    assert forall i :: 0 <= i < |labels| ==> labels[i] in LabelSet(examples);
    CountInAll(labels, LabelSet(examples));
  }

  lemma SumSnoc(xs: seq<nat>, x: nat)
    ensures Sum(xs + [x]) == Sum(xs) + x
  {
    assert (xs + [x])[..|xs|] == xs;
  }

  lemma {:induction false} CountInEmpty(s: seq<string>)
    ensures CountIn(s, {}) == 0
  {
    if s != [] {
      CountInEmpty(s[..|s| - 1]);
    }
  }

  /** Adding one new key adds exactly that key's frequency. */
  lemma {:induction false} CountInAdd(s: seq<string>, keys: set<string>, k: string)
    requires k !in keys
    ensures CountIn(s, keys + {k}) == CountIn(s, keys) + Count(s, k)
  {
    if s != [] {
      CountInAdd(s[..|s| - 1], keys, k);
    }
  }

  /** When every element is a key, all of `s` is counted. */
  lemma {:induction false} CountInAll(s: seq<string>, keys: set<string>)
    requires forall i :: 0 <= i < |s| ==> s[i] in keys
    ensures CountIn(s, keys) == |s|
  {
    if s != [] {
      CountInAll(s[..|s| - 1], keys);
    }
  }

  /** A label that occurs has a positive frequency. */
  lemma {:induction false} CountPositive(s: seq<string>, l: string)
    requires l in s
    ensures Count(s, l) > 0
  {
    if s[|s| - 1] != l {
      CountPositive(s[..|s| - 1], l);
    }
  }

  /** The sum of a count map over `keys` is the number of elements in `keys`. */
  lemma {:induction false} SumValuesOfCounts(s: seq<string>, keys: set<string>)
    ensures SumValues(CountMap(s, keys)) == CountIn(s, keys)
    decreases |keys|
  {
    var m := CountMap(s, keys);
    if keys == {} {
      assert m == map[];
      CountInEmpty(s);
    } else {
      assert m != map[] by {
        var l :| l in keys;
        assert l in m;
      }
      var k :| k in m && SumValues(m) == m[k] + SumValues(m - {k});
      assert m - {k} == CountMap(s, keys - {k});
      SumValuesOfCounts(s, keys - {k});
      CountInAdd(s, keys - {k}, k);
      assert keys - {k} + {k} == keys;
    }
  }

  /** The counts at a leaf add up to the number of examples that reached it. */
  lemma {:induction false} CountsSum(examples: seq<Instance>)
    ensures SumValues(LabelCounts(examples)) == |examples|
  {
    var labels := Labels(examples);
    SumValuesOfCounts(labels, LabelSet(examples));
    assert forall i :: 0 <= i < |labels| ==> labels[i] in LabelSet(examples);
    CountInAll(labels, LabelSet(examples));
  }

  /** A present label is the label of some example. */
  lemma InLabelSet(examples: seq<Instance>, l: string)
    requires l in LabelSet(examples)
    ensures exists e :: e in examples && e.classLabel == l
  {
    var i :| 0 <= i < |examples| && Labels(examples)[i] == l;
    assert examples[i] in examples;
  }

  /** Labels of a prefix extended by one example. */
  lemma LabelsSnoc(examples: seq<Instance>, i: nat)
    requires i < |examples|
    ensures Labels(examples[..i + 1]) == Labels(examples[..i]) + [examples[i].classLabel]
  {
    assert examples[..i + 1][..i] == examples[..i];
  }

  /** At most one distinct label exactly when all labels agree. */
  lemma {:induction false} SingleLabel(examples: seq<Instance>)
    ensures |LabelSet(examples)| <= 1 <==> AllSameLabel(examples)
  {
    var ls := LabelSet(examples);
    if AllSameLabel(examples) && examples != [] {
      assert ls == {examples[0].classLabel} by {
        forall l | l in ls ensures l == examples[0].classLabel {
          var i :| 0 <= i < |examples| && Labels(examples)[i] == l;
        }
        assert Labels(examples)[0] == examples[0].classLabel;
      }
    } else if !AllSameLabel(examples) {
      var i, j :| 0 <= i < |examples| && 0 <= j < |examples| && examples[i].classLabel != examples[j].classLabel;
      var a, b := examples[i].classLabel, examples[j].classLabel;
      assert Labels(examples)[i] == a && Labels(examples)[j] == b;
      assert a in ls && b in ls;
      var others := ls - {a};
      assert |others| == |ls| - 1;
      assert b in others;
      assert |others| != 0;
    } else {
      assert ls == {};
    }
  }

  /** For uniform examples the count map is the single entry {label: |examples|}. */
  lemma {:induction false} HomogeneousCounts(examples: seq<Instance>)
    requires |examples| > 0 && AllSameLabel(examples)
    ensures LabelCounts(examples) == map[examples[0].classLabel := |examples|]
    ensures IsMajority(examples[0].classLabel, examples)
  {
    var l := examples[0].classLabel;
    var labels := Labels(examples);
    assert LabelSet(examples) == {l} by {
      assert labels[0] == l;
    }
    CountInAll(labels, {l});
    CountInEmpty(labels);
    CountInAdd(labels, {}, l);
    assert {} + {l} == {l};
  }
}
