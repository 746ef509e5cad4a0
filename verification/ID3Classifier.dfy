/**
 * The ID3 decision-tree engine: a tree of mutable nodes, the recursive
 * builder that fills a node from a list of examples and a shared set of
 * remaining feature indices, and the prediction walk over a finished tree.
 * The information gain of a feature is a parameter (`gain`), not computed.
 */
module ID3 {
  import opened Wrappers
  import opened Instances
  import opened LabelStats
  import opened Partition

  /** The information-gain score of a feature index on a list of examples. */
  type Gain = (seq<Instance>, nat) -> real

  /** Every remaining feature index can be read from every example. */
  ghost predicate FeaturesInRange(features: set<nat>, examples: seq<Instance>)
  {
    forall e :: e in examples ==> forall f :: f in features ==> f < |e.values|
  }

  /** No feature of `features` has a greater gain than `feature`. */
  ghost predicate HasBestGain(examples: seq<Instance>, features: set<nat>, gain: Gain, feature: nat)
  {
    forall f :: f in features ==> gain(examples, f) <= gain(examples, feature)
  }

  /** The largest gain among `features` is exactly zero. */
  ghost predicate BestGainIsZero(examples: seq<Instance>, features: set<nat>, gain: Gain)
  {
    && (forall f :: f in features ==> gain(examples, f) <= 0.0)
    && (exists f :: f in features && gain(examples, f) == 0.0)
  }

  /** The indices 0 .. n-1. */
  function FeatureRange(n: nat): (r: set<nat>)
    ensures forall f: nat :: f in r <==> f < n
  {
    if n == 0 then {} else FeatureRange(n - 1) + {n - 1}
  }

  /**
   * Collections.max over an unordered set: an element whose key no other
   * element exceeds. The set's iteration order, and so the choice among
   * ties, is left open.
   */
  method Max<T(==)>(candidates: set<T>, key: T -> real) returns (best: T)
    requires candidates != {}
    ensures best in candidates
    ensures forall c :: c in candidates ==> key(c) <= key(best)
  {
    best :| best in candidates;
    var rest := candidates - {best};
    while rest != {}
      invariant rest <= candidates && best in candidates
      invariant forall c :: c in candidates - rest ==> key(c) <= key(best)
      decreases |rest|
    {
      var c :| c in rest;
      if key(best) < key(c) {
        best := c;
      }
      rest := rest - {c};
    }
  }

  /** The index of the first node whose branch value is `value`, or |nodes| if none. */
  function FirstMatch(nodes: seq<ID3Classifier>, value: string): (k: nat)
    reads nodes
    ensures k <= |nodes|
    ensures k < |nodes| ==> nodes[k].splitFeatureValue == Some(value)
    ensures forall j :: 0 <= j < k ==> nodes[j].splitFeatureValue != Some(value)
  {
    if nodes == [] then 0
    else if nodes[0].splitFeatureValue == Some(value) then 0
    else 1 + FirstMatch(nodes[1..], value)
  }

  /** A node of the decision tree; the root is the classifier itself. */
  class ID3Classifier {
    var children: seq<ID3Classifier>
    var classCounts: Option<map<string, nat>>
    var splitFeature: int
    var splitFeatureValue: Option<string>
    var classLabel: Option<string>
    /** The nodes of this subtree. */
    ghost var Repr: set<object>
    /** The examples that reached this node while the tree was built. */
    ghost var routed: seq<Instance>
    /** The features the internal nodes of this subtree split on. */
    ghost var splitFeatures: set<nat>
    /** The feature set this node's build started from. */
    ghost var builtWith: set<nat>

    /** A finite acyclic structure: each child's nodes lie within this node's and exclude it, and every child carries the value of its branch. */
    ghost predicate Valid()
      reads this, Repr
      decreases Repr
    {
      && this in Repr
      && (forall i :: 0 <= i < |children| ==>
            && children[i] in Repr
            && children[i].Repr <= Repr
            && this !in children[i].Repr
            && children[i].splitFeatureValue.Some?
            && children[i].Valid())
    }

    ghost predicate IsLeaf()
      reads this
    {
      children == [] && splitFeature == -1 && classLabel.Some? && classCounts.Some?
    }

    ghost predicate IsInternal()
      reads this
    {
      children != [] && splitFeature >= 0 && classLabel.None? && classCounts.None?
    }

    /** A node as the constructor leaves it. */
    ghost predicate Untrained()
      reads this
    {
      && children == [] && classCounts.None? && splitFeature == -1 && classLabel.None?
      && Repr == {this} && splitFeatures == {}
    }

    /**
     * What building guarantees of every node of the tree: it is a leaf or
     * an internal node, as the decision rule of buildDecisionTree chooses
     * for the examples that reached it and the feature set its build
     * started from; a leaf stores the label counts of those examples and a
     * majority label; an internal node's children are the split of those
     * examples by its feature, one per observed value, with pairwise
     * distinct branch values, built with the same gain measure; each
     * child's build starts from the set the previous sibling's build left
     * (this node's set for the first child), less this node's feature.
     */
    ghost predicate Sound(gain: Gain)
      reads this, Repr
      requires Valid()
      decreases Repr
    {
      && routed != []
      && (IsLeaf() || IsInternal())
      && BuiltFrom(routed, builtWith, gain)
      && (IsLeaf() ==> classCounts == Some(LabelCounts(routed)) && IsMajority(classLabel.value, routed))
      && (IsLeaf() ==> splitFeatures == {})
      && (IsInternal() ==> splitFeatures == {splitFeature as nat} + FeaturesOf(children))
      && (IsInternal() ==> splitFeature as nat !in FeaturesOf(children) && DisjointFeatures(children))
      && (IsInternal() ==>
            && (forall e :: e in routed ==> splitFeature < |e.values|)
            && (forall i :: 0 <= i < |children| ==>
                  children[i].routed == Select(routed, splitFeature, children[i].splitFeatureValue.value))
            && (forall i {:trigger children[i].Sound(gain)} :: 0 <= i < |children| ==> children[i].Sound(gain))
            && HandedOn(builtWith, children, splitFeature as nat)
            && (forall i, j :: 0 <= i < j < |children| ==> children[i].splitFeatureValue != children[j].splitFeatureValue)
            && (forall v :: v in Values(routed, splitFeature) ==>
                  exists i :: 0 <= i < |children| && children[i].splitFeatureValue == Some(v)))
    }

    /**
     * What buildDecisionTree promises of a node built from `examples` with
     * the feature set `features`: it is a leaf exactly when the labels are
     * uniform, no feature is left or the best gain is zero, and otherwise it
     * splits on a feature of `features` of greatest gain.
     */
    ghost predicate BuiltFrom(examples: seq<Instance>, features: set<nat>, gain: Gain)
      reads this
    {
      && (IsLeaf() <==> AllSameLabel(examples) || features == {} || BestGainIsZero(examples, features, gain))
      && (IsInternal() ==>
            && splitFeature as nat in features
            && HasBestGain(examples, features, gain, splitFeature as nat))
    }

    constructor ()
      ensures Valid() && Untrained() && splitFeatureValue.None? && routed == []
    {
      children := [];
      classCounts := None;
      splitFeature := -1;
      splitFeatureValue := None;
      classLabel := None;
      Repr := {this};
      routed := [];
      splitFeatures := {};
      builtWith := {};
    }

    /**
     * train: build this node from `examples`, starting with every feature
     * index of the first example. An empty list fails at examples.get(0). So
     * does, at getValue, a list that is not uniformly labelled and holds an
     * example shorter than the first: the gains of the root's features read
     * every feature index of every example before the node is changed. In
     * both cases the node is left as it was.
     */
    method Train(examples: seq<Instance>, gain: Gain) returns (r: Result<(), RuntimeError>)
      requires Untrained()
      modifies this
      ensures r.Failure? <==>
                examples == [] ||
                (!AllSameLabel(examples) && exists e :: e in examples && e.NClasses() < examples[0].NClasses())
      ensures r.Failure? ==> r.error == IndexOutOfBounds && Untrained() && routed == old(routed)
      ensures splitFeatureValue == old(splitFeatureValue)
      ensures Valid() && fresh(Repr - {this})
      ensures r.Success? ==> routed == examples && Sound(gain)
      ensures r.Success? ==> BuiltFrom(examples, FeatureRange(examples[0].NClasses()), gain)
      ensures r.Success? ==> builtWith == FeatureRange(examples[0].NClasses())
    {
      if examples == [] {
        return Failure(RuntimeError.IndexOutOfBounds);
      }
      var homogeneous := IsHomogeneous(examples);
      var inRange := ReachArity(examples, examples[0].NClasses());
      if !homogeneous && !inRange {
        return Failure(RuntimeError.IndexOutOfBounds);
      }
      var features: set<nat> := {};
      for i := 0 to examples[0].NClasses()
        invariant features == FeatureRange(i)
      {
        features := features + {i};
      }
      var remaining := BuildDecisionTree(examples, this, features, gain);
      r := Success(());
    }

    /** Whether every example has at least `n` feature values. */
    static method ReachArity(examples: seq<Instance>, n: nat) returns (inRange: bool)
      ensures inRange <==> forall e :: e in examples ==> n <= e.NClasses()
    {
      inRange := true;
      for i := 0 to |examples|
        invariant inRange <==> forall j :: 0 <= j < i ==> n <= examples[j].NClasses()
      {
        if examples[i].NClasses() < n {
          inRange := false;
        }
      }
    }

    /**
     * predict: a leaf answers with its label; an internal node reads the
     * input at its split feature and descends into the first child with
     * that branch value, or answers None when there is no such child.
     */
    function Predict(input: seq<string>): (r: Result<Option<string>, RuntimeError>)
      reads this, Repr
      requires Valid()
      decreases Repr
      ensures children == [] ==> r == Success(classLabel)
      ensures children != [] && 0 <= splitFeature < |input| &&
              (forall i :: 0 <= i < |children| ==> children[i].splitFeatureValue != Some(input[splitFeature])) ==>
                r == Success(None)
      ensures children != [] && !(0 <= splitFeature < |input|) ==> r == Failure(RuntimeError.IndexOutOfBounds)
      ensures forall i ::
                (&& 0 <= i < |children| && 0 <= splitFeature < |input|
                 && children[i].splitFeatureValue == Some(input[splitFeature])
                 && (forall j :: 0 <= j < i ==> children[j].splitFeatureValue != Some(input[splitFeature])))
                ==> r == children[i].Predict(input)
      ensures r.Success? && r.value.Some? ==>
                exists n: ID3Classifier :: n in Repr && n.children == [] && n.classLabel == r.value
    {
      if |children| == 0 then
        assert this in Repr;
        Success(classLabel)
      else if !(0 <= splitFeature < |input|) then
        Failure(RuntimeError.IndexOutOfBounds)
      else
        var k := FirstMatch(children, input[splitFeature]);
        if k == |children| then Success(None) else children[k].Predict(input)
    }

    /**
     * splitData: the examples grouped by their value at `index`, one group
     * per distinct value, the groups in the order the value set yields them.
     */
    static method SplitData(examples: seq<Instance>, index: nat) returns (splits: seq<seq<Instance>>)
      requires forall e :: e in examples ==> index < |e.values|
      ensures IsSplit(splits, examples, index)
    {
      var attributeValues := AttributeValues(examples, index);
      splits := [];
      var rest := attributeValues;
      while rest != {}
        invariant rest <= attributeValues
        invariant SplitBy(splits, examples, index, attributeValues - rest)
        decreases |rest|
      {
        var value :| value in rest;
        var dataSubset := Filter(examples, index, value);
        SplitBySnoc(splits, examples, index, attributeValues - rest, value, attributeValues - (rest - {value}));
        splits := splits + [dataSubset];
        rest := rest - {value};
      }
      assert attributeValues - rest == attributeValues;
    }

    /** The first loop of splitData: the distinct values observed at `index`. */
    static method AttributeValues(examples: seq<Instance>, index: nat) returns (attributeValues: set<string>)
      requires forall e :: e in examples ==> index < |e.values|
      ensures attributeValues == Values(examples, index)
    {
      attributeValues := {};
      for i := 0 to |examples|
        invariant attributeValues == Values(examples[..i], index)
      {
        ValuesSnoc(examples, i, index);
        attributeValues := attributeValues + {examples[i].GetValue(index)};
      }
      assert examples[..|examples|] == examples;
    }

    /** The inner loop of splitData: the examples holding `value` at `index`, in order. */
    static method Filter(examples: seq<Instance>, index: nat, value: string) returns (dataSubset: seq<Instance>)
      requires forall e :: e in examples ==> index < |e.values|
      ensures dataSubset == Select(examples, index, value)
    {
      dataSubset := [];
      for i := 0 to |examples|
        invariant dataSubset == Select(examples[..i], index, value)
      {
        SelectSnoc(examples, i, index, value);
        if examples[i].GetValue(index) == value {
          dataSubset := dataSubset + [examples[i]];
        }
      }
      assert examples[..|examples|] == examples;
    }

    /** isHomogeneous: at most one distinct label among the examples. */
    static method IsHomogeneous(examples: seq<Instance>) returns (homogeneous: bool)
      ensures homogeneous <==> AllSameLabel(examples)
    {
      var possibleLabels: set<string> := {};
      for i := 0 to |examples|
        invariant possibleLabels == LabelSet(examples[..i])
      {
        LabelsSnoc(examples, i);
        possibleLabels := possibleLabels + {examples[i].GetLabel()};
      }
      assert examples[..|examples|] == examples;
      SingleLabel(examples);
      homogeneous := |possibleLabels| <= 1;
    }

    /**
     * The label counting of dataToDistribution: one frequency per distinct
     * label, in the order the label set yields them (`order`). Dividing each
     * by |examples| gives the distribution; the frequencies sum to |examples|.
     */
    static method LabelFrequencies(examples: seq<Instance>) returns (frequencies: seq<nat>, ghost order: seq<string>)
      ensures FrequenciesOf(Labels(examples), LabelSet(examples), frequencies, order)
      ensures Sum(frequencies) == |examples|
    {
      var allLabels := CollectLabels(examples);
      var possibleLabels := ElementSet(allLabels);
      frequencies, order := Frequencies(allLabels, possibleLabels);
      FrequenciesComplete(examples, frequencies, order);
    }

    /** The loop of dataToDistribution: the frequency in `labels` of each label of `keys`. */
    static method Frequencies(labels: seq<string>, keys: set<string>) returns (frequencies: seq<nat>, ghost order: seq<string>)
      requires keys <= ElementSet(labels)
      ensures FrequenciesOf(labels, keys, frequencies, order)
      ensures forall i :: 0 <= i < |frequencies| ==> frequencies[i] > 0
      ensures Sum(frequencies) == CountIn(labels, keys)
    {
      frequencies, order := [], [];
      var rest := keys;
      CountInEmpty(labels);
      assert keys - rest == {};
      while rest != {}
        invariant rest <= keys
        invariant FrequenciesOf(labels, keys - rest, frequencies, order)
        decreases |rest|
      {
        var l :| l in rest;
        FrequenciesSnoc(labels, keys - rest, frequencies, order, l);
        assert (keys - rest) + {l} == keys - (rest - {l});
        frequencies, order := frequencies + [Count(labels, l)], order + [l];
        rest := rest - {l};
      }
      assert keys - rest == keys;
    }

    /** The labels of the examples, in order, as majorityVote and dataToDistribution gather them. */
    static method CollectLabels(examples: seq<Instance>) returns (labels: seq<string>)
      ensures labels == Labels(examples)
    {
      labels := [];
      for i := 0 to |examples|
        invariant labels == Labels(examples[..i])
      {
        LabelsSnoc(examples, i);
        labels := labels + [examples[i].GetLabel()];
      }
      assert examples[..|examples|] == examples;
    }

    /** The classCounts map of majorityVote: every label of `keys` with its frequency in `labels`. */
    static method CountLabels(labels: seq<string>, keys: set<string>) returns (classCounts: map<string, nat>)
      ensures classCounts == CountMap(labels, keys)
    {
      classCounts := map[];
      var rest := keys;
      assert keys - rest == {};
      assert CountMap(labels, {}) == map[];
      while rest != {}
        invariant rest <= keys
        invariant classCounts == CountMap(labels, keys - rest)
        decreases |rest|
      {
        var l :| l in rest;
        CountMapAdd(labels, keys - rest, l);
        classCounts := classCounts[l := Count(labels, l)];
        assert keys - (rest - {l}) == (keys - rest) + {l};
        rest := rest - {l};
      }
      assert keys - rest == keys;
    }

    /**
     * majorityVote: label `node` with a most frequent label and store every
     * present label's frequency; nothing else of the node changes.
     */
    static method MajorityVote(examples: seq<Instance>, node: ID3Classifier)
      requires |examples| > 0
      modifies node
      ensures node.classLabel.Some? && IsMajority(node.classLabel.value, examples)
      ensures node.classCounts == Some(LabelCounts(examples))
      ensures node.children == old(node.children) && node.splitFeature == old(node.splitFeature)
      ensures node.splitFeatureValue == old(node.splitFeatureValue)
      ensures node.Repr == old(node.Repr) && node.routed == old(node.routed)
      ensures node.splitFeatures == old(node.splitFeatures)
      ensures node.builtWith == old(node.builtWith)
    {
      var labels := CollectLabels(examples);
      var possibleLabels := ElementSet(labels);
      assert labels[0] in possibleLabels;
      var best := Max(possibleLabels, l => Count(labels, l) as real);
      node.classLabel := Some(best);
      var classCounts := CountLabels(labels, possibleLabels);
      node.classCounts := Some(classCounts);
    }

    /**
     * buildDecisionTree: fill `root` from `examples`. Uniform labels make a
     * leaf with that label; no remaining feature, or a best gain of zero,
     * makes a majority-vote leaf; otherwise the node splits on a feature of
     * greatest gain and builds one child per group of the split. The feature
     * set is shared by all calls: each child's call starts from the set as
     * the previous sibling's call left it, with the chosen feature removed.
     * The set as it stands when this call ends is returned.
     */
    static method BuildDecisionTree(examples: seq<Instance>, root: ID3Classifier, remainingFeatures: set<nat>, gain: Gain)
        returns (remainingAfter: set<nat>)
      requires |examples| > 0
      requires root.Untrained()
      requires AllSameLabel(examples) || FeaturesInRange(remainingFeatures, examples)
      modifies root
      decreases remainingFeatures, 2
      ensures root.Valid() && fresh(root.Repr - {root})
      ensures root.routed == examples && root.Sound(gain)
      ensures root.splitFeatureValue == old(root.splitFeatureValue)
      ensures AllSameLabel(examples) ==>
                && root.IsLeaf() && root.classLabel == Some(examples[0].classLabel)
                && root.classCounts == Some(map[examples[0].classLabel := |examples|])
      ensures root.builtWith == remainingFeatures
      ensures root.splitFeatures <= remainingFeatures
      ensures remainingAfter == remainingFeatures - root.splitFeatures
    {
      root.routed, root.builtWith := examples, remainingFeatures;
      remainingAfter := remainingFeatures;
      var homogeneous := IsHomogeneous(examples);
      if homogeneous {
        root.classLabel := Some(examples[0].GetLabel());
        root.classCounts := Some(map[examples[0].GetLabel() := |examples|]);
        HomogeneousCounts(examples);
        LeafSound(root, gain);
      } else if remainingFeatures == {} {
        MajorityVote(examples, root);
        LeafSound(root, gain);
      } else {
        var bestFeature := Max(remainingFeatures, f => gain(examples, f));
        var bestGain := gain(examples, bestFeature);
        if bestGain == 0.0 {
          MajorityVote(examples, root);
          LeafSound(root, gain);
        } else {
          var splits := SplitData(examples, bestFeature);
          assert splits != [] by {
            assert examples[0].values[bestFeature] in Values(examples, bestFeature);
          }
          GroupsInRange(splits, examples, bestFeature, remainingFeatures);
          remainingAfter := BuildChildren(examples, splits, root, bestFeature, remainingFeatures, gain);
          SplitNodeSound(root, examples, splits, gain);
        }
      }
    }

    /**
     * The loop of buildDecisionTree's splitting branch: one child per group
     * of `splits`, in order, the shared set passed from each child's call
     * to the next.
     */
    static method BuildChildren(examples: seq<Instance>, splits: seq<seq<Instance>>, root: ID3Classifier, bestFeature: nat,
                                remainingFeatures: set<nat>, gain: Gain)
        returns (remainingAfter: set<nat>)
      requires bestFeature in remainingFeatures && splits != []
      requires forall i :: 0 <= i < |splits| ==> splits[i] != [] && FeaturesInRange(remainingFeatures, splits[i])
      requires root.Valid() && root.children == [] && root.Repr == {root} && root.routed == examples
      requires root.classLabel.None? && root.classCounts.None?
      requires root.builtWith == remainingFeatures
      modifies root
      decreases remainingFeatures, 0
      ensures root.Valid() && fresh(root.Repr - {root})
      ensures root.routed == examples && root.splitFeature == bestFeature
      ensures root.classLabel.None? && root.classCounts.None?
      ensures root.splitFeatureValue == old(root.splitFeatureValue)
      ensures |root.children| == |splits| && ChildrenBuilt(root, splits, bestFeature, gain)
      ensures root.builtWith == remainingFeatures
      ensures root.splitFeatures == {bestFeature} + FeaturesOf(root.children)
      ensures bestFeature !in FeaturesOf(root.children) && DisjointFeatures(root.children)
      ensures root.splitFeatures <= remainingFeatures
      ensures remainingAfter == remainingFeatures - root.splitFeatures
    {
      root.splitFeature, root.splitFeatures := bestFeature, {bestFeature};
      remainingAfter := remainingFeatures;
      for i := 0 to |splits|
        invariant root.Valid() && fresh(root.Repr - {root})
        invariant root.routed == examples && root.splitFeature == bestFeature
        invariant root.classLabel.None? && root.classCounts.None?
        invariant root.splitFeatureValue == old(root.splitFeatureValue)
        invariant |root.children| == i && ChildrenBuilt(root, splits, bestFeature, gain)
        invariant remainingAfter <= remainingFeatures
        invariant forall f :: f in root.splitFeatures <==> f == bestFeature || f in FeaturesOf(root.children)
        invariant forall f :: f in remainingAfter <==> f in remainingFeatures && (i == 0 || f !in root.splitFeatures)
        invariant forall f :: f in root.splitFeatures ==> f in remainingFeatures
        invariant bestFeature !in FeaturesOf(root.children) && DisjointFeatures(root.children)
        invariant root.builtWith == remainingFeatures
        invariant i > 0 ==> remainingAfter == root.children[i - 1].builtWith - root.children[i - 1].splitFeatures
      {
        var child;
        remainingAfter, child := AddChild(splits[i], splits, root, bestFeature, remainingAfter, gain);
      }
    }

    /** Each child of `root` so far is built from the group of `splits` at its position. */
    static ghost predicate ChildrenBuilt(root: ID3Classifier, splits: seq<seq<Instance>>, feature: nat, gain: Gain)
      reads root, root.Repr
      requires root.Valid()
    {
      && ChildrenFrom(root.children, splits, feature, root.builtWith)
      && forall j {:trigger root.children[j].Sound(gain)} :: 0 <= j < |root.children| ==> root.children[j].Sound(gain)
    }

    /**
     * One pass of buildDecisionTree's split loop: a new child keyed by the
     * subset's value at `bestFeature`, the feature removed from the shared
     * set, the child built from the subset and appended to `root`. Building
     * a child never reads its parent, so appending it after building gives
     * the same tree as appending it before.
     */
    static method AddChild(subset: seq<Instance>, ghost splits: seq<seq<Instance>>, root: ID3Classifier, bestFeature: nat, remainingFeatures: set<nat>, gain: Gain)
        returns (remainingAfter: set<nat>, child: ID3Classifier)
      requires root.Valid() && root.splitFeature == bestFeature && ChildrenBuilt(root, splits, bestFeature, gain)
      requires |root.children| < |splits| && subset == splits[|root.children|]
      requires |subset| > 0 && bestFeature < |subset[0].values| && FeaturesInRange(remainingFeatures - {bestFeature}, subset)
      requires DisjointFeatures(root.children) && FeaturesOf(root.children) !! remainingFeatures
      requires remainingFeatures ==
                 if root.children == [] then root.builtWith
                 else root.children[|root.children| - 1].builtWith - root.children[|root.children| - 1].splitFeatures
      modifies root
      decreases remainingFeatures - {bestFeature}, 3
      ensures root.Valid() && fresh(root.Repr - old(root.Repr))
      ensures ChildrenBuilt(root, splits, bestFeature, gain)
      ensures root.routed == old(root.routed) && root.splitFeature == old(root.splitFeature)
      ensures root.classLabel == old(root.classLabel) && root.classCounts == old(root.classCounts)
      ensures root.splitFeatureValue == old(root.splitFeatureValue)
      ensures root.children == old(root.children) + [child]
      ensures child.splitFeatures <= remainingFeatures - {bestFeature}
      ensures remainingAfter == remainingFeatures - {bestFeature} - child.splitFeatures
      ensures FeaturesOf(root.children) == old(FeaturesOf(root.children)) + child.splitFeatures
      ensures root.splitFeatures == old(root.splitFeatures) + child.splitFeatures
      ensures DisjointFeatures(root.children)
      ensures root.builtWith == old(root.builtWith)
      ensures remainingAfter == child.builtWith - child.splitFeatures
    {
      ghost var previous := if root.children == [] then root else root.children[|root.children| - 1];
      child := NewChild(subset[0].GetValue(bestFeature));
      assert child !in root.Repr && child !in root.children && child != previous;
      remainingAfter := remainingFeatures - {bestFeature};
      remainingAfter := BuildDecisionTree(subset, child, remainingAfter, gain);
      assert unchanged(root.Repr) && root.Repr == old(root.Repr) && fresh(child.Repr);
      assert root.Valid() && ChildrenBuilt(root, splits, bestFeature, gain);
      assert FeaturesOf(root.children) == old(FeaturesOf(root.children));
      assert DisjointFeatures(root.children);
      ChildrenFromSnoc(root.children, child, splits, bestFeature, root.builtWith);
      label Built:
      Append(splits, bestFeature, gain, root, child);
      assert unchanged@Built(child);
    }

    /** A new node keyed by the branch value `value`. */
    static method NewChild(value: string) returns (child: ID3Classifier)
      ensures fresh(child) && child.Valid() && child.Untrained()
      ensures child.splitFeatureValue == Some(value) && child.routed == []
    {
      child := new ID3Classifier();
      child.splitFeatureValue := Some(value);
    }

    /** root.children.add(child), with the child's nodes joining the tree's. */
    static method Append(ghost splits: seq<seq<Instance>>, ghost feature: nat, ghost gain: Gain, root: ID3Classifier, child: ID3Classifier)
      requires root.Valid() && child.Valid() && child.splitFeatureValue.Some?
      requires root !in child.Repr && root.Repr !! child.Repr
      requires ChildrenFrom(root.children + [child], splits, feature, root.builtWith)
      requires forall j {:trigger root.children[j].Sound(gain)} :: 0 <= j < |root.children| ==> root.children[j].Sound(gain)
      requires child.Sound(gain)
      requires DisjointFeatures(root.children) && FeaturesOf(root.children) !! child.splitFeatures
      modifies root
      ensures root.Valid() && ChildrenBuilt(root, splits, feature, gain)
      ensures root.children == old(root.children) + [child] && root.Repr == old(root.Repr) + child.Repr
      ensures root.routed == old(root.routed) && root.splitFeature == old(root.splitFeature)
      ensures root.classLabel == old(root.classLabel) && root.classCounts == old(root.classCounts)
      ensures root.splitFeatureValue == old(root.splitFeatureValue)
      ensures FeaturesOf(root.children) == old(FeaturesOf(root.children)) + child.splitFeatures
      ensures root.splitFeatures == old(root.splitFeatures) + child.splitFeatures
      ensures DisjointFeatures(root.children)
      ensures root.builtWith == old(root.builtWith)
    {
      ghost var siblings, nodes := root.children, root.Repr;
      ghost var kids := siblings + [child];
      FeaturesOfSnoc(siblings, child);
      DisjointFeaturesSnoc(siblings, child);
      assert root !in kids;
      root.children, root.Repr := root.children + [child], root.Repr + child.Repr;
      root.splitFeatures := root.splitFeatures + child.splitFeatures;
      forall j {:trigger kids[j].Sound(gain)} | 0 <= j < |kids|
        ensures kids[j].Valid() && kids[j].Sound(gain) == old(kids[j].Sound(gain))
      {
        SubtreeUnchanged(kids[j]);
      }
      AppendValid(root, siblings, child, nodes);
      KidsBuilt(root, kids, splits, feature, gain);
    }
  }

  /** A node that one of the decision rule's stopping conditions made a leaf meets the guarantees of a leaf. */
  lemma LeafSound(node: ID3Classifier, gain: Gain)
    requires node.IsLeaf() && node.Repr == {node} && node.routed != [] && node.splitFeatures == {}
    requires node.classCounts == Some(LabelCounts(node.routed)) && IsMajority(node.classLabel.value, node.routed)
    requires AllSameLabel(node.routed) || node.builtWith == {} || BestGainIsZero(node.routed, node.builtWith, gain)
    ensures node.Valid() && node.Sound(gain)
  {
  }

  /**
   * A node whose children are built from the groups of the split of its
   * examples by its feature, one child per group, meets the guarantees of
   * an internal node.
   */
  lemma SplitNodeSound(root: ID3Classifier, examples: seq<Instance>, splits: seq<seq<Instance>>, gain: Gain)
    requires root.Valid() && root.routed == examples && examples != []
    requires root.splitFeature >= 0 && root.classLabel.None? && root.classCounts.None?
    requires forall e :: e in examples ==> root.splitFeature < |e.values|
    requires IsSplit(splits, examples, root.splitFeature as nat) && splits != []
    requires |root.children| == |splits| && ID3Classifier.ChildrenBuilt(root, splits, root.splitFeature as nat, gain)
    requires root.splitFeatures == {root.splitFeature as nat} + FeaturesOf(root.children)
    requires root.splitFeature as nat !in FeaturesOf(root.children) && DisjointFeatures(root.children)
    requires !AllSameLabel(examples) && !BestGainIsZero(examples, root.builtWith, gain)
    requires root.splitFeature as nat in root.builtWith
    requires HasBestGain(examples, root.builtWith, gain, root.splitFeature as nat)
    ensures root.IsInternal() && root.Sound(gain)
  {
    var f := root.splitFeature as nat;
    forall v | v in Values(examples, f)
      ensures exists i :: 0 <= i < |root.children| && root.children[i].splitFeatureValue == Some(v)
    {
      assert v in Keys(splits, f);
    }
  }

  /** The groups of a split are non-empty, and features in range for all examples are in range for each group. */
  lemma GroupsInRange(splits: seq<seq<Instance>>, examples: seq<Instance>, index: nat, features: set<nat>)
    requires IsSplit(splits, examples, index) && FeaturesInRange(features, examples)
    ensures forall i :: 0 <= i < |splits| ==> splits[i] != [] && FeaturesInRange(features, splits[i])
  {
    forall i | 0 <= i < |splits|
      ensures splits[i] != [] && FeaturesInRange(features, splits[i])
    {
      assert splits[i] == Select(examples, index, Key(splits[i], index));
    }
  }

  /** Children that are built trees, keyed and built from the groups of `splits`, are built children. */
  lemma KidsBuilt(root: ID3Classifier, kids: seq<ID3Classifier>, splits: seq<seq<Instance>>, feature: nat, gain: Gain)
    requires root.Valid() && root.children == kids
    requires ChildrenFrom(kids, splits, feature, root.builtWith)
    requires forall j {:trigger kids[j].Sound(gain)} :: 0 <= j < |kids| ==> kids[j].Valid() && kids[j].Sound(gain)
    ensures ID3Classifier.ChildrenBuilt(root, splits, feature, gain)
  {
  }

  /** A node whose children are valid subtrees within its nodes, the last one added after the rest with nodes of its own, is valid. */
  lemma AppendValid(root: ID3Classifier, siblings: seq<ID3Classifier>, child: ID3Classifier, nodes: set<object>)
    requires root.children == siblings + [child] && root.Repr == nodes + child.Repr
    requires root in nodes && nodes !! child.Repr && child.Valid() && child.splitFeatureValue.Some?
    requires forall i :: 0 <= i < |siblings| ==>
               && siblings[i] in nodes && siblings[i].Repr <= nodes && root !in siblings[i].Repr
               && siblings[i].splitFeatureValue.Some? && siblings[i].Valid()
    ensures root.Valid()
  {
    assert forall i :: 0 <= i < |siblings| ==> root.children[i] == siblings[i];
  }

  /**
   * The feature sets the builds of the subtrees `nodes` of a node built
   * from `features` and splitting on `feature` start from: the first
   * starts from `features`, each later one from the set the previous
   * sibling's build left, always less `feature`.
   */
  ghost predicate HandedOn(features: set<nat>, nodes: seq<ID3Classifier>, feature: nat)
    reads nodes
    decreases |nodes|
  {
    if nodes == [] then true
    else
      var n := |nodes| - 1;
      && HandedOn(features, nodes[..n], feature)
      && nodes[n].builtWith == (if n == 0 then features else nodes[n - 1].builtWith - nodes[n - 1].splitFeatures) - {feature}
  }

  /**
   * The subtrees `nodes` of a node built from `features` and splitting on
   * `feature` are keyed by and built from the groups of `splits` at their
   * positions, with the feature sets handed on from sibling to sibling.
   */
  ghost predicate ChildrenFrom(nodes: seq<ID3Classifier>, splits: seq<seq<Instance>>, feature: nat, features: set<nat>)
    reads nodes
  {
    && |nodes| <= |splits|
    && HandedOn(features, nodes, feature)
    && forall j :: 0 <= j < |nodes| ==>
         && nodes[j].splitFeatureValue == Some(Key(splits[j], feature))
         && nodes[j].routed == splits[j]
  }

  /** One more subtree, keyed and built from the next group with the set the last sibling left, extends the children. */
  lemma ChildrenFromSnoc(nodes: seq<ID3Classifier>, n: ID3Classifier, splits: seq<seq<Instance>>, feature: nat, features: set<nat>)
    requires ChildrenFrom(nodes, splits, feature, features) && |nodes| < |splits|
    requires n.splitFeatureValue == Some(Key(splits[|nodes|], feature)) && n.routed == splits[|nodes|]
    requires n.builtWith ==
               (if nodes == [] then features else nodes[|nodes| - 1].builtWith - nodes[|nodes| - 1].splitFeatures) - {feature}
    ensures ChildrenFrom(nodes + [n], splits, feature, features)
  {
    assert forall i :: 0 <= i < |nodes| ==> (nodes + [n])[i] == nodes[i];
    assert (nodes + [n])[..|nodes|] == nodes;
  }

  /** A subtree none of whose nodes changed keeps its shape and its guarantees. */
  twostate lemma SubtreeUnchanged(n: ID3Classifier)
    requires old(n.Valid()) && unchanged(old(n.Repr))
    ensures n.Valid()
    ensures forall gain {:trigger n.Sound(gain)} :: n.Sound(gain) == old(n.Sound(gain))
  {
  }

  /** The split features of the subtrees of `nodes`. */
  ghost function FeaturesOf(nodes: seq<ID3Classifier>): set<nat>
    reads nodes
  {
    set i, f | 0 <= i < |nodes| && f in nodes[i].splitFeatures :: f
  }

  /**
   * On a built tree the shared feature set is never handed out twice: no
   * subtree of an internal node splits on the node's feature, and no two
   * sibling subtrees split on a common feature.
   */
  lemma FeatureNotReused(node: ID3Classifier, i: nat, gain: Gain)
    requires node.Valid() && node.Sound(gain) && node.IsInternal() && i < |node.children|
    ensures node.splitFeature as nat !in node.children[i].splitFeatures
    ensures node.children[i].IsInternal() ==> node.children[i].splitFeature != node.splitFeature
    ensures forall j :: 0 <= j < |node.children| && j != i ==>
              node.children[i].splitFeatures !! node.children[j].splitFeatures
  {
    assert node.children[i].Sound(gain);
    assert forall f :: f in node.children[i].splitFeatures ==> f in FeaturesOf(node.children);
  }

  /** No feature is split on in two of the subtrees of `nodes`. */
  ghost predicate DisjointFeatures(nodes: seq<ID3Classifier>)
    reads nodes
  {
    forall i, j :: 0 <= i < j < |nodes| ==> nodes[i].splitFeatures !! nodes[j].splitFeatures
  }

  /** One more subtree, splitting on none of the features of the others, keeps the subtrees' features disjoint. */
  lemma DisjointFeaturesSnoc(nodes: seq<ID3Classifier>, n: ID3Classifier)
    requires DisjointFeatures(nodes) && FeaturesOf(nodes) !! n.splitFeatures
    ensures DisjointFeatures(nodes + [n])
  {
    forall i | 0 <= i < |nodes|
      ensures nodes[i].splitFeatures !! n.splitFeatures
    {
      assert forall f :: f in nodes[i].splitFeatures ==> f in FeaturesOf(nodes);
    }
  }

  /** The split features of one more subtree. */
  lemma FeaturesOfSnoc(nodes: seq<ID3Classifier>, n: ID3Classifier)
    ensures FeaturesOf(nodes + [n]) == FeaturesOf(nodes) + n.splitFeatures
  {
    var all := nodes + [n];
    forall f | f in FeaturesOf(all)
      ensures f in FeaturesOf(nodes) + n.splitFeatures
    {
      var i :| 0 <= i < |all| && f in all[i].splitFeatures;
      if i < |nodes| {
        assert all[i] == nodes[i];
      }
    }
    forall f | f in FeaturesOf(nodes) + n.splitFeatures
      ensures f in FeaturesOf(all)
    {
      if f in n.splitFeatures {
        assert all[|nodes|] == n;
      } else {
        var i :| 0 <= i < |nodes| && f in nodes[i].splitFeatures;
        assert all[i] == nodes[i];
      }
    }
  }

  /** On a built tree, a prediction that names a label names one seen in training at that node. */
  lemma {:induction false} PredictLabelSeen(node: ID3Classifier, input: seq<string>, gain: Gain)
    requires node.Valid() && node.Sound(gain)
    ensures node.Predict(input).Success? && node.Predict(input).value.Some? ==>
              exists e :: e in node.routed && e.classLabel == node.Predict(input).value.value
    decreases node.Repr
  {
    if node.children == [] {
      InLabelSet(node.routed, node.classLabel.value);
    } else if 0 <= node.splitFeature < |input| {
      var k := FirstMatch(node.children, input[node.splitFeature]);
      if k < |node.children| {
        var child := node.children[k];
        PredictLabelSeen(child, input, gain);
      }
    }
  }

  /** On a built tree, an input at least as long as every training example never overruns. */
  lemma {:induction false} PredictTotal(node: ID3Classifier, input: seq<string>, gain: Gain)
    requires node.Valid() && node.Sound(gain)
    requires forall e :: e in node.routed ==> |e.values| <= |input|
    ensures node.Predict(input).Success?
    decreases node.Repr
  {
    if node.children != [] {
      assert node.routed[0] in node.routed;
      var k := FirstMatch(node.children, input[node.splitFeature]);
      if k < |node.children| {
        PredictTotal(node.children[k], input, gain);
      }
    }
  }

  /** On a built tree, every training example is classified: it reaches a leaf, never "no match". */
  lemma {:induction false} PredictTrainingExample(node: ID3Classifier, x: Instance, gain: Gain)
    requires node.Valid() && node.Sound(gain)
    requires x in node.routed
    ensures node.Predict(x.values).Success? && node.Predict(x.values).value.Some?
    decreases node.Repr
  {
    if node.children != [] {
      var f := node.splitFeature;
      var v := x.values[f];
      assert v in Values(node.routed, f);
      var i :| 0 <= i < |node.children| && node.children[i].splitFeatureValue == Some(v);
      var k := FirstMatch(node.children, v);
      assert k <= i;
      var child := node.children[k];
      assert node.Predict(x.values) == child.Predict(x.values);
      assert child.routed == Select(node.routed, f, v);
      SelectComplete(node.routed, f, v, x);
      PredictTrainingExample(child, x, gain);
    }
  }

  /**
   * On a built tree, an input whose value at the root's split feature was
   * never seen there gets "no prediction", not a label.
   */
  lemma PredictUnseenValue(node: ID3Classifier, input: seq<string>, gain: Gain)
    requires node.Valid() && node.Sound(gain) && node.IsInternal()
    requires node.splitFeature < |input| && input[node.splitFeature] !in Values(node.routed, node.splitFeature)
    ensures node.Predict(input) == Success(None)
  {
    var v := input[node.splitFeature];
    forall i | 0 <= i < |node.children|
      ensures node.children[i].splitFeatureValue != Some(v)
    {
      var c := node.children[i];
      assert c.Sound(gain);
      var w := c.splitFeatureValue.value;
      assert c.routed[0] in Select(node.routed, node.splitFeature, w);
      assert w in Values(node.routed, node.splitFeature);
    }
  }

  /** The counts stored at a leaf of a built tree add up to the examples that reached it. */
  lemma LeafCountsSum(node: ID3Classifier, gain: Gain)
    requires node.Valid() && node.Sound(gain) && node.IsLeaf()
    ensures SumValues(node.classCounts.value) == |node.routed|
  {
    CountsSum(node.routed);
  }
}
