# ID3 decision tree in Dafny

This project models the ID3 engine of the `decisiontree` package.

- **Instances** (`Instance.dfy`): a categorical record. An `Instance` keeps its feature values in order plus its class label, read through `GetValue`, `NClasses` and `GetLabel`. `FromFields` is the `Instance` constructor, starting from the already-split record: it fills a values array with every field except the target one, and that field becomes the label. `RuntimeError` names the Java exceptions the core can throw.
- **LabelStats** (`LabelStats.dfy`): the integer label statistics the classifier works with:
  - the label frequencies (`Collections.frequency`);
  - the `classCounts` map stored at a leaf;
  - what a majority label is;
  - the sums that these counts add up to.
- **Partition** (`Partition.dfy`): what `splitData` produces. That is the examples grouped by their value at a feature index, one group per observed value. The file also proves that such a split is a partition of the examples.
- **ID3** (`ID3Classifier.dfy`): the class `ID3Classifier`, one node of the tree, with its mutable fields. The members are:
  - `Train`;
  - the recursive builder (`BuildDecisionTree`, with its split loop `BuildChildren`, one pass `AddChild` of that loop, and `Append`, which share one recursion);
  - `SplitData`, `IsHomogeneous`, `MajorityVote` and the label-frequency loop of `dataToDistribution`;
  - `Predict`, a function over the finished tree;
  - lemmas about what prediction does on a built tree.
- **Wrappers** (`Wrappers.dfy`): `Option` and `Result`.

How the model represents the source:

- **Information gain** is a parameter `gain: (seq<Instance>, nat) -> real`. The best feature is any element of the remaining set with the largest gain, and the zero-gain test is `gain(best) == 0`.
- **Recorded examples.** Each node records, in the ghost field `routed`, the examples that reached it during the build.
- **Recorded feature sets.** Each node records, in the ghost field `builtWith`, the remaining-feature set its own build started from.
- **Structural invariants.** `Valid()` says the nodes below a node form a finite acyclic structure: each child's nodes lie within the node's, and the node is not among them. `Sound(gain)` states what building guarantees at every node, not only at the root:
  - every node is a leaf or an internal node;
  - every node meets the decision rule of `buildDecisionTree` for the examples that reached it and its `builtWith`: it is a leaf exactly when their labels are uniform, the set is empty, or the best gain in the set is 0, and an internal node splits on a feature of the set with maximal gain;
  - the set is handed on as in the Java code: an internal node's first child starts from the node's set less the node's feature, and each later child from the set its previous sibling's build left, less that feature;
  - a leaf stores the exact label counts of its examples and a majority label;
  - an internal node's children are the groups of the split of its examples by its feature, with distinct branch values, one for every observed value;
  - the ghost field `splitFeatures` holds the features the internal nodes of the subtree split on: empty at a leaf, and at an internal node its own feature plus those of its children. At an internal node, no child subtree splits on the node's own feature, and no two sibling subtrees split on a common feature.
- **The remaining-feature `HashSet`** is shared by every call of `buildDecisionTree`. The model threads its value: each builder call takes the set and returns the set as the call left it, which is the set it was given less the `splitFeatures` of the subtree it built. The next sibling's build starts from that set, as in the Java code.
- **Termination.** Recursion terminates because each child's call gets a set with the chosen feature removed. The `decreases` clauses say so.
- **Order and ties.** `HashSet` iteration order is left open. `Max` picks any element no other exceeds, which is Collections.max's rule over an unknown order. Groups and children appear in any order of the observed values.

## Model

| member | source | states |
|---|---|---|
| ID3.ID3Classifier.constructor | decisiontree/ID3Classifier.java:21-28 | a new node has no children, no counts, no label, no branch value and `splitFeature == -1` |
| ID3.ID3Classifier.Train | decisiontree/ID3Classifier.java:30-36 | fails with an index error exactly when the list is empty (`examples.get(0)`), or when the labels are not uniform and some example is shorter than the first (`getValue` while the root's gains are computed). A failure leaves the node untouched. Otherwise the node is built from the examples with the feature set {0..nClasses-1}: it is a leaf iff the labels are uniform, there is no feature, or the best gain is 0, and when it splits, it splits on a feature of maximal gain. Through `Sound(gain)` every node below meets the same rule for its own examples and the set handed on to it. The branch value is never changed. |
| ID3.ID3Classifier.ReachArity | decisiontree/ID3Classifier.java:148-158 | true exactly when every example has at least the given number of feature values. This is the test for whether the `getValue` reads made by the root's gain computation (`splitData` at lines 81-83, then `getValue` in Instance.java, line 26) run past an example's values. |
| ID3.FeatureRange | decisiontree/ID3Classifier.java:31-34 | the seeded feature set is exactly the indices below n |
| ID3.ID3Classifier.Predict | decisiontree/ID3Classifier.java:39-51 | a node without children returns its label unchanged. An input too short for the split feature fails, since `input.get` throws. An internal node returns the prediction of the first child whose branch value equals the input's value, and "no prediction" when none matches. Any label returned is the label of a leaf of this subtree. |
| ID3.FirstMatch | decisiontree/ID3Classifier.java:44-49 | the index of the first child whose value equals the input's value: every child before it differs, and it is the number of children when there is no match |
| ID3.PredictLabelSeen | decisiontree/ID3Classifier.java:39-51 | on a built tree, a predicted label is the label of some training example that reached the node |
| ID3.PredictTotal | decisiontree/ID3Classifier.java:43 | on a built tree, an input at least as long as every training example never makes `input.get` throw |
| ID3.PredictTrainingExample | decisiontree/ID3Classifier.java:39-51 | on a built tree, every training example reaches a leaf, so it gets a label and never "no prediction" |
| ID3.PredictUnseenValue | decisiontree/ID3Classifier.java:43-50 | on a built internal node, an input whose split value never occurred among the node's examples gets "no prediction" |
| ID3.ID3Classifier.LabelFrequencies | decisiontree/ID3Classifier.java:54-66 | one frequency per distinct label, each that label's positive count, with no label repeated. The frequencies sum to the number of examples, so dividing by it gives a distribution. |
| ID3.ID3Classifier.Frequencies | decisiontree/ID3Classifier.java:61-66 | the loop over the label set lists, for each label of the set, its exact and positive count; the counts add up to the number of entries of the label list that lie in the set |
| LabelStats.FrequenciesComplete | decisiontree/ID3Classifier.java:58-66 | the frequencies of all present labels add up to the number of entries `nEntries` |
| LabelStats.FrequenciesSnoc | decisiontree/ID3Classifier.java:61-66 | one more present label extends the frequency list and its sum by that label's count |
| ID3.ID3Classifier.SplitData | decisiontree/ID3Classifier.java:79-95 | the groups are non-empty. Each holds exactly the examples with its value, in their order, and is therefore uniform in that value. No two groups share a value, and there is one group per observed value. |
| ID3.ID3Classifier.AttributeValues | decisiontree/ID3Classifier.java:80-83 | the set of values observed at the index |
| ID3.ID3Classifier.Filter | decisiontree/ID3Classifier.java:86-91 | the examples holding the value at the index, in their original order |
| Partition.Select | decisiontree/ID3Classifier.java:86-91 | a selection is no longer than its input, and every member is an input example holding the value |
| Partition.SelectComplete | decisiontree/ID3Classifier.java:86-91 | every example holding the value is selected |
| Partition.SplitBySnoc | decisiontree/ID3Classifier.java:84-93 | adding the group of a further observed value keeps the groups a split, now by one more value |
| Partition.SplitIsPartition | decisiontree/ID3Classifier.java:79-95 | the groups of a split are pairwise disjoint, and together they are exactly the examples as a multiset, with no loss and no duplication |
| Partition.UnionOfGroups | decisiontree/ID3Classifier.java:84-93 | groups with distinct keys, each the selection of its key, together make up the selection by all their keys |
| Partition.Keys | decisiontree/ID3Classifier.java:84-93 | a value is a key exactly when some group is keyed by it |
| ID3.ID3Classifier.IsHomogeneous | decisiontree/ID3Classifier.java:107-113 | true exactly when all examples carry the same label |
| LabelStats.SingleLabel | decisiontree/ID3Classifier.java:107-113 | at most one distinct label holds iff all the labels are equal, in both directions |
| ID3.ID3Classifier.CollectLabels | decisiontree/ID3Classifier.java:116-119 | the labels of the examples, one per example, in order |
| ID3.Max | decisiontree/ID3Classifier.java:121-124 | the chosen element is a candidate, and no candidate has a larger key |
| ID3.ID3Classifier.CountLabels | decisiontree/ID3Classifier.java:126-131 | the counts map has exactly the present labels as keys, each mapped to its exact frequency |
| ID3.ID3Classifier.MajorityVote | decisiontree/ID3Classifier.java:115-134 | the label becomes a present label of maximal frequency, and classCounts holds every present label's exact count. Children, splitFeature, the branch value and the other fields are untouched. |
| LabelStats.CountsSum | decisiontree/ID3Classifier.java:126-131 | the values of the counts map add up to the number of examples |
| LabelStats.SumValuesOfCounts | decisiontree/ID3Classifier.java:126-131 | the counts of a set of labels add up to the number of entries carrying one of them |
| LabelStats.CountMapAdd | decisiontree/ID3Classifier.java:128-130 | counting one more label adds exactly that label with its frequency |
| LabelStats.CountPositive | decisiontree/ID3Classifier.java:128-130 | a present label has a positive count |
| LabelStats.InLabelSet | decisiontree/ID3Classifier.java:116-120 | a label in the label set is the label of some example |
| LabelStats.HomogeneousCounts | decisiontree/ID3Classifier.java:137-142 | for uniform labels, the counts map is {label of examples[0] : number of examples}, and that label is a majority label |
| ID3.LeafCountsSum | decisiontree/ID3Classifier.java:137-146 | the counts stored at a leaf of a built tree add up to the number of examples that reached it |
| ID3.ID3Classifier.BuildDecisionTree | decisiontree/ID3Classifier.java:136-175 | uniform labels give a leaf with examples[0]'s label and counts {label : n}. Otherwise no remaining feature, or a best gain of 0, gives a majority-vote leaf, and else the node splits on a remaining feature of maximal gain, with one child per group of `splitData`. The node records the examples and the given set, and the whole subtree meets `Sound(gain)`: every node in it, not only this one, follows the decision rule for the examples that reached it and the set its build started from. The subtree splits only on features of the given set, and the shared set afterwards is the given set less exactly those features. |
| ID3.ID3Classifier.BuildChildren | decisiontree/ID3Classifier.java:164-173 | the split loop: one child per group, in the order of the groups, keyed by its value. Each child's whole subtree meets `Sound(gain)` for its group and the set handed on to it: the node's set less the node's feature for the first child, and the set the previous sibling's build left, less that feature, for the others. The node's split features are its feature plus its children's, all within the given set. No child subtree splits on the node's feature, and sibling subtrees split on disjoint features. The shared set afterwards is the given set less the node's split features. |
| ID3.ID3Classifier.AddChild | decisiontree/ID3Classifier.java:164-172 | the earlier children stay in place, and one more child, keyed by its subset's value at the feature, is built from that subset with the shared set less the feature. Its whole subtree meets `Sound(gain)`, the child records that set as the one its build started from, and its subtree splits only on features of that set. The earlier children's split features are disjoint from the given set, so they stay disjoint from the new child's. The shared set afterwards is that set less the child's split features, which join the parent's. Nothing else of the parent changes. |
| ID3.ID3Classifier.Append | decisiontree/ID3Classifier.java:169 | the child is added at the end of the children, the tree stays valid, the earlier children and the new one keep `Sound(gain)`, each still built from its group and its handed-on set, and the child's split features join those of the node and of its children. A child whose split features are disjoint from its siblings' keeps the children's features disjoint. |
| ID3.FeatureNotReused | decisiontree/ID3Classifier.java:171-172 | on a built tree, a child subtree never splits on its parent's feature, and two sibling subtrees never split on a common feature |
| ID3.SplitNodeSound | decisiontree/ID3Classifier.java:162-174 | a node whose children are built from the groups of the split, one per group, meets the guarantees of an internal node |
| ID3.SubtreeUnchanged | decisiontree/ID3Classifier.java:164-173 | a subtree none of whose nodes changed keeps its validity and guarantees |
| ID3.AppendValid | decisiontree/ID3Classifier.java:169 | valid children within the node's nodes plus a new valid child whose nodes are not the node's make a valid node |
| ID3.KidsBuilt | decisiontree/ID3Classifier.java:164-173 | children keyed and routed by the groups in order, handed the shared set in turn, and each meeting `Sound(gain)`, are the children a split loop has built so far |
| ID3.ChildrenFromSnoc | decisiontree/ID3Classifier.java:164-173 | one more child, keyed by and built from the next group and started from the set the previous sibling left less the feature, extends the children built so far |
| ID3.GroupsInRange | decisiontree/ID3Classifier.java:164-172 | every group of a split is non-empty, and feature indices in range for all the examples are in range for each group |
| ID3.LeafSound | decisiontree/ID3Classifier.java:137-161 | a node made a leaf by uniform labels, an empty set or a best gain of 0, holding its examples' exact counts and a majority label, meets `Sound(gain)` |
| ID3.FeaturesOfSnoc | decisiontree/ID3Classifier.java:171-172 | the features split on by the subtrees plus one more subtree are those of the subtrees plus that subtree's |
| ID3.DisjointFeaturesSnoc | decisiontree/ID3Classifier.java:171-172 | one more subtree that splits on none of the earlier subtrees' features keeps the subtrees' features pairwise disjoint |
| Instances.FromFields | decisiontree/Instance.java:10-23 | no fields means `NegativeArraySizeException`, and a target index out of range means the array is overrun. Otherwise the label is `fields[targetIndex]`, and the values are the fields with that position removed, in order, nClasses() = number of fields - 1. |
| Instances.GettersOfFields | decisiontree/Instance.java:25-35 | on a constructed instance, `nClasses()` is the number of fields less one, `getLabel()` is the target field, and `getValue(i)` is the i-th field other than the target |
| Instances.RemoveAt | decisiontree/Instance.java:12-22 | one fewer element: those before the position are kept, and those after move down by one |
| Instances.InsertAt | decisiontree/Instance.java:12-22 | one more element, with the given value at the position |
| Instances.InsertRemoveRoundTrip | decisiontree/Instance.java:12-22 | putting the label back at the target index restores the original record |
| Instances.RemoveInsertRoundTrip | decisiontree/Instance.java:12-22 | removing what was inserted gives back the feature values |

## Left out

- `computeEntropy`, `computeInformationGain` and the division by `nEntries` in `dataToDistribution` are left out. They use floating point and `Math.log`. The gain is an abstract parameter, and `LabelFrequencies` returns the integer frequencies, whose sum is proved to be the number of examples.
- The regex split `input.split("\\s*,\\s*")` in the `Instance` constructor is a library call. `FromFields` starts from the already-split fields.
- `toString` and `repr` in both classes, and `Main.java`, are left out. They are formatting and console I/O.
- The `parent` back-pointer is left out. It is written and never read.
- `HashSet` iteration order is left open. It decides the tie-break of Collections.max in `buildDecisionTree` and `majorityVote`, and the order of the groups and children. The model allows any order and any maximal element.
- Instances.Instance.GetValue: it requires `index < |values|` where Java's `getValue` throws `ArrayIndexOutOfBoundsException`. Every read in the model is at an index shown to be in range, and the reads that can overrun in Java are modelled as failures where they happen: `Train` on ragged data, `Predict` on a short input.
- AddChild: the child is appended to its parent after its subtree is built, where the Java code appends it before the recursive call. Building never reads the parent, so the finished tree is the same. The fields a reader sees in between are not modelled.
- `Valid()` does not state that sibling subtrees share no node. Every child is a fresh node when it is built, so this holds of a built tree, but no property proved here depends on it, and the quantifier over pairs of siblings makes the builder's proofs much more expensive.
- ID3.ID3Classifier.Predict: a `null` branch value on a child would throw in the Java code. It cannot occur on a built tree, and `Valid()` excludes it.
- The Java field `label` is named `classLabel` here, because `label` is a Dafny keyword.
- The gain comparison `bestGain == 0` is on doubles in Java and on `real` here, so rounding is not modelled.
- Feature-set sharing and tie-breaking follow the code, even though a per-branch copy of the feature set and a deterministic lowest-index tie-break are often proposed as the intended ID3 behaviour. A feature removed while one child is built is gone for its later siblings too. `BuildDecisionTree` states this in two ways. The set it returns lacks every feature its subtree splits on. Through `Sound()` and `FeatureNotReused`, no subtree reuses its node's feature, and sibling subtrees split on disjoint features.
