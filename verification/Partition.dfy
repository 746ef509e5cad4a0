/**
 * What splitData computes: the examples grouped by their value at one
 * feature index, one group per value observed.
 */
module Partition {
  import opened Instances

  /** `e` holds value `v` at feature `index`. */
  predicate HasValue(e: Instance, index: nat, v: string)
  {
    index < |e.values| && e.values[index] == v
  }

  /** The examples holding `v` at `index`, in their original order. */
  function Select(s: seq<Instance>, index: nat, v: string): (r: seq<Instance>)
    ensures |r| <= |s|
    ensures forall x :: x in r ==> x in s && HasValue(x, index, v)
  {
    if s == [] then []
    else if HasValue(s[0], index, v) then [s[0]] + Select(s[1..], index, v)
    else Select(s[1..], index, v)
  }

  /** The examples whose value at `index` is one of `keys`. */
  function SelectIn(s: seq<Instance>, index: nat, keys: set<string>): seq<Instance>
  {
    if s == [] then []
    else if index < |s[0].values| && s[0].values[index] in keys then [s[0]] + SelectIn(s[1..], index, keys)
    else SelectIn(s[1..], index, keys)
  }

  /** The distinct values observed at `index`. */
  function Values(s: seq<Instance>, index: nat): set<string>
  {
    set e | e in s && index < |e.values| :: e.values[index]
  }

  /** The value a group is keyed by: that of its first member. */
  function Key(group: seq<Instance>, index: nat): string
  {
    if group != [] && index < |group[0].values| then group[0].values[index] else ""
  }

  /** The keys of all groups. */
  function Keys(groups: seq<seq<Instance>>, index: nat): (r: set<string>)
    ensures forall v :: v in r <==> exists i :: 0 <= i < |groups| && Key(groups[i], index) == v
  {
    if groups == [] then {}
    else
      var n := |groups| - 1;
      assert forall i :: 0 <= i < n ==> groups[..n][i] == groups[i];
      Keys(groups[..n], index) + {Key(groups[n], index)}
  }

  /** All the groups' members together, counted with multiplicity. */
  function Union(groups: seq<seq<Instance>>): multiset<Instance>
  {
    if groups == [] then multiset{} else Union(groups[..|groups| - 1]) + multiset(groups[|groups| - 1])
  }

  /**
   * `groups` is the split of `examples` by the value at `index`: every group
   * is non-empty and is exactly the examples holding its key, no two groups
   * share a key, and every observed value has a group.
   */
  ghost predicate IsSplit(groups: seq<seq<Instance>>, examples: seq<Instance>, index: nat)
  {
    SplitBy(groups, examples, index, Values(examples, index))
  }

  /** `groups` are the groups of `examples` for exactly the values in `keys`. */
  ghost predicate SplitBy(groups: seq<seq<Instance>>, examples: seq<Instance>, index: nat, keys: set<string>)
  {
    && (forall i :: 0 <= i < |groups| ==>
          && groups[i] != []
          && groups[i] == Select(examples, index, Key(groups[i], index))
          && Key(groups[i], index) in keys)
    && (forall i, j :: 0 <= i < j < |groups| ==> Key(groups[i], index) != Key(groups[j], index))
    && (forall v :: v in keys ==> exists i :: 0 <= i < |groups| && Key(groups[i], index) == v)
  }

  /** Adding the group of a further observed value `v` to a split by `keys` makes a split by `keys` and `v`. */
  lemma SplitBySnoc(groups: seq<seq<Instance>>, examples: seq<Instance>, index: nat, keys: set<string>, v: string, extended: set<string>)
    requires SplitBy(groups, examples, index, keys)
    requires v in Values(examples, index) && v !in keys
    requires forall w :: w in extended <==> w in keys || w == v
    ensures SplitBy(groups + [Select(examples, index, v)], examples, index, extended)
  {
    SelectNonEmpty(examples, index, v);
    SelectKey(examples, index, v);
    var g := groups + [Select(examples, index, v)];
    assert forall i :: 0 <= i < |groups| ==> g[i] == groups[i];
    forall w | w in extended
      ensures exists i :: 0 <= i < |g| && Key(g[i], index) == w
    {
      if w == v {
        assert Key(g[|groups|], index) == v;
      } else {
        var i :| 0 <= i < |groups| && Key(groups[i], index) == w;
        assert g[i] == groups[i];
      }
    }
  }

  /** The keys of a split by `keys` are `keys`. */
  lemma KeysOfSplit(groups: seq<seq<Instance>>, examples: seq<Instance>, index: nat, keys: set<string>)
    requires SplitBy(groups, examples, index, keys)
    ensures Keys(groups, index) == keys
  {
  }

  /** The observed values of a prefix extended by one example. */
  lemma ValuesSnoc(s: seq<Instance>, i: nat, index: nat)
    requires i < |s| && index < |s[i].values|
    ensures Values(s[..i + 1], index) == Values(s[..i], index) + {s[i].values[index]}
  {
    assert s[..i + 1] == s[..i] + [s[i]];
  }

  /** The group of a prefix extended by one example. */
  lemma SelectSnoc(s: seq<Instance>, i: nat, index: nat, v: string)
    requires i < |s|
    ensures Select(s[..i + 1], index, v) == Select(s[..i], index, v) + if HasValue(s[i], index, v) then [s[i]] else []
  {
    SelectAppend(s[..i], [s[i]], index, v);
    assert s[..i] + [s[i]] == s[..i + 1];
  }

  /** Selecting from a concatenation selects from each part. */
  lemma {:induction false} SelectAppend(s: seq<Instance>, t: seq<Instance>, index: nat, v: string)
    ensures Select(s + t, index, v) == Select(s, index, v) + Select(t, index, v)
  {
    if s != [] {
      assert (s + t)[0] == s[0] && (s + t)[1..] == s[1..] + t;
      SelectAppend(s[1..], t, index, v);
      if HasValue(s[0], index, v) {
        assert Select(s + t, index, v) == [s[0]] + Select(s[1..] + t, index, v);
      }
    } else {
      assert s + t == t;
    }
  }

  /** Every member of a group is keyed by the group's key. */
  lemma SelectKey(s: seq<Instance>, index: nat, v: string)
    requires Select(s, index, v) != []
    ensures Key(Select(s, index, v), index) == v
  {
    assert Select(s, index, v)[0] in Select(s, index, v);
  }

  /** An example holding `v` is in the group of `v`. */
  lemma {:induction false} SelectComplete(s: seq<Instance>, index: nat, v: string, x: Instance)
    requires x in s && HasValue(x, index, v)
    ensures x in Select(s, index, v)
  {
    if s[0] != x {
      assert x in s[1..];
      SelectComplete(s[1..], index, v, x);
    }
  }

  /** Each observed value has a non-empty group. */
  lemma SelectNonEmpty(s: seq<Instance>, index: nat, v: string)
    requires v in Values(s, index)
    ensures Select(s, index, v) != []
  {
    var x :| x in s && index < |x.values| && x.values[index] == v;
    SelectComplete(s, index, v, x);
  }

  /** Selecting by one more key adds exactly that key's group. */
  lemma {:induction false} SelectInAdd(s: seq<Instance>, index: nat, keys: set<string>, v: string)
    requires v !in keys
    ensures multiset(SelectIn(s, index, keys + {v})) == multiset(SelectIn(s, index, keys)) + multiset(Select(s, index, v))
  {
    if s != [] {
      SelectInAdd(s[1..], index, keys, v);
    }
  }

  lemma {:induction false} SelectInNone(s: seq<Instance>, index: nat)
    ensures SelectIn(s, index, {}) == []
  {
    if s != [] {
      SelectInNone(s[1..], index);
    }
  }

  /** Selecting by keys that cover every example keeps them all. */
  lemma {:induction false} SelectInAll(s: seq<Instance>, index: nat, keys: set<string>)
    requires forall e :: e in s ==> index < |e.values| && e.values[index] in keys
    ensures SelectIn(s, index, keys) == s
  {
    if s != [] {
      assert forall e :: e in s[1..] ==> e in s;
      SelectInAll(s[1..], index, keys);
      assert [s[0]] + s[1..] == s;
    }
  }

  /** Groups with distinct keys, each the group of its key, make up the selection by their keys. */
  lemma {:induction false} UnionOfGroups(groups: seq<seq<Instance>>, examples: seq<Instance>, index: nat)
    requires forall i :: 0 <= i < |groups| ==> groups[i] == Select(examples, index, Key(groups[i], index))
    requires forall i, j :: 0 <= i < j < |groups| ==> Key(groups[i], index) != Key(groups[j], index)
    ensures Union(groups) == multiset(SelectIn(examples, index, Keys(groups, index)))
  {
    if groups == [] {
      SelectInNone(examples, index);
    } else {
      var n := |groups| - 1;
      var prefix := groups[..n];
      assert forall i :: 0 <= i < n ==> prefix[i] == groups[i];
      UnionOfGroups(prefix, examples, index);
      var k := Key(groups[n], index);
      assert k !in Keys(prefix, index);
      SelectInAdd(examples, index, Keys(prefix, index), k);
    }
  }

  /**
   * A split is a partition: no example is in two groups, and the groups
   * together are exactly the examples, with no loss and no duplication.
   */
  lemma SplitIsPartition(groups: seq<seq<Instance>>, examples: seq<Instance>, index: nat)
    requires IsSplit(groups, examples, index)
    requires forall e :: e in examples ==> index < |e.values|
    ensures forall i, j, x :: 0 <= i < |groups| && 0 <= j < |groups| && i != j && x in groups[i] ==> x !in groups[j]
    ensures Union(groups) == multiset(examples)
  {
    UnionOfGroups(groups, examples, index);
    KeysOfSplit(groups, examples, index, Values(examples, index));
    SelectInAll(examples, index, Values(examples, index));
  }
}
