/**
 * A training or query record: the categorical feature values, in order, and
 * the class label. The label is the field at the target position of the
 * already-split input record; the remaining fields are the feature values.
 */
module Instances {
  import opened Wrappers

  datatype Instance = Instance(values: seq<string>, classLabel: string)
  {
    /** getValue: the feature value at `index` (Java throws beyond the array). */
    function GetValue(index: nat): string
      requires index < |values|
    {
      values[index]
    }

    /** nClasses: the number of feature values (the name is the source's). */
    function NClasses(): nat
    {
      |values|
    }

    function GetLabel(): string
    {
      classLabel
    }
  }

  /**
   * The Java runtime exceptions the core can throw: a negative array size in
   * the Instance constructor, and an index beyond the end of an array or a
   * list (the constructor's values array, input.get in predict, examples.get(0)
   * in train).
   */
  datatype RuntimeError = NegativeArraySize | IndexOutOfBounds

  /** `s` with position `k` taken out, the other elements in their order. */
  function RemoveAt(s: seq<string>, k: nat): (r: seq<string>)
    requires k < |s|
    ensures |r| == |s| - 1
    ensures forall i :: 0 <= i < |r| ==> r[i] == if i < k then s[i] else s[i + 1]
  {
    s[..k] + s[k + 1..]
  }

  /** `x` put back into `s` at position `k`. */
  function InsertAt(s: seq<string>, k: nat, x: string): (r: seq<string>)
    requires k <= |s|
    ensures |r| == |s| + 1 && r[k] == x
  {
    s[..k] + [x] + s[k..]
  }

  /** Putting the label back where it came from restores the record. */
  lemma {:induction false} InsertRemoveRoundTrip(fields: seq<string>, k: nat)
    requires k < |fields|
    ensures InsertAt(RemoveAt(fields, k), k, fields[k]) == fields
  {
    var r := InsertAt(RemoveAt(fields, k), k, fields[k]);
    forall i | 0 <= i < |fields|
      ensures r[i] == fields[i]
    {
      if i < k {
        assert r[i] == RemoveAt(fields, k)[i];
      } else if i > k {
        assert r[i] == RemoveAt(fields, k)[i - 1];
      }
    }
  }

  /** Removing what was inserted gives back the feature values. */
  lemma {:induction false} RemoveInsertRoundTrip(s: seq<string>, k: nat, x: string)
    requires k <= |s|
    ensures RemoveAt(InsertAt(s, k, x), k) == s
  {
    var r := RemoveAt(InsertAt(s, k, x), k);
    forall i | 0 <= i < |s|
      ensures r[i] == s[i]
    {
      if i >= k {
        assert InsertAt(s, k, x)[i + 1] == s[i];
      }
    }
  }

  /**
   * The getters of an instance built from `fields` with label position `k`
   * read the record back: nClasses is one less than the number of fields,
   * getLabel is the field at `k`, and getValue(i) is the field at `i`, or at
   * `i + 1` from position `k` on.
   */
  lemma GettersOfFields(fields: seq<string>, k: nat)
    requires k < |fields|
    ensures Instance(RemoveAt(fields, k), fields[k]).NClasses() == |fields| - 1
    ensures Instance(RemoveAt(fields, k), fields[k]).GetLabel() == fields[k]
    ensures forall i :: 0 <= i < |fields| - 1 ==>
              Instance(RemoveAt(fields, k), fields[k]).GetValue(i) == fields[if i < k then i else i + 1]
  {
  }

  /**
   * The Instance constructor, from the already-split record `fields`: a
   * values array of length |fields| - 1 is filled in order with every field
   * but the target one, which becomes the label.
   */
  method FromFields(fields: seq<string>, targetIndex: int) returns (r: Result<Instance, RuntimeError>)
    ensures |fields| == 0 ==> r == Failure(NegativeArraySize)
    ensures |fields| > 0 && !(0 <= targetIndex < |fields|) ==> r == Failure(IndexOutOfBounds)
    ensures 0 <= targetIndex < |fields| ==>
              r.Success? && r.value.classLabel == fields[targetIndex] &&
              r.value.values == RemoveAt(fields, targetIndex) &&
              r.value.NClasses() == |fields| - 1
  {
    if |fields| == 0 {
      return Failure(NegativeArraySize);
    }
    var values := new string[|fields| - 1];
    var found: Option<string> := None;
    var valueIndex := 0;
    for i := 0 to |fields|
      invariant valueIndex == if 0 <= targetIndex < i then i - 1 else i
      invariant valueIndex <= values.Length
      invariant forall j :: 0 <= j < valueIndex ==> values[j] == fields[if 0 <= targetIndex <= j then j + 1 else j]
      invariant found == if 0 <= targetIndex < i then Some(fields[targetIndex]) else None
    {
      if i != targetIndex {
        if valueIndex == values.Length {
          return Failure(IndexOutOfBounds);
        }
        values[valueIndex] := fields[i];
        valueIndex := valueIndex + 1;
      } else {
        found := Some(fields[i]);
      }
    }
    r := Success(Instance(values[..], found.value));
  }
}
