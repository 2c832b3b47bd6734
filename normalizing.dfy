/** `normalizeProperties`: a flat map replayed through `setProperty` into a
    tree, then optionally compacted. */
module Normalizing {
  import opened Wrappers
  import opened PropertyNames
  import opened Values
  import opened Accessors
  import opened Compaction

  /** `setProperty` applied to each (name, value) entry in turn, starting from
      `null`; the first error ends the fold. The entries are the properties
      of the flat map in `Object.keys` order. */
  function Fold(entries: seq<(string, Value)>): Result<Value, Error>
    decreases |entries|
  {
    if entries == [] then Ok(Null)
    else
      var acc :- Fold(entries[..|entries| - 1]);
      SetProperty(acc, entries[|entries| - 1].0, entries[|entries| - 1].1)
  }

  /** The value `normalizeProperties(properties, normalizeArrays)` returns
      (or the error it throws). */
  function Normalized(entries: seq<(string, Value)>, normalizeArrays: bool): Result<Value, Error>
  {
    var v :- Fold(entries);
    Ok(if normalizeArrays then NormalizeArrays(v) else v)
  }

  /** `normalizeProperties`: the `forEach` over the entries reassigning
      `retval`, then the optional compaction. */
  method NormalizeProperties(properties: seq<(string, Value)>, normalizeArrays: bool)
    returns (r: Result<Value, Error>)
    ensures r == Normalized(properties, normalizeArrays)
  {
    var retval := Null;
    for i := 0 to |properties|
      invariant Fold(properties[..i]) == Ok(retval)
    {
      var (name, value) := properties[i];
      assert properties[..i + 1][..i] == properties[..i];
      var next := SetProperty(retval, name, value);
      if next.Err? {
        FoldStopsAtError(properties, i + 1);
        return Err(next.error);
      }
      retval := next.value;
    }
    assert properties[..|properties|] == properties;
    if normalizeArrays {
      r := Ok(NormalizeArrays(retval));
    } else {
      r := Ok(retval);
    }
  }

  /** One more entry is one more `setProperty`, unless the fold already failed. */
  lemma FoldLast(entries: seq<(string, Value)>, j: nat)
    requires 0 < j <= |entries|
    ensures Fold(entries[..j]) ==
              match Fold(entries[..j - 1])
              case Ok(acc) => SetProperty(acc, entries[j - 1].0, entries[j - 1].1)
              case Err(e) => Err(e)
  {
    assert entries[..j][..j - 1] == entries[..j - 1];
  }

  /** Once a prefix of the entries fails, the whole fold fails with the same
      error: later entries are never applied. */
  lemma {:induction false} FoldStopsAtError(entries: seq<(string, Value)>, j: nat)
    requires j <= |entries|
    requires Fold(entries[..j]).Err?
    ensures Fold(entries) == Fold(entries[..j])
    decreases |entries|
  {
    if j == |entries| {
      assert entries[..j] == entries;
    } else {
      var n := |entries| - 1;
      assert entries[..n][..j] == entries[..j];
      FoldStopsAtError(entries[..n], j);
      FoldLastFails(entries);
    }
  }

  lemma FoldLastFails(entries: seq<(string, Value)>)
    requires entries != [] && Fold(entries[..|entries| - 1]).Err?
    ensures Fold(entries) == Fold(entries[..|entries| - 1])
  {
  }

  /** An entry whose name does not parse makes the whole normalization fail
      with that syntax error, unless an earlier entry already failed. */
  lemma BadNameFails(entries: seq<(string, Value)>, i: nat, normalizeArrays: bool)
    requires i < |entries| && Parse(entries[i].0).Err?
    ensures Normalized(entries, normalizeArrays).Err?
  {
    assert entries[..i + 1][..i] == entries[..i];
    FoldStopsAtError(entries, i + 1);
  }

  /** `normalizeProperties({})` is `null`, with or without compaction. */
  lemma NormalizeEmpty(normalizeArrays: bool)
    ensures Normalized([], normalizeArrays) == Ok(Null)
  {
  }
}
