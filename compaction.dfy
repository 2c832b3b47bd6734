/** `normalizeArrayProperties`: removes `undefined` holes from every array,
    at every depth, building fresh containers. */
module Compaction {
  import opened Values

  /** `a.filter(e => typeof e !== 'undefined')`. */
  function Present(a: seq<Value>): (r: seq<Value>)
    ensures |r| <= |a|
    ensures forall i :: 0 <= i < |r| ==> !r[i].Undefined? && r[i] in a
  {
    if a == [] then []
    else Present(a[..|a| - 1]) + if a[|a| - 1].Undefined? then [] else [a[|a| - 1]]
  }

  /** No array anywhere in `d` holds `Undefined`. Object properties whose
      value is `Undefined` are kept by compaction, so they are allowed. */
  predicate NoHoles(d: Value)
  {
    match d
    case Arr(a) => forall i :: 0 <= i < |a| ==> !a[i].Undefined? && NoHoles(a[i])
    case Obj(m) => forall k :: k in m ==> NoHoles(m[k])
    case _ => true
  }

  /** `normalizeArrayProperties(data)`. */
  function NormalizeArrays(d: Value): (r: Value)
    ensures NoHoles(r)
    ensures r.Obj? <==> d.Obj?
    ensures r.Arr? <==> d.Arr?
    ensures d.Obj? ==> r.fields.Keys == d.fields.Keys
    ensures d.Arr? ==> |r.elems| == |Present(d.elems)|
    ensures !d.IsContainer() ==> r == d
  {
    match d
    case Arr(a) =>
      var kept := Present(a);
      Arr(seq(|kept|, i requires 0 <= i < |kept| => NormalizeArrays(kept[i])))
    case Obj(m) => Obj(map k | k in m :: NormalizeArrays(m[k]))
    case _ => d
  }

  /** Filtering distributes over concatenation, so the elements that remain
      keep their relative order. */
  lemma {:induction false} PresentAppend(a: seq<Value>, b: seq<Value>)
    ensures Present(a + b) == Present(a) + Present(b)
    decreases |b|
  {
    if b == [] {
      assert a + b == a;
    } else {
      var n := |b| - 1;
      assert (a + b)[..|a + b| - 1] == a + b[..n];
      assert (a + b)[|a + b| - 1] == b[n];
      PresentAppend(a, b[..n]);
    }
  }

  /** A single element survives filtering exactly when it is not `Undefined`. */
  lemma PresentSingle(x: Value)
    ensures Present([x]) == if x.Undefined? then [] else [x]
  {
    assert [x][..0] == [];
  }

  /** Compacting an array works element by element, left to right: the
      compaction of `a + b` is that of `a` followed by that of `b`. */
  lemma NormalizeArraysAppend(a: seq<Value>, b: seq<Value>)
    ensures NormalizeArrays(Arr(a + b)).elems == NormalizeArrays(Arr(a)).elems + NormalizeArrays(Arr(b)).elems
  {
    PresentAppend(a, b);
    var l := NormalizeArrays(Arr(a)).elems;
    var r := NormalizeArrays(Arr(b)).elems;
    var both := NormalizeArrays(Arr(a + b)).elems;
    assert |both| == |l| + |r|;
    forall i | 0 <= i < |both| ensures both[i] == (l + r)[i] {
      if i >= |l| {
        assert Present(a + b)[i] == Present(b)[i - |l|];
      }
    }
  }

  /** One element: a hole disappears, anything else is compacted in turn. */
  lemma NormalizeArraysSingle(x: Value)
    ensures NormalizeArrays(Arr([x])).elems == if x.Undefined? then [] else [NormalizeArrays(x)]
  {
    PresentSingle(x);
  }

  /** A filter that finds no hole keeps every element. */
  lemma {:induction false} PresentNoHoles(a: seq<Value>)
    requires forall i :: 0 <= i < |a| ==> !a[i].Undefined?
    ensures Present(a) == a
  {
    if a != [] {
      PresentNoHoles(a[..|a| - 1]);
      assert a[..|a| - 1] + [a[|a| - 1]] == a;
    }
  }

  /** Compaction changes nothing in a document without holes. */
  lemma {:induction false} NormalizeArraysFixesHoleFree(d: Value)
    requires NoHoles(d)
    ensures NormalizeArrays(d) == d
  {
    match d
    case Arr(a) =>
      PresentNoHoles(a);
      forall i | 0 <= i < |a| ensures NormalizeArrays(a[i]) == a[i] {
        NormalizeArraysFixesHoleFree(a[i]);
      }
      assert NormalizeArrays(d).elems == a;
    case Obj(m) =>
      forall k | k in m ensures NormalizeArrays(m[k]) == m[k] {
        NormalizeArraysFixesHoleFree(m[k]);
      }
      assert NormalizeArrays(d).fields == m;
    case _ =>
  }

  /** Compaction is idempotent. */
  lemma NormalizeArraysIdempotent(d: Value)
    ensures NormalizeArrays(NormalizeArrays(d)) == NormalizeArrays(d)
  {
    NormalizeArraysFixesHoleFree(NormalizeArrays(d));
  }
}
