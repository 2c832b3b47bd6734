/** `denormalizeProperties`: a document tree flattened to a map from
    property-path text to leaf value. */
module Flattening {
  import opened Wrappers
  import opened PropertyNames
  import opened Values
  import opened Accessors

  /** The key paths of the leaves `denormalizeProperties` records: it walks
      object properties and array elements (skipping holes) down to any value
      that is not an object or array. */
  ghost function LeafPaths(d: Value): set<seq<Key>>
    decreases d
  {
    match d
    case Obj(m) => set k, q | k in m && q in LeafPaths(m[k]) :: [Name(k)] + q
    case Arr(a) => set i, q | 0 <= i < |a| && !a[i].Undefined? && q in LeafPaths(a[i]) :: [Index(i)] + q
    case _ => {[]}
  }

  /** The value found by following `p` structurally (`Undefined` when absent). */
  function At(d: Value, p: seq<Key>): Value
    decreases |p|
  {
    if p == [] then d else At(Child(d, p[0]), p[1..])
  }

  /** `p` follows present properties and non-hole elements of `d`. */
  predicate Reaches(d: Value, p: seq<Key>)
    decreases |p|
  {
    p == [] ||
    match d
    case Obj(m) => p[0].Name? && p[0].name in m && Reaches(m[p[0].name], p[1..])
    case Arr(a) => p[0].Index? && p[0].index < |a| && !a[p[0].index].Undefined? && Reaches(a[p[0].index], p[1..])
    case _ => false
  }

  /** Along a path that `Reaches`, `getProperty`'s walk neither throws nor
      stops early: it finds the value `At` names. */
  lemma {:induction false} AtGet(d: Value, p: seq<Key>)
    requires Reaches(d, p)
    ensures Get(d, p) == Ok(At(d, p))
    decreases |p|
  {
    if p != [] {
      var c := Child(d, p[0]);
      if !c.Undefined? {
        AtGet(c, p[1..]);
      } else {
        assert p[1..] == [];
      }
    }
  }

  /** A leaf whose name parses back is what `getProperty` reads at that name. */
  lemma LeafReadBack(d: Value, p: seq<Key>)
    requires p in LeafPaths(d) && Parse(PropertyName(p)) == Ok(p)
    ensures GetByName(d, PropertyName(p)) == Ok(At(d, p))
  {
    LeafPathsIff(d, p);
    AtGet(d, p);
  }

  /** The flat-map keys produced for `d` below the prefix `names`. */
  ghost function Names(names: seq<Key>, d: Value): set<string>
  {
    set p | p in LeafPaths(d) :: PropertyName(names + p)
  }

  /** Different leaves of `d`, below the prefix `names`, have different
      names: no entry of the flat map is written twice. */
  ghost predicate Distinct(names: seq<Key>, d: Value)
  {
    forall p, p' :: p in LeafPaths(d) && p' in LeafPaths(d) && PropertyName(names + p) == PropertyName(names + p') ==> p == p'
  }

  /** Every leaf's name, below the prefix `names`, parses back to the leaf's
      path (`RoundTripIff` says when). */
  ghost predicate Recoverable(names: seq<Key>, d: Value)
  {
    forall p :: p in LeafPaths(d) ==> Parse(PropertyName(names + p)) == Ok(names + p)
  }

  /** Names that parse back are different for different leaves. */
  lemma RecoverableDistinct(names: seq<Key>, d: Value)
    requires Recoverable(names, d)
    ensures Distinct(names, d)
  {
    forall p, p' | p in LeafPaths(d) && p' in LeafPaths(d) && PropertyName(names + p) == PropertyName(names + p')
      ensures p == p'
    {
      assert Parse(PropertyName(names + p)) == Ok(names + p);
      assert Parse(PropertyName(names + p')) == Ok(names + p');
      assert p == (names + p)[|names|..] && p' == (names + p')[|names|..];
    }
  }

  /** With valid names throughout, every document has distinct leaf names,
      arrays inside arrays included. */
  lemma ValidNamesDistinct(names: seq<Key>, d: Value)
    requires forall p :: p in LeafPaths(d) ==> ValidNames(names + p)
    ensures Distinct(names, d)
  {
    forall p, p' | p in LeafPaths(d) && p' in LeafPaths(d) && PropertyName(names + p) == PropertyName(names + p')
      ensures p == p'
    {
      PropertyNameInjectiveValid(names + p, names + p');
      assert p == (names + p)[|names|..] && p' == (names + p')[|names|..];
    }
  }

  /** A leaf path of a container starts with one of its keys and continues
      with a leaf path of that child. */
  lemma LeafPathsStep(d: Value, p: seq<Key>)
    requires d.IsContainer() && p in LeafPaths(d)
    ensures p != [] && p[1..] in LeafPaths(Child(d, p[0]))
    ensures d.Obj? ==> p[0].Name? && p[0].name in d.fields
    ensures d.Arr? ==> p[0].Index? && p[0].index < |d.elems| && !d.elems[p[0].index].Undefined?
  {
    match d
    case Obj(m) =>
      var k, q :| k in m && q in LeafPaths(m[k]) && p == [Name(k)] + q;
      assert p[1..] == q;
    case Arr(a) =>
      var i, q :| 0 <= i < |a| && !a[i].Undefined? && q in LeafPaths(a[i]) && p == [Index(i)] + q;
      assert p[1..] == q;
  }

  /** Conversely, a key of a container followed by a leaf path of the child
      is a leaf path (holes excepted). */
  lemma LeafPathsExtend(d: Value, k: Key, q: seq<Key>)
    requires d.IsContainer()
    requires d.Obj? ==> k.Name? && k.name in d.fields
    requires d.Arr? ==> k.Index? && k.index < |d.elems| && !d.elems[k.index].Undefined?
    requires q in LeafPaths(Child(d, k))
    ensures [k] + q in LeafPaths(d)
  {
  }

  /** The leaf paths are exactly the paths that reach a value that is not an
      object or array: empty containers contribute none and every scalar,
      `null` or `undefined` property exactly one. */
  lemma {:induction false} LeafPathsIff(d: Value, p: seq<Key>)
    ensures p in LeafPaths(d) <==> Reaches(d, p) && !At(d, p).IsContainer()
    decreases |p|
  {
    if p == [] {
      if d.IsContainer() {
        if [] in LeafPaths(d) {
          LeafPathsStep(d, []);
        }
      }
    } else if d.IsContainer() {
      var c := Child(d, p[0]);
      assert p == [p[0]] + p[1..];
      LeafPathsIff(c, p[1..]);
      if p in LeafPaths(d) {
        LeafPathsStep(d, p);
      }
      if Reaches(d, p) && !At(d, p).IsContainer() {
        LeafPathsExtend(d, p[0], p[1..]);
      }
    } else {
      assert !Reaches(d, p);
    }
  }

  /** `denormalizeProperties(data, names, current)`: records every leaf of
      `d` under `createPropertyName(...names, ...path)` into the accumulator.
      The keys are all leaf names, the accumulator's other entries are kept,
      and when different leaves have different names each name holds its own
      leaf. */
  method DenormalizeProperties(d: Value, names: seq<Key>, current: map<string, Value>)
    returns (out: map<string, Value>)
    ensures out.Keys == current.Keys + Names(names, d)
    ensures forall s :: s in current && s !in Names(names, d) ==> out[s] == current[s]
    ensures Distinct(names, d) ==>
              forall p :: p in LeafPaths(d) ==> out[PropertyName(names + p)] == At(d, p)
    decreases d, 1
  {
    match d {
      case Arr(a) =>
        out := DenormalizeElements(a, names, current);
      case Obj(m) =>
        out := DenormalizeFields(m, names, current);
      case _ =>
        var s := CreatePropertyName(names);
        out := current[s := d];
        LeafRecorded(names, d, current);
    }
  }

  /** A value that is neither an object nor an array is one entry, named
      by the path that leads to it. */
  lemma LeafRecorded(names: seq<Key>, d: Value, current: map<string, Value>)
    requires !d.IsContainer()
    ensures Recorded(names, d, current, current[PropertyName(names) := d])
  {
    var out := current[PropertyName(names) := d];
    LeafNames(names, d);
    assert out.Keys == current.Keys + Names(names, d);
    forall p | p in LeafPaths(d) ensures out[PropertyName(names + p)] == At(d, p) {
      assert names + p == names;
    }
  }

  /** A leaf has one name: the text of its own path. */
  lemma LeafNames(names: seq<Key>, d: Value)
    requires !d.IsContainer()
    ensures LeafPaths(d) == {[]}
    ensures Names(names, d) == {PropertyName(names)}
  {
    assert names + [] == names;
  }

  /** A scalar or `null` root is recorded under the empty name. */
  lemma ScalarRootName(d: Value)
    requires !d.IsContainer()
    ensures Names([], d) == {""}
  {
    LeafNames([], d);
  }

  /** Empty objects and arrays, and arrays of holes only, have no leaves, so
      they contribute no entries. */
  lemma NoLeavesInEmpty(d: Value)
    requires d == Obj(map[]) || (d.Arr? && forall i :: 0 <= i < |d.elems| ==> d.elems[i].Undefined?)
    ensures LeafPaths(d) == {} && Names([], d) == {}
  {
    if p :| p in LeafPaths(d) {
      LeafPathsStep(d, p);
    }
  }

  /** The `data.forEach` branch: elements in index order, holes skipped. */
  method DenormalizeElements(a: seq<Value>, names: seq<Key>, current: map<string, Value>)
    returns (out: map<string, Value>)
    ensures out.Keys == current.Keys + Names(names, Arr(a))
    ensures forall s :: s in current && s !in Names(names, Arr(a)) ==> out[s] == current[s]
    ensures Distinct(names, Arr(a)) ==>
              forall p :: p in LeafPaths(Arr(a)) ==> out[PropertyName(names + p)] == At(Arr(a), p)
    decreases Arr(a), 0
  {
    out := current;
    for i := 0 to |a|
      invariant ElementsDone(names, a, i, current, out)
    {
      ghost var before := out;
      if !a[i].Undefined? {
        out := DenormalizeProperties(a[i], names + [Index(i)], out);
      }
      ElementStep(names, a, i, current, before, out);
    }
    ElementsFinish(names, a, current, out);
  }

  /** The `Object.keys(data).forEach` branch: every property, in an order the
      model leaves open. */
  method DenormalizeFields(m: map<string, Value>, names: seq<Key>, current: map<string, Value>)
    returns (out: map<string, Value>)
    ensures out.Keys == current.Keys + Names(names, Obj(m))
    ensures forall s :: s in current && s !in Names(names, Obj(m)) ==> out[s] == current[s]
    ensures Distinct(names, Obj(m)) ==>
              forall p :: p in LeafPaths(Obj(m)) ==> out[PropertyName(names + p)] == At(Obj(m), p)
    decreases Obj(m), 0
  {
    out := current;
    var todo := m.Keys;
    while todo != {}
      invariant todo <= m.Keys
      invariant FieldsDone(names, m, m.Keys - todo, current, out)
      decreases todo
    {
      var k :| k in todo;
      ghost var before := out;
      out := DenormalizeProperties(m[k], names + [Name(k)], out);
      FieldStep(names, m, m.Keys - todo, k, current, before, out);
      DoneGrows(m.Keys, todo, k);
      todo := todo - {k};
    }
    FieldsFinish(names, m, current, out);
  }

  // ---------------------------------------------------------------------------
  // Bookkeeping for the loops of DenormalizeProperties
  // ---------------------------------------------------------------------------

  /** The names contributed by the first `i` elements of an array. */
  ghost function ArrNames(names: seq<Key>, a: seq<Value>, i: nat): set<string>
    requires i <= |a|
  {
    set j, s | 0 <= j < i && !a[j].Undefined? && s in Names(names + [Index(j)], a[j]) :: s
  }

  /** The names contributed by the properties `done` of an object. */
  ghost function ObjNames(names: seq<Key>, m: map<string, Value>, done: set<string>): set<string>
  {
    set k, s | k in done && k in m && s in Names(names + [Name(k)], m[k]) :: s
  }

  /** The first `i` elements' leaves are recorded under their names. */
  ghost predicate ElementsValues(names: seq<Key>, a: seq<Value>, i: nat, out: map<string, Value>)
    requires i <= |a|
  {
    forall j, q :: 0 <= j < i && !a[j].Undefined? && q in LeafPaths(a[j]) ==>
      PropertyName(names + [Index(j)] + q) in out &&
      out[PropertyName(names + [Index(j)] + q)] == At(a[j], q)
  }

  /** The loop invariant of `DenormalizeElements` after `i` elements. */
  ghost predicate ElementsDone(names: seq<Key>, a: seq<Value>, i: nat, current: map<string, Value>, out: map<string, Value>)
    requires i <= |a|
  {
    && out.Keys == current.Keys + ArrNames(names, a, i)
    && (forall s :: s in current && s !in ArrNames(names, a, i) ==> out[s] == current[s])
    && (Distinct(names, Arr(a)) ==>
          ElementsValues(names, a, i, out))
  }

  /** What a recursive call records for `d` below `names`. */
  ghost predicate Recorded(names: seq<Key>, d: Value, before: map<string, Value>, out: map<string, Value>)
  {
    && out.Keys == before.Keys + Names(names, d)
    && (forall s :: s in before && s !in Names(names, d) ==> out[s] == before[s])
    && (Distinct(names, d) ==>
          forall p :: p in LeafPaths(d) ==> out[PropertyName(names + p)] == At(d, p))
  }

  lemma ElementStep(names: seq<Key>, a: seq<Value>, i: nat, current: map<string, Value>,
                    before: map<string, Value>, out: map<string, Value>)
    requires i < |a| && ElementsDone(names, a, i, current, before)
    requires a[i].Undefined? ==> out == before
    requires !a[i].Undefined? ==> Recorded(names + [Index(i)], a[i], before, out)
    ensures ElementsDone(names, a, i + 1, current, out)
  {
    if a[i].Undefined? {
      HoleStep(names, a, i, current, out);
    } else {
      PresentStep(names, a, i, current, before, out);
    }
  }

  lemma HoleStep(names: seq<Key>, a: seq<Value>, i: nat, current: map<string, Value>, out: map<string, Value>)
    requires i < |a| && a[i].Undefined? && ElementsDone(names, a, i, current, out)
    ensures ElementsDone(names, a, i + 1, current, out)
  {
    ArrStep(names, a, i);
    assert ArrNames(names, a, i + 1) == ArrNames(names, a, i);
    if Distinct(names, Arr(a)) {
      HoleKept(names, a, i, out);
    }
  }

  lemma PresentStep(names: seq<Key>, a: seq<Value>, i: nat, current: map<string, Value>,
                    before: map<string, Value>, out: map<string, Value>)
    requires i < |a| && !a[i].Undefined? && ElementsDone(names, a, i, current, before)
    requires Recorded(names + [Index(i)], a[i], before, out)
    ensures ElementsDone(names, a, i + 1, current, out)
  {
    PresentKeys(names, a, i, current, before, out);
    if Distinct(names, Arr(a)) {
      ElementRecorded(names, a, i, before, out);
    }
  }

  lemma PresentKeys(names: seq<Key>, a: seq<Value>, i: nat, current: map<string, Value>,
                    before: map<string, Value>, out: map<string, Value>)
    requires i < |a| && !a[i].Undefined?
    requires before.Keys == current.Keys + ArrNames(names, a, i)
    requires forall s :: s in current && s !in ArrNames(names, a, i) ==> before[s] == current[s]
    requires out.Keys == before.Keys + Names(names + [Index(i)], a[i])
    requires forall s :: s in before && s !in Names(names + [Index(i)], a[i]) ==> out[s] == before[s]
    ensures out.Keys == current.Keys + ArrNames(names, a, i + 1)
    ensures forall s :: s in current && s !in ArrNames(names, a, i + 1) ==> out[s] == current[s]
  {
    ArrStep(names, a, i);
    assert ArrNames(names, a, i + 1) == ArrNames(names, a, i) + Names(names + [Index(i)], a[i]);
    KeysStep(current, before, out, ArrNames(names, a, i), Names(names + [Index(i)], a[i]));
  }

  lemma ElementRecorded(names: seq<Key>, a: seq<Value>, i: nat, before: map<string, Value>, out: map<string, Value>)
    requires i < |a| && !a[i].Undefined?
    requires Distinct(names, Arr(a))
    requires ElementsValues(names, a, i, before)
    requires Recorded(names + [Index(i)], a[i], before, out)
    ensures ElementsValues(names, a, i + 1, out)
  {
    ArrChildDistinct(names, a, i);
    ArrRecordStep(names, a, i, before, out);
  }

  lemma HoleKept(names: seq<Key>, a: seq<Value>, i: nat, out: map<string, Value>)
    requires i < |a| && a[i].Undefined?
    requires ElementsValues(names, a, i, out)
    ensures ElementsValues(names, a, i + 1, out)
  {
  }

  /** The key and frame half of one loop step: the names created so far grow
      by those of the child just visited, and nothing else changes. */
  lemma KeysStep(current: map<string, Value>, before: map<string, Value>, out: map<string, Value>,
                 done: set<string>, added: set<string>)
    requires before.Keys == current.Keys + done
    requires forall s :: s in current && s !in done ==> before[s] == current[s]
    requires out.Keys == before.Keys + added
    requires forall s :: s in before && s !in added ==> out[s] == before[s]
    ensures out.Keys == current.Keys + (done + added)
    ensures forall s :: s in current && s !in done + added ==> out[s] == current[s]
  {
  }

  lemma ElementsFinish(names: seq<Key>, a: seq<Value>, current: map<string, Value>, out: map<string, Value>)
    requires ElementsDone(names, a, |a|, current, out)
    ensures Recorded(names, Arr(a), current, out)
  {
    ArrNamesAll(names, a);
    if Distinct(names, Arr(a)) {
      ArrRecordDone(names, a, out);
    }
  }

  /** The loop invariant of `DenormalizeFields` once the properties `done`
      are recorded. */
  ghost predicate FieldsDone(names: seq<Key>, m: map<string, Value>, done: set<string>,
                             current: map<string, Value>, out: map<string, Value>)
  {
    && out.Keys == current.Keys + ObjNames(names, m, done)
    && (forall s :: s in current && s !in ObjNames(names, m, done) ==> out[s] == current[s])
    && (Distinct(names, Obj(m)) ==>
          forall k, q :: k in m && k in done && q in LeafPaths(m[k]) ==>
            PropertyName(names + [Name(k)] + q) in out &&
            out[PropertyName(names + [Name(k)] + q)] == At(m[k], q))
  }

  lemma FieldStep(names: seq<Key>, m: map<string, Value>, done: set<string>, k: string,
                  current: map<string, Value>, before: map<string, Value>, out: map<string, Value>)
    requires k in m && k !in done && FieldsDone(names, m, done, current, before)
    requires Recorded(names + [Name(k)], m[k], before, out)
    ensures FieldsDone(names, m, done + {k}, current, out)
  {
    ObjStep(names, m, done, k);
    KeysStep(current, before, out, ObjNames(names, m, done), Names(names + [Name(k)], m[k]));
    if Distinct(names, Obj(m)) {
      ObjChildDistinct(names, m, k);
      ObjRecordStep(names, m, done, k, before, out);
    }
  }

  lemma DoneGrows(all: set<string>, todo: set<string>, k: string)
    requires k in todo && todo <= all
    ensures (all - todo) + {k} == all - (todo - {k})
  {
  }

  lemma FieldsFinish(names: seq<Key>, m: map<string, Value>, current: map<string, Value>, out: map<string, Value>)
    requires FieldsDone(names, m, m.Keys, current, out)
    ensures Recorded(names, Obj(m), current, out)
  {
    ObjNamesAll(names, m);
    if Distinct(names, Obj(m)) {
      ObjRecordDone(names, m, out);
    }
  }

  lemma ArrStep(names: seq<Key>, a: seq<Value>, i: nat)
    requires i < |a|
    ensures ArrNames(names, a, i + 1) ==
              ArrNames(names, a, i) + if a[i].Undefined? then {} else Names(names + [Index(i)], a[i])
  {
  }

  lemma ObjStep(names: seq<Key>, m: map<string, Value>, done: set<string>, k: string)
    requires k in m
    ensures ObjNames(names, m, done + {k}) == ObjNames(names, m, done) + Names(names + [Name(k)], m[k])
  {
  }

  lemma InNames(names: seq<Key>, d: Value, p: seq<Key>)
    requires p in LeafPaths(d)
    ensures PropertyName(names + p) in Names(names, d)
  {
  }

  lemma NamesWitness(names: seq<Key>, d: Value, s: string) returns (p: seq<Key>)
    requires s in Names(names, d)
    ensures p in LeafPaths(d) && s == PropertyName(names + p)
  {
    p :| p in LeafPaths(d) && s == PropertyName(names + p);
  }

  lemma Assoc(names: seq<Key>, k: Key, q: seq<Key>)
    ensures names + [k] + q == names + ([k] + q)
    ensures (names + [k] + q)[|names|] == k
  {
  }

  lemma ArrNamesAll(names: seq<Key>, a: seq<Value>)
    ensures ArrNames(names, a, |a|) == Names(names, Arr(a))
  {
    var d := Arr(a);
    forall s | s in Names(names, d) ensures s in ArrNames(names, a, |a|) {
      var p := NamesWitness(names, d, s);
      LeafPathsStep(d, p);
      var j := p[0].index;
      var q := p[1..];
      assert p == [Index(j)] + q;
      Assoc(names, Index(j), q);
      InNames(names + [Index(j)], a[j], q);
    }
    forall s | s in ArrNames(names, a, |a|) ensures s in Names(names, d) {
      var j :| 0 <= j < |a| && !a[j].Undefined? && s in Names(names + [Index(j)], a[j]);
      var q := NamesWitness(names + [Index(j)], a[j], s);
      LeafPathsExtend(d, Index(j), q);
      Assoc(names, Index(j), q);
      InNames(names, d, [Index(j)] + q);
    }
  }

  lemma ObjNamesAll(names: seq<Key>, m: map<string, Value>)
    ensures ObjNames(names, m, m.Keys) == Names(names, Obj(m))
  {
    var d := Obj(m);
    forall s | s in Names(names, d) ensures s in ObjNames(names, m, m.Keys) {
      var p := NamesWitness(names, d, s);
      LeafPathsStep(d, p);
      var k := p[0].name;
      var q := p[1..];
      assert p == [Name(k)] + q;
      Assoc(names, Name(k), q);
      InNames(names + [Name(k)], m[k], q);
    }
    forall s | s in ObjNames(names, m, m.Keys) ensures s in Names(names, d) {
      var k :| k in m && s in Names(names + [Name(k)], m[k]);
      var q := NamesWitness(names + [Name(k)], m[k], s);
      LeafPathsExtend(d, Name(k), q);
      Assoc(names, Name(k), q);
      InNames(names, d, [Name(k)] + q);
    }
  }

  lemma ArrChildDistinct(names: seq<Key>, a: seq<Value>, i: nat)
    requires i < |a| && !a[i].Undefined?
    requires Distinct(names, Arr(a))
    ensures Distinct(names + [Index(i)], a[i])
  {
    forall q, q' | q in LeafPaths(a[i]) && q' in LeafPaths(a[i]) &&
                   PropertyName(names + [Index(i)] + q) == PropertyName(names + [Index(i)] + q')
      ensures q == q'
    {
      LeafPathsExtend(Arr(a), Index(i), q);
      LeafPathsExtend(Arr(a), Index(i), q');
      Assoc(names, Index(i), q);
      Assoc(names, Index(i), q');
      ConsEqual(Index(i), q, q');
    }
  }

  lemma ObjChildDistinct(names: seq<Key>, m: map<string, Value>, k: string)
    requires k in m
    requires Distinct(names, Obj(m))
    ensures Distinct(names + [Name(k)], m[k])
  {
    forall q, q' | q in LeafPaths(m[k]) && q' in LeafPaths(m[k]) &&
                   PropertyName(names + [Name(k)] + q) == PropertyName(names + [Name(k)] + q')
      ensures q == q'
    {
      LeafPathsExtend(Obj(m), Name(k), q);
      LeafPathsExtend(Obj(m), Name(k), q');
      Assoc(names, Name(k), q);
      Assoc(names, Name(k), q');
      ConsEqual(Name(k), q, q');
    }
  }

  lemma ConsEqual(k: Key, q: seq<Key>, q': seq<Key>)
    requires [k] + q == [k] + q'
    ensures q == q'
  {
    assert q == ([k] + q)[1..] && q' == ([k] + q')[1..];
  }

  lemma ArrRecordStep(names: seq<Key>, a: seq<Value>, i: nat, before: map<string, Value>, out: map<string, Value>)
    requires i < |a| && !a[i].Undefined?
    requires Distinct(names, Arr(a))
    requires ElementsValues(names, a, i, before)
    requires out.Keys == before.Keys + Names(names + [Index(i)], a[i])
    requires forall s :: s in before && s !in Names(names + [Index(i)], a[i]) ==> out[s] == before[s]
    requires forall q :: q in LeafPaths(a[i]) ==> out[PropertyName(names + [Index(i)] + q)] == At(a[i], q)
    ensures ElementsValues(names, a, i + 1, out)
  {
    forall j, q | 0 <= j < i + 1 && !a[j].Undefined? && q in LeafPaths(a[j])
      ensures PropertyName(names + [Index(j)] + q) in out
      ensures out[PropertyName(names + [Index(j)] + q)] == At(a[j], q)
    {
      if j < i {
        ArrEarlierKept(names, a, i, before, out, j, q);
      } else {
        InNames(names + [Index(i)], a[i], q);
      }
    }
  }

  /** An element recorded before element `i` is not overwritten by it. */
  lemma ArrEarlierKept(names: seq<Key>, a: seq<Value>, i: nat, before: map<string, Value>, out: map<string, Value>,
                       j: nat, q: seq<Key>)
    requires j < i < |a| && !a[i].Undefined? && !a[j].Undefined? && q in LeafPaths(a[j])
    requires Distinct(names, Arr(a))
    requires PropertyName(names + [Index(j)] + q) in before
    requires before[PropertyName(names + [Index(j)] + q)] == At(a[j], q)
    requires out.Keys == before.Keys + Names(names + [Index(i)], a[i])
    requires forall s :: s in before && s !in Names(names + [Index(i)], a[i]) ==> out[s] == before[s]
    ensures PropertyName(names + [Index(j)] + q) in out
    ensures out[PropertyName(names + [Index(j)] + q)] == At(a[j], q)
  {
    ArrDisjoint(names, a, j, i, q);
  }

  lemma ArrRecordDone(names: seq<Key>, a: seq<Value>, out: map<string, Value>)
    requires ElementsValues(names, a, |a|, out)
    ensures forall p :: p in LeafPaths(Arr(a)) ==>
              PropertyName(names + p) in out && out[PropertyName(names + p)] == At(Arr(a), p)
  {
    forall p | p in LeafPaths(Arr(a))
      ensures PropertyName(names + p) in out && out[PropertyName(names + p)] == At(Arr(a), p)
    {
      LeafPathsStep(Arr(a), p);
      var q := p[1..];
      assert p == [p[0]] + q;
      Assoc(names, p[0], q);
    }
  }

  lemma ObjRecordStep(names: seq<Key>, m: map<string, Value>, done: set<string>, k: string,
                      before: map<string, Value>, out: map<string, Value>)
    requires k in m
    requires Distinct(names, Obj(m))
    requires forall k', q :: k' in m && k' in done && q in LeafPaths(m[k']) ==>
               PropertyName(names + [Name(k')] + q) in before &&
               before[PropertyName(names + [Name(k')] + q)] == At(m[k'], q)
    requires out.Keys == before.Keys + Names(names + [Name(k)], m[k])
    requires forall s :: s in before && s !in Names(names + [Name(k)], m[k]) ==> out[s] == before[s]
    requires forall q :: q in LeafPaths(m[k]) ==> out[PropertyName(names + [Name(k)] + q)] == At(m[k], q)
    ensures forall k', q :: k' in m && k' in done + {k} && q in LeafPaths(m[k']) ==>
              PropertyName(names + [Name(k')] + q) in out &&
              out[PropertyName(names + [Name(k')] + q)] == At(m[k'], q)
  {
    forall k', q | k' in m && k' in done + {k} && q in LeafPaths(m[k'])
      ensures PropertyName(names + [Name(k')] + q) in out
      ensures out[PropertyName(names + [Name(k')] + q)] == At(m[k'], q)
    {
      if k' != k {
        ObjDisjoint(names, m, k', k, q);
      } else {
        InNames(names + [Name(k)], m[k], q);
      }
    }
  }

  lemma ObjRecordDone(names: seq<Key>, m: map<string, Value>, out: map<string, Value>)
    requires forall k, q :: k in m && q in LeafPaths(m[k]) ==>
               PropertyName(names + [Name(k)] + q) in out &&
               out[PropertyName(names + [Name(k)] + q)] == At(m[k], q)
    ensures forall p :: p in LeafPaths(Obj(m)) ==>
              PropertyName(names + p) in out && out[PropertyName(names + p)] == At(Obj(m), p)
  {
    forall p | p in LeafPaths(Obj(m))
      ensures PropertyName(names + p) in out && out[PropertyName(names + p)] == At(Obj(m), p)
    {
      LeafPathsStep(Obj(m), p);
      var q := p[1..];
      assert p == [p[0]] + q;
      Assoc(names, p[0], q);
    }
  }

  /** With distinct names, different elements produce different names. */
  lemma ArrDisjoint(names: seq<Key>, a: seq<Value>, j: nat, i: nat, q: seq<Key>)
    requires j < i < |a| && !a[j].Undefined? && !a[i].Undefined?
    requires Distinct(names, Arr(a))
    requires q in LeafPaths(a[j])
    ensures PropertyName(names + [Index(j)] + q) !in Names(names + [Index(i)], a[i])
  {
    var s := PropertyName(names + [Index(j)] + q);
    if s in Names(names + [Index(i)], a[i]) {
      var q' := NamesWitness(names + [Index(i)], a[i], s);
      ArrNamesDiffer(names, a, j, i, q, q');
      assert false;
    }
  }

  lemma ArrNamesDiffer(names: seq<Key>, a: seq<Value>, j: nat, i: nat, q: seq<Key>, q': seq<Key>)
    requires j < i < |a| && !a[j].Undefined? && !a[i].Undefined?
    requires Distinct(names, Arr(a))
    requires q in LeafPaths(a[j]) && q' in LeafPaths(a[i])
    ensures PropertyName(names + [Index(j)] + q) != PropertyName(names + [Index(i)] + q')
  {
    LeafPathsExtend(Arr(a), Index(i), q');
    LeafPathsExtend(Arr(a), Index(j), q);
    Assoc(names, Index(i), q');
    Assoc(names, Index(j), q);
    assert ([Index(j)] + q)[0] == Index(j) && ([Index(i)] + q')[0] == Index(i);
  }

  /** With distinct names, different properties produce different names. */
  lemma ObjDisjoint(names: seq<Key>, m: map<string, Value>, k: string, k': string, q: seq<Key>)
    requires k in m && k' in m && k != k'
    requires Distinct(names, Obj(m))
    requires q in LeafPaths(m[k])
    ensures PropertyName(names + [Name(k)] + q) !in Names(names + [Name(k')], m[k'])
  {
    var s := PropertyName(names + [Name(k)] + q);
    if s in Names(names + [Name(k')], m[k']) {
      var q' := NamesWitness(names + [Name(k')], m[k'], s);
      ObjNamesDiffer(names, m, k, k', q, q');
      assert false;
    }
  }

  lemma ObjNamesDiffer(names: seq<Key>, m: map<string, Value>, k: string, k': string, q: seq<Key>, q': seq<Key>)
    requires k in m && k' in m && k != k'
    requires Distinct(names, Obj(m))
    requires q in LeafPaths(m[k]) && q' in LeafPaths(m[k'])
    ensures PropertyName(names + [Name(k)] + q) != PropertyName(names + [Name(k')] + q')
  {
    LeafPathsExtend(Obj(m), Name(k'), q');
    LeafPathsExtend(Obj(m), Name(k), q);
    Assoc(names, Name(k'), q');
    Assoc(names, Name(k), q);
    assert ([Name(k)] + q)[0] == Name(k) && ([Name(k')] + q')[0] == Name(k');
  }
}
