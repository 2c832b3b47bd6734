/** `normalizeProperties(denormalizeProperties(d))` gives back `d`. */
module RoundTrip {
  import opened Wrappers
  import opened PropertyNames
  import opened Values
  import opened Accessors
  import opened Compaction
  import opened Flattening
  import opened Normalizing

  /** The documents the round trip rebuilds: a non-empty object or array
      whose property names are valid, with no `undefined` anywhere, no empty
      object or array inside, and no array directly inside an array (its
      paths would read `[i][j]`, which the parser refuses). */
  predicate Regular(d: Value)
  {
    match d
    case Obj(m) =>
      && m != map[]
      && forall k :: k in m ==> ValidName(k) && (m[k].Null? || m[k].Prim? || Regular(m[k]))
    case Arr(a) =>
      && a != []
      && forall i :: 0 <= i < |a| ==> !a[i].Arr? && (a[i].Null? || a[i].Prim? || Regular(a[i]))
    case _ => false
  }

  /** `F` is a flat map of `d` as `denormalizeProperties(d)` builds it: one
      entry per leaf path, named by the path's text and holding the leaf. */
  ghost predicate IsFlatOf(F: map<string, Value>, d: Value)
  {
    && F.Keys == (set p | p in LeafPaths(d) :: PropertyName(p))
    && forall p :: p in LeafPaths(d) ==> F[PropertyName(p)] == At(d, p)
  }

  /** `entries` lists the properties of `F` (as `Object.keys` does, in any order). */
  ghost predicate Enumerates(entries: seq<(string, Value)>, F: map<string, Value>)
  {
    && (forall i :: 0 <= i < |entries| ==> entries[i].0 in F && entries[i].1 == F[entries[i].0])
    && (forall s :: s in F ==> exists i :: 0 <= i < |entries| && entries[i].0 == s)
  }

  // ---------------------------------------------------------------------------
  // Leaf paths of regular documents
  // ---------------------------------------------------------------------------

  /** A child of a regular document, reached by one of its keys. */
  lemma RegularChild(d: Value, k: Key)
    requires Regular(d)
    requires d.Obj? ==> k.Name? && k.name in d.fields
    requires d.Arr? ==> k.Index? && k.index < |d.elems|
    ensures Child(d, k).Null? || Child(d, k).Prim? || Regular(Child(d, k))
    ensures d.Arr? ==> !Child(d, k).Arr?
    ensures d.Obj? ==> ValidName(k.name)
  {
  }

  /** A regular document has leaves, each leaf path is serializable and its
      first key says whether the document is an object or an array. */
  lemma RegularLeafPaths(d: Value)
    requires Regular(d)
    ensures LeafPaths(d) != {}
    ensures forall p: seq<Key> :: p in LeafPaths(d) ==> p != [] && Serializable(p) && (p[0].Index? <==> d.Arr?)
  {
    var p := SomeLeaf(d);
    forall p: seq<Key> | p in LeafPaths(d) ensures p != [] && Serializable(p) && (p[0].Index? <==> d.Arr?) {
      LeafPathShape(d, p);
    }
  }

  /** A regular document has a leaf. */
  lemma {:induction false} SomeLeaf(d: Value) returns (p: seq<Key>)
    requires Regular(d)
    ensures p in LeafPaths(d)
    decreases d
  {
    var k: Key := Index(0);
    if d.Obj? {
      var n :| n in d.fields;
      k := Name(n);
    }
    var c := Child(d, k);
    RegularChild(d, k);
    var q: seq<Key> := [];
    if c.IsContainer() {
      q := SomeLeaf(c);
    }
    LeafPathsExtend(d, k, q);
    p := [k] + q;
  }

  /** A leaf path of a regular document is serializable and starts with a
      key of the document's kind. */
  lemma {:induction false} LeafPathShape(d: Value, p: seq<Key>)
    requires Regular(d) && p in LeafPaths(d)
    ensures p != [] && Serializable(p) && (p[0].Index? <==> d.Arr?)
    decreases d
  {
    LeafPathsStep(d, p);
    var k := p[0];
    var q := p[1..];
    var c := Child(d, k);
    RegularChild(d, k);
    assert p == [k] + q;
    if c.IsContainer() {
      LeafPathShape(c, q);
    }
    ConsSerializable(k, q);
  }

  lemma ConsSerializable(k: Key, q: seq<Key>)
    requires Serializable(q) && (k.Name? ==> ValidName(k.name))
    requires q != [] && q[0].Index? ==> k.Name?
    ensures Serializable([k] + q)
  {
    var p := [k] + q;
    forall i | 0 <= i < |p| && p[i].Name? ensures ValidName(p[i].name) {
      if i > 0 {
        assert p[i] == q[i - 1];
      }
    }
    forall i | 0 < i < |p| && p[i].Index? ensures p[i - 1].Name? {
      if i > 1 {
        assert p[i] == q[i - 1] && p[i - 1] == q[i - 2];
      }
    }
  }

  /** For a regular document every leaf text parses back to the leaf path. */
  lemma RegularRecoverable(d: Value)
    requires Regular(d)
    ensures Recoverable([], d)
  {
    forall p | p in LeafPaths(d) ensures Parse(PropertyName([] + p)) == Ok([] + p) {
      assert [] + p == p;
      LeafPathShape(d, p);
      ParseOfPropertyName(p);
    }
  }

  /** A regular document has no array holes, so compaction keeps it. */
  lemma {:induction false} RegularNoHoles(d: Value)
    requires Regular(d)
    ensures NoHoles(d)
    decreases d
  {
    match d
    case Obj(m) =>
      forall k | k in m ensures NoHoles(m[k]) {
        if m[k].IsContainer() {
          RegularNoHoles(m[k]);
        }
      }
    case Arr(a) =>
      forall i | 0 <= i < |a| ensures NoHoles(a[i]) {
        if a[i].IsContainer() {
          RegularNoHoles(a[i]);
        }
      }
  }
  // ---------------------------------------------------------------------------
  // Partial trees: what the fold has built after some of the leaves
  // ---------------------------------------------------------------------------

  /** The rest of the paths in `P` that start with `k`. */
  ghost function Sub(P: set<seq<Key>>, k: Key): set<seq<Key>>
  {
    set p | p in P && p != [] && p[0] == k :: p[1..]
  }

  /** `s` without its trailing holes. */
  function TrimHoles(s: seq<Value>): (r: seq<Value>)
    ensures r <= s
    ensures r == [] || !r[|r| - 1].Undefined?
    ensures forall i :: |r| <= i < |s| ==> s[i].Undefined?
  {
    if s == [] || !s[|s| - 1].Undefined? then s else TrimHoles(s[..|s| - 1])
  }

  /** The part of `d` that writing the leaves at the paths `P` (and nothing
      else) builds from nothing: an object keeps the properties some path of
      `P` goes through, an array keeps those elements and has holes elsewhere
      up to the last one kept. */
  ghost function Partial(d: Value, P: set<seq<Key>>): (r: Value)
    ensures r.Obj? <==> d.Obj?
    ensures r.Arr? <==> d.Arr?
    ensures !d.IsContainer() ==> r == d
    decreases d, 1
  {
    match d
    case Obj(m) => Obj(map k | k in m && Sub(P, Name(k)) != {} :: Partial(m[k], Sub(P, Name(k))))
    case Arr(a) => Arr(TrimHoles(Slots(a, P)))
    case _ => d
  }

  /** The elements of a partial array before its trailing holes are trimmed. */
  ghost function Slots(a: seq<Value>, P: set<seq<Key>>): (r: seq<Value>)
    ensures |r| == |a|
    decreases Arr(a), 0
  {
    seq(|a|, i requires 0 <= i < |a| => if Sub(P, Index(i)) != {} then Partial(a[i], Sub(P, Index(i))) else Undefined)
  }

  /** Trimming is characterised by where the last element that is not a hole is. */
  lemma {:induction false} TrimHolesAt(s: seq<Value>, n: nat)
    requires n <= |s| && (n == 0 || !s[n - 1].Undefined?)
    requires forall j :: n <= j < |s| ==> s[j].Undefined?
    ensures TrimHoles(s) == s[..n]
    decreases |s|
  {
    if |s| == n {
      assert s[..n] == s;
    } else {
      TrimHolesAt(s[..|s| - 1], n);
      assert s[..|s| - 1][..n] == s[..n];
    }
  }

  /** Writing an element that is not a hole commutes with trimming: it is
      the array write `Store` performs. */
  lemma TrimStore(s: seq<Value>, i: nat, x: Value)
    requires i < |s| && !x.Undefined?
    ensures TrimHoles(s[i := x]) == Store(TrimHoles(s), i, x)
  {
    var t := TrimHoles(s);
    var s' := s[i := x];
    if i < |t| {
      TrimHolesAt(s', |t|);
      assert s'[..|t|] == t[i := x];
    } else {
      TrimHolesAt(s', i + 1);
      var r := Store(t, i, x);
      assert s'[..i + 1] == r;
    }
  }

  /** Writing a key twice keeps the second value. */
  lemma AssignTwice(d: Value, k: Key, e: Value, x: Value)
    requires Assign(d, k, e).Ok? && d.IsContainer()
    ensures Assign(Assign(d, k, e).value, k, x) == Assign(d, k, x)
  {
    match d
    case Obj(m) =>
      assert m[k.name := e][k.name := x] == m[k.name := x];
    case Arr(a) =>
      var s1 := Store(a, k.index, e);
      assert Store(s1, k.index, x) == Store(a, k.index, x);
  }

  /** The partial tree of no paths is the empty container of the same kind. */
  lemma PartialEmpty(d: Value)
    requires d.IsContainer()
    ensures Partial(d, {}) == if d.Obj? then Obj(map[]) else Arr([])
  {
    forall k ensures Sub({}, k) == {} {
    }
    match d
    case Obj(m) =>
      assert Partial(d, {}).fields == map[];
    case Arr(a) =>
      TrimHolesAt(Slots(a, {}), 0);
  }

  /** Reading one key of a partial tree. */
  lemma ChildPartial(d: Value, P: set<seq<Key>>, k: Key)
    requires d.Obj? ==> k.Name? && k.name in d.fields
    requires d.Arr? ==> k.Index? && k.index < |d.elems|
    requires d.IsContainer()
    ensures Child(Partial(d, P), k) == if Sub(P, k) != {} then Partial(Child(d, k), Sub(P, k)) else Undefined
  {
    if d.Arr? {
      var s := Slots(d.elems, P);
      var t := TrimHoles(s);
      assert Partial(d, P) == Arr(t);
      assert k == Index(k.index);
      assert s[k.index] == if Sub(P, k) != {} then Partial(d.elems[k.index], Sub(P, k)) else Undefined;
      if k.index < |t| {
        assert t[k.index] == s[k.index];
      }
    }
  }

  /** Adding a path whose first key is `k` adds its rest under `k` only. */
  lemma SubInsert(P: set<seq<Key>>, p: seq<Key>, k: Key)
    requires p != []
    ensures Sub(P + {p}, k) == if k == p[0] then Sub(P, k) + {p[1..]} else Sub(P, k)
  {
  }

  /** The paths of `P` below one key of `d` are leaf paths of that child. */
  lemma SubLeafPaths(d: Value, P: set<seq<Key>>, k: Key)
    requires d.IsContainer() && P <= LeafPaths(d)
    ensures Sub(P, k) <= LeafPaths(Child(d, k))
  {
    forall q | q in Sub(P, k) ensures q in LeafPaths(Child(d, k)) {
      var p :| p in P && p != [] && p[0] == k && q == p[1..];
      LeafPathsStep(d, p);
    }
  }

  /** Adding one leaf path to a partial tree writes one key of it. */
  lemma PartialInsert(d: Value, P: set<seq<Key>>, p: seq<Key>)
    requires d.IsContainer() && p in LeafPaths(d)
    ensures p != []
    ensures Assign(Partial(d, P), p[0], Partial(Child(d, p[0]), Sub(P, p[0]) + {p[1..]}))
            == Ok(Partial(d, P + {p}))
  {
    LeafPathsStep(d, p);
    if d.Obj? {
      PartialInsertObj(d.fields, P, p);
    } else {
      PartialInsertArr(d.elems, P, p);
    }
  }

  lemma PartialInsertObj(m: map<string, Value>, P: set<seq<Key>>, p: seq<Key>)
    requires p != [] && p[0].Name? && p[0].name in m
    ensures Assign(Partial(Obj(m), P), p[0], Partial(m[p[0].name], Sub(P, p[0]) + {p[1..]}))
            == Ok(Partial(Obj(m), P + {p}))
  {
    PartialFieldsInsert(m, P, p);
  }

  lemma PartialFieldsInsert(m: map<string, Value>, P: set<seq<Key>>, p: seq<Key>)
    requires p != [] && p[0].Name? && p[0].name in m
    ensures Partial(Obj(m), P + {p}).fields
            == Partial(Obj(m), P).fields[p[0].name := Partial(m[p[0].name], Sub(P, p[0]) + {p[1..]})]
  {
    var k := p[0].name;
    var x := Partial(m[k], Sub(P, p[0]) + {p[1..]});
    var before := Partial(Obj(m), P).fields;
    var after := Partial(Obj(m), P + {p}).fields;
    forall n | n in m
      ensures (n in after <==> n in before || n == k)
      ensures n in after ==> after[n] == if n == k then x else before[n]
    {
      SubInsert(P, p, Name(n));
    }
    assert after.Keys <= m.Keys;
    assert after == before[k := x];
  }

  lemma PartialInsertArr(a: seq<Value>, P: set<seq<Key>>, p: seq<Key>)
    requires p != [] && p[0].Index? && p[0].index < |a| && !a[p[0].index].Undefined?
    ensures Assign(Partial(Arr(a), P), p[0], Partial(a[p[0].index], Sub(P, p[0]) + {p[1..]}))
            == Ok(Partial(Arr(a), P + {p}))
  {
    var i := p[0].index;
    var x := Partial(a[i], Sub(P, p[0]) + {p[1..]});
    forall j | 0 <= j < |a| ensures Slots(a, P + {p})[j] == Slots(a, P)[i := x][j] {
      SubInsert(P, p, Index(j));
    }
    assert Slots(a, P + {p}) == Slots(a, P)[i := x];
    TrimStore(Slots(a, P), i, x);
  }
  /** `setProperty` of one more leaf, on the tree built from the leaves `P`,
      gives the tree built from `P` and that leaf: missing intermediate
      containers are created with the kind the document has there. */
  lemma {:induction false} SetStep(d: Value, P: set<seq<Key>>, p: seq<Key>)
    requires Regular(d) && P <= LeafPaths(d) && p in LeafPaths(d)
    ensures p != []
    ensures SetPath(Partial(d, P), p, At(d, p)) == Ok(Partial(d, P + {p}))
    decreases d
  {
    LeafPathsStep(d, p);
    var k := p[0];
    var r := p[1..];
    var c := Child(d, k);
    var pd := Partial(d, P);
    var S := Sub(P, k);
    var x := Partial(c, S + {r});
    RegularChild(d, k);
    SubLeafPaths(d, P, k);
    PartialInsert(d, P, p);
    ChildPartial(d, P, k);
    assert At(d, p) == At(c, r);
    if r == [] {
      if c.IsContainer() {
        RegularLeafPaths(c);
      }
      assert |p| == 1;
    } else {
      assert c.IsContainer();
      RegularLeafPaths(c);
      assert p[1] == r[0];
      if S == {} {
        PartialEmpty(c);
        var e := Partial(c, {});
        assert EmptyFor(r[0]) == e;
        var d1 := Assign(pd, k, e).value;
        assert Child(d1, k) == e;
        SetStep(c, {}, r);
        assert {} + {r} == S + {r};
        AssignTwice(pd, k, e, x);
        assert SetPath(pd, p, At(d, p)) == Assign(d1, k, x);
      } else {
        SetStep(c, S, r);
        assert SetPath(pd, p, At(d, p)) == Assign(pd, k, x);
      }
    }
  }

  /** The leaf paths of `d` below one of its keys are the child's leaf paths. */
  lemma SubAllLeafPaths(d: Value, k: Key)
    requires d.IsContainer()
    requires d.Obj? ==> k.Name? && k.name in d.fields
    requires d.Arr? ==> k.Index? && k.index < |d.elems| && !d.elems[k.index].Undefined?
    ensures Sub(LeafPaths(d), k) == LeafPaths(Child(d, k))
  {
    SubLeafPaths(d, LeafPaths(d), k);
    forall q | q in LeafPaths(Child(d, k)) ensures q in Sub(LeafPaths(d), k) {
      LeafPathsExtend(d, k, q);
      assert ([k] + q)[1..] == q;
    }
  }

  /** Building from all the leaves gives the whole regular document. */
  lemma {:induction false} PartialFull(d: Value)
    requires Regular(d)
    ensures Partial(d, LeafPaths(d)) == d
    decreases d, 1
  {
    match d
    case Obj(m) =>
      var built := Partial(d, LeafPaths(d)).fields;
      forall n | n in m ensures n in built && built[n] == m[n] {
        ChildFull(d, Name(n));
      }
      assert built == m;
    case Arr(a) =>
      var s := Slots(a, LeafPaths(d));
      forall i | 0 <= i < |a| ensures s[i] == a[i] {
        ChildFull(d, Index(i));
      }
      assert s == a;
      TrimHolesAt(a, |a|);
      assert a[..|a|] == a;
  }

  /** Each child of a regular document is rebuilt from its own leaves. */
  lemma {:induction false} ChildFull(d: Value, k: Key)
    requires Regular(d)
    requires d.Obj? ==> k.Name? && k.name in d.fields
    requires d.Arr? ==> k.Index? && k.index < |d.elems|
    ensures Sub(LeafPaths(d), k) != {}
    ensures Partial(Child(d, k), Sub(LeafPaths(d), k)) == Child(d, k)
    decreases d, 0
  {
    RegularChild(d, k);
    SubAllLeafPaths(d, k);
    var c := Child(d, k);
    if c.IsContainer() {
      var q := SomeLeaf(c);
      PartialFull(c);
    } else {
      assert [] in LeafPaths(c);
    }
  }

  // ---------------------------------------------------------------------------
  // The round trip
  // ---------------------------------------------------------------------------

  /** The key paths named by the first `j` entries. */
  ghost function PathsUpTo(entries: seq<(string, Value)>, j: nat): set<seq<Key>>
    requires j <= |entries|
  {
    set i | 0 <= i < j && Parse(entries[i].0).Ok? :: Parse(entries[i].0).value
  }

  /** Every entry's name parses to a leaf path of `d` and its value is that leaf. */
  ghost predicate LeafEntries(d: Value, entries: seq<(string, Value)>)
  {
    forall i :: 0 <= i < |entries| ==>
      && Parse(entries[i].0).Ok?
      && Parse(entries[i].0).value in LeafPaths(d)
      && entries[i].1 == At(d, Parse(entries[i].0).value)
  }

  /** The entries of a flat map of a regular document are leaf entries. */
  lemma EntriesAreLeaves(d: Value, F: map<string, Value>, entries: seq<(string, Value)>)
    requires Regular(d) && IsFlatOf(F, d) && Enumerates(entries, F)
    ensures LeafEntries(d, entries)
  {
    RegularLeafPaths(d);
    forall i | 0 <= i < |entries|
      ensures Parse(entries[i].0).Ok? && Parse(entries[i].0).value in LeafPaths(d)
      ensures entries[i].1 == At(d, Parse(entries[i].0).value)
    {
      var s := entries[i].0;
      assert s in F;
      var p :| p in LeafPaths(d) && s == PropertyName(p);
      ParseOfPropertyName(p);
    }
  }

  lemma LeafSerializable(d: Value, p: seq<Key>)
    requires Regular(d) && p in LeafPaths(d)
    ensures Serializable(p)
  {
    RegularLeafPaths(d);
  }


  lemma EntryFor(F: map<string, Value>, entries: seq<(string, Value)>, s: string) returns (i: nat)
    requires Enumerates(entries, F) && s in F
    ensures i < |entries| && entries[i].0 == s
  {
    i :| 0 <= i < |entries| && entries[i].0 == s;
  }

  /** Every leaf path of a regular document is named by some entry. */
  lemma EntriesCoverLeaves(d: Value, F: map<string, Value>, entries: seq<(string, Value)>)
    requires Regular(d) && IsFlatOf(F, d) && Enumerates(entries, F)
    ensures LeafPaths(d) <= PathsUpTo(entries, |entries|)
    ensures entries != []
  {
    forall p | p in LeafPaths(d) ensures p in PathsUpTo(entries, |entries|) {
      var i := EntryFor(F, entries, PropertyName(p));
      LeafSerializable(d, p);
      ParseOfPropertyName(p);
    }
    var p := SomeLeaf(d);
    var i := EntryFor(F, entries, PropertyName(p));
  }

  /** One `setProperty` on the tree built so far (`null` before the first
      entry) adds the entry's leaf to it. */
  lemma SetPropertyStep(d: Value, P: set<seq<Key>>, acc: Value, name: string, p: seq<Key>, v: Value)
    requires Regular(d) && P <= LeafPaths(d) && p in LeafPaths(d)
    requires Parse(name) == Ok(p) && v == At(d, p)
    requires if P == {} then acc == Null else acc == Partial(d, P)
    ensures SetProperty(acc, name, v) == Ok(Partial(d, P + {p}))
  {
    SetStep(d, P, p);
    if P == {} {
      RegularLeafPaths(d);
      PartialEmpty(d);
      assert EmptyFor(p[0]) == Partial(d, P);
    }
  }

  lemma PathsUpToLast(entries: seq<(string, Value)>, j: nat)
    requires 0 < j <= |entries| && Parse(entries[j - 1].0).Ok?
    ensures PathsUpTo(entries, j) == PathsUpTo(entries, j - 1) + {Parse(entries[j - 1].0).value}
  {
  }

  /** After `j` entries the fold has built the partial tree of their paths
      (from `null`, before the first). */
  lemma {:induction false} FoldPartial(d: Value, entries: seq<(string, Value)>, j: nat)
    requires Regular(d) && LeafEntries(d, entries) && j <= |entries|
    ensures PathsUpTo(entries, j) <= LeafPaths(d)
    ensures Fold(entries[..j]) == Ok(if j == 0 then Null else Partial(d, PathsUpTo(entries, j)))
  {
    if j == 0 {
      assert entries[..0] == [];
    } else {
      FoldPartial(d, entries, j - 1);
      var P := PathsUpTo(entries, j - 1);
      var p := Parse(entries[j - 1].0).value;
      PathsUpToLast(entries, j);
      FoldLast(entries, j);
      if j > 1 {
        assert Parse(entries[0].0).value in P;
      }
      SetPropertyStep(d, P, if j == 1 then Null else Partial(d, P), entries[j - 1].0, p, entries[j - 1].1);
    }
  }

  /** `normalizeProperties(denormalizeProperties(d))` is `d`, whatever order
      the flat map's properties are listed in and whether or not arrays are
      compacted, for every regular document `d`. */
  lemma NormalizeDenormalized(d: Value, F: map<string, Value>, entries: seq<(string, Value)>)
    requires Regular(d) && IsFlatOf(F, d) && Enumerates(entries, F)
    ensures Normalized(entries, true) == Ok(d)
    ensures Normalized(entries, false) == Ok(d)
  {
    EntriesAreLeaves(d, F, entries);
    EntriesCoverLeaves(d, F, entries);
    FoldAll(d, entries);
    RegularNoHoles(d);
    NormalizeArraysFixesHoleFree(d);
  }

  /** Folding every entry, when the entries name every leaf, rebuilds `d`. */
  lemma FoldAll(d: Value, entries: seq<(string, Value)>)
    requires Regular(d) && LeafEntries(d, entries) && entries != []
    requires LeafPaths(d) <= PathsUpTo(entries, |entries|)
    ensures Fold(entries) == Ok(d)
  {
    FoldPartial(d, entries, |entries|);
    assert entries[..|entries|] == entries;
    assert PathsUpTo(entries, |entries|) == LeafPaths(d);
    PartialFull(d);
  }

  /** The flat map `DenormalizeProperties` builds into an empty accumulator
      from a regular document is one `NormalizeDenormalized` takes. */
  lemma DenormalizedIsFlat(d: Value, out: map<string, Value>)
    requires Regular(d)
    requires Recorded([], d, map[], out)
    ensures IsFlatOf(out, d)
  {
    RegularRecoverable(d);
    RecoverableDistinct([], d);
    RecordedRoot(d, out);
    NamesAtRoot(d);
    RootValues(d, out);
  }

  lemma RecordedRoot(d: Value, out: map<string, Value>)
    requires Recorded([], d, map[], out) && Distinct([], d)
    ensures out.Keys == Names([], d)
    ensures forall p :: p in LeafPaths(d) ==> PropertyName([] + p) in out && out[PropertyName([] + p)] == At(d, p)
  {
    var empty: map<string, Value> := map[];
    assert empty.Keys == {};
  }

  lemma RootValues(d: Value, out: map<string, Value>)
    requires forall p :: p in LeafPaths(d) ==> PropertyName([] + p) in out && out[PropertyName([] + p)] == At(d, p)
    ensures forall p :: p in LeafPaths(d) ==> PropertyName(p) in out && out[PropertyName(p)] == At(d, p)
  {
    forall p | p in LeafPaths(d) ensures PropertyName(p) in out && out[PropertyName(p)] == At(d, p) {
      assert [] + p == p;
    }
  }

  /** Without a prefix, the names are the texts of the leaf paths. */
  lemma NamesAtRoot(d: Value)
    ensures Names([], d) == set p | p in LeafPaths(d) :: PropertyName(p)
  {
    var K := set p | p in LeafPaths(d) :: PropertyName(p);
    forall s | s in Names([], d) ensures s in K {
      var p := NamesWitness([], d, s);
      assert [] + p == p;
    }
    forall s | s in K ensures s in Names([], d) {
      var p :| p in LeafPaths(d) && s == PropertyName(p);
      assert [] + p == p;
      InNames([], d, p);
    }
  }

  /** Every entry of the flat map of a regular document holds what
      `getProperty` reads from the document at that name. */
  lemma FlatReadsBack(F: map<string, Value>, d: Value, s: string)
    requires Regular(d) && IsFlatOf(F, d) && s in F
    ensures GetByName(d, s) == Ok(F[s])
  {
    var p :| p in LeafPaths(d) && s == PropertyName(p);
    LeafSerializable(d, p);
    ParseOfPropertyName(p);
    LeafReadBack(d, p);
  }

  /** An array directly inside an array defeats the round trip: its leaf
      names read `...[i][j]...` and normalization stops with a syntax error. */
  lemma NestedArraysFail(d: Value, F: map<string, Value>, entries: seq<(string, Value)>,
                         p: seq<Key>, i: nat, normalizeArrays: bool)
    requires IsFlatOf(F, d) && Enumerates(entries, F)
    requires p in LeafPaths(d) && 0 < i < |p| && p[i - 1].Index? && p[i].Index?
    ensures Normalized(entries, normalizeArrays).Err?
  {
    AdjacentIndicesRejected(p, i);
    FlatKey(F, d, p);
    var j := EntryFor(F, entries, PropertyName(p));
    BadNameFails(entries, j, normalizeArrays);
  }

  lemma FlatKey(F: map<string, Value>, d: Value, p: seq<Key>)
    requires IsFlatOf(F, d) && p in LeafPaths(d)
    ensures PropertyName(p) in F
  {
  }
}
