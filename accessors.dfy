/** `getProperty`, `setProperty` and `_setProperty`: reading and writing a
    document along a key path. */
module Accessors {
  import opened Wrappers
  import opened PropertyNames
  import opened Values

  /** Why an accessor throws: a malformed path, a property access on `null`
      or `undefined` (JavaScript's `TypeError`), or a write whose key kind does
      not fit the container (a name into an array, an index into an object). */
  datatype Error = Syntax(err: SyntaxError) | TypeError | KindMismatch

  /** `data[key]` on a value that is neither `null` nor `undefined`: a missing
      object property, an index past an array's end, a hole, a key of the other
      kind and any key of a primitive all give `Undefined`. */
  function Child(d: Value, k: Key): (c: Value)
    ensures d.Obj? && k.Name? && k.name in d.fields ==> c == d.fields[k.name]
    ensures d.Arr? && k.Index? && k.index < |d.elems| ==> c == d.elems[k.index]
    ensures !(d.Obj? && k.Name? && k.name in d.fields) && !(d.Arr? && k.Index? && k.index < |d.elems|)
            ==> c == Undefined
  {
    match (d, k)
    case (Obj(m), Name(n)) => if n in m then m[n] else Undefined
    case (Arr(a), Index(i)) => if i < |a| then a[i] else Undefined
    case _ => Undefined
  }

  // ---------------------------------------------------------------------------
  // getProperty
  // ---------------------------------------------------------------------------

  /** The value `getProperty` finds along `ks`: each step indexes the current
      value; it stops with `Undefined` at the first missing key and throws when
      it must index `null` or `undefined`. */
  function Get(d: Value, ks: seq<Key>): Result<Value, Error>
    decreases |ks|
  {
    if ks == [] then Ok(d)
    else if d.Null? || d.Undefined? then Err(TypeError)
    else
      var c := Child(d, ks[0]);
      if c.Undefined? then Ok(Undefined) else Get(c, ks[1..])
  }

  /** What `getProperty(data, name)` returns or throws. */
  function GetByName(data: Value, name: string): Result<Value, Error>
  {
    match Parse(name)
    case Err(e) => Err(Syntax(e))
    case Ok(ks) => Get(data, ks)
  }

  /** `getProperty`: parses the path, then walks it in a loop. */
  method GetProperty(data: Value, name: string) returns (r: Result<Value, Error>)
    ensures r == GetByName(data, name)
  {
    var parsed := ParsePropertyName(name);
    if parsed.Err? {
      return Err(Syntax(parsed.error));
    }
    var keys := parsed.value;
    var cur := data;
    var i := 0;
    while i < |keys|
      invariant 0 <= i <= |keys|
      invariant Get(data, keys) == Get(cur, keys[i..])
      invariant i > 0 ==> !cur.Undefined?
    {
      if cur.Null? || cur.Undefined? {
        return Err(TypeError);
      }
      assert keys[i..][0] == keys[i] && keys[i..][1..] == keys[i + 1..];
      cur := Child(cur, keys[i]);
      i := i + 1;
      if cur.Undefined? {
        break;
      }
    }
    r := Ok(cur);
  }

  // ---------------------------------------------------------------------------
  // setProperty / _setProperty
  // ---------------------------------------------------------------------------

  /** JavaScript array assignment `a[i] = v`: past the end, the array grows and
      the positions in between are holes. */
  function Store(a: seq<Value>, i: nat, v: Value): (r: seq<Value>)
    ensures |r| == if i < |a| then |a| else i + 1
    ensures r[i] == v
    ensures forall j :: 0 <= j < |r| && j != i ==> r[j] == if j < |a| then a[j] else Undefined
  {
    if i < |a| then a[i := v] else a + seq(i - |a|, _ => Undefined) + [v]
  }

  /** `data[key] = value`. On `null` or `undefined` it throws; on a primitive
      the write is silently dropped (non-strict mode). */
  function Assign(d: Value, k: Key, v: Value): (r: Result<Value, Error>)
    ensures r.Err? <==> d.Null? || d.Undefined? || (d.Obj? && k.Index?) || (d.Arr? && k.Name?)
    ensures r.Ok? ==> (r.value.Obj? <==> d.Obj?) && (r.value.Arr? <==> d.Arr?)
    ensures r.Ok? && d.Prim? ==> r.value == d
    ensures r.Ok? && d.IsContainer() ==> Child(r.value, k) == v
    ensures r.Ok? ==> forall k' :: k' != k ==> Child(r.value, k') == Child(d, k')
  {
    match d
    case Undefined => Err(TypeError)
    case Null => Err(TypeError)
    case Prim(_) => Ok(d)
    case Obj(m) => if k.Name? then Ok(Obj(m[k.name := v])) else Err(KindMismatch)
    case Arr(a) => if k.Index? then Ok(Arr(Store(a, k.index, v))) else Err(KindMismatch)
  }

  /** The empty container `_setProperty` creates for a missing intermediate
      whose next key is `k`. */
  function EmptyFor(k: Key): (e: Value)
    ensures e.Arr? <==> k.Index?
    ensures e.Obj? <==> k.Name?
  {
    if k.Index? then Arr([]) else Obj(map[])
  }

  /** `_setProperty(data, keys, value)`: writes `v` at the end of `ks`,
      creating each missing intermediate as an array when the next key is an
      index and as an object otherwise, and re-reading `data[key]` before
      descending. The result keeps the kind of `d`. */
  function SetPath(d: Value, ks: seq<Key>, v: Value): (r: Result<Value, Error>)
    requires ks != []
    ensures r.Ok? ==> !d.Null? && !d.Undefined?
    ensures r.Ok? ==> (r.value.Obj? <==> d.Obj?) && (r.value.Arr? <==> d.Arr?)
    ensures r.Ok? && d.Prim? ==> r.value == d
    decreases |ks|
  {
    if |ks| == 1 then Assign(d, ks[0], v)
    else
      var c := Child(d, ks[0]);
      var d1 :- if c.Undefined? then Assign(d, ks[0], EmptyFor(ks[1])) else Ok(d);
      var c1 :- SetPath(Child(d1, ks[0]), ks[1..], v);
      Assign(d1, ks[0], c1)
  }

  /** `setProperty(data, name, value)`: an empty path returns `data`; a `null`
      root is first replaced by an array when the first key is an index and by
      an object otherwise. */
  function SetProperty(data: Value, name: string, value: Value): (r: Result<Value, Error>)
    ensures Parse(name).Err? ==> r == Err(Syntax(Parse(name).error))
    ensures Parse(name) == Ok([]) ==> r == Ok(data)
    ensures r.Ok? && data.Null? && Parse(name).value != [] ==>
              (r.value.Arr? <==> Parse(name).value[0].Index?) && (r.value.Obj? <==> Parse(name).value[0].Name?)
    ensures r.Ok? && !data.Null? ==> (r.value.Obj? <==> data.Obj?) && (r.value.Arr? <==> data.Arr?)
  {
    match Parse(name)
    case Err(e) => Err(Syntax(e))
    case Ok(keys) =>
      if keys == [] then Ok(data)
      else SetPath(if data.Null? then EmptyFor(keys[0]) else data, keys, value)
  }

  // ---------------------------------------------------------------------------
  // Properties of reading
  // ---------------------------------------------------------------------------

  /** Reading along `ks1 + ks2` reads along `ks1`, then along `ks2` from
      there, unless the first part already stopped or threw. */
  lemma {:induction false} GetAppend(d: Value, ks1: seq<Key>, ks2: seq<Key>)
    requires ks1 != []
    ensures Get(d, ks1 + ks2) == match Get(d, ks1)
                                 case Err(e) => Err(e)
                                 case Ok(x) => if x.Undefined? then Ok(Undefined) else Get(x, ks2)
    decreases |ks1|
  {
    var ks := ks1 + ks2;
    assert ks[0] == ks1[0] && ks[1..] == ks1[1..] + ks2;
    if !d.Null? && !d.Undefined? && !Child(d, ks1[0]).Undefined? && |ks1| > 1 {
      GetAppend(Child(d, ks1[0]), ks1[1..], ks2);
    }
  }

  /** Reading stops, without throwing, at the first missing key: once the
      value at `pre` is present and has no `k`, every longer path through
      `pre + [k]` reads `Undefined`. */
  lemma GetStopsAtMissing(d: Value, pre: seq<Key>, k: Key, rest: seq<Key>)
    requires Get(d, pre).Ok?
    requires !Get(d, pre).value.Null? && !Get(d, pre).value.Undefined?
    requires Child(Get(d, pre).value, k).Undefined?
    ensures Get(d, pre + [k] + rest) == Ok(Undefined)
  {
    var x := Get(d, pre).value;
    if pre == [] {
      assert pre + [k] == [k];
    } else {
      GetAppend(d, pre, [k]);
      assert Get(x, [k]) == Ok(Undefined);
    }
    GetAppend(d, pre + [k], rest);
  }

  /** The places where a read must throw: indexing `null` somewhere along the
      path, or indexing an `undefined` root. */
  predicate Blocked(d: Value, pre: seq<Key>)
  {
    Get(d, pre) == Ok(Null) || (pre == [] && d.Undefined?)
  }

  /** `getProperty` throws exactly when the walk must index `null` (or an
      `undefined` root); missing keys never make it throw. */
  lemma {:induction false} GetThrowsIff(d: Value, ks: seq<Key>)
    ensures Get(d, ks).Err? <==> exists j :: 0 <= j < |ks| && Blocked(d, ks[..j])
    decreases |ks|
  {
    if ks != [] {
      assert ks[..0] == [];
      if d.Null? || d.Undefined? {
        assert Blocked(d, ks[..0]);
      } else {
        var c := Child(d, ks[0]);
        if c.Undefined? {
          forall j | 0 <= j < |ks| ensures !Blocked(d, ks[..j]) {
            if j > 0 {
              assert ks[..j][0] == ks[0];
              assert Get(d, ks[..j]) == Ok(Undefined);
            }
          }
        } else {
          GetThrowsIff(c, ks[1..]);
          forall j | 0 <= j < |ks[1..]| ensures Blocked(c, ks[1..][..j]) <==> Blocked(d, ks[..j + 1]) {
            assert ks[..j + 1][0] == ks[0] && ks[..j + 1][1..] == ks[1..][..j];
          }
          if Get(d, ks).Err? {
            var j :| 0 <= j < |ks[1..]| && Blocked(c, ks[1..][..j]);
            assert Blocked(d, ks[..j + 1]);
          } else {
            forall j | 0 <= j < |ks| ensures !Blocked(d, ks[..j]) {
              if j > 0 {
                assert !Blocked(c, ks[1..][..j - 1]);
              }
            }
          }
        }
      }
    }
  }

  // ---------------------------------------------------------------------------
  // Properties of writing
  // ---------------------------------------------------------------------------

  /** The parent of the target is a primitive: the final write is dropped. */
  predicate ParentIsPrim(d: Value, ks: seq<Key>)
    requires ks != []
  {
    Get(d, ks[..|ks| - 1]).Ok? && Get(d, ks[..|ks| - 1]).value.Prim?
  }

  lemma {:induction false} GetOneStep(d: Value, k: Key, rest: seq<Key>)
    requires d.IsContainer()
    ensures Get(d, [k] + rest) == if Child(d, k).Undefined? then Ok(Undefined) else Get(Child(d, k), rest)
  {
    assert ([k] + rest)[0] == k && ([k] + rest)[1..] == rest;
  }

  /** An empty container reads `Undefined` along every non-empty path. */
  lemma EmptyReadsUndefined(k: Key, q: seq<Key>)
    requires q != []
    ensures Get(EmptyFor(k), q) == Ok(Undefined)
  {
  }

  /** After a successful `_setProperty`, reading the same path yields the
      value written, unless the target's parent is a primitive, whose write is
      dropped and which leaves the whole document unchanged. */
  lemma {:induction false} GetAfterSet(d: Value, ks: seq<Key>, v: Value)
    requires ks != []
    requires SetPath(d, ks, v).Ok?
    ensures ParentIsPrim(d, ks) ==> SetPath(d, ks, v).value == d
    ensures !ParentIsPrim(d, ks) ==> Get(SetPath(d, ks, v).value, ks) == Ok(v)
    decreases |ks|
  {
    var d' := SetPath(d, ks, v).value;
    var n := |ks| - 1;
    if n == 0 {
      assert ks[..0] == [];
      if d.IsContainer() {
        GetOneStep(d', ks[0], []);
        assert [ks[0]] + [] == ks;
      }
    } else {
      assert d.IsContainer();
      var k := ks[0];
      var rest := ks[1..];
      assert ks == [k] + rest;
      var c := Child(d, k);
      var d1 := if c.Undefined? then Assign(d, k, EmptyFor(ks[1])).value else d;
      var c0 := Child(d1, k);
      var c1 := SetPath(c0, rest, v).value;
      assert d' == Assign(d1, k, c1).value;
      GetAfterSet(c0, rest, v);
      ConsPrefix(ks, n);
      GetOneStep(d, k, rest[..n - 1]);
      GetOneStep(d', k, rest);
      if c.Undefined? {
        assert !ParentIsPrim(d, ks);
        if n > 1 {
          EmptyReadsUndefined(ks[1], rest[..n - 1]);
        }
        assert !ParentIsPrim(c0, rest);
      } else {
        assert ParentIsPrim(d, ks) == ParentIsPrim(c, rest);
        if ParentIsPrim(c, rest) {
          assert c1 == c;
          ChildUnchanged(d, k);
        }
      }
    }
  }

  /** Writing back a container's own child leaves it unchanged. */
  lemma ChildUnchanged(d: Value, k: Key)
    requires d.IsContainer() && !Child(d, k).Undefined?
    ensures Assign(d, k, Child(d, k)) == Ok(d)
  {
    match d
    case Obj(m) => assert m[k.name := m[k.name]] == m;
    case Arr(a) => assert a[k.index := a[k.index]] == a;
  }

  /** `_setProperty` leaves every path that diverges from `ks` (one that is
      neither a prefix nor an extension of it) reading what it read before. */
  lemma {:induction false} SetFrame(d: Value, ks: seq<Key>, v: Value, q: seq<Key>, j: nat)
    requires ks != [] && SetPath(d, ks, v).Ok?
    requires j < |q| && j < |ks| && q[..j] == ks[..j] && q[j] != ks[j]
    ensures Get(SetPath(d, ks, v).value, q) == Get(d, q)
    decreases |ks|
  {
    var d' := SetPath(d, ks, v).value;
    var k := ks[0];
    if d.Prim? {
      assert d' == d;
    } else {
      assert d.IsContainer();
      assert q == [q[0]] + q[1..];
      GetOneStep(d, q[0], q[1..]);
      GetOneStep(d', q[0], q[1..]);
      if j == 0 {
        OtherChildKept(d, ks, v, q[0]);
      } else {
        SharedPrefixTail(q, ks, j);
        var rest := ks[1..];
        var c := Child(d, k);
        var c0 := SetPathStep(d, ks, v);
        SetFrame(c0, rest, v, q[1..], j - 1);
        if c.Undefined? {
          EmptyReadsUndefined(ks[1], q[1..]);
          assert Get(c0, q[1..]) == Ok(Undefined);
        } else {
          assert c0 == c;
        }
      }
    }
  }

  lemma ConsPrefix(ks: seq<Key>, n: nat)
    requires 0 < n <= |ks|
    ensures ks[..n] == [ks[0]] + ks[1..][..n - 1]
  {
  }

  lemma SharedPrefixTail(q: seq<Key>, ks: seq<Key>, j: nat)
    requires 0 < j <= |q| && j <= |ks| && q[..j] == ks[..j]
    ensures q[0] == ks[0] && q[1..][..j - 1] == ks[1..][..j - 1]
  {
    assert q[..j][0] == ks[..j][0];
    assert q[1..][..j - 1] == q[..j][1..];
    assert ks[1..][..j - 1] == ks[..j][1..];
  }

  /** `_setProperty` changes no child of the root but the first key's. */
  lemma OtherChildKept(d: Value, ks: seq<Key>, v: Value, k: Key)
    requires ks != [] && SetPath(d, ks, v).Ok? && k != ks[0]
    ensures Child(SetPath(d, ks, v).value, k) == Child(d, k)
  {
    if |ks| > 1 {
      var _ := SetPathStep(d, ks, v);
    }
  }

  /** One level of `_setProperty` on a longer path: it descends into `c0`,
      the child after any missing intermediate was created, and writes the
      result of the recursive call back under the first key. */
  lemma SetPathStep(d: Value, ks: seq<Key>, v: Value) returns (c0: Value)
    requires |ks| > 1 && SetPath(d, ks, v).Ok?
    ensures d.IsContainer()
    ensures c0 == if Child(d, ks[0]).Undefined? then EmptyFor(ks[1]) else Child(d, ks[0])
    ensures SetPath(c0, ks[1..], v).Ok?
    ensures Child(SetPath(d, ks, v).value, ks[0]) == SetPath(c0, ks[1..], v).value
    ensures forall k :: k != ks[0] ==> Child(SetPath(d, ks, v).value, k) == Child(d, k)
  {
    var c := Child(d, ks[0]);
    var d1 := if c.Undefined? then Assign(d, ks[0], EmptyFor(ks[1])).value else d;
    c0 := Child(d1, ks[0]);
  }

  /** Each missing intermediate on the path is created as an array when the
      key after it is an index and as an object otherwise. */
  lemma {:induction false} SetCreatesIntermediates(d: Value, ks: seq<Key>, v: Value, i: nat)
    requires ks != [] && SetPath(d, ks, v).Ok?
    requires 0 < i < |ks|
    requires Get(d, ks[..i]) == Ok(Undefined)
    ensures Get(SetPath(d, ks, v).value, ks[..i]).Ok?
    ensures Get(SetPath(d, ks, v).value, ks[..i]).value.Arr? <==> ks[i].Index?
    ensures Get(SetPath(d, ks, v).value, ks[..i]).value.Obj? <==> ks[i].Name?
    decreases |ks|
  {
    var d' := SetPath(d, ks, v).value;
    assert d.IsContainer();
    var k := ks[0];
    var rest := ks[1..];
    var c := Child(d, k);
    var d1 := if c.Undefined? then Assign(d, k, EmptyFor(ks[1])).value else d;
    var c0 := Child(d1, k);
    var c1 := SetPath(c0, rest, v).value;
    ConsPrefix(ks, i);
    GetOneStep(d, k, rest[..i - 1]);
    GetOneStep(d', k, rest[..i - 1]);
    assert Child(d', k) == c1;
    if i > 1 {
      if c.Undefined? {
        EmptyReadsUndefined(ks[1], rest[..i - 1]);
      }
      SetCreatesIntermediates(c0, rest, v, i - 1);
    }
  }

  /** The empty path reads the document itself. */
  lemma GetEmptyPath(data: Value)
    ensures GetByName(data, "") == Ok(data)
  {
    ParseEmpty();
  }

  /** With the empty path `setProperty` returns `data` unchanged. */
  lemma SetEmptyPath(data: Value, v: Value)
    ensures SetProperty(data, "", v) == Ok(data)
  {
    ParseEmpty();
  }

  /** After `setProperty(data, name, v)` with a non-empty path, reading
      `name` yields `v`, unless the target's parent is a primitive. */
  lemma GetAfterSetProperty(data: Value, name: string, v: Value)
    requires Parse(name).Ok? && Parse(name).value != []
    requires SetProperty(data, name, v).Ok?
    requires !ParentIsPrim(data, Parse(name).value)
    ensures GetByName(SetProperty(data, name, v).value, name) == Ok(v)
  {
    var ks := Parse(name).value;
    var root := if data.Null? then EmptyFor(ks[0]) else data;
    if data.Null? {
      if |ks| > 1 {
        EmptyReadsUndefined(ks[0], ks[..|ks| - 1]);
      } else {
        assert ks[..0] == [];
      }
    }
    GetAfterSet(root, ks, v);
  }
}
