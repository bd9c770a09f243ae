/**
 * The object helpers the themes are built on (app/theme/src/Theme.ts, with
 * the same code in theme/src/Theme.ts and app/src/flatten.ts): JavaScript
 * values as plain data, property lookup and `Object.assign`, merging an
 * array of objects, and listing the leaf paths of a nested object.
 */
module ThemePaths {
  import opened Wrappers

  /** A JavaScript value; an object's keys are kept in insertion order. */
  datatype Value =
    | Str(s: string)
    | Num(n: int)
    | Bool(b: bool)
    | Null
    | Undefined
    | Arr(items: seq<Value>)
    | Obj(fields: seq<Field>)

  datatype Field = Field(key: string, value: Value)

  /** An object's keys, in order. */
  function Keys(fields: seq<Field>): (ks: seq<string>)
    ensures |ks| == |fields|
  {
    if |fields| == 0 then [] else [fields[0].key] + Keys(fields[1..])
  }

  predicate Distinct(ks: seq<string>) {
    |ks| == 0 || (ks[0] !in ks[1..] && Distinct(ks[1..]))
  }

  /** No key appears twice, as in any JavaScript object. */
  predicate UniqueKeys(fields: seq<Field>) {
    Distinct(Keys(fields))
  }

  /** Property lookup on an object's fields: the value under `key`, if the key is present. */
  function Get(fields: seq<Field>, key: string): (r: Option<Value>)
    ensures r.None? <==> key !in Keys(fields)
    ensures r.Some? ==> Field(key, r.value) in fields
  {
    if |fields| == 0 then None
    else if fields[0].key == key then Some(fields[0].value)
    else Get(fields[1..], key)
  }

  /** `v[key]` when `v` may be anything: only objects have the keys this model looks up. */
  function Prop(v: Value, key: string): (r: Option<Value>)
    ensures r.Some? ==> v.Obj?
  {
    if v.Obj? then Get(v.fields, key) else None
  }

  /** `path.reduce((acc, key) => acc[key], v)`, with `None` where a key is missing. */
  function Lookup(v: Value, path: seq<string>): (r: Option<Value>)
    ensures path == [] ==> r == Some(v)
  {
    if |path| == 0 then Some(v)
    else match Prop(v, path[0])
      case None => None
      case Some(w) => Lookup(w, path[1..])
  }

  /** `Object.assign(o, { [key]: value })`: an existing key keeps its place and takes the value; a new key goes last. */
  function Assign(fields: seq<Field>, key: string, value: Value): (r: seq<Field>)
    ensures Get(r, key) == Some(value)
    ensures Keys(r) == if key in Keys(fields) then Keys(fields) else Keys(fields) + [key]
  {
    if |fields| == 0 then [Field(key, value)]
    else if fields[0].key == key then
      var r := [Field(key, value)] + fields[1..];
      assert r[1..] == fields[1..];
      r
    else
      var rest := Assign(fields[1..], key, value);
      var r := [fields[0]] + rest;
      assert r[1..] == rest;
      assert Keys(fields) == [fields[0].key] + Keys(fields[1..]);
      assert Keys(r) == [fields[0].key] + Keys(rest);
      r
  }

  /** Assigning one key leaves every other key reading as before. */
  lemma {:induction false} AssignOther(fields: seq<Field>, key: string, value: Value, k: string)
    requires k != key
    ensures Get(Assign(fields, key, value), k) == Get(fields, k)
  {
    if |fields| > 0 && fields[0].key != key {
      AssignOther(fields[1..], key, value, k);
    }
  }

  lemma {:induction false} DistinctAppend(ks: seq<string>, k: string)
    requires Distinct(ks) && k !in ks
    ensures Distinct(ks + [k])
  {
    if |ks| > 0 {
      DistinctAppend(ks[1..], k);
      assert (ks + [k])[1..] == ks[1..] + [k];
    }
  }

  lemma AssignUnique(fields: seq<Field>, key: string, value: Value)
    requires UniqueKeys(fields)
    ensures UniqueKeys(Assign(fields, key, value))
  {
    if key !in Keys(fields) {
      DistinctAppend(Keys(fields), key);
    }
  }

  /** `{ ...acc, ...obj }`: the fields of `obj` assigned onto `acc` in order. */
  function Spread(acc: seq<Field>, obj: seq<Field>): (r: seq<Field>)
    ensures UniqueKeys(acc) ==> UniqueKeys(r)
    decreases |obj|
  {
    if |obj| == 0 then acc
    else
      assert UniqueKeys(acc) ==> UniqueKeys(Assign(acc, obj[0].key, obj[0].value)) by {
        if UniqueKeys(acc) {
          AssignUnique(acc, obj[0].key, obj[0].value);
        }
      }
      Spread(Assign(acc, obj[0].key, obj[0].value), obj[1..])
  }

  /** With the keys of `obj` distinct, a key of `obj` reads `obj`'s value and any other key reads `acc`'s. */
  lemma {:induction false} SpreadGet(acc: seq<Field>, obj: seq<Field>, k: string)
    requires UniqueKeys(obj)
    ensures Get(Spread(acc, obj), k) == if Get(obj, k).Some? then Get(obj, k) else Get(acc, k)
    decreases |obj|
  {
    if |obj| > 0 {
      var acc' := Assign(acc, obj[0].key, obj[0].value);
      assert Keys(obj) == [obj[0].key] + Keys(obj[1..]);
      SpreadGet(acc', obj[1..], k);
      if k != obj[0].key {
        AssignOther(acc, obj[0].key, obj[0].value, k);
      }
    }
  }

  /** `flattenArrayOfObjects`: the objects merged left to right, starting from `{}`. */
  function FlattenArrayOfObjects(objs: seq<seq<Field>>): (r: seq<Field>)
    ensures UniqueKeys(r)
  {
    if |objs| == 0 then []
    else Spread(FlattenArrayOfObjects(objs[..|objs| - 1]), objs[|objs| - 1])
  }

  /** Merging keeps exactly the keys some object has. */
  lemma {:induction false} FlattenHasKey(objs: seq<seq<Field>>, k: string)
    requires forall i | 0 <= i < |objs| :: UniqueKeys(objs[i])
    ensures Get(FlattenArrayOfObjects(objs), k).None? <==> forall i | 0 <= i < |objs| :: Get(objs[i], k).None?
  {
    if |objs| > 0 {
      var n := |objs| - 1;
      var init := objs[..n];
      var merged := FlattenArrayOfObjects(init);
      assert FlattenArrayOfObjects(objs) == Spread(merged, objs[n]);
      PrefixKeepsUnique(objs, n);
      FlattenHasKey(init, k);
      SpreadGet(merged, objs[n], k);
      MissingEverywhere(objs, init, k);
    }
  }

  /** Later objects win: a key reads the value from the last object that has it. */
  lemma {:induction false} FlattenLaterWins(objs: seq<seq<Field>>, k: string, i: nat)
    requires forall j | 0 <= j < |objs| :: UniqueKeys(objs[j])
    requires i < |objs| && Get(objs[i], k).Some?
    requires forall j | i < j < |objs| :: Get(objs[j], k).None?
    ensures Get(FlattenArrayOfObjects(objs), k) == Get(objs[i], k)
  {
    var n := |objs| - 1;
    var init := objs[..n];
    var merged := FlattenArrayOfObjects(init);
    assert FlattenArrayOfObjects(objs) == Spread(merged, objs[n]);
    SpreadGet(merged, objs[n], k);
    if i == n {
      assert Get(Spread(merged, objs[n]), k) == Get(objs[n], k);
    } else {
      assert Get(objs[n], k).None?;
      assert Get(Spread(merged, objs[n]), k) == Get(merged, k);
      PrefixKeepsUnique(objs, n);
      assert init[i] == objs[i];
      forall j | i < j < n ensures Get(init[j], k).None? {
        assert init[j] == objs[j];
      }
      FlattenLaterWins(init, k, i);
    }
  }

  /** A key missing from every object is missing from all but the last and from the last. */
  lemma MissingEverywhere(objs: seq<seq<Field>>, init: seq<seq<Field>>, k: string)
    requires |objs| > 0 && init == objs[..|objs| - 1]
    ensures (forall i | 0 <= i < |objs| :: Get(objs[i], k).None?) <==>
      (forall i | 0 <= i < |init| :: Get(init[i], k).None?) && Get(objs[|objs| - 1], k).None?
  {
    assert forall i | 0 <= i < |init| :: init[i] == objs[i];
  }

  lemma PrefixKeepsUnique(objs: seq<seq<Field>>, n: nat)
    requires n <= |objs| && forall j | 0 <= j < |objs| :: UniqueKeys(objs[j])
    ensures forall j | 0 <= j < n :: UniqueKeys(objs[..n][j])
  {
  }

  /** The documented example: `[{ a: 1 }, { b: 2 }]` becomes `{ a: 1, b: 2 }`. */
  lemma FlattenExample()
    ensures FlattenArrayOfObjects([[Field("a", Num(1))], [Field("b", Num(2))]]) == [Field("a", Num(1)), Field("b", Num(2))]
  {
    var objs := [[Field("a", Num(1))], [Field("b", Num(2))]];
    assert objs[..1] == [[Field("a", Num(1))]];
    assert objs[..1][..0] == [];
    assert FlattenArrayOfObjects(objs[..1]) == [Field("a", Num(1))];
  }

  /** Where a path stops: anything but an object with keys, so a primitive, an array, `null` or `{}`. */
  predicate Leaf(v: Value) {
    !(v.Obj? && |v.fields| > 0)
  }

  /** `q` leads from `v` through object keys to a leaf. */
  predicate LeafPath(v: Value, q: seq<string>)
    decreases v
  {
    if |q| == 0 then Leaf(v)
    else v.Obj? && exists i | 0 <= i < |v.fields| :: v.fields[i].key == q[0] && LeafPath(v.fields[i].value, q[1..])
  }

  /**
   * `flattenObjectToPaths(obj, prefix)`: for each key, an object value
   * (truthy, not an array) is flattened under the extended prefix and any
   * other value ends a path there; an object without keys yields the
   * prefix itself.
   */
  function ObjectPaths(v: Value, prefix: seq<string>): seq<seq<string>>
    requires v.Obj?
    decreases v, 1
  {
    FieldPaths(v, 0, prefix) + (if |v.fields| == 0 then [prefix] else [])
  }

  /** The paths contributed by the keys from position `i` on. */
  function FieldPaths(v: Value, i: nat, prefix: seq<string>): seq<seq<string>>
    requires v.Obj? && i <= |v.fields|
    decreases v, 0, |v.fields| - i
  {
    if i == |v.fields| then []
    else
      var f := v.fields[i];
      var here := if f.value.Obj? then ObjectPaths(f.value, prefix + [f.key]) else [prefix + [f.key]];
      here + FieldPaths(v, i + 1, prefix)
  }

  /** Every path returned extends the prefix by a path that ends at a leaf. */
  lemma {:induction false} ObjectPathSound(v: Value, prefix: seq<string>, p: seq<string>)
    requires v.Obj? && p in ObjectPaths(v, prefix)
    ensures |prefix| <= |p| && p[..|prefix|] == prefix && LeafPath(v, p[|prefix|..])
    decreases v, 1
  {
    if p in FieldPaths(v, 0, prefix) {
      FieldPathSound(v, 0, prefix, p);
      var q := p[|prefix|..];
      var j :| 0 <= j < |v.fields| && v.fields[j].key == p[|prefix|] && LeafPath(v.fields[j].value, p[|prefix| + 1..]);
      assert q[0] == p[|prefix|] && q[1..] == p[|prefix| + 1..];
    } else {
      assert p == prefix;
    }
  }

  lemma {:induction false} FieldPathSound(v: Value, i: nat, prefix: seq<string>, p: seq<string>)
    requires v.Obj? && i <= |v.fields| && p in FieldPaths(v, i, prefix)
    ensures |prefix| < |p| && p[..|prefix|] == prefix
    ensures exists j | i <= j < |v.fields| :: v.fields[j].key == p[|prefix|] && LeafPath(v.fields[j].value, p[|prefix| + 1..])
    decreases v, 0, |v.fields| - i
  {
    var f := v.fields[i];
    var cur := prefix + [f.key];
    var here := if f.value.Obj? then ObjectPaths(f.value, cur) else [cur];
    assert FieldPaths(v, i, prefix) == here + FieldPaths(v, i + 1, prefix);
    if p in here {
      if f.value.Obj? {
        ObjectPathSound(f.value, cur, p);
        assert p[..|cur|][..|prefix|] == prefix;
        assert p[|prefix|] == p[..|cur|][|prefix|] == f.key;
        assert p[|prefix| + 1..] == p[|cur|..];
      } else {
        assert p == cur;
        assert p[|prefix| + 1..] == [];
      }
    } else {
      FieldPathSound(v, i + 1, prefix, p);
    }
  }

  /** Every path to a leaf is returned, behind the prefix. */
  lemma {:induction false} ObjectPathComplete(v: Value, prefix: seq<string>, q: seq<string>)
    requires v.Obj? && LeafPath(v, q)
    ensures prefix + q in ObjectPaths(v, prefix)
    decreases v, 1
  {
    if |q| == 0 {
      assert prefix + q == prefix;
    } else {
      var i :| 0 <= i < |v.fields| && v.fields[i].key == q[0] && LeafPath(v.fields[i].value, q[1..]);
      FieldPathComplete(v, 0, i, prefix, q);
    }
  }

  lemma {:induction false} FieldPathComplete(v: Value, j: nat, i: nat, prefix: seq<string>, q: seq<string>)
    requires v.Obj? && j <= i < |v.fields| && |q| > 0
    requires v.fields[i].key == q[0] && LeafPath(v.fields[i].value, q[1..])
    ensures prefix + q in FieldPaths(v, j, prefix)
    decreases v, 0, |v.fields| - j
  {
    var f := v.fields[j];
    var cur := prefix + [f.key];
    var here := if f.value.Obj? then ObjectPaths(f.value, cur) else [cur];
    assert FieldPaths(v, j, prefix) == here + FieldPaths(v, j + 1, prefix);
    if j < i {
      FieldPathComplete(v, j + 1, i, prefix, q);
    } else {
      assert prefix + q == cur + q[1..];
      if f.value.Obj? {
        ObjectPathComplete(f.value, cur, q[1..]);
      } else {
        assert f == v.fields[i];
        assert q[1..] == [];
        assert q == [q[0]];
      }
    }
  }

  /** The paths are exactly the leaf paths, both ways. */
  lemma ObjectPathsExactly(v: Value, q: seq<string>)
    requires v.Obj?
    ensures q in ObjectPaths(v, []) <==> LeafPath(v, q)
  {
    if q in ObjectPaths(v, []) {
      ObjectPathSound(v, [], q);
      assert q[0..] == q;
    }
    if LeafPath(v, q) {
      ObjectPathComplete(v, [], q);
      assert [] + q == q;
    }
  }

  /** `{}` at the top with no prefix gives the single empty path. */
  lemma EmptyObjectPaths()
    ensures ObjectPaths(Obj([]), []) == [[]]
  {
  }

  /** `{ foo: { bar: {}, baz: { a: {}, b: {} } }, quux: {} }`, the documented example. */
  function DocExample(): Value {
    Obj([
      Field("foo", Obj([
        Field("bar", Obj([])),
        Field("baz", Obj([Field("a", Obj([])), Field("b", Obj([]))]))])),
      Field("quux", Obj([]))])
  }

  /**
   * The documented result: `foo.bar`, `foo.baz.a`, `foo.baz.b` and `quux`,
   * in that order. (One copy of the comment spells the third path
   * `foo.bar.b`; the code yields `foo.baz.b`.)
   */
  lemma DocExamplePaths()
    ensures ObjectPaths(DocExample(), []) == [["foo", "bar"], ["foo", "baz", "a"], ["foo", "baz", "b"], ["quux"]]
    ensures ["foo", "bar", "b"] !in ObjectPaths(DocExample(), [])
  {
    var baz := Obj([Field("a", Obj([])), Field("b", Obj([]))]);
    var foo := Obj([Field("bar", Obj([])), Field("baz", baz)]);
    assert FieldPaths(Obj([]), 0, ["foo", "bar"]) == [];
    assert ["foo"] + ["bar"] == ["foo", "bar"] && ["foo"] + ["baz"] == ["foo", "baz"];
    assert ["foo", "baz"] + ["a"] == ["foo", "baz", "a"] && ["foo", "baz"] + ["b"] == ["foo", "baz", "b"];
    assert [] + ["quux"] == ["quux"] && [] + ["foo"] == ["foo"];
    assert ObjectPaths(Obj([]), ["foo", "bar"]) == [["foo", "bar"]];
    assert ObjectPaths(Obj([]), ["foo", "baz", "a"]) == [["foo", "baz", "a"]];
    assert ObjectPaths(Obj([]), ["foo", "baz", "b"]) == [["foo", "baz", "b"]];
    assert ObjectPaths(Obj([]), ["quux"]) == [["quux"]];
    assert FieldPaths(baz, 2, ["foo", "baz"]) == [];
    assert FieldPaths(baz, 1, ["foo", "baz"]) == [["foo", "baz", "b"]];
    assert FieldPaths(baz, 0, ["foo", "baz"]) == [["foo", "baz", "a"], ["foo", "baz", "b"]];
    assert ObjectPaths(baz, ["foo", "baz"]) == [["foo", "baz", "a"], ["foo", "baz", "b"]];
    assert FieldPaths(foo, 2, ["foo"]) == [];
    assert FieldPaths(foo, 1, ["foo"]) == [["foo", "baz", "a"], ["foo", "baz", "b"]];
    assert FieldPaths(foo, 0, ["foo"]) == [["foo", "bar"], ["foo", "baz", "a"], ["foo", "baz", "b"]];
    assert ObjectPaths(foo, ["foo"]) == [["foo", "bar"], ["foo", "baz", "a"], ["foo", "baz", "b"]];
    assert FieldPaths(DocExample(), 2, []) == [];
    assert FieldPaths(DocExample(), 1, []) == [["quux"]];
  }
}
