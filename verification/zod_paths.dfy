/**
 * `flattenZodSchemaPaths`: the leaf paths of a theme schema, from which the
 * CSS variable names are made. The later copy (app/theme/src/Theme.ts)
 * also walks records: a record keyed by an enum contributes its value's
 * paths once per option, any other record once under "*". The earlier
 * copies (theme/src/Theme.ts, app/src/flatten.ts) walk objects only.
 */
module ZodPaths {
  import opened ThemePaths

  /** The schema shapes the walk distinguishes; every other schema is a leaf, like a string. */
  datatype Schema =
    | ZObject(shape: seq<Member>)
    | ZRecord(keys: Schema, values: Schema)
    | ZEnum(options: seq<string>)
    | ZString

  datatype Member = Member(key: string, schema: Schema)

  /** The later walk (objects and records). */
  function SchemaPaths(s: Schema, prefix: seq<string>): seq<seq<string>>
    decreases s, 2
  {
    match s
    case ZObject(_) => MemberPaths(s, 0, prefix)
    case ZRecord(keys, values) =>
      if keys.ZEnum? then OptionPaths(s, 0, prefix) else SchemaPaths(values, prefix + ["*"])
    case _ => [prefix]
  }

  function MemberPaths(s: Schema, i: nat, prefix: seq<string>): seq<seq<string>>
    requires s.ZObject? && i <= |s.shape|
    decreases s, 1, |s.shape| - i
  {
    if i == |s.shape| then []
    else SchemaPaths(s.shape[i].schema, prefix + [s.shape[i].key]) + MemberPaths(s, i + 1, prefix)
  }

  function OptionPaths(s: Schema, i: nat, prefix: seq<string>): seq<seq<string>>
    requires s.ZRecord? && s.keys.ZEnum? && i <= |s.keys.options|
    decreases s, 1, |s.keys.options| - i
  {
    if i == |s.keys.options| then []
    else SchemaPaths(s.values, prefix + [s.keys.options[i]]) + OptionPaths(s, i + 1, prefix)
  }

  /** `q` is a path the later walk describes: object keys, enum options or "*" down to a leaf schema. */
  predicate SchemaPath(s: Schema, q: seq<string>)
    decreases s
  {
    match s
    case ZObject(shape) =>
      |q| > 0 && exists i | 0 <= i < |shape| :: shape[i].key == q[0] && SchemaPath(shape[i].schema, q[1..])
    case ZRecord(keys, values) =>
      |q| > 0 && (if keys.ZEnum? then q[0] in keys.options else q[0] == "*") && SchemaPath(values, q[1..])
    case _ => q == []
  }

  /** Every path the later walk returns extends the prefix by a described path. */
  lemma {:induction false} SchemaPathSound(s: Schema, prefix: seq<string>, p: seq<string>)
    requires p in SchemaPaths(s, prefix)
    ensures |prefix| <= |p| && p[..|prefix|] == prefix && SchemaPath(s, p[|prefix|..])
    decreases s, 2
  {
    match s
    case ZObject(shape) =>
      MemberPathSound(s, 0, prefix, p);
      var q := p[|prefix|..];
      assert q[0] == p[|prefix|] && q[1..] == p[|prefix| + 1..];
    case ZRecord(keys, values) =>
      if keys.ZEnum? {
        OptionPathSound(s, 0, prefix, p);
      } else {
        var cur := prefix + ["*"];
        SchemaPathSound(values, cur, p);
        assert p[..|cur|][..|prefix|] == prefix;
        assert p[|prefix|..][0] == p[..|cur|][|prefix|] == "*";
        assert p[|prefix|..][1..] == p[|cur|..];
      }
    case ZEnum(_) =>
      assert p == prefix;
    case ZString =>
      assert p == prefix;
  }

  lemma {:induction false} MemberPathSound(s: Schema, i: nat, prefix: seq<string>, p: seq<string>)
    requires s.ZObject? && i <= |s.shape| && p in MemberPaths(s, i, prefix)
    ensures |prefix| < |p| && p[..|prefix|] == prefix
    ensures exists j | i <= j < |s.shape| :: s.shape[j].key == p[|prefix|] && SchemaPath(s.shape[j].schema, p[|prefix| + 1..])
    decreases s, 1, |s.shape| - i
  {
    var m := s.shape[i];
    var cur := prefix + [m.key];
    if p in SchemaPaths(m.schema, cur) {
      SchemaPathSound(m.schema, cur, p);
      assert p[..|cur|][..|prefix|] == prefix;
      assert p[|prefix|] == p[..|cur|][|prefix|] == m.key;
      assert p[|prefix| + 1..] == p[|cur|..];
    } else {
      MemberPathSound(s, i + 1, prefix, p);
    }
  }

  lemma {:induction false} OptionPathSound(s: Schema, i: nat, prefix: seq<string>, p: seq<string>)
    requires s.ZRecord? && s.keys.ZEnum? && i <= |s.keys.options| && p in OptionPaths(s, i, prefix)
    ensures |prefix| <= |p| && p[..|prefix|] == prefix && SchemaPath(s, p[|prefix|..])
    decreases s, 1, |s.keys.options| - i
  {
    var o := s.keys.options[i];
    var cur := prefix + [o];
    if p in SchemaPaths(s.values, cur) {
      SchemaPathSound(s.values, cur, p);
      assert p[..|cur|][..|prefix|] == prefix;
      assert p[|prefix|..][0] == p[..|cur|][|prefix|] == o;
      assert p[|prefix|..][1..] == p[|cur|..];
    } else {
      OptionPathSound(s, i + 1, prefix, p);
    }
  }

  /** Every described path is returned by the later walk, behind the prefix. */
  lemma {:induction false} SchemaPathComplete(s: Schema, prefix: seq<string>, q: seq<string>)
    requires SchemaPath(s, q)
    ensures prefix + q in SchemaPaths(s, prefix)
    decreases s, 2
  {
    match s
    case ZObject(shape) =>
      var i :| 0 <= i < |shape| && shape[i].key == q[0] && SchemaPath(shape[i].schema, q[1..]);
      MemberPathComplete(s, 0, i, prefix, q);
    case ZRecord(keys, values) =>
      if keys.ZEnum? {
        var i :| 0 <= i < |keys.options| && keys.options[i] == q[0];
        OptionPathComplete(s, 0, i, prefix, q);
      } else {
        SchemaPathComplete(values, prefix + ["*"], q[1..]);
        assert prefix + ["*"] + q[1..] == prefix + q;
      }
    case ZEnum(_) =>
      assert prefix + q == prefix;
    case ZString =>
      assert prefix + q == prefix;
  }

  lemma {:induction false} MemberPathComplete(s: Schema, j: nat, i: nat, prefix: seq<string>, q: seq<string>)
    requires s.ZObject? && j <= i < |s.shape| && |q| > 0
    requires s.shape[i].key == q[0] && SchemaPath(s.shape[i].schema, q[1..])
    ensures prefix + q in MemberPaths(s, j, prefix)
    decreases s, 1, |s.shape| - j
  {
    if j < i {
      MemberPathComplete(s, j + 1, i, prefix, q);
    } else {
      SchemaPathComplete(s.shape[i].schema, prefix + [q[0]], q[1..]);
      assert prefix + [q[0]] + q[1..] == prefix + q;
    }
  }

  lemma {:induction false} OptionPathComplete(s: Schema, j: nat, i: nat, prefix: seq<string>, q: seq<string>)
    requires s.ZRecord? && s.keys.ZEnum? && j <= i < |s.keys.options| && |q| > 0
    requires s.keys.options[i] == q[0] && SchemaPath(s.values, q[1..])
    ensures prefix + q in OptionPaths(s, j, prefix)
    decreases s, 1, |s.keys.options| - j
  {
    if j < i {
      OptionPathComplete(s, j + 1, i, prefix, q);
    } else {
      SchemaPathComplete(s.values, prefix + [q[0]], q[1..]);
      assert prefix + [q[0]] + q[1..] == prefix + q;
    }
  }

  /** The later walk returns exactly the described paths. */
  lemma SchemaPathsExactly(s: Schema, q: seq<string>)
    ensures q in SchemaPaths(s, []) <==> SchemaPath(s, q)
  {
    if q in SchemaPaths(s, []) {
      SchemaPathSound(s, [], q);
      assert q[0..] == q;
    }
    if SchemaPath(s, q) {
      SchemaPathComplete(s, [], q);
      assert [] + q == q;
    }
  }

  /** The earlier walk: objects only; anything else, records included, is a leaf. */
  function ObjectSchemaPaths(s: Schema, prefix: seq<string>): seq<seq<string>>
    decreases s, 2
  {
    if s.ZObject? then ObjectMemberPaths(s, 0, prefix) else [prefix]
  }

  function ObjectMemberPaths(s: Schema, i: nat, prefix: seq<string>): seq<seq<string>>
    requires s.ZObject? && i <= |s.shape|
    decreases s, 1, |s.shape| - i
  {
    if i == |s.shape| then []
    else ObjectSchemaPaths(s.shape[i].schema, prefix + [s.shape[i].key]) + ObjectMemberPaths(s, i + 1, prefix)
  }

  /** No record anywhere in the schema. */
  predicate RecordFree(s: Schema)
    decreases s
  {
    match s
    case ZObject(shape) => forall i | 0 <= i < |shape| :: RecordFree(shape[i].schema)
    case ZRecord(_, _) => false
    case _ => true
  }

  /** Without records the two walks agree. */
  lemma {:induction false} WalksAgree(s: Schema, prefix: seq<string>)
    requires RecordFree(s)
    ensures SchemaPaths(s, prefix) == ObjectSchemaPaths(s, prefix)
    decreases s, 2
  {
    if s.ZObject? {
      MemberWalksAgree(s, 0, prefix);
    }
  }

  lemma {:induction false} MemberWalksAgree(s: Schema, i: nat, prefix: seq<string>)
    requires s.ZObject? && RecordFree(s) && i <= |s.shape|
    ensures MemberPaths(s, i, prefix) == ObjectMemberPaths(s, i, prefix)
    decreases s, 1, |s.shape| - i
  {
    if i < |s.shape| {
      WalksAgree(s.shape[i].schema, prefix + [s.shape[i].key]);
      MemberWalksAgree(s, i + 1, prefix);
    }
  }

  /**
   * A value shaped by an object schema with no empty objects: the same keys
   * in the same order, and a non-object wherever the schema has a leaf.
   */
  predicate Conforms(v: Value, s: Schema)
    decreases s
  {
    match s
    case ZObject(shape) =>
      |shape| > 0 && v.Obj? && |v.fields| == |shape| &&
      forall i | 0 <= i < |shape| :: v.fields[i].key == shape[i].key && Conforms(v.fields[i].value, shape[i].schema)
    case _ => !v.Obj?
  }

  /** "Acts the same as `flattenObjectToPaths`": a conforming value yields the same paths as its schema. */
  lemma {:induction false} ConformingPathsAgree(v: Value, s: Schema, prefix: seq<string>)
    requires s.ZObject? && Conforms(v, s)
    ensures ObjectPaths(v, prefix) == ObjectSchemaPaths(s, prefix)
    decreases s, 1
  {
    ConformingFieldsAgree(v, s, 0, prefix);
  }

  lemma {:induction false} ConformingFieldsAgree(v: Value, s: Schema, i: nat, prefix: seq<string>)
    requires s.ZObject? && Conforms(v, s) && i <= |s.shape|
    ensures FieldPaths(v, i, prefix) == ObjectMemberPaths(s, i, prefix)
    decreases s, 0, |s.shape| - i
  {
    if i < |s.shape| {
      var f := v.fields[i];
      var m := s.shape[i];
      assert f.key == m.key && Conforms(f.value, m.schema);
      if f.value.Obj? {
        assert m.schema.ZObject?;
        ConformingPathsAgree(f.value, m.schema, prefix + [f.key]);
      } else {
        assert !m.schema.ZObject?;
      }
      ConformingFieldsAgree(v, s, i + 1, prefix);
    }
  }

  /** An empty object schema yields no paths at all, unlike an empty object, which yields its prefix. */
  lemma EmptyObjectSchema(prefix: seq<string>)
    ensures SchemaPaths(ZObject([]), prefix) == [] && ObjectSchemaPaths(ZObject([]), prefix) == []
    ensures ObjectPaths(Obj([]), prefix) == [prefix]
  {
  }
}
