/**
 * The variable binder behind `RpcMessage.setVar`: a variable names a path of
 * singular message fields and a leaf field; binding it walks the path from
 * the message's own schema, getting or creating each nested message, and then
 * sets (singular leaf) or appends to (repeated leaf) the leaf field.
 *
 * `Bind` is the specification of the whole operation as a function of the old
 * body; the imperative walk in module Rpc is proved equal to it.
 */
module Binding {
  import opened Wrappers
  import opened Proto

  /** A binding request: the path of nested message fields, the leaf field name and the raw value. */
  datatype Variable = Variable(fieldPath: seq<string>, fieldName: string, value: string)

  datatype BindError =
    /** ConfigurationException: a path segment (inPath) or the leaf field name is not a field of the schema reached. */
    | ConfigurationError(name: string, inPath: bool)
    /** The runtime cannot descend into a path segment that names a scalar or a repeated field. */
    | UnsupportedPath(segment: string)
    /** The runtime cannot set a message-typed leaf from a variable. */
    | UnsupportedLeaf(name: string)
    /** `valueAs` could not coerce the raw value to the field's type. */
    | ValidationError(reason: string)
    /** `valueAs` produced a value of another type than the field's; `setField` refuses it. */
    | TypeMismatch(name: string)

  /**
   * `Variable.valueAs(field)`: coerces a raw value to a scalar for a field, or
   * fails. Its rules (base-10 numbers, case-insensitive booleans, enum names,
   * byte encoding) live in a class that is not part of this model.
   */
  type Coercion = (string, Field) -> Result<Scalar, string>

  /** One step of the walk: resolve `segment` on the schema of `m` and get or create its nested message. */
  function Descend(m: Message, segment: string): Result<Message, BindError>
  {
    if segment !in m.schema.fields then Err(ConfigurationError(segment, true))
    else
      var f := m.schema.fields[segment];
      if f.repeated || !f.kind.MessageKind? then Err(UnsupportedPath(segment))
      else Ok(Child(m, segment, f.kind.nested))
  }

  /** The message the walk reaches after following `path` from `m`, or the first error on the way. */
  function Reach(m: Message, path: seq<string>): Result<Message, BindError>
    decreases |path|
  {
    if path == [] then Ok(m)
    else
      match Descend(m, path[0])
      case Err(e) => Err(e)
      case Ok(c) => Reach(c, path[1..])
  }

  /** Resolve the leaf on the reached message, coerce the value, then set or append it. */
  function SetLeaf(m: Message, v: Variable, coerce: Coercion): Result<Message, BindError>
  {
    if v.fieldName !in m.schema.fields then Err(ConfigurationError(v.fieldName, false))
    else
      var f := m.schema.fields[v.fieldName];
      if f.kind.MessageKind? then Err(UnsupportedLeaf(v.fieldName))
      else
        match coerce(v.value, f)
        case Err(reason) => Err(ValidationError(reason))
        case Ok(x) =>
          if !HasType(x, f.kind.scalar) then Err(TypeMismatch(v.fieldName))
          else if f.repeated then Ok(m.(fields := m.fields[v.fieldName := Repeated(Items(m, v.fieldName) + [x])]))
          else Ok(m.(fields := m.fields[v.fieldName := Single(x)]))
  }

  /** Bind `v` into `m` along `path` (a suffix of `v.fieldPath`), rebuilding the parents on the way back. */
  function BindAlong(m: Message, path: seq<string>, v: Variable, coerce: Coercion): Result<Message, BindError>
    decreases |path|
  {
    if path == [] then SetLeaf(m, v, coerce)
    else
      match Descend(m, path[0])
      case Err(e) => Err(e)
      case Ok(c) =>
        match BindAlong(c, path[1..], v, coerce)
        case Err(e) => Err(e)
        case Ok(c') => Ok(Graft(m, path[0], c'))
  }

  /** The body `setVar` stores after binding `v` into `body`, or the exception it throws. */
  function Bind(body: Message, v: Variable, coerce: Coercion): Result<Message, BindError>
  {
    BindAlong(body, v.fieldPath, v, coerce)
  }

  /** The descriptor of the leaf field of `v` on the message the walk reaches, if the walk gets there. */
  function LeafField(m: Message, v: Variable): Result<Field, BindError>
  {
    match Reach(m, v.fieldPath)
    case Err(e) => Err(e)
    case Ok(c) =>
      if v.fieldName in c.schema.fields then Ok(c.schema.fields[v.fieldName])
      else Err(ConfigurationError(v.fieldName, false))
  }
}

module BindingLemmas {
  import opened Wrappers
  import opened Proto
  import opened Binding

  /** The name the walk resolves after `i` segments: the next segment, or the leaf field name at the end. */
  function NextName(v: Variable, i: nat): string
  {
    if i < |v.fieldPath| then v.fieldPath[i] else v.fieldName
  }

  /** Following `p + q` is following `p` and then `q` from where `p` ends. */
  lemma {:induction false} ReachAppend(m: Message, p: seq<string>, q: seq<string>)
    ensures Reach(m, p + q) == match Reach(m, p) case Err(e) => Err(e) case Ok(c) => Reach(c, q)
    decreases |p|
  {
    if p != [] {
      assert (p + q)[0] == p[0];
      assert (p + q)[1..] == p[1..] + q;
      if Descend(m, p[0]).Ok? {
        ReachAppend(Descend(m, p[0]).value, p[1..], q);
      }
    } else {
      assert p + q == q;
    }
  }

  /**
   * Binding along a path fails exactly where the walk fails or where the leaf
   * step fails, with the same error; when it succeeds, walking the same path
   * through the new message reaches the updated leaf message, and the
   * message keeps its schema.
   */
  lemma {:induction false} BindAlongReachesLeaf(m: Message, p: seq<string>, v: Variable, coerce: Coercion)
    ensures Reach(m, p).Err? ==> BindAlong(m, p, v, coerce) == Err(Reach(m, p).error)
    ensures Reach(m, p).Ok? && SetLeaf(Reach(m, p).value, v, coerce).Err? ==>
              BindAlong(m, p, v, coerce) == Err(SetLeaf(Reach(m, p).value, v, coerce).error)
    ensures Reach(m, p).Ok? && SetLeaf(Reach(m, p).value, v, coerce).Ok? ==>
              && BindAlong(m, p, v, coerce).Ok?
              && BindAlong(m, p, v, coerce).value.schema == m.schema
              && Reach(BindAlong(m, p, v, coerce).value, p) == SetLeaf(Reach(m, p).value, v, coerce)
    decreases |p|
  {
    if p != [] {
      match Descend(m, p[0])
      case Err(e) =>
      case Ok(c) =>
        BindAlongReachesLeaf(c, p[1..], v, coerce);
        var r := BindAlong(c, p[1..], v, coerce);
        if r.Ok? {
          var m' := Graft(m, p[0], r.value);
          assert Descend(m', p[0]) == Ok(r.value);
        }
    }
  }

  /** `Bind` is the walk along the whole path followed by the leaf step, as `setVar` performs them. */
  lemma BindReachesLeaf(m: Message, v: Variable, coerce: Coercion)
    ensures Reach(m, v.fieldPath).Err? ==> Bind(m, v, coerce) == Err(Reach(m, v.fieldPath).error)
    ensures Reach(m, v.fieldPath).Ok? && SetLeaf(Reach(m, v.fieldPath).value, v, coerce).Err? ==>
              Bind(m, v, coerce) == Err(SetLeaf(Reach(m, v.fieldPath).value, v, coerce).error)
    ensures Reach(m, v.fieldPath).Ok? && SetLeaf(Reach(m, v.fieldPath).value, v, coerce).Ok? ==>
              && Bind(m, v, coerce).Ok?
              && Bind(m, v, coerce).value.schema == m.schema
              && Reach(Bind(m, v, coerce).value, v.fieldPath) == SetLeaf(Reach(m, v.fieldPath).value, v, coerce)
  {
    BindAlongReachesLeaf(m, v.fieldPath, v, coerce);
  }

  /** A path segment that is not a field of the schema reached so far makes the binding fail with a ConfigurationError naming it. */
  lemma MissingSegmentFails(m: Message, v: Variable, coerce: Coercion, k: nat)
    requires k < |v.fieldPath|
    requires Reach(m, v.fieldPath[..k]).Ok?
    requires v.fieldPath[k] !in Reach(m, v.fieldPath[..k]).value.schema.fields
    ensures Bind(m, v, coerce) == Err(ConfigurationError(v.fieldPath[k], true))
  {
    var path := v.fieldPath;
    assert path == path[..k] + path[k..];
    ReachAppend(m, path[..k], path[k..]);
    assert path[k..][0] == path[k];
    BindReachesLeaf(m, v, coerce);
  }

  /** A leaf field name that is not a field of the final schema makes the binding fail with a ConfigurationError naming it. */
  lemma MissingLeafFails(m: Message, v: Variable, coerce: Coercion)
    requires Reach(m, v.fieldPath).Ok?
    requires v.fieldName !in Reach(m, v.fieldPath).value.schema.fields
    ensures Bind(m, v, coerce) == Err(ConfigurationError(v.fieldName, false))
  {
    BindReachesLeaf(m, v, coerce);
  }

  /** Binding succeeds exactly when the walk reaches the leaf message and the leaf step succeeds there. */
  lemma BindSucceedsIff(m: Message, v: Variable, coerce: Coercion)
    ensures Bind(m, v, coerce).Ok? <==>
              Reach(m, v.fieldPath).Ok? && SetLeaf(Reach(m, v.fieldPath).value, v, coerce).Ok?
  {
    BindReachesLeaf(m, v, coerce);
  }

  /**
   * A singular leaf holds the coerced value after binding, whatever it held
   * before; every other field of the leaf message is unchanged.
   */
  lemma BindSingularLeaf(m: Message, v: Variable, coerce: Coercion)
    requires Bind(m, v, coerce).Ok?
    requires LeafField(m, v).Ok? && !LeafField(m, v).value.repeated
    ensures Reach(Bind(m, v, coerce).value, v.fieldPath).Ok?
    ensures coerce(v.value, LeafField(m, v).value).Ok?
    ensures
      var c, c' := Reach(m, v.fieldPath).value, Reach(Bind(m, v, coerce).value, v.fieldPath).value;
      && AgreeExcept(c, c', v.fieldName)
      && v.fieldName in c'.fields
      && c'.fields[v.fieldName] == Single(coerce(v.value, LeafField(m, v).value).value)
  {
    BindReachesLeaf(m, v, coerce);
  }

  /**
   * A repeated leaf gains exactly one element, the coerced value, at its end;
   * its earlier elements keep their order and every other field of the leaf
   * message is unchanged.
   */
  lemma BindRepeatedLeaf(m: Message, v: Variable, coerce: Coercion)
    requires Bind(m, v, coerce).Ok?
    requires LeafField(m, v).Ok? && LeafField(m, v).value.repeated
    ensures Reach(Bind(m, v, coerce).value, v.fieldPath).Ok?
    ensures coerce(v.value, LeafField(m, v).value).Ok?
    ensures
      var c, c' := Reach(m, v.fieldPath).value, Reach(Bind(m, v, coerce).value, v.fieldPath).value;
      && AgreeExcept(c, c', v.fieldName)
      && v.fieldName in c'.fields
      && c'.fields[v.fieldName] == Repeated(Items(c, v.fieldName) + [coerce(v.value, LeafField(m, v).value).value])
  {
    BindReachesLeaf(m, v, coerce);
  }

  lemma {:induction false} LastWriteWinsAlong(m: Message, p: seq<string>, v1: Variable, v2: Variable, coerce: Coercion)
    requires v1.fieldName == v2.fieldName
    requires BindAlong(m, p, v1, coerce).Ok?
    requires Reach(m, p).Ok?
    requires v1.fieldName in Reach(m, p).value.schema.fields
    requires !Reach(m, p).value.schema.fields[v1.fieldName].repeated
    ensures BindAlong(BindAlong(m, p, v1, coerce).value, p, v2, coerce) == BindAlong(m, p, v2, coerce)
    decreases |p|
  {
    var m1 := BindAlong(m, p, v1, coerce).value;
    if p == [] {
      var name := v1.fieldName;
      var x1 := coerce(v1.value, m.schema.fields[name]).value;
      assert m1 == m.(fields := m.fields[name := Single(x1)]);
      var r := SetLeaf(m, v2, coerce);
      if r.Ok? {
        assert r.value.fields == m1.fields[name := r.value.fields[name]];
      }
    } else {
      var c := Descend(m, p[0]).value;
      var c1 := BindAlong(c, p[1..], v1, coerce).value;
      assert m1 == Graft(m, p[0], c1);
      assert Descend(m1, p[0]) == Ok(c1);
      LastWriteWinsAlong(c, p[1..], v1, v2, coerce);
      var r := BindAlong(c, p[1..], v2, coerce);
      if r.Ok? {
        assert Graft(m1, p[0], r.value) == Graft(m, p[0], r.value);
      }
    }
  }

  /**
   * Last write wins on a singular leaf: binding a second variable for the same
   * leaf gives what binding it alone would have given, error or message.
   */
  lemma LastWriteWins(m: Message, v1: Variable, v2: Variable, coerce: Coercion)
    requires v1.fieldPath == v2.fieldPath && v1.fieldName == v2.fieldName
    requires Bind(m, v1, coerce).Ok?
    requires LeafField(m, v1).Ok? && !LeafField(m, v1).value.repeated
    ensures Bind(Bind(m, v1, coerce).value, v2, coerce) == Bind(m, v2, coerce)
  {
    LastWriteWinsAlong(m, v1.fieldPath, v1, v2, coerce);
  }

  /** Binding the same singular variable twice leaves the message as the first binding made it. */
  lemma SingularRebindIdempotent(m: Message, v: Variable, coerce: Coercion)
    requires Bind(m, v, coerce).Ok?
    requires LeafField(m, v).Ok? && !LeafField(m, v).value.repeated
    ensures Bind(Bind(m, v, coerce).value, v, coerce) == Bind(m, v, coerce)
  {
    LastWriteWins(m, v, v, coerce);
  }

  /** Binding a repeated leaf twice appends both values, in call order, after the elements it held. */
  lemma RepeatedAccumulates(m: Message, v1: Variable, v2: Variable, coerce: Coercion)
    requires v1.fieldPath == v2.fieldPath && v1.fieldName == v2.fieldName
    requires LeafField(m, v1).Ok? && LeafField(m, v1).value.repeated
    requires Bind(m, v1, coerce).Ok?
    requires Bind(Bind(m, v1, coerce).value, v2, coerce).Ok?
    ensures coerce(v1.value, LeafField(m, v1).value).Ok? && coerce(v2.value, LeafField(m, v1).value).Ok?
    ensures Reach(Bind(Bind(m, v1, coerce).value, v2, coerce).value, v1.fieldPath).Ok?
    ensures
      var c, c2 := Reach(m, v1.fieldPath).value, Reach(Bind(Bind(m, v1, coerce).value, v2, coerce).value, v1.fieldPath).value;
      var f := LeafField(m, v1).value;
      && v1.fieldName in c2.fields
      && c2.fields[v1.fieldName] ==
           Repeated(Items(c, v1.fieldName) + [coerce(v1.value, f).value, coerce(v2.value, f).value])
  {
    var m1 := Bind(m, v1, coerce).value;
    BindRepeatedLeaf(m, v1, coerce);
    assert LeafField(m1, v2) == LeafField(m, v1);
    BindRepeatedLeaf(m1, v2, coerce);
    var c := Reach(m, v1.fieldPath).value;
    var f := LeafField(m, v1).value;
    var x1, x2 := coerce(v1.value, f).value, coerce(v2.value, f).value;
    assert Items(Reach(m1, v1.fieldPath).value, v1.fieldName) == Items(c, v1.fieldName) + [x1];
    assert Items(c, v1.fieldName) + [x1] + [x2] == Items(c, v1.fieldName) + [x1, x2];
  }

  lemma {:induction false} BindAlongFrame(m: Message, p: seq<string>, v: Variable, coerce: Coercion, j: nat)
    requires BindAlong(m, p, v, coerce).Ok?
    requires j < |p|
    ensures Reach(m, p[..j]).Ok? && Reach(BindAlong(m, p, v, coerce).value, p[..j]).Ok?
    ensures AgreeExcept(Reach(m, p[..j]).value, Reach(BindAlong(m, p, v, coerce).value, p[..j]).value, p[j])
    decreases |p|
  {
    var c := Descend(m, p[0]).value;
    var c' := BindAlong(c, p[1..], v, coerce).value;
    var m' := Graft(m, p[0], c');
    BindAlongReachesLeaf(c, p[1..], v, coerce);
    if j == 0 {
      assert p[..j] == [];
    } else {
      BindAlongFrame(c, p[1..], v, coerce, j - 1);
      assert p[..j][0] == p[0];
      assert p[..j][1..] == p[1..][..j - 1];
      assert Descend(m', p[0]) == Ok(c');
    }
  }

  /**
   * Nothing else changes: at every level of the path, the message reached in
   * the new body has the same schema as before and the same fields except the
   * one the path continues into.
   */
  lemma BindFrame(m: Message, v: Variable, coerce: Coercion, j: nat)
    requires Bind(m, v, coerce).Ok?
    requires j < |v.fieldPath|
    ensures Reach(m, v.fieldPath[..j]).Ok? && Reach(Bind(m, v, coerce).value, v.fieldPath[..j]).Ok?
    ensures AgreeExcept(Reach(m, v.fieldPath[..j]).value, Reach(Bind(m, v, coerce).value, v.fieldPath[..j]).value, v.fieldPath[j])
  {
    BindAlongFrame(m, v.fieldPath, v, coerce, j);
  }

  /**
   * The first nested message on the path is reused with its contents kept when
   * it was set, and created as the default instance when it was not; only the
   * field the walk continues into differs.
   */
  lemma IntermediateKeptOrCreated(m: Message, v: Variable, coerce: Coercion)
    requires Bind(m, v, coerce).Ok?
    requires |v.fieldPath| > 0
    ensures v.fieldPath[0] in m.schema.fields && m.schema.fields[v.fieldPath[0]].kind.MessageKind?
    ensures
      var seg, m' := v.fieldPath[0], Bind(m, v, coerce).value;
      && seg in m'.fields && m'.fields[seg].Nested?
      && (seg in m.fields && m.fields[seg].Nested? ==> AgreeExcept(m.fields[seg].msg, m'.fields[seg].msg, NextName(v, 1)))
      && (!(seg in m.fields && m.fields[seg].Nested?) ==>
            AgreeExcept(Default(m.schema.fields[seg].kind.nested), m'.fields[seg].msg, NextName(v, 1)))
  {
    var seg := v.fieldPath[0];
    var c := Descend(m, seg).value;
    var c' := BindAlong(c, v.fieldPath[1..], v, coerce).value;
    BindAlongReachesLeaf(c, v.fieldPath[1..], v, coerce);
    if |v.fieldPath| > 1 {
      BindAlongFrame(c, v.fieldPath[1..], v, coerce, 0);
      assert v.fieldPath[1..][..0] == [];
    } else {
      assert v.fieldPath[1..] == [];
    }
  }

  lemma {:induction false} BindAlongConforms(m: Message, p: seq<string>, v: Variable, coerce: Coercion)
    requires Conforms(m)
    requires BindAlong(m, p, v, coerce).Ok?
    ensures Conforms(BindAlong(m, p, v, coerce).value)
    decreases |p|
  {
    var m' := BindAlong(m, p, v, coerce).value;
    if p == [] {
      var name := v.fieldName;
      var f := m.schema.fields[name];
      if name in m.fields {
        assert ValueConforms(m.fields[name], f);
      }
      assert ValueConforms(m'.fields[name], f);
    } else {
      var f := m.schema.fields[p[0]];
      var c := Descend(m, p[0]).value;
      ChildConforms(m, p[0], f.kind.nested);
      BindAlongConforms(c, p[1..], v, coerce);
      BindAlongReachesLeaf(c, p[1..], v, coerce);
      assert ValueConforms(m'.fields[p[0]], f);
    }
  }

  /** Binding keeps a body that conforms to its schema conforming: every value it stores has the declared kind and type. */
  lemma BindPreservesConformance(m: Message, v: Variable, coerce: Coercion)
    requires Conforms(m)
    requires Bind(m, v, coerce).Ok?
    ensures Conforms(Bind(m, v, coerce).value)
  {
    BindAlongConforms(m, v.fieldPath, v, coerce);
  }
}
