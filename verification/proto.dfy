/**
 * The slice of the protobuf runtime that the variable binder relies on:
 * message descriptors (schemas), message values, and what it means for a
 * message to conform to its descriptor.
 *
 * A message carries its own descriptor, as `getDescriptorForType()` gives it.
 * A field that is not set is absent from `fields`; an unset field reads as its default.
 */
module Proto {

  /** Scalar field types. An enum type lists the names of its constants. */
  datatype ScalarType = Numeric | Boolean | Text | ByteString | Enumeration(constants: set<string>)

  /** A field holds scalars of some type, or nested messages of some schema. */
  datatype Kind = ScalarKind(scalar: ScalarType) | MessageKind(nested: Schema)

  /** A field descriptor: repeated-ness and type kind (the name is its key in the schema). */
  datatype Field = Field(repeated: bool, kind: Kind)

  /** A message descriptor: the full name of the type and its fields by name. */
  datatype Schema = Schema(fullName: string, fields: map<string, Field>)

  /** Scalar values. Floating point numbers are not modelled. */
  datatype Scalar =
    | Number(n: int)
    | Flag(b: bool)
    | Str(s: string)
    | Bytes(bytes: seq<bv8>)
    | EnumConstant(name: string)

  /** What a set field holds: one scalar, a list of scalars, one nested message or a list of them. */
  datatype Value =
    | Single(scalar: Scalar)
    | Repeated(items: seq<Scalar>)
    | Nested(msg: Message)
    | NestedList(msgs: seq<Message>)

  datatype Message = Message(schema: Schema, fields: map<string, Value>)

  /** The default instance of a message type: no field set (`getDefaultInstance()`, an empty `build()`). */
  function Default(s: Schema): Message
  {
    Message(s, map[])
  }

  predicate HasType(x: Scalar, t: ScalarType)
  {
    match t
    case Numeric => x.Number?
    case Boolean => x.Flag?
    case Text => x.Str?
    case ByteString => x.Bytes?
    case Enumeration(constants) => x.EnumConstant? && x.name in constants
  }

  /** Every set field is declared by the message's schema and holds a value of the declared kind, recursively. */
  predicate Conforms(m: Message)
    decreases m, 1
  {
    forall name | name in m.fields ::
      name in m.schema.fields && ValueConforms(m.fields[name], m.schema.fields[name])
  }

  predicate ValueConforms(v: Value, f: Field)
    decreases v, 0
  {
    match f.kind
    case ScalarKind(t) =>
      if f.repeated then v.Repeated? && forall x | x in v.items :: HasType(x, t)
      else v.Single? && HasType(v.scalar, t)
    case MessageKind(s) =>
      if f.repeated then v.NestedList? && forall n | n in v.msgs :: n.schema == s && Conforms(n)
      else v.Nested? && v.msg.schema == s && Conforms(v.msg)
  }

  /**
   * The nested message a singular message field of `m` holds, or the default
   * instance of `nested` when the field is unset: the get-or-create of
   * `Message.Builder.getFieldBuilder`.
   */
  function Child(m: Message, name: string, nested: Schema): Message
  {
    if name in m.fields && m.fields[name].Nested? then m.fields[name].msg else Default(nested)
  }

  /** `m` with the singular message field `name` set to `child`. */
  function Graft(m: Message, name: string, child: Message): Message
  {
    m.(fields := m.fields[name := Nested(child)])
  }

  /** The elements a repeated scalar field currently holds; an unset field holds none. */
  function Items(m: Message, name: string): seq<Scalar>
  {
    if name in m.fields && m.fields[name].Repeated? then m.fields[name].items else []
  }

  /** `a` and `b` have the same schema and agree on every field except `name`. */
  ghost predicate AgreeExcept(a: Message, b: Message, name: string)
  {
    && a.schema == b.schema
    && (forall k | k != name :: k in a.fields <==> k in b.fields)
    && (forall k | k != name && k in a.fields && k in b.fields :: a.fields[k] == b.fields[k])
  }

  /** The default instance conforms to its schema. */
  lemma DefaultConforms(s: Schema)
    ensures Conforms(Default(s))
  {
  }

  /** A child obtained by get-or-create has the nested schema and conforms whenever its parent does. */
  lemma ChildConforms(m: Message, name: string, nested: Schema)
    requires Conforms(m)
    requires name in m.schema.fields && m.schema.fields[name] == Field(false, MessageKind(nested))
    ensures Child(m, name, nested).schema == nested
    ensures Conforms(Child(m, name, nested))
  {
    if name in m.fields {
      assert ValueConforms(m.fields[name], m.schema.fields[name]);
    } else {
      DefaultConforms(nested);
    }
  }
}
