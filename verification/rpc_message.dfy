/**
 * `RpcMessage`: a request or response protobuf body together with its header
 * or trailer metadata. The body is replaced by `SetVar`; the metadata never
 * changes after construction.
 */
module Rpc {
  import opened Wrappers
  import opened Proto
  import opened Binding
  import BindingLemmas

  /** Header or trailer metadata: a key multimap whose contents this model leaves opaque. */
  datatype Metadata = Metadata(entries: seq<(string, string)>)

  /** One level of the walk: the message the walk was at and the segment it descended into. */
  datatype Frame = Frame(parent: Message, segment: string)

  /**
   * Rebuild the body around `leaf`: graft it into the innermost frame's
   * parent, that one into the next, and so on outwards (`start.build()`
   * finalising the nested builders bottom-up).
   */
  function Plug(frames: seq<Frame>, leaf: Message): Message
    decreases |frames|
  {
    if frames == [] then leaf
    else
      var f := frames[|frames| - 1];
      Plug(frames[..|frames| - 1], Graft(f.parent, f.segment, leaf))
  }

  /** The outcome of binding below the frames, lifted to the whole body. */
  function Lift(frames: seq<Frame>, r: Result<Message, BindError>): Result<Message, BindError>
  {
    match r
    case Err(e) => Err(e)
    case Ok(leaf) => Ok(Plug(frames, leaf))
  }

  /** Descending one more level adds one frame, which the rebuild grafts first. */
  lemma PlugExtend(frames: seq<Frame>, f: Frame, leaf: Message)
    ensures Plug(frames + [f], leaf) == Plug(frames, Graft(f.parent, f.segment, leaf))
  {
    assert (frames + [f])[..|frames|] == frames;
  }

  class RpcMessage {
    var body: Message
    const metadata: Metadata

    constructor (body: Message, metadata: Metadata)
      ensures this.body == body && this.metadata == metadata
    {
      this.body := body;
      this.metadata := metadata;
    }

    /** The body stored by the constructor or by the last successful `SetVar`. */
    function GetBody(): (b: Message)
      reads this
      ensures b == body
    {
      body
    }

    function GetMetadata(): (md: Metadata)
      ensures md == metadata
    {
      metadata
    }

    /**
     * Applies `v` to the body. On success the body becomes `Bind(old body)`;
     * on any failure the method reports the error and the body is the one it
     * had before (the walk only ever works on copies). The metadata is a
     * constant field, so nothing can change it.
     */
    method SetVar(v: Variable, coerce: Coercion) returns (outcome: Outcome<BindError>)
      modifies this
      ensures match Bind(old(body), v, coerce)
              case Ok(b) => outcome == Pass && body == b
              case Err(e) => outcome == Fail(e) && body == old(body)
      ensures Conforms(old(body)) ==> Conforms(body)
    {
      var path := v.fieldPath;
      var frames: seq<Frame> := [];
      var current := body;
      var i := 0;
      while i < |path|
        invariant 0 <= i <= |path|
        invariant body == old(body)
        invariant Bind(body, v, coerce) == Lift(frames, BindAlong(current, path[i..], v, coerce))
      {
        var segment := path[i];
        assert path[i..][0] == segment && path[i..][1..] == path[i + 1..];
        if segment !in current.schema.fields {
          return Fail(ConfigurationError(segment, true));
        }
        var field := current.schema.fields[segment];
        if field.repeated || !field.kind.MessageKind? {
          return Fail(UnsupportedPath(segment));
        }
        ghost var below := BindAlong(Child(current, segment, field.kind.nested), path[i + 1..], v, coerce);
        if below.Ok? {
          PlugExtend(frames, Frame(current, segment), below.value);
        }
        frames := frames + [Frame(current, segment)];
        current := Child(current, segment, field.kind.nested);
        i := i + 1;
      }
      assert path[i..] == [];

      var name := v.fieldName;
      if name !in current.schema.fields {
        return Fail(ConfigurationError(name, false));
      }
      var field := current.schema.fields[name];
      if field.kind.MessageKind? {
        return Fail(UnsupportedLeaf(name));
      }
      var coerced := coerce(v.value, field);
      if coerced.Err? {
        return Fail(ValidationError(coerced.error));
      }
      var x := coerced.value;
      if !HasType(x, field.kind.scalar) {
        return Fail(TypeMismatch(name));
      }
      if field.repeated {
        current := current.(fields := current.fields[name := Repeated(Items(current, name) + [x])]);
      } else {
        current := current.(fields := current.fields[name := Single(x)]);
      }
      body := Plug(frames, current);
      outcome := Pass;
      if Conforms(old(body)) {
        BindingLemmas.BindPreservesConformance(old(body), v, coerce);
      }
    }
  }
}
