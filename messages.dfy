/**
  The encoders of google.protobuf.Any, Value and Empty, and the three
  encoders that only delegate (the wrappers, Struct and ListValue), of
  well_known_types.go:63-173.

  What these encoders call but this model does not have -- the type resolver,
  the partial unmarshaler, the generic message encoder and the encoders of
  singular, map and list fields -- is gathered in `Env`, as functions whose
  results are opaque. The resolver returns the full name a type URL names,
  or nothing; the unmarshaler returns whether the bytes decode; the others
  return the tokens they write and their error.
*/
module Messages {
  import opened Encoding
  import opened WellKnown

  /** Bytes of the protobuf wire format, never looked into. */
  type Bytes = seq<bv8>

  /** google.protobuf.Any. Both fields have implicit presence: a field is set
      exactly when it is not empty. */
  datatype AnyMessage = AnyMessage(typeUrl: string, value: Bytes)

  /** The arms of the `kind` oneof of google.protobuf.Value. */
  datatype Kind =
    | NullKind
    | NumberKind(number: Number)
    | StringKind(text: string)
    | BoolKind(flag: bool)
    | StructKind(fields: Bytes)
    | ListKind(values: Bytes)

  /** google.protobuf.Value: the arm of `kind` that is set, if any. */
  datatype ValueMessage = ValueMessage(kind: Option<Kind>)

  /** A singular field's value, as the singular-field encoder receives it. */
  datatype Scalar =
    | NullScalar
    | BoolScalar(flag: bool)
    | IntScalar(integer: int)
    | NumberScalar(number: Number)
    | StringScalar(text: string)
    | BytesScalar(bytes: Bytes)
    | MessageScalar(typeName: string, wire: Bytes)

  /** The nine wrappers (BoolValue ... BytesValue): one field, `value`. */
  datatype WrapperMessage = WrapperMessage(value: Scalar)

  /** google.protobuf.Struct: the map field `fields`. */
  datatype StructMessage = StructMessage(fields: map<string, Bytes>)

  /** google.protobuf.ListValue: the repeated field `values`. */
  datatype ListValueMessage = ListValueMessage(values: seq<Bytes>)

  /** The collaborators of the encoders. */
  datatype Env = Env(
    // Resolver.FindMessageByURL: the full name of the message type a URL names, or a failure.
    resolve: string -> Option<string>,
    // Partial unmarshaling of the given bytes as a message of the named type: whether it succeeds.
    unmarshals: (string, Bytes) -> bool,
    // A well-known codec applied to the message decoded from the bytes.
    embedded: (Codec, Bytes) -> Written,
    // The generic message encoder, writing the decoded message with its `@type` URL.
    message: (string, Bytes, string) -> Written,
    // The singular-field encoder, given the field's name and its value.
    singular: (string, Scalar) -> Written,
    // The map-field encoder.
    mapField: map<string, Bytes> -> Written,
    // The list-field encoder.
    listField: seq<Bytes> -> Written)

  // ---------------------------------------------------------------------------
  // Any

  /** The members an Any holding a well-known type opens with. */
  function AnyHead(url: string): (head: seq<Token>)
    ensures |head| == 3 && forall t :: t in head ==> t.Name? || t.Str?
  {
    [Name("@type"), Str(url), Name("value")]
  }

  /** What the Any encoder writes and returns. */
  function EncodeAny(env: Env, m: AnyMessage): (w: Written)
    ensures !Delegates(env, m) ==> w.tokens == [] || w == Written([ObjectStart, ObjectEnd], None)
  {
    if m.typeUrl == "" then
      (if m.value == [] then Written([ObjectStart, ObjectEnd], None) else Refuse(AnyTypeUrlNotSet))
    else match env.resolve(m.typeUrl)
      case None => Refuse(AnyUnresolvable(m.typeUrl))
      case Some(name) => EncodeResolved(env, m.typeUrl, name, m.value)
  }

  /** What the Any encoder writes once the type URL has resolved to `name`. */
  function EncodeResolved(env: Env, url: string, name: string, value: Bytes): (w: Written)
    ensures !env.unmarshals(name, value) ==> w == Refuse(AnyUnmarshalFailed(url))
    ensures env.unmarshals(name, value) && WellKnownTypeMarshaler(name).Some? ==>
      |w.tokens| >= 5 && w.tokens[0] == ObjectStart && w.tokens[1..4] == AnyHead(url) &&
      w.tokens[|w.tokens| - 1] == ObjectEnd
  {
    if !env.unmarshals(name, value) then Refuse(AnyUnmarshalFailed(url))
    else match WellKnownTypeMarshaler(name)
      case Some(codec) =>
        var inner := env.embedded(codec, value);
        Written([ObjectStart] + AnyHead(url) + inner.tokens + [ObjectEnd], inner.err)
      case None => env.message(name, value, url)
  }

  /** The Any encoder step by step; the object of a well-known embedded type
      is closed even when its codec fails, as the deferred EndObject does. */
  method MarshalAny(e: Encoder, env: Env, m: AnyMessage) returns (err: Option<Error>)
    modifies e
    ensures e.tokens == old(e.tokens) + EncodeAny(env, m).tokens
    ensures err == EncodeAny(env, m).err
  {
    if m.typeUrl == "" {
      if m.value == [] {
        e.StartObject();
        e.EndObject();
        return None;
      } else {
        assert e.tokens == old(e.tokens) + [];
        return Some(AnyTypeUrlNotSet);
      }
    }
    var url := m.typeUrl;
    var found := env.resolve(url);
    if found.None? {
      assert e.tokens == old(e.tokens) + [];
      return Some(AnyUnresolvable(url));
    }
    err := MarshalResolved(e, env, url, found.value, m.value);
  }

  /** The Any encoder once the type URL has resolved: the embedded message is
      unmarshaled and written by its well-known codec inside an object that
      names its type, or by the generic message encoder. */
  method MarshalResolved(e: Encoder, env: Env, url: string, name: string, value: Bytes) returns (err: Option<Error>)
    modifies e
    ensures e.tokens == old(e.tokens) + EncodeResolved(env, url, name, value).tokens
    ensures err == EncodeResolved(env, url, name, value).err
  {
    if !env.unmarshals(name, value) {
      assert e.tokens == old(e.tokens) + [];
      return Some(AnyUnmarshalFailed(url));
    }
    var marshal := WellKnownTypeMarshaler(name);
    if marshal.Some? {
      var inner := env.embedded(marshal.value, value);
      ResolvedWellKnown(env, url, name, value);
      err := WriteEmbedded(e, url, inner);
    } else {
      ResolvedGeneric(env, url, name, value);
      err := e.Emit(env.message(name, value, url));
    }
  }

  /** The branch of a well-known embedded type, unfolded. */
  lemma ResolvedWellKnown(env: Env, url: string, name: string, value: Bytes)
    requires env.unmarshals(name, value) && WellKnownTypeMarshaler(name).Some?
    ensures var inner := env.embedded(WellKnownTypeMarshaler(name).value, value);
      EncodeResolved(env, url, name, value) == Written([ObjectStart] + AnyHead(url) + inner.tokens + [ObjectEnd], inner.err)
  {
  }

  /** The branch of any other type, unfolded. */
  lemma ResolvedGeneric(env: Env, url: string, name: string, value: Bytes)
    requires env.unmarshals(name, value) && WellKnownTypeMarshaler(name).None?
    ensures EncodeResolved(env, url, name, value) == env.message(name, value, url)
  {
  }

  /** The object written for a well-known embedded type: `@type`, then
      `value` holding what the codec writes, then the closing brace. */
  method WriteEmbedded(e: Encoder, url: string, inner: Written) returns (err: Option<Error>)
    modifies e
    ensures e.tokens == old(e.tokens) + [ObjectStart] + AnyHead(url) + inner.tokens + [ObjectEnd]
    ensures err == inner.err
  {
    e.StartObject();
    e.WriteName("@type");
    e.WriteString(url);
    e.WriteName("value");
    assert e.tokens == old(e.tokens) + [ObjectStart] + AnyHead(url);
    err := e.Emit(inner);
    e.EndObject();
  }

  /** An Any with neither field set is written as `{}`; one with a value but
      no type URL is refused and nothing is written. */
  lemma AnyUnset(env: Env, value: Bytes)
    ensures value == [] ==> EncodeAny(env, AnyMessage("", value)) == Written([ObjectStart, ObjectEnd], None)
    ensures value != [] ==> EncodeAny(env, AnyMessage("", value)) == Written([], Some(AnyTypeUrlNotSet))
  {
  }

  /** With a type URL set, the encoder writes nothing and names the URL in its
      error when the URL does not resolve or the value does not unmarshal. */
  lemma AnyUnresolved(env: Env, m: AnyMessage)
    requires m.typeUrl != ""
    ensures env.resolve(m.typeUrl).None? ==>
      EncodeAny(env, m) == Written([], Some(AnyUnresolvable(m.typeUrl)))
    ensures env.resolve(m.typeUrl).Some? && !env.unmarshals(env.resolve(m.typeUrl).value, m.value) ==>
      EncodeAny(env, m) == Written([], Some(AnyUnmarshalFailed(m.typeUrl)))
  {
  }

  /** A resolvable, well-known embedded type is written as an object whose
      members are `@type`, holding the URL, and then `value`, holding the
      codec's own encoding; the codec's error is passed on. */
  lemma AnyWellKnown(env: Env, m: AnyMessage, name: string)
    requires m.typeUrl != "" && env.resolve(m.typeUrl) == Some(name)
    requires env.unmarshals(name, m.value) && WellKnownTypeMarshaler(name).Some?
    ensures var r := EncodeAny(env, m);
      var inner := env.embedded(WellKnownTypeMarshaler(name).value, m.value);
      |r.tokens| == |inner.tokens| + 5 &&
      r.tokens[..4] == [ObjectStart, Name("@type"), Str(m.typeUrl), Name("value")] &&
      r.tokens[4..|r.tokens| - 1] == inner.tokens &&
      r.tokens[|r.tokens| - 1] == ObjectEnd &&
      r.err == inner.err
  {
  }

  /** Any other resolvable type is written by the generic message encoder,
      which receives the URL for its `@type` member. */
  lemma AnyGeneric(env: Env, m: AnyMessage, name: string)
    requires m.typeUrl != "" && env.resolve(m.typeUrl) == Some(name)
    requires env.unmarshals(name, m.value) && WellKnownTypeMarshaler(name).None?
    ensures EncodeAny(env, m) == env.message(name, m.value, m.typeUrl)
  {
  }

  /** When the encoder does not hand the message on, it either writes `{}`
      and succeeds -- exactly for the Any with neither field set -- or
      refuses and writes nothing. */
  lemma AnyOwnOutcome(env: Env, m: AnyMessage)
    requires !Delegates(env, m)
    ensures EncodeAny(env, m).err.None? <==> m == AnyMessage("", [])
    ensures EncodeAny(env, m).err.Some? ==> EncodeAny(env, m).tokens == []
  {
  }

  /** Whether the encoder hands the embedded message to another encoder. */
  predicate Delegates(env: Env, m: AnyMessage)
  {
    m.typeUrl != "" && env.resolve(m.typeUrl).Some? && env.unmarshals(env.resolve(m.typeUrl).value, m.value)
  }

  /** Every encoder of the environment writes balanced JSON. */
  ghost predicate BalancedEnv(env: Env)
  {
    (forall c, b :: Balanced(env.embedded(c, b).tokens)) &&
    (forall n, b, u :: Balanced(env.message(n, b, u).tokens)) &&
    (forall f, s :: Balanced(env.singular(f, s).tokens)) &&
    (forall fs :: Balanced(env.mapField(fs).tokens)) &&
    (forall vs :: Balanced(env.listField(vs).tokens))
  }

  /** Every object the Any encoder opens it closes. */
  lemma {:induction false} AnyBalanced(env: Env, m: AnyMessage)
    requires BalancedEnv(env)
    ensures Balanced(EncodeAny(env, m).tokens)
  {
    if m.typeUrl == "" {
      EmptyObjectBalanced();
    } else if Delegates(env, m) {
      var name := env.resolve(m.typeUrl).value;
      if WellKnownTypeMarshaler(name).Some? {
        var inner := env.embedded(WellKnownTypeMarshaler(name).value, m.value);
        WrapBalanced(AnyHead(m.typeUrl), inner.tokens);
      }
    } else {
      NothingBalanced();
    }
  }

  lemma NothingBalanced()
    ensures Balanced([])
  {
    var empty: seq<Token> := [];
    assert forall n :: 0 <= n <= |empty| ==> empty[..n] == empty;
  }

  lemma EmptyObjectBalanced()
    ensures Balanced([ObjectStart, ObjectEnd])
  {
    NothingBalanced();
    WrapBalanced([], []);
    assert [ObjectStart] + [] + [] + [ObjectEnd] == [ObjectStart, ObjectEnd];
  }

  // ---------------------------------------------------------------------------
  // Empty

  /** Empty is written as `{}`, whatever the message. */
  function EncodeEmpty(): (w: Written)
    ensures w.err.None? && |w.tokens| == 2 && Balanced(w.tokens)
  {
    EmptyObjectBalanced();
    Written([ObjectStart, ObjectEnd], None)
  }

  method MarshalEmpty(e: Encoder) returns (err: Option<Error>)
    modifies e
    ensures e.tokens == old(e.tokens) + EncodeEmpty().tokens
    ensures err == EncodeEmpty().err
  {
    e.StartObject();
    e.EndObject();
    return None;
  }

  /** Empty is written as the empty Any is: an empty, balanced object. */
  lemma EmptyLikeEmptyAny(env: Env)
    ensures EncodeEmpty() == EncodeAny(env, AnyMessage("", []))
    ensures EncodeEmpty().err.None? && Balanced(EncodeEmpty().tokens)
  {
    EmptyObjectBalanced();
  }

  // ---------------------------------------------------------------------------
  // Value

  /** The name of the field that a `kind` arm is. */
  function ArmName(k: Kind): string
  {
    match k
    case NullKind => "null_value"
    case NumberKind(_) => "number_value"
    case StringKind(_) => "string_value"
    case BoolKind(_) => "bool_value"
    case StructKind(_) => "struct_value"
    case ListKind(_) => "list_value"
  }

  /** The value of the field that a `kind` arm is. */
  function ArmValue(k: Kind): Scalar
  {
    match k
    case NullKind => NullScalar
    case NumberKind(x) => NumberScalar(x)
    case StringKind(s) => StringScalar(s)
    case BoolKind(b) => BoolScalar(b)
    case StructKind(w) => MessageScalar(GoogleProtobufPackage + ".Struct", w)
    case ListKind(w) => MessageScalar(GoogleProtobufPackage + ".ListValue", w)
  }

  /** Why a Value is refused, if it is. */
  function ValueError(v: ValueMessage): Option<Error>
  {
    match v.kind
    case None => Some(ValueKindNotSet)
    case Some(NumberKind(x)) => if IsInvalidNumber(x) then Some(ValueInvalidNumber(x)) else None
    case Some(_) => None
  }

  /** What the Value encoder writes and returns. */
  function EncodeKnownValue(env: Env, v: ValueMessage): (w: Written)
    ensures w.err.None? ==> v.kind.Some? && !(v.kind.value.NumberKind? && IsInvalidNumber(v.kind.value.number))
    ensures v.kind.None? ==> w.tokens == []
  {
    if v.kind.None? then Refuse(ValueKindNotSet)
    else if v.kind.value.NumberKind? && IsInvalidNumber(v.kind.value.number) then
      Refuse(ValueInvalidNumber(v.kind.value.number))
    else env.singular(ArmName(v.kind.value), ArmValue(v.kind.value))
  }

  method MarshalKnownValue(e: Encoder, env: Env, v: ValueMessage) returns (err: Option<Error>)
    modifies e
    ensures e.tokens == old(e.tokens) + EncodeKnownValue(env, v).tokens
    ensures err == EncodeKnownValue(env, v).err
  {
    if v.kind.None? {
      assert e.tokens == old(e.tokens) + [];
      return Some(ValueKindNotSet);
    }
    var k := v.kind.value;
    if k.NumberKind? {
      if IsInvalidNumber(k.number) {
        assert e.tokens == old(e.tokens) + [];
        return Some(ValueInvalidNumber(k.number));
      }
    }
    err := e.Emit(env.singular(ArmName(k), ArmValue(k)));
  }

  /** A Value is refused, with nothing written, exactly when no arm is set or
      the number arm holds NaN or an infinity; otherwise the arm that is set
      is written by the singular-field encoder. */
  lemma KnownValueOutcome(env: Env, v: ValueMessage)
    ensures ValueError(v).Some? <==> v.kind.None? || (v.kind.value.NumberKind? && IsInvalidNumber(v.kind.value.number))
    ensures ValueError(v).Some? ==> EncodeKnownValue(env, v) == Written([], ValueError(v))
    ensures ValueError(v).None? ==> EncodeKnownValue(env, v) == env.singular(ArmName(v.kind.value), ArmValue(v.kind.value))
  {
  }

  /** The field handed to the singular-field encoder is the arm that is set:
      different arms have different field names, and within an arm different
      contents have different values. */
  lemma ArmsDistinct(k1: Kind, k2: Kind)
    ensures ArmName(k1) == ArmName(k2) <==>
      (k1.NullKind? == k2.NullKind? && k1.NumberKind? == k2.NumberKind? && k1.StringKind? == k2.StringKind? &&
       k1.BoolKind? == k2.BoolKind? && k1.StructKind? == k2.StructKind?)
    ensures ArmName(k1) == ArmName(k2) && ArmValue(k1) == ArmValue(k2) ==> k1 == k2
  {
  }

  lemma {:induction false} KnownValueBalanced(env: Env, v: ValueMessage)
    requires BalancedEnv(env)
    ensures Balanced(EncodeKnownValue(env, v).tokens)
  {
    if ValueError(v).Some? {
      NothingBalanced();
    }
  }

  // ---------------------------------------------------------------------------
  // Wrappers, Struct and ListValue: delegation

  /** A wrapper is written as its `value` field alone. */
  method MarshalWrapperType(e: Encoder, env: Env, w: WrapperMessage) returns (err: Option<Error>)
    modifies e
    ensures e.tokens == old(e.tokens) + env.singular("value", w.value).tokens
    ensures err == env.singular("value", w.value).err
  {
    err := e.Emit(env.singular("value", w.value));
  }

  /** A Struct is written as its `fields` map. */
  method MarshalStruct(e: Encoder, env: Env, s: StructMessage) returns (err: Option<Error>)
    modifies e
    ensures e.tokens == old(e.tokens) + env.mapField(s.fields).tokens
    ensures err == env.mapField(s.fields).err
  {
    err := e.Emit(env.mapField(s.fields));
  }

  /** A ListValue is written as its `values` list. */
  method MarshalListValue(e: Encoder, env: Env, l: ListValueMessage) returns (err: Option<Error>)
    modifies e
    ensures e.tokens == old(e.tokens) + env.listField(l.values).tokens
    ensures err == env.listField(l.values).err
  {
    err := e.Emit(env.listField(l.values));
  }
}
