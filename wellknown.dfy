/**
  The dispatcher of well_known_types.go:23-55: a message type's full name
  selects the specialised encoder ("codec") of a google.protobuf well-known
  type, or none.

  protoreflect.FullName's Parent and Name come from the protobuf library,
  whose code is not modelled here; they are modelled as the split of the name at its last '.'.
*/
module WellKnown {
  import opened Encoding

  /** The specialised encoders, one per shape of JSON the well-known types use. */
  datatype Codec =
    | AnyCodec
    | TimestampCodec
    | DurationCodec
    | WrapperCodec
    | StructCodec
    | ListValueCodec
    | ValueCodec
    | FieldMaskCodec
    | EmptyCodec

  const GoogleProtobufPackage := "google.protobuf"

  /** The short names of the nine wrapper messages. */
  const WrapperNames: set<string> := {
    "BoolValue", "Int32Value", "Int64Value", "UInt32Value", "UInt64Value",
    "FloatValue", "DoubleValue", "StringValue", "BytesValue"
  }

  /** Index of the last '.' in `s`, or -1. */
  function LastDot(s: string): (i: int)
    ensures -1 <= i < |s|
    ensures i >= 0 ==> s[i] == '.'
    ensures forall k :: i < k < |s| ==> s[k] != '.'
  {
    if s == [] then -1
    else if s[|s| - 1] == '.' then |s| - 1
    else LastDot(s[..|s| - 1])
  }

  /** FullName.Parent: the name up to its last '.', or "" when it has none. */
  function Parent(name: string): string
  {
    var i := LastDot(name);
    if i >= 0 then name[..i] else ""
  }

  /** FullName.Name: the name after its last '.', or all of it. */
  function ShortName(name: string): string
  {
    var i := LastDot(name);
    if i >= 0 then name[i + 1..] else name
  }

  /** The switch on the short name inside the google.protobuf package. */
  function CodecOfShortName(n: string): (c: Option<Codec>)
    ensures c == Some(WrapperCodec) ==> n in WrapperNames
    ensures c.Some? && c.value != WrapperCodec ==> n == CodecTypeName(c.value)
  {
    if n == "Any" then Some(AnyCodec)
    else if n == "Timestamp" then Some(TimestampCodec)
    else if n == "Duration" then Some(DurationCodec)
    else if n in WrapperNames then Some(WrapperCodec)
    else if n == "Struct" then Some(StructCodec)
    else if n == "ListValue" then Some(ListValueCodec)
    else if n == "Value" then Some(ValueCodec)
    else if n == "FieldMask" then Some(FieldMaskCodec)
    else if n == "Empty" then Some(EmptyCodec)
    else None
  }

  /** The codec for a message type, or none when the type has the generic
      message encoding. */
  function WellKnownTypeMarshaler(name: string): (c: Option<Codec>)
    ensures c.Some? ==> name == GoogleProtobufPackage + "." + ShortName(name)
    ensures c == Some(WrapperCodec) ==> ShortName(name) in WrapperNames
    ensures c.Some? && c.value != WrapperCodec ==> ShortName(name) == CodecTypeName(c.value)
  {
    if Parent(name) == GoogleProtobufPackage then
      InPackage(name);
      CodecOfShortName(ShortName(name))
    else None
  }

  /** A name whose parent is google.protobuf is that package, '.', and its short name. */
  lemma InPackage(name: string)
    requires Parent(name) == GoogleProtobufPackage
    ensures name == GoogleProtobufPackage + "." + ShortName(name)
  {
    assert LastDot(name) >= 0;
    JoinParent(name);
  }

  /** The short name of the one message type a codec other than the
      wrappers' serves. */
  function CodecTypeName(c: Codec): string
    requires c != WrapperCodec
  {
    match c
    case AnyCodec => "Any"
    case TimestampCodec => "Timestamp"
    case DurationCodec => "Duration"
    case StructCodec => "Struct"
    case ListValueCodec => "ListValue"
    case ValueCodec => "Value"
    case FieldMaskCodec => "FieldMask"
    case EmptyCodec => "Empty"
  }

  /** The short names that have a codec. */
  const KnownShortNames: set<string> :=
    {"Any", "Timestamp", "Duration", "Struct", "ListValue", "Value", "FieldMask", "Empty"} + WrapperNames

  // ---------------------------------------------------------------------------

  /** Splitting at the last '.' undoes joining with a dot-free short name. */
  lemma {:induction false} SplitQualified(p: string, n: string)
    requires '.' !in n
    ensures LastDot(p + "." + n) == |p|
    ensures Parent(p + "." + n) == p && ShortName(p + "." + n) == n
  {
    var s := p + "." + n;
    var i := LastDot(s);
    assert s[|p|] == '.';
    assert forall k :: |p| < k < |s| ==> s[k] == n[k - |p| - 1];
    assert s[..|p|] == p && s[|p| + 1..] == n;
  }

  /** A name is the package and its short name joined by '.', when the parent is that package. */
  lemma {:induction false} JoinParent(name: string)
    requires LastDot(name) >= 0
    ensures name == Parent(name) + "." + ShortName(name)
    ensures '.' !in ShortName(name)
  {
    var i := LastDot(name);
    assert name == name[..i] + [name[i]] + name[i + 1..];
    forall k | 0 <= k < |ShortName(name)|
      ensures ShortName(name)[k] != '.'
    {
      assert ShortName(name)[k] == name[i + 1 + k];
    }
  }

  lemma ShortNamesKnown(n: string)
    ensures CodecOfShortName(n).Some? <==> n in KnownShortNames
    ensures n in KnownShortNames ==> '.' !in n
  {
  }

  /** The dispatcher returns a codec exactly for the names google.protobuf.N
      where N is one of the seventeen short names the switch lists. */
  lemma WellKnownNames(name: string)
    ensures WellKnownTypeMarshaler(name).Some? <==>
      (exists n :: n in KnownShortNames && name == GoogleProtobufPackage + "." + n)
  {
    if WellKnownTypeMarshaler(name).Some? {
      JoinParent(name);
      ShortNamesKnown(ShortName(name));
    }
    if exists n :: n in KnownShortNames && name == GoogleProtobufPackage + "." + n {
      var n :| n in KnownShortNames && name == GoogleProtobufPackage + "." + n;
      ShortNamesKnown(n);
      SplitQualified(GoogleProtobufPackage, n);
    }
  }

  /** The codec of each google.protobuf type is the one its short name selects. */
  lemma WellKnownByShortName(n: string)
    requires '.' !in n
    ensures WellKnownTypeMarshaler(GoogleProtobufPackage + "." + n) == CodecOfShortName(n)
  {
    SplitQualified(GoogleProtobufPackage, n);
  }

  /** Concrete names of google.protobuf types and their codecs. */
  lemma DurationIsWellKnown()
    ensures WellKnownTypeMarshaler("google.protobuf.Duration") == Some(DurationCodec)
  {
    assert "google.protobuf.Duration" == GoogleProtobufPackage + "." + "Duration";
    WellKnownByShortName("Duration");
  }

  lemma TimestampIsWellKnown()
    ensures WellKnownTypeMarshaler("google.protobuf.Timestamp") == Some(TimestampCodec)
  {
    assert "google.protobuf.Timestamp" == GoogleProtobufPackage + "." + "Timestamp";
    WellKnownByShortName("Timestamp");
  }

  /** Concrete names without a codec: an unlisted google.protobuf type, a
      well-known short name in another package or nested inside a
      well-known type, and a name without a package. */
  lemma NotWellKnownExamples()
    ensures WellKnownTypeMarshaler("google.protobuf.Api") == None
    ensures WellKnownTypeMarshaler("my.pkg.Duration") == None
    ensures WellKnownTypeMarshaler("google.protobuf.Duration.Inner") == None
    ensures WellKnownTypeMarshaler("Duration") == None
  {
    assert WellKnownTypeMarshaler("google.protobuf.Api") == None by {
      assert "google.protobuf.Api" == GoogleProtobufPackage + "." + "Api";
      WellKnownByShortName("Api");
    }
    assert WellKnownTypeMarshaler("my.pkg.Duration") == None by {
      assert "my.pkg.Duration" == "my.pkg" + "." + "Duration";
      SplitQualified("my.pkg", "Duration");
    }
    assert WellKnownTypeMarshaler("google.protobuf.Duration.Inner") == None by {
      assert "google.protobuf.Duration.Inner" == "google.protobuf.Duration" + "." + "Inner";
      SplitQualified("google.protobuf.Duration", "Inner");
    }
    assert LastDot("Duration") == -1 by {
      LastDotAbsent("Duration");
    }
  }

  lemma {:induction false} LastDotAbsent(s: string)
    requires '.' !in s
    ensures LastDot(s) == -1
  {
    if s != [] {
      assert s[|s| - 1] in s;
      assert forall c :: c in s[..|s| - 1] ==> c in s;
      LastDotAbsent(s[..|s| - 1]);
    }
  }

  /** All nine wrapper messages, and only they, share the wrapper codec. */
  lemma WrappersShareCodec(n: string)
    requires '.' !in n
    ensures WellKnownTypeMarshaler(GoogleProtobufPackage + "." + n) == Some(WrapperCodec) <==> n in WrapperNames
  {
    SplitQualified(GoogleProtobufPackage, n);
  }
}
