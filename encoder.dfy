/**
  What the well-known-type encoders produce: a stream of JSON tokens written
  to a shared encoder, and an error when they refuse their input.

  The token writer (`StartObject`, `EndObject`, `WriteName`, `WriteString`)
  belongs to the package's JSON encoder, whose code is not modelled here;
  `Encoder` models it as a class whose
  methods append one abstract token each. Each encoder of the model is also
  given as a function returning a `Written` value -- the tokens it appends and
  the error it returns -- and its method is proved to append exactly those.
*/
module Encoding {

  datatype Option<T> = None | Some(value: T)

  /** A number of a google.protobuf.Value: finite, NaN, or an infinity. */
  datatype Number = Finite(value: real) | NaN | Infinity(negative: bool)

  predicate IsInvalidNumber(x: Number)
  {
    x.NaN? || x.Infinity?
  }

  /** The errors the encoders of this model return. */
  datatype Error =
    | AnyTypeUrlNotSet
    | AnyUnresolvable(url: string)
    | AnyUnmarshalFailed(url: string)
    | ValueKindNotSet
    | ValueInvalidNumber(number: Number)
    | DurationSecondsOutOfRange(seconds: int)
    | DurationNanosOutOfRange(nanos: int)
    | DurationSignMismatch
    | TimestampSecondsOutOfRange(seconds: int)
    | TimestampNanosOutOfRange(nanos: int)
    | FieldMaskInvalidPath(path: string)
    | FieldMaskIrreversiblePath(path: string)
    | Delegated(reason: string)  // returned by an encoder outside this model

  /** JSON tokens. `Other` stands for the tokens only the encoders outside
      this model write (numbers, literals, array brackets). */
  datatype Token = ObjectStart | ObjectEnd | Name(name: string) | Str(text: string) | Other(text: string)

  /** The tokens an encoder appends, and the error it returns. */
  datatype Written = Written(tokens: seq<Token>, err: Option<Error>)

  /** A single JSON string and no error. */
  function Text(s: string): Written
  {
    Written([Str(s)], None)
  }

  /** An error, with nothing written. */
  function Refuse(err: Error): Written
  {
    Written([], Some(err))
  }

  /** The output of an encoder that either refuses before writing anything
      or writes exactly one JSON string. */
  predicate StringOrNothing(w: Written)
  {
    if w.err.Some? then w.tokens == [] else |w.tokens| == 1 && w.tokens[0].Str?
  }

  /** How deeply nested in objects the stream is after `ts`. */
  function Depth(ts: seq<Token>): int
  {
    if ts == [] then 0
    else Depth(ts[..|ts| - 1]) + (match ts[|ts| - 1]
      case ObjectStart => 1
      case ObjectEnd => -1
      case _ => 0)
  }

  /** Every object that is opened is closed, and none is closed before it is opened. */
  ghost predicate Balanced(ts: seq<Token>)
  {
    Depth(ts) == 0 && forall n :: 0 <= n <= |ts| ==> Depth(ts[..n]) >= 0
  }

  /** The JSON token writer, shared by all encoders. */
  class Encoder {
    var tokens: seq<Token>

    constructor ()
      ensures tokens == []
    {
      tokens := [];
    }

    method StartObject()
      modifies this
      ensures tokens == old(tokens) + [ObjectStart]
    {
      tokens := tokens + [ObjectStart];
    }

    method EndObject()
      modifies this
      ensures tokens == old(tokens) + [ObjectEnd]
    {
      tokens := tokens + [ObjectEnd];
    }

    method WriteName(name: string)
      modifies this
      ensures tokens == old(tokens) + [Name(name)]
    {
      tokens := tokens + [Name(name)];
    }

    /** Writes a JSON string. The writer refuses only invalid UTF-8, which a
        `string` of Unicode scalar values cannot hold, so it never fails here. */
    method WriteString(s: string)
      modifies this
      ensures tokens == old(tokens) + [Str(s)]
    {
      tokens := tokens + [Str(s)];
    }

    /** Appends what an encoder outside this model writes, and passes on its error. */
    method Emit(w: Written) returns (err: Option<Error>)
      modifies this
      ensures tokens == old(tokens) + w.tokens && err == w.err
    {
      tokens := tokens + w.tokens;
      err := w.err;
    }
  }

  // ---------------------------------------------------------------------------
  // Nesting

  lemma {:induction false} DepthConcat(a: seq<Token>, b: seq<Token>)
    ensures Depth(a + b) == Depth(a) + Depth(b)
    decreases |b|
  {
    if b == [] {
      assert a + b == a;
    } else {
      assert (a + b)[..|a + b| - 1] == a + b[..|b| - 1];
      DepthConcat(a, b[..|b| - 1]);
    }
  }

  /** An object whose members are balanced token streams is balanced. */
  lemma {:induction false} WrapBalanced(head: seq<Token>, body: seq<Token>)
    requires forall t :: t in head ==> t.Name? || t.Str?
    requires Balanced(body)
    ensures Balanced([ObjectStart] + head + body + [ObjectEnd])
  {
    var ts := [ObjectStart] + head + body + [ObjectEnd];
    assert Depth([ObjectStart]) == 1 && Depth([ObjectEnd]) == -1 by {
      assert [ObjectStart][..0] == [] && [ObjectEnd][..0] == [];
    }
    FlatDepth(head);
    DepthConcat([ObjectStart], head);
    DepthConcat([ObjectStart] + head, body);
    DepthConcat([ObjectStart] + head + body, [ObjectEnd]);
    forall n | 0 <= n <= |ts|
      ensures Depth(ts[..n]) >= 0
    {
      if n == 0 {
      } else if n <= 1 + |head| {
        assert ts[..n] == [ObjectStart] + head[..n - 1];
        assert forall t :: t in head[..n - 1] ==> t in head;
        FlatDepth(head[..n - 1]);
        DepthConcat([ObjectStart], head[..n - 1]);
      } else if n <= 1 + |head| + |body| {
        assert ts[..n] == ([ObjectStart] + head) + body[..n - 1 - |head|];
        DepthConcat([ObjectStart] + head, body[..n - 1 - |head|]);
      } else {
        assert ts[..n] == ts;
      }
    }
  }

  lemma {:induction false} FlatDepth(ts: seq<Token>)
    requires forall t :: t in ts ==> t.Name? || t.Str?
    ensures Depth(ts) == 0
  {
    if ts != [] {
      assert ts[|ts| - 1] in ts;
      FlatDepth(ts[..|ts| - 1]);
    }
  }
}
