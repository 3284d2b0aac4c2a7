# Well-known-type JSON encoders and identifier case conversions

This project models two parts of a Go package that writes protobuf messages as
JSON (the proto3 JSON mapping), and proves properties of the model in Dafny.

- **Identifier case conversions** (`strings.go`): `JSONCamelCase`,
  `JSONSnakeCase` and `GoCamelCase`. The model keeps them as loops over the
  input (`Strs.JSONCamelCase`, `Strs.JSONSnakeCase`, `Strs.GoCamelCase`). Each
  loop is proved to produce a specification function (`Camel`, `Snake`,
  `GoCamel`). That function gives, for every input position, the zero, one or
  two characters the converter emits for it. The length, character and
  round-trip laws are lemmas about these functions.
- **Encoders of the `google.protobuf` well-known types**
  (`well_known_types.go`):
  - the dispatcher from a type's full name to its codec;
  - the Duration, Timestamp and FieldMask encoders;
  - the decisions of the Any, Value and Empty encoders;
  - the Wrapper, Struct and ListValue encoders, which only delegate.

  Output is a sequence of abstract JSON tokens that an `Encoding.Encoder`
  object appends to. Each encoder is modelled twice:
  - a function (`EncodeDuration`, `EncodeTimestamp`, `EncodeFieldMask`,
    `EncodeAny`, `EncodeKnownValue`, `EncodeEmpty`) gives the tokens it
    writes and the error it returns;
  - a method (`MarshalDuration`, …) works step by step, as the source does.
    It is proved to append exactly those tokens and return that error.

Modules, one per file:

| file | module | contents |
|---|---|---|
| strs.dfy | `Strs` | ASCII classes, the three converters, their laws, protobuf full names |
| numerals.dfy | `Numerals` | `%d`, `%0<w>d`, `strings.TrimSuffix`, the trimmed fraction of a second |
| civil.dfy | `Civil` | proleptic Gregorian calendar: day counts and the day-number → date conversion |
| encoder.dfy | `Encoding` | tokens, errors, the `Encoder` writer, balanced nesting |
| wellknown.dfy | `WellKnown` | the dispatcher `WellKnownTypeMarshaler` |
| duration.dfy | `Durations` | the Duration encoder |
| timestamp.dfy | `Timestamps` | the Timestamp encoder and the seconds → UTC date-time conversion |
| fieldmask.dfy | `FieldMasks` | the FieldMask encoder, and that its output can be read back |
| messages.dfy | `Messages` | Any, Value, Empty, the wrappers, Struct and ListValue |

Collaborators that the encoders call but whose code is not modelled are
parameters (`Messages.Env`):
- the type resolver maps a type URL to the full name of a message type, or to
  nothing when it fails (`string -> Option<string>`);
- the partial unmarshaler says whether the embedded bytes decode as a message
  of the named type (`(string, Bytes) -> bool`);
- the well-known codec applied to an embedded message, the generic message
  encoder, and the singular-, map- and list-field encoders each return the
  tokens they write and the error they return (a `Written` value).

`protoreflect.FullName.IsValid` comes from the protobuf library, whose code is
not modelled here. `Strs.IsValidFullName` defines it as one or more ASCII identifiers
(`[A-Za-z_][A-Za-z0-9_]*`) separated by single dots. `FullName.Parent` and
`FullName.Name` are the split of the name at its last `.`.

`JSONCamelCase` drops every `_` (strings.go:57-63). That includes a trailing
`_` and a `_` before a character that is not a lower-case letter; a `_` only
decides whether the next character is upper-cased. `Strs.Camel` drops every
`_` in the same way, so `"foo_"` becomes `"foo"`, and the FieldMask encoder
refuses `"foo_"` as irreversible.

## Model

| member | source | states |
|---|---|---|
| Strs.IsASCIILower | strings.go:83-85 | the ASCII range test of `isASCIILower`: `'a'` to `'z'` |
| Strs.IsASCIIUpper | strings.go:86-88 | the ASCII range test of `isASCIIUpper`: `'A'` to `'Z'` |
| Strs.IsASCIIDigit | strings.go:89-91 | the ASCII range test of `isASCIIDigit`: `'0'` to `'9'` |
| Strs.ASCIIClasses | strings.go:83-91 | the three range tests accept exactly the 26 lower-case letters, the 26 upper-case letters and the ten digits, and no character passes two of them |
| Strs.ToUpper | strings.go:36-38 | a lower-case ASCII letter becomes the upper-case letter 32 code points below it |
| Strs.ToLower | strings.go:74-77 | an upper-case ASCII letter becomes the lower-case letter 32 code points above it, and `ToUpper` undoes this |
| Strs.JSONCamelCase | strings.go:52-66 | the loop with the `wasUnderscore` flag returns `Camel(s)`: every `_` dropped, a lower-case letter right after a `_` upper-cased, every other character copied in order |
| Strs.JSONSnakeCase | strings.go:70-81 | the loop returns `Snake(s)`: each upper-case letter becomes `_` plus its lower-case form, every other character is copied in order |
| Strs.GoCamelCase | strings.go:12-48 | the loop, with its inner loop over a run of lower-case letters, returns `GoCamel(s)`. That is the concatenation of the per-position rules of strings.go:21-44: `.` before a lower-case letter dropped, other `.` → `_`, leading `_` or `_` after `.` → `X`, `_` before a lower-case letter dropped, a word's first lower-case letter upper-cased, the rest copied |
| Strs.CamelShape | strings.go:52-66 | the camelCase form contains no `_`, and its length is the input's length minus its number of `_` |
| Strs.CamelPrefixShape | strings.go:55-64 | the same two laws hold after every iteration of the loop |
| Strs.SnakeShape | strings.go:70-81 | the snake_case form contains no upper-case letter, and its length is the input's length plus its number of upper-case letters |
| Strs.SnakeConcat | strings.go:72-79 | the snake_case form of a concatenation is the concatenation of the snake_case forms |
| Strs.SnakeCamelRoundTrip | strings.go:52-81 | `Snake(Camel(s)) == s` if and only if `s` has no upper-case letter and every `_` in it is immediately followed by a lower-case letter |
| Strs.StrayUnderscoreIrreversible | strings.go:52-81 | `"foo__bar"` and `"foo_"` do not survive camelCase then snake_case |
| Strs.SnakeNameReversible | strings.go:52-81 | `"foo_bar"` survives camelCase then snake_case |
| Strs.CamelSnakeRoundTrip | strings.go:52-81 | `Camel(Snake(c)) == c` for every `c` without `_` |
| Strs.ConvertAcrossDot | strings.go:52-81 | both conversions of `a + "." + b` are the conversions of `a` and `b` joined by the unchanged `.` |
| Strs.ConvertDottedPath | strings.go:52-81 | converting a dotted path equals converting each segment and rejoining them with `.` |
| Strs.GoCamelShape | strings.go:21-24 | the Go form contains no `.` and is never longer than the input |
| Strs.GoCamelIsExportedIdent | strings.go:12-48 | the Go form of a valid protobuf full name is an exported Go identifier: non-empty, upper-case first letter, only letters, digits and `_` |
| Numerals.Digits | well_known_types.go:216 | `%d` of a non-negative integer: a non-empty digit string that denotes it, with no leading zero |
| Numerals.Pad | well_known_types.go:216 | `%0<w>d`: a digit string that denotes the number, exactly `w` long when the number has at most `w` digits |
| Numerals.TrimSuffix | well_known_types.go:217-219 | `strings.TrimSuffix`: when `s` ends in the suffix, the result followed by the suffix is `s`; otherwise the result is `s` |
| Numerals.Fraction | well_known_types.go:210-219 | the fractional part of a duration or timestamp: empty exactly when the nanoseconds are zero, otherwise `.` and 3, 6 or 9 digits whose last group of three is not `000` |
| Numerals.FractionDenotes | well_known_types.go:210-219 | reading the fraction back as a decimal fraction of a second gives the nanoseconds |
| Numerals.FractionInjective | well_known_types.go:210-219 | different nanosecond counts have different fractions |
| Numerals.DigitsInjective | well_known_types.go:216 | different integers have different `%d` renderings |
| Numerals.TrimGroups | well_known_types.go:217-219 | the three trims of `p + "." + x`, with `x` nine digits, keep `x` up to its last group of three that is not `000`, and drop the `.` when every group is `000` |
| Numerals.FractionGroups | well_known_types.go:210-219 | the fraction of `nanos` is what the trims keep of `%09d` of `nanos` |
| Numerals.TrimmedFraction | well_known_types.go:216-219 | the trims turn `p + "." + %09d(nanos)` into `p + Fraction(nanos)` |
| Civil.DaysBeforeYearClosedForm | well_known_types.go:259 | counting days year by year gives 365 days per year plus one per leap year (every 4th, not every 100th, every 400th) |
| Civil.YearOfOrdinal | well_known_types.go:259 | the 400/100/4/1-year cycle computation finds a year and a day of that year that together make the given day number |
| Civil.MonthOf | well_known_types.go:259 | the month whose days contain the given day of the year |
| Civil.DateOfOrdinal | well_known_types.go:259 | the computed date is valid and its day number is the input |
| Civil.DateOfOrdinalInverse | well_known_types.go:259 | every valid date is found again from its day number |
| Civil.OrdinalInjective | well_known_types.go:259 | different valid dates have different day numbers |
| Civil.UnixEpochOrdinal | well_known_types.go:237-240 | 1970-01-01 is day 719162 after 0001-01-01, and 10000-01-01 is day 3652059 |
| Civil.FourDigitYears | well_known_types.go:233-235 | every day before 10000-01-01 falls in a year of at most four digits |
| WellKnown.WellKnownTypeMarshaler | well_known_types.go:23-55 | a codec is returned only for a name `google.protobuf.<n>`. The codec determines `n`, except that the nine wrappers share one codec |
| WellKnown.CodecOfShortName | well_known_types.go:25-52 | the switch's wrapper case covers only the wrapper names, and every other case matches exactly one short name |
| WellKnown.WellKnownNames | well_known_types.go:23-55 | a codec is returned exactly for the names `google.protobuf.<n>` with `n` one of the listed short names |
| WellKnown.WellKnownByShortName | well_known_types.go:24-52 | inside `google.protobuf`, the codec is the switch on the short name |
| WellKnown.ShortNamesKnown | well_known_types.go:25-52 | the switch has a case exactly for the listed short names, none of which contains `.` |
| WellKnown.WrappersShareCodec | well_known_types.go:32-41 | a `google.protobuf` name maps to the wrapper codec exactly when its short name is one of the nine wrappers |
| WellKnown.SplitQualified | well_known_types.go:24-25 | the parent of `p.n` is `p` and its name is `n` when `n` has no `.` |
| WellKnown.DurationIsWellKnown | well_known_types.go:30-31 | `google.protobuf.Duration` gets the Duration codec |
| WellKnown.TimestampIsWellKnown | well_known_types.go:28-29 | `google.protobuf.Timestamp` gets the Timestamp codec |
| WellKnown.NotWellKnownExamples | well_known_types.go:24-54 | an unlisted short name, another package, a nested name and an unqualified name get no codec |
| Durations.EncodeDuration | well_known_types.go:192-222 | a refused duration writes nothing. An accepted one writes one string that ends in `s` and starts with `-` exactly when seconds or nanos are negative |
| Durations.MarshalDuration | well_known_types.go:192-222 | the encoder appends exactly the tokens of `EncodeDuration` and returns its error |
| Durations.DurationErrors | well_known_types.go:201-209 | a duration is refused exactly when seconds are outside ±315,576,000,000, nanos outside ±999,999,999, or their signs differ. The sign error implies both values are in range, and nothing is written on refusal |
| Durations.DurationTextOfTotal | well_known_types.go:210-221 | the text is `-` exactly when the total is negative, then the whole seconds of its magnitude, then the fraction of its remainder, then `s` |
| Durations.TotalParts | well_known_types.go:212-215 | for an accepted duration, the total is negative exactly when seconds or nanos are, and its magnitude splits back into their magnitudes |
| Durations.DurationTextInjective | well_known_types.go:210-221 | different accepted durations have different texts |
| Durations.DurationZero | well_known_types.go:210-221 | (0, 0) is written as `"0s"` |
| Durations.WholeSeconds | well_known_types.go:210-221 | a whole number of seconds is written with no fractional part |
| Durations.Milliseconds | well_known_types.go:210-221 | a whole number of milliseconds is written as the seconds, `.`, the milliseconds padded to three digits and `s`, with one `-` when negative |
| Durations.DurationExamples | well_known_types.go:210-221 | `(1, 500000000)` is written as `"1.500s"` and `(-1, -500000000)` as `"-1.500s"` |
| Durations.DurationRefusals | well_known_types.go:201-209 | one example of each of the three errors |
| Timestamps.EncodeTimestamp | well_known_types.go:242-266 | a refused timestamp writes nothing. An accepted one writes one string of 20, 24, 27 or 30 characters ending in `Z` |
| Timestamps.MarshalTimestamp | well_known_types.go:242-266 | the encoder appends exactly the tokens of `EncodeTimestamp` and returns its error |
| Timestamps.TimestampErrors | well_known_types.go:251-256 | a timestamp is refused exactly when seconds are outside [-62135596800, 253402300799] or nanos outside [0, 999999999]. Seconds are checked first, nothing is written on refusal, and one string is written otherwise |
| Timestamps.UtcTime | well_known_types.go:259 | `time.Unix(secs, nanos).UTC()`: a valid date and time in a year up to 9999 whose Unix seconds and nanoseconds are the inputs |
| Timestamps.FormatLayout | well_known_types.go:260 | `t.Format("2006-01-02T15:04:05.000000000")`: 29 characters whose first 19 read back as the date and time, then `.`, then nine digits that read back as the nanoseconds |
| Timestamps.UtcTimeInverse | well_known_types.go:259 | every date and time in years 1 to 9999 is in range, and converting its Unix seconds gives it back |
| Timestamps.UnixSecondsInjective | well_known_types.go:259 | different date-times have different Unix seconds |
| Timestamps.FirstTimestamp | well_known_types.go:233-239 | the smallest accepted seconds value is 0001-01-01T00:00:00 |
| Timestamps.LastTimestamp | well_known_types.go:233-238 | the largest accepted seconds value is 9999-12-31T23:59:59 |
| Timestamps.EpochTime | well_known_types.go:259 | 0 seconds is 1970-01-01T00:00:00 |
| Timestamps.MidnightTime | well_known_types.go:257-264 | 1693267200 seconds is 2023-08-29T00:00:00 (the date is the one in marshal_jsonpb_test.go:23-33; that test marshals a plain Go struct, so it only supplies the date and does not exercise this codec) |
| Timestamps.MidnightText | well_known_types.go:257-264 | the timestamp 1693267200 s, 0 ns is written as exactly `"2023-08-29T00:00:00Z"` (the date is the one in marshal_jsonpb_test.go:23-33; that test marshals a plain Go struct, so it only supplies the date and does not exercise this codec) |
| Timestamps.DateTimeFields | well_known_types.go:260 | the layout puts the four-digit year, month, day, hour, minute and second, zero-padded, between `-`, `-`, `T`, `:` and `:` at fixed positions |
| Timestamps.DateTimeReadBack | well_known_types.go:260 | reading the six fields back from the text gives the date and time |
| Timestamps.TimestampTextMeaning | well_known_types.go:257-264 | the text is `yyyy-mm-ddThh:mm:ss`, then the fraction of the nanoseconds, then `Z`, and its fields read back as the UTC date-time of the seconds |
| Timestamps.TimestampTextInjective | well_known_types.go:257-264 | different accepted timestamps have different texts |
| FieldMasks.EncodeFieldMask | well_known_types.go:273-293 | a refused mask writes nothing. An accepted one writes one string with no `_` |
| FieldMasks.MarshalFieldMask | well_known_types.go:273-293 | the loop appends exactly the tokens of `EncodeFieldMask` and returns its error: on a refused path it stops with nothing written, otherwise it writes the camelCase paths joined with `,` |
| FieldMasks.CheckPath | well_known_types.go:279-287 | one path's check: its error is "invalid path" when the path is not a valid name and "irreversible" when snake_case of its camelCase form differs from it. When the path is accepted, the converted path is its camelCase form |
| FieldMasks.FieldMaskAdvance | well_known_types.go:278-289 | an accepted path passes the mask's outcome on to the remaining paths, and its camelCase form is appended to the converted paths |
| FieldMasks.FieldMaskRefused | well_known_types.go:280-287 | a refused path reached with every earlier path accepted decides the outcome: that path's error, with nothing written |
| FieldMasks.FieldMaskDone | well_known_types.go:289-291 | when the loop has accepted every path, the encoder writes the converted paths joined with `,` |
| FieldMasks.PathAccepted | well_known_types.go:280-287 | a path is accepted exactly when it is a valid name with no upper-case letter whose every `_` precedes a lower-case letter |
| FieldMasks.FieldMaskAccepted | well_known_types.go:278-289 | a mask is accepted exactly when each of its paths is |
| FieldMasks.FieldMaskFirstError | well_known_types.go:278-287 | a refused mask fails with the error of its first refused path |
| FieldMasks.EmptyFieldMask | well_known_types.go:276-291 | the empty mask is written as `""` |
| FieldMasks.FieldMaskRefusals | well_known_types.go:280-287 | `"a..b"` is refused as invalid and `"foo_"` as irreversible |
| FieldMasks.SplitJoin | well_known_types.go:291 | splitting a join at a separator no part contains gives the parts back |
| FieldMasks.CamelHasNoComma | well_known_types.go:284 | the camelCase form of a valid name contains no `,` |
| FieldMasks.FieldMaskLossless | well_known_types.go:268-293 | the text of an accepted mask is empty exactly for the empty mask, and splitting it at `,` and converting each part to snake_case gives the paths back |
| Encoding.Encoder.StartObject | well_known_types.go:71 | appends an object-start token |
| Encoding.Encoder.EndObject | well_known_types.go:72 | appends an object-end token |
| Encoding.Encoder.WriteName | well_known_types.go:107 | appends a member-name token |
| Encoding.Encoder.WriteString | well_known_types.go:108 | appends a string token |
| Messages.AnyHead | well_known_types.go:106-112 | the members written before the embedded value are three tokens, each a name or a string (which is what keeps the Any object balanced). The exact tokens, `@type`, the URL and `value`, are stated by `Messages.AnyWellKnown` |
| Messages.EncodeAny | well_known_types.go:63-122 | unless the value is handed to another encoder, the Any encoder writes nothing or exactly `{` `}` with no error |
| Messages.MarshalAny | well_known_types.go:63-122 | the encoder appends exactly the tokens of `EncodeAny` and returns its error |
| Messages.EncodeResolved | well_known_types.go:90-121 | a value that does not unmarshal is refused with nothing written. A well-known embedded type is wrapped in an object that opens with `@type`, the URL and `value` and is closed whatever its codec writes |
| Messages.MarshalResolved | well_known_types.go:90-121 | once the URL resolves, it appends exactly the tokens of `EncodeResolved` and returns its error |
| Messages.WriteEmbedded | well_known_types.go:102-114 | an object opens, `@type` and the URL are written, then `value` and the codec's tokens, and the object closes even when the codec fails (the deferred `EndObject`). The codec's error is returned |
| Messages.AnyUnset | well_known_types.go:68-78 | with neither field set, `{}` is written and there is no error. With a value but no type URL, nothing is written and the error is returned |
| Messages.AnyUnresolved | well_known_types.go:84-97 | a URL that does not resolve, or a value that does not unmarshal, gives an error naming the URL, with nothing written |
| Messages.AnyWellKnown | well_known_types.go:99-114 | for a well-known embedded type, the output is `{`, `"@type"`, the URL, `"value"`, the codec's tokens and `}`, and the codec's error is passed on |
| Messages.AnyGeneric | well_known_types.go:116-121 | any other embedded type is written by the generic message encoder with its URL |
| Messages.AnyOwnOutcome | well_known_types.go:63-98 | when the message is not handed on, the encoder succeeds exactly for the Any with neither field set, and writes nothing when it fails |
| Messages.AnyBalanced | well_known_types.go:63-122 | if every collaborator writes balanced JSON, every object the Any encoder opens is closed |
| Messages.EncodeEmpty | well_known_types.go:134-138 | Empty is written as two tokens that form a balanced object, with no error |
| Messages.MarshalEmpty | well_known_types.go:134-138 | appends `{`, `}` and returns no error |
| Messages.EmptyLikeEmptyAny | well_known_types.go:134-138 | Empty is written as the unset Any is: a balanced `{}` with no error |
| Messages.EncodeKnownValue | well_known_types.go:161-173 | a Value succeeds only when an arm is set and the number arm holds no NaN or infinity; with no arm set nothing is written |
| Messages.MarshalKnownValue | well_known_types.go:161-173 | the encoder appends exactly the tokens of `EncodeKnownValue` and returns its error |
| Messages.KnownValueOutcome | well_known_types.go:161-173 | a Value is refused, with nothing written, exactly when no arm is set or the number arm holds NaN or an infinity. Otherwise the arm that is set goes to the singular-field encoder |
| Messages.ArmsDistinct | well_known_types.go:162-172 | different arms give different field names, and the field name and value determine the arm |
| Messages.KnownValueBalanced | well_known_types.go:161-173 | if every collaborator writes balanced JSON, so does the Value encoder |
| Messages.MarshalWrapperType | well_known_types.go:126-130 | a wrapper is written as its `value` field by the singular-field encoder, unchanged |
| Messages.MarshalStruct | well_known_types.go:143-146 | a Struct is written as its `fields` map by the map-field encoder, unchanged |
| Messages.MarshalListValue | well_known_types.go:152-155 | a ListValue is written as its `values` list by the list-field encoder, unchanged |

## Left out

- Decoders: the modelled files only encode; the package's decoding (marshal_jsonpb.go:61-108) is delegated to `protojson` and `encoding/json`, so no JSON reading is modelled. `Numerals.Value`, `FieldMasks.Split` and `Timestamps.ReadDateTime` are ghost definitions. They exist only to state that the encodings lose nothing.
- `marshal_jsonpb.go`, the `runtime.Marshaler` adapter, is not part of this model. It is I/O and thin wrappers over `protojson` (through the package's own `MarshalOptions` and `protojson.UnmarshalOptions`), `encoding/json` and `io`.
- The JSON token writer (`StartObject`, `EndObject`, `WriteName`, `WriteString`) comes from the package's JSON encoder, whose code is not modelled here. The model appends one abstract token per call. `WriteString` fails only on invalid UTF-8, which a `string` of Unicode scalar values cannot hold. So its error branch at well_known_types.go:108-110 never fires in the model.
- The type resolver, `proto.UnmarshalOptions.Unmarshal`, `marshalMessage`, `marshalSingular`, `marshalMap`, `marshalList` and the codec run on the embedded message are all parameters of `Messages.Env`. Their tokens and errors are opaque.
- Error messages are constructors of `Encoding.Error` carrying the offending value, not formatted text.
- NaN and infinities: the `float64` test at well_known_types.go:168 becomes the predicate `Encoding.IsInvalidNumber` over an abstract `Number`. No floating-point arithmetic is modelled.
- `protoreflect.FullName.IsValid` comes from the protobuf library, whose code is not modelled here. It is defined as dot-separated ASCII identifiers (`Strs.IsValidFullName`).
- Integer widths: seconds are `int64` and nanos `int32` in the source. The model uses unbounded integers. Every value that passes the range checks fits those widths, and refused values are only compared, so no wrap-around can occur.
- Characters versus bytes: the converters walk bytes, and the model walks characters. The rules test only ASCII, and no byte of a multi-byte UTF-8 character is ASCII, so the results agree.
- `Timestamps.UtcTime` models `time.Unix(...).UTC()` only for the range the encoder accepts (years 1 to 9999). `Timestamps.FormatLayout` models `t.Format` only for its one layout.
