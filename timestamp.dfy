/**
  The Timestamp encoder (well_known_types.go:237-266): range checks, then the
  instant in UTC as "yyyy-mm-ddThh:mm:ss", a fractional part with 0, 3, 6 or 9
  digits, and "Z".

  Go's time.Unix(secs, nanos).UTC() is modelled by `UtcTime`, which counts
  whole days and seconds of the day from 0001-01-01T00:00:00Z and turns the
  day count into a civil date; t.Format with the layout
  "2006-01-02T15:04:05.000000000" is modelled by `FormatLayout`.
*/
module Timestamps {
  import opened Encoding
  import opened Numerals
  import opened Civil

  /** maxTimestampSeconds: 9999-12-31T23:59:59Z. */
  const MaxTimestampSeconds := 253_402_300_799
  /** minTimestampSeconds: 0001-01-01T00:00:00Z. */
  const MinTimestampSeconds := -62_135_596_800
  const MaxTimestampNanos := 999_999_999
  const SecondsPerDay := 86400

  /** The checks in the order the encoder makes them; None for a valid timestamp. */
  function TimestampError(secs: int, nanos: int): Option<Error>
  {
    if secs < MinTimestampSeconds || secs > MaxTimestampSeconds then Some(TimestampSecondsOutOfRange(secs))
    else if nanos < 0 || nanos > MaxTimestampNanos then Some(TimestampNanosOutOfRange(nanos))
    else None
  }

  /** A civil date and a time of day in UTC, to the nanosecond. */
  datatype DateTime = DateTime(date: Date, hour: int, minute: int, second: int, nanos: int)

  predicate IsValidDateTime(t: DateTime)
  {
    IsValidDate(t.date) && 0 <= t.hour < 24 && 0 <= t.minute < 60 && 0 <= t.second < 60
    && 0 <= t.nanos < 1_000_000_000
  }

  /** Seconds since the Unix epoch 1970-01-01T00:00:00Z of a date and time. */
  function UnixSeconds(t: DateTime): int
    requires IsValidDateTime(t)
  {
    OrdinalDay(t.date) * SecondsPerDay + t.hour * 3600 + t.minute * 60 + t.second + MinTimestampSeconds
  }

  lemma {:induction false} SecondOfDay(sod: int)
    requires 0 <= sod < SecondsPerDay
    ensures 0 <= sod / 3600 < 24 && 0 <= sod % 3600 / 60 < 60
    ensures (sod / 3600) * 3600 + (sod % 3600 / 60) * 60 + sod % 60 == sod
  {
    assert sod % 60 == (sod % 3600) % 60;
  }

  /** time.Unix(secs, nanos).UTC(): the date and time of day of a timestamp. */
  function UtcTime(secs: int, nanos: int): (t: DateTime)
    requires TimestampError(secs, nanos).None?
    ensures IsValidDateTime(t) && t.date.year <= 9999
    ensures UnixSeconds(t) == secs && t.nanos == nanos
  {
    var since := secs - MinTimestampSeconds;  // seconds since 0001-01-01T00:00:00Z
    var days, sod := since / SecondsPerDay, since % SecondsPerDay;
    FourDigitYears(days);
    SecondOfDay(sod);
    DateTime(DateOfOrdinal(days), sod / 3600, sod % 3600 / 60, sod % 60, nanos)
  }

  /** The first 19 characters of the layout: "2006-01-02T15:04:05" with a
      four-digit year and two-digit month, day, hour, minute and second. */
  function DateTimeText(t: DateTime): (s: string)
    requires IsValidDateTime(t) && t.date.year <= 9999
    ensures |s| == 19
  {
    FieldWidths(t);
    Layout(Pad(t.date.year, 4), Pad(t.date.month, 2), Pad(t.date.day, 2), Pad(t.hour, 2), Pad(t.minute, 2), Pad(t.second, 2))
  }

  /** Every field of a date-time in years 1 to 9999 fills its width exactly. */
  lemma {:induction false} FieldWidths(t: DateTime)
    requires IsValidDateTime(t) && t.date.year <= 9999
    ensures |Pad(t.date.year, 4)| == 4 && |Pad(t.date.month, 2)| == 2 && |Pad(t.date.day, 2)| == 2
    ensures |Pad(t.hour, 2)| == 2 && |Pad(t.minute, 2)| == 2 && |Pad(t.second, 2)| == 2
  {
    assert Pow10(4) == 10000 && Pow10(2) == 100;
  }

  /** The layout's separators around its six fields. */
  function Layout(y: string, mo: string, d: string, h: string, mi: string, se: string): (s: string)
    ensures |s| == |y| + |mo| + |d| + |h| + |mi| + |se| + 5
  {
    y + "-" + mo + "-" + d + "T" + h + ":" + mi + ":" + se
  }

  /** t.Format("2006-01-02T15:04:05.000000000"). */
  function FormatLayout(t: DateTime): (s: string)
    requires IsValidDateTime(t) && t.date.year <= 9999
    ensures |s| == 29 && s[19] == '.'
    ensures DigitFields(s[..19]) && ReadDateTime(s[..19]) == t.(nanos := 0)
    ensures AllDigits(s[20..]) && Value(s[20..]) == t.nanos
  {
    assert Pow10(9) == 1_000_000_000;
    DateTimeReadBack(t);
    DotJoined(DateTimeText(t), Pad(t.nanos, 9));
    DateTimeText(t) + "." + Pad(t.nanos, 9)
  }

  /** The two sides of a text joined with a '.' are found at fixed places. */
  lemma DotJoined(a: string, b: string)
    ensures var s := a + "." + b;
      s[|a|] == '.' && s[..|a|] == a && s[|a| + 1..] == b
  {
  }

  /** The JSON text of a valid timestamp. */
  function TimestampText(secs: int, nanos: int): string
    requires TimestampError(secs, nanos).None?
  {
    DateTimeText(UtcTime(secs, nanos)) + Fraction(nanos) + "Z"
  }

  /** What the Timestamp encoder writes and returns. */
  function EncodeTimestamp(secs: int, nanos: int): (w: Written)
    ensures StringOrNothing(w)
    ensures w.err.None? ==> var s := w.tokens[0].text;
      |s| in {20, 24, 27, 30} && s[|s| - 1] == 'Z'
  {
    match TimestampError(secs, nanos)
    case Some(err) => Refuse(err)
    case None => Text(TimestampText(secs, nanos))
  }

  /** The encoder step by step: the checks, the conversion to UTC, the
      layout, three TrimSuffix calls and the write. */
  method MarshalTimestamp(e: Encoder, secs: int, nanos: int) returns (err: Option<Error>)
    modifies e
    ensures e.tokens == old(e.tokens) + EncodeTimestamp(secs, nanos).tokens
    ensures err == EncodeTimestamp(secs, nanos).err
  {
    if secs < MinTimestampSeconds || secs > MaxTimestampSeconds {
      assert e.tokens == old(e.tokens) + [];
      return Some(TimestampSecondsOutOfRange(secs));
    }
    if nanos < 0 || nanos > MaxTimestampNanos {
      assert e.tokens == old(e.tokens) + [];
      return Some(TimestampNanosOutOfRange(nanos));
    }
    var t := UtcTime(secs, nanos);
    var x := FormatLayout(t);
    x := TrimSuffix(x, "000");
    x := TrimSuffix(x, "000");
    x := TrimSuffix(x, ".000");
    TrimmedFraction(DateTimeText(t), nanos);
    assert x == DateTimeText(t) + Fraction(nanos);
    e.WriteString(x + "Z");
    return None;
  }

  // ---------------------------------------------------------------------------

  /** The encoder refuses exactly the timestamps outside
      0001-01-01T00:00:00Z..9999-12-31T23:59:59.999999999Z, reports the seconds
      before the nanoseconds, and writes nothing when it refuses. */
  lemma TimestampErrors(secs: int, nanos: int)
    ensures EncodeTimestamp(secs, nanos).err.Some? <==>
      secs < MinTimestampSeconds || secs > MaxTimestampSeconds || nanos < 0 || nanos > MaxTimestampNanos
    ensures EncodeTimestamp(secs, nanos).err.Some? ==> EncodeTimestamp(secs, nanos).tokens == []
    ensures EncodeTimestamp(secs, nanos).err == Some(TimestampNanosOutOfRange(nanos)) ==>
      MinTimestampSeconds <= secs <= MaxTimestampSeconds
    ensures EncodeTimestamp(secs, nanos).err.None? ==> EncodeTimestamp(secs, nanos).tokens == [Str(TimestampText(secs, nanos))]
  {
  }

  /** The lower bound is the first second of year 1. */
  lemma FirstTimestamp()
    ensures UtcTime(MinTimestampSeconds, 0) == DateTime(Date(1, 1, 1), 0, 0, 0, 0)
  {
    var t := DateTime(Date(1, 1, 1), 0, 0, 0, 0);
    assert OrdinalDay(t.date) == 0;
    assert UnixSeconds(t) == MinTimestampSeconds;
    UtcTimeInverse(t);
  }

  /** The upper bound is the last second of year 9999. */
  lemma LastTimestamp()
    ensures UtcTime(MaxTimestampSeconds, 0) == DateTime(Date(9999, 12, 31), 23, 59, 59, 0)
  {
    var t := DateTime(Date(9999, 12, 31), 23, 59, 59, 0);
    DaysBeforeYearClosedForm(9999);
    assert OrdinalDay(t.date) == 3652058;
    assert UnixSeconds(t) == 3652058 * 86400 + 86399 - 62_135_596_800 == MaxTimestampSeconds;
    UtcTimeInverse(t);
  }

  /** Every date and time of years 1 to 9999 is the UTC time of exactly one
      valid timestamp: `UtcTime` inverts `UnixSeconds`. */
  lemma {:induction false} UtcTimeInverse(t: DateTime)
    requires IsValidDateTime(t) && t.date.year <= 9999
    ensures TimestampError(UnixSeconds(t), t.nanos).None?
    ensures UtcTime(UnixSeconds(t), t.nanos) == t
  {
    InRange(t);
    UtcTimeOf(t, UnixSeconds(t));
  }

  lemma {:induction false} InRange(t: DateTime)
    requires IsValidDateTime(t) && t.date.year <= 9999
    ensures TimestampError(UnixSeconds(t), t.nanos).None?
  {
    var z := OrdinalDay(t.date);
    assert z < 3652059 by {
      OrdinalWithinYear(t.date);
      DaysBeforeYearMonotone(t.date.year + 1, 10000);
      UnixEpochOrdinal();
    }
    DayBound(z);
  }

  lemma {:induction false} UtcTimeOf(t: DateTime, secs: int)
    requires IsValidDateTime(t) && t.date.year <= 9999 && secs == UnixSeconds(t)
    requires TimestampError(secs, t.nanos).None?
    ensures UtcTime(secs, t.nanos) == t
  {
    UnixSecondsInjective(UtcTime(secs, t.nanos), t);
  }

  /** Different dates and times are different instants. */
  lemma {:induction false} UnixSecondsInjective(t1: DateTime, t2: DateTime)
    requires IsValidDateTime(t1) && IsValidDateTime(t2)
    requires UnixSeconds(t1) == UnixSeconds(t2) && t1.nanos == t2.nanos
    ensures t1 == t2
  {
    SinceFirstSecond(t1);
    SinceFirstSecond(t2);
    TimeOfDay(t1.hour, t1.minute, t1.second);
    TimeOfDay(t2.hour, t2.minute, t2.second);
    OrdinalInjective(t1.date, t2.date);
  }

  /** The whole days and the second of the day since 0001-01-01T00:00:00Z. */
  lemma {:induction false} SinceFirstSecond(t: DateTime)
    requires IsValidDateTime(t)
    ensures (UnixSeconds(t) - MinTimestampSeconds) / SecondsPerDay == OrdinalDay(t.date)
    ensures (UnixSeconds(t) - MinTimestampSeconds) % SecondsPerDay == t.hour * 3600 + t.minute * 60 + t.second
  {
    var sod := t.hour * 3600 + t.minute * 60 + t.second;
    TimeOfDay(t.hour, t.minute, t.second);
    assert UnixSeconds(t) - MinTimestampSeconds == OrdinalDay(t.date) * SecondsPerDay + sod;
    DayAndSecond(OrdinalDay(t.date), sod);
  }

  lemma {:induction false} DayBound(z: nat)
    requires z < 3652059
    ensures z * SecondsPerDay <= 3652058 * SecondsPerDay
  {
  }

  lemma {:induction false} DayAndSecond(z: nat, sod: int)
    requires 0 <= sod < SecondsPerDay
    ensures (z * SecondsPerDay + sod) / SecondsPerDay == z && (z * SecondsPerDay + sod) % SecondsPerDay == sod
  {
  }

  lemma {:induction false} TimeOfDay(h: int, m: int, s: int)
    requires 0 <= h < 24 && 0 <= m < 60 && 0 <= s < 60
    ensures var sod := h * 3600 + m * 60 + s;
      0 <= sod < SecondsPerDay && sod / 3600 == h && sod % 3600 / 60 == m && sod % 60 == s
  {
    var sod := h * 3600 + m * 60 + s;
    assert sod / 3600 == h && sod % 3600 == m * 60 + s;
  }

  /** Where each field sits in the 19-character date and time. */
  lemma {:induction false} DateTimeFields(t: DateTime)
    requires IsValidDateTime(t) && t.date.year <= 9999
    ensures var s := DateTimeText(t);
      s[0..4] == Pad(t.date.year, 4) && s[4] == '-' && s[5..7] == Pad(t.date.month, 2) && s[7] == '-'
      && s[8..10] == Pad(t.date.day, 2) && s[10] == 'T' && s[11..13] == Pad(t.hour, 2) && s[13] == ':'
      && s[14..16] == Pad(t.minute, 2) && s[16] == ':' && s[17..19] == Pad(t.second, 2)
  {
    assert Pow10(4) == 10000 && Pow10(2) == 100;
    LayoutFields(Pad(t.date.year, 4), Pad(t.date.month, 2), Pad(t.date.day, 2), Pad(t.hour, 2), Pad(t.minute, 2), Pad(t.second, 2));
  }

  lemma {:induction false} LayoutFields(y: string, mo: string, d: string, h: string, mi: string, se: string)
    requires |y| == 4 && |mo| == 2 && |d| == 2 && |h| == 2 && |mi| == 2 && |se| == 2
    ensures var s := Layout(y, mo, d, h, mi, se);
      s[0..4] == y && s[4] == '-' && s[5..7] == mo && s[7] == '-' && s[8..10] == d && s[10] == 'T'
      && s[11..13] == h && s[13] == ':' && s[14..16] == mi && s[16] == ':' && s[17..19] == se
  {
    var s := Layout(y, mo, d, h, mi, se);
    var s16 := y + "-" + mo + "-" + d + "T" + h + ":" + mi + ":";
    var s13 := y + "-" + mo + "-" + d + "T" + h + ":";
    var s10 := y + "-" + mo + "-" + d + "T";
    var s7 := y + "-" + mo + "-";
    var s4 := y + "-";
    assert s == s16 + se && s16 == s13 + mi + ":" && s13 == s10 + h + ":" && s10 == s7 + d + "T" && s7 == s4 + mo + "-";
    Field(s16, se, "");
    Field(s13, mi, ":" + se);
    Field(s10, h, ":" + mi + ":" + se);
    Field(s7, d, "T" + h + ":" + mi + ":" + se);
    Field(s4, mo, "-" + d + "T" + h + ":" + mi + ":" + se);
    Field("", y, "-" + mo + "-" + d + "T" + h + ":" + mi + ":" + se);
  }

  lemma {:induction false} Field(a: string, x: string, b: string)
    ensures (a + x + b)[|a|..|a| + |x|] == x
  {
    assert (a + x + b)[|a|..|a| + |x|] == ((a + x) + b)[|a|..|a| + |x|];
  }

  /** The six fields of a 19-character date and time are digit strings. */
  ghost predicate DigitFields(s: string)
    requires |s| == 19
  {
    AllDigits(s[0..4]) && AllDigits(s[5..7]) && AllDigits(s[8..10])
    && AllDigits(s[11..13]) && AllDigits(s[14..16]) && AllDigits(s[17..19])
  }

  /** The date and time that a timestamp's text spells out, read field by field. */
  ghost function ReadDateTime(s: string): DateTime
    requires |s| == 19 && DigitFields(s)
  {
    DateTime(Date(Value(s[0..4]), Value(s[5..7]), Value(s[8..10])),
             Value(s[11..13]), Value(s[14..16]), Value(s[17..19]), 0)
  }

  /** Reading the date and time back gives the fields they were printed from. */
  lemma {:induction false} DateTimeReadBack(t: DateTime)
    requires IsValidDateTime(t) && t.date.year <= 9999
    ensures DigitFields(DateTimeText(t)) && ReadDateTime(DateTimeText(t)) == t.(nanos := 0)
  {
    DateTimeFields(t);
  }

  /** The text is in the layout "yyyy-mm-ddThh:mm:ss[.fff[fff[fff]]]Z", and
      it spells out the instant encoded: read back, its fields form a valid
      date and time whose Unix seconds are `secs`, and its fractional part
      denotes `nanos`. */
  lemma {:induction false} TimestampTextMeaning(secs: int, nanos: int)
    requires TimestampError(secs, nanos).None?
    ensures var s := TimestampText(secs, nanos);
      |s| >= 20 && s[|s| - 1] == 'Z' && s[4] == '-' && s[7] == '-' && s[10] == 'T' && s[13] == ':' && s[16] == ':'
      && DigitFields(s[..19]) && IsFraction(s[19..|s| - 1])
      && var t := ReadDateTime(s[..19]).(nanos := FractionNanos(s[19..|s| - 1]));
      IsValidDateTime(t) && UnixSeconds(t) == secs && t.nanos == nanos
  {
    var t := UtcTime(secs, nanos);
    var d, f := DateTimeText(t), Fraction(nanos);
    var s := TimestampText(secs, nanos);
    assert s[..19] == d && s[19..|s| - 1] == f && s[|s| - 1] == 'Z' by {
      assert s == d + f + "Z";
    }
    assert s[4] == d[4] && s[7] == d[7] && s[10] == d[10] && s[13] == d[13] && s[16] == d[16];
    assert d[4] == '-' && d[7] == '-' && d[10] == 'T' && d[13] == ':' && d[16] == ':' by {
      DateTimeFields(t);
    }
    assert DigitFields(d) && ReadDateTime(d) == t.(nanos := 0) by {
      DateTimeReadBack(t);
    }
    assert FractionNanos(f) == nanos by {
      FractionDenotes(nanos);
    }
  }

  /** No two valid timestamps have the same text: the text is lossless. */
  lemma {:induction false} TimestampTextInjective(s1: int, n1: int, s2: int, n2: int)
    requires TimestampError(s1, n1).None? && TimestampError(s2, n2).None?
    requires TimestampText(s1, n1) == TimestampText(s2, n2)
    ensures s1 == s2 && n1 == n2
  {
    TimestampTextMeaning(s1, n1);
    TimestampTextMeaning(s2, n2);
  }

  /** The Unix epoch is 1970-01-01 at midnight. */
  lemma EpochTime()
    ensures UtcTime(0, 0) == DateTime(Date(1970, 1, 1), 0, 0, 0, 0)
  {
    var t := DateTime(Date(1970, 1, 1), 0, 0, 0, 0);
    UnixEpochOrdinal();
    assert UnixSeconds(t) == 719162 * 86400 - 62_135_596_800 == 0;
    UtcTimeInverse(t);
  }

  /** 1693267200 seconds after the epoch is 2023-08-29 at midnight. */
  lemma MidnightTime()
    ensures UtcTime(1_693_267_200, 0) == DateTime(Date(2023, 8, 29), 0, 0, 0, 0)
  {
    var t := DateTime(Date(2023, 8, 29), 0, 0, 0, 0);
    DaysBeforeYearClosedForm(2023);
    assert OrdinalDay(t.date) == 738760;
    assert UnixSeconds(t) == 738760 * 86400 - 62_135_596_800 == 1_693_267_200;
    UtcTimeInverse(t);
  }

  /** %04d of the example's year. */
  lemma PadYear()
    ensures Pad(2023, 4) == "2023"
  {
    assert Digits(2) == "2";
    assert Digits(20) == "20";
    assert Digits(202) == "202";
    assert Digits(2023) == "2023";
  }

  /** %02d of a one-digit number: a '0', then the digit. */
  lemma {:induction false} PadOneDigit(n: nat)
    requires n < 10
    ensures Pad(n, 2) == ['0', DigitChar(n)]
  {
    assert Digits(n) == [DigitChar(n)];
    assert Zeros(1) == "0";
  }

  /** %02d of a two-digit number: its two digits. */
  lemma {:induction false} PadTwoDigits(n: nat)
    requires 10 <= n < 100
    ensures Pad(n, 2) == [DigitChar(n / 10), DigitChar(n % 10)]
  {
    assert Digits(n / 10) == [DigitChar(n / 10)];
    assert Digits(n) == [DigitChar(n / 10), DigitChar(n % 10)];
  }

  /** %02d of the example's month, day and zero fields. */
  lemma PadExampleFields()
    ensures Pad(8, 2) == "08" && Pad(29, 2) == "29" && Pad(0, 2) == "00"
  {
    PadOneDigit(8);
    PadTwoDigits(29);
    PadOneDigit(0);
  }

  /** A string-literal step, not a property of the encoder: the layout with the
      example's fields filled in, split out of MidnightDateTimeText to keep that
      proof small. */
  lemma ExampleLayout()
    ensures Layout("2023", "08", "29", "00", "00", "00") == "2023-08-29T00:00:00"
  {
  }

  /** The date and time of the example, as the layout prints them. */
  lemma MidnightDateTimeText()
    ensures DateTimeText(DateTime(Date(2023, 8, 29), 0, 0, 0, 0)) == "2023-08-29T00:00:00"
  {
    PadYear();
    PadExampleFields();
    ExampleLayout();
  }

  /** The JSON text of an accepted timestamp, from its two printed parts. */
  lemma {:induction false} EncodeTimestampOf(secs: int, nanos: int, d: string, f: string)
    requires TimestampError(secs, nanos).None?
    requires DateTimeText(UtcTime(secs, nanos)) == d && Fraction(nanos) == f
    ensures EncodeTimestamp(secs, nanos) == Text(d + f + "Z")
  {
  }

  /** A string-literal step, not a property of the encoder: the zone suffix after
      the example's date and time, split out of MidnightText to keep that proof
      small. */
  lemma ExampleZone()
    ensures "2023-08-29T00:00:00" + "" + "Z" == "2023-08-29T00:00:00Z"
  {
  }

  /** The JSON text of the example: 2023-08-29 at midnight, UTC. */
  lemma MidnightText()
    ensures EncodeTimestamp(1_693_267_200, 0) == Text("2023-08-29T00:00:00Z")
  {
    var t := DateTime(Date(2023, 8, 29), 0, 0, 0, 0);
    assert TimestampError(1_693_267_200, 0).None?;
    assert UtcTime(1_693_267_200, 0) == t by {
      MidnightTime();
    }
    assert DateTimeText(t) == "2023-08-29T00:00:00" by {
      MidnightDateTimeText();
    }
    assert Fraction(0) == "";
    EncodeTimestampOf(1_693_267_200, 0, "2023-08-29T00:00:00", "");
    ExampleZone();
  }
}
