/**
  The Duration encoder (well_known_types.go:187-222): range and sign checks,
  then seconds and nanoseconds as one decimal number of seconds with 0, 3, 6
  or 9 fractional digits and the suffix "s".
*/
module Durations {
  import opened Encoding
  import opened Numerals

  /** maxSecondsInDuration: about 10,000 years. */
  const MaxDurationSeconds := 315_576_000_000
  /** secondsInNanos: the largest magnitude of the nanos field. */
  const MaxNanos := 999_999_999
  const NanosPerSecond := 1_000_000_000

  function Abs(x: int): nat
  {
    if x < 0 then -x else x
  }

  /** The checks in the order the encoder makes them; None for a valid duration. */
  function DurationError(secs: int, nanos: int): Option<Error>
  {
    if secs < -MaxDurationSeconds || secs > MaxDurationSeconds then Some(DurationSecondsOutOfRange(secs))
    else if nanos < -MaxNanos || nanos > MaxNanos then Some(DurationNanosOutOfRange(nanos))
    else if (secs > 0 && nanos < 0) || (secs < 0 && nanos > 0) then Some(DurationSignMismatch)
    else None
  }

  /** The JSON text of a valid duration: an optional '-', the seconds, the
      fractional part and "s". */
  function DurationText(secs: int, nanos: int): string
    requires DurationError(secs, nanos).None?
  {
    (if secs < 0 || nanos < 0 then "-" else "") + Digits(Abs(secs)) + Fraction(Abs(nanos)) + "s"
  }

  /** What the Duration encoder writes and returns. */
  function EncodeDuration(secs: int, nanos: int): (w: Written)
    ensures StringOrNothing(w)
    ensures w.err.None? ==> var s := w.tokens[0].text;
      |s| >= 2 && s[|s| - 1] == 's' && (s[0] == '-' <==> secs < 0 || nanos < 0)
  {
    match DurationError(secs, nanos)
    case Some(err) => Refuse(err)
    case None => Text(DurationText(secs, nanos))
  }

  /** The encoder step by step: the checks, the sign factored out, the
      "%s%d.%09d" rendering, three TrimSuffix calls and the write. */
  method MarshalDuration(e: Encoder, secs: int, nanos: int) returns (err: Option<Error>)
    modifies e
    ensures e.tokens == old(e.tokens) + EncodeDuration(secs, nanos).tokens
    ensures err == EncodeDuration(secs, nanos).err
  {
    if secs < -MaxDurationSeconds || secs > MaxDurationSeconds {
      assert e.tokens == old(e.tokens) + [];
      return Some(DurationSecondsOutOfRange(secs));
    }
    if nanos < -MaxNanos || nanos > MaxNanos {
      assert e.tokens == old(e.tokens) + [];
      return Some(DurationNanosOutOfRange(nanos));
    }
    if (secs > 0 && nanos < 0) || (secs < 0 && nanos > 0) {
      assert e.tokens == old(e.tokens) + [];
      return Some(DurationSignMismatch);
    }
    var sign, s, n := "", secs, nanos;
    if secs < 0 || nanos < 0 {
      sign, s, n := "-", -1 * secs, -1 * nanos;
    }
    var x := sign + Digits(s) + "." + Pad(n, 9);
    x := TrimSuffix(x, "000");
    x := TrimSuffix(x, "000");
    x := TrimSuffix(x, ".000");
    TrimmedFraction(sign + Digits(s), n);
    assert x == sign + Digits(s) + Fraction(n);
    assert s == Abs(secs) && n == Abs(nanos);
    assert x + "s" == DurationText(secs, nanos);
    e.WriteString(x + "s");
    return None;
  }

  // ---------------------------------------------------------------------------

  /** The encoder refuses exactly the out-of-range and mixed-sign durations,
      reports the first check that fails, and writes nothing when it does. */
  lemma DurationErrors(secs: int, nanos: int)
    ensures EncodeDuration(secs, nanos).err.Some? <==>
      secs < -MaxDurationSeconds || secs > MaxDurationSeconds ||
      nanos < -MaxNanos || nanos > MaxNanos ||
      (secs > 0 && nanos < 0) || (secs < 0 && nanos > 0)
    ensures EncodeDuration(secs, nanos).err.Some? ==> EncodeDuration(secs, nanos).tokens == []
    ensures EncodeDuration(secs, nanos).err == Some(DurationSignMismatch) ==>
      -MaxDurationSeconds <= secs <= MaxDurationSeconds && -MaxNanos <= nanos <= MaxNanos
    ensures EncodeDuration(secs, nanos).err.None? ==> EncodeDuration(secs, nanos).tokens == [Str(DurationText(secs, nanos))]
  {
  }

  /** The text depends only on the length of the duration in nanoseconds:
      its sign, its whole seconds and its remaining nanoseconds. */
  lemma {:induction false} DurationTextOfTotal(secs: int, nanos: int)
    requires DurationError(secs, nanos).None?
    ensures var total := secs * NanosPerSecond + nanos;
      DurationText(secs, nanos) ==
        (if total < 0 then "-" else "") + Digits(Abs(total) / NanosPerSecond) + Fraction(Abs(total) % NanosPerSecond) + "s"
  {
    TotalParts(secs, nanos);
  }

  /** A valid duration's total nanoseconds carry its sign, its seconds and
      its nanoseconds. */
  lemma {:induction false} TotalParts(secs: int, nanos: int)
    requires DurationError(secs, nanos).None?
    ensures var total := secs * NanosPerSecond + nanos;
      (total < 0 <==> secs < 0 || nanos < 0)
      && Abs(total) / NanosPerSecond == Abs(secs) && Abs(total) % NanosPerSecond == Abs(nanos)
  {
    var total := secs * NanosPerSecond + nanos;
    if secs < 0 || nanos < 0 {
      assert -total == (-secs) * NanosPerSecond + (-nanos);
    }
    assert Abs(total) == Abs(secs) * NanosPerSecond + Abs(nanos);
    SplitNanos(Abs(secs), Abs(nanos));
  }

  lemma {:induction false} SplitNanos(s: nat, n: nat)
    requires n < NanosPerSecond
    ensures (s * NanosPerSecond + n) / NanosPerSecond == s && (s * NanosPerSecond + n) % NanosPerSecond == n
  {
  }

  /** An optional '-' before a digit, and a final "s", are recognised
      unambiguously. */
  lemma SignSplit(sign1: string, x1: string, sign2: string, x2: string)
    requires sign1 in {"", "-"} && sign2 in {"", "-"}
    requires |x1| > 0 && |x2| > 0 && x1[0] != '-' && x2[0] != '-'
    requires sign1 + x1 + "s" == sign2 + x2 + "s"
    ensures sign1 == sign2 && x1 == x2
  {
    var t := sign1 + x1 + "s";
    assert t[0] == (if sign1 == "-" then '-' else x1[0]);
    assert t[0] == (if sign2 == "-" then '-' else x2[0]);
    assert x1 == t[|sign1|..|t| - 1];
    assert x2 == (sign2 + x2 + "s")[|sign2|..|t| - 1];
  }

  lemma {:induction false} Regroup(a: string, b: string, c: string)
    ensures a + b + c + "s" == a + (b + c) + "s"
  {
  }

  /** No two valid durations have the same text: the text is lossless. */
  lemma DurationTextInjective(s1: int, n1: int, s2: int, n2: int)
    requires DurationError(s1, n1).None? && DurationError(s2, n2).None?
    requires DurationText(s1, n1) == DurationText(s2, n2)
    ensures s1 == s2 && n1 == n2
  {
    var sign1 := if s1 < 0 || n1 < 0 then "-" else "";
    var sign2 := if s2 < 0 || n2 < 0 then "-" else "";
    var d1, f1 := Digits(Abs(s1)), Fraction(Abs(n1));
    var d2, f2 := Digits(Abs(s2)), Fraction(Abs(n2));
    Regroup(sign1, d1, f1);
    Regroup(sign2, d2, f2);
    assert (d1 + f1)[0] == d1[0] && (d2 + f2)[0] == d2[0];
    SignSplit(sign1, d1 + f1, sign2, d2 + f2);
    NumeralSplit(d1, f1, d2, f2);
    DigitsInjective(Abs(s1), Abs(s2));
    FractionInjective(Abs(n1), Abs(n2));
  }

  /** The zero duration. */
  lemma DurationZero()
    ensures EncodeDuration(0, 0) == Written([Str("0s")], None)
  {
    assert Digits(0) == "0";
    assert DurationText(0, 0) == "0s";
  }

  /** Whole seconds are printed without a fractional part. */
  lemma {:induction false} WholeSeconds(secs: int)
    requires -MaxDurationSeconds <= secs <= MaxDurationSeconds
    ensures EncodeDuration(secs, 0) == Text((if secs < 0 then "-" else "") + Digits(Abs(secs)) + "s")
  {
    var sign := if secs < 0 then "-" else "";
    assert Fraction(0) == "";
    assert sign + Digits(Abs(secs)) + "" == sign + Digits(Abs(secs));
  }

  /** A whole number of milliseconds is printed with three fractional digits,
      with a single '-' when the duration is negative. */
  lemma {:induction false} Milliseconds(secs: int, millis: int)
    requires -MaxDurationSeconds <= secs <= MaxDurationSeconds && 0 < Abs(millis) < 1000
    requires (secs >= 0 && millis > 0) || (secs <= 0 && millis < 0)
    ensures EncodeDuration(secs, millis * 1_000_000) ==
      Text((if millis < 0 then "-" else "") + Digits(Abs(secs)) + "." + Pad(Abs(millis), 3) + "s")
  {
    var n := Abs(millis * 1_000_000);
    assert n == Abs(millis) * 1_000_000;
    assert n % 1_000_000 == 0 && n / 1_000_000 == Abs(millis);
    assert Fraction(n) == "." + Pad(Abs(millis), 3);
    var sign := if millis < 0 then "-" else "";
    assert sign + Digits(Abs(secs)) + ("." + Pad(Abs(millis), 3)) == sign + Digits(Abs(secs)) + "." + Pad(Abs(millis), 3);
  }

  /** One and a half seconds, either way round, as literal text. */
  lemma DurationExamples()
    ensures EncodeDuration(1, 500_000_000) == Text("1.500s")
    ensures EncodeDuration(-1, -500_000_000) == Text("-1.500s")
  {
    Milliseconds(1, 500);
    Milliseconds(-1, -500);
    assert Digits(5) == "5";
    assert Digits(50) == "50";
    assert Digits(500) == "500";
    assert Pad(500, 3) == "500";
    assert Digits(1) == "1";
    assert "" + "1" + "." + "500" + "s" == "1.500s";
    assert "-" + "1" + "." + "500" + "s" == "-1.500s";
  }

  /** Too long a duration, and seconds and nanoseconds of opposite signs. */
  lemma DurationRefusals()
    ensures EncodeDuration(MaxDurationSeconds + 1, 0) == Written([], Some(DurationSecondsOutOfRange(315_576_000_001)))
    ensures EncodeDuration(0, 1_000_000_000) == Written([], Some(DurationNanosOutOfRange(1_000_000_000)))
    ensures EncodeDuration(1, -1) == Written([], Some(DurationSignMismatch))
  {
  }
}
