/**
  Decimal numerals as the Duration and Timestamp encoders print them
  (well_known_types.go): fmt's %d and %0<w>d verbs, strings.TrimSuffix, and the
  fractional-second part that is left after trimming.

  `Value` reads a digit string back as a number. It is used only to state what
  a rendering means; no decoder is modelled.
*/
module Numerals {
  import opened Strs

  predicate AllDigits(s: string)
  {
    forall i :: 0 <= i < |s| ==> IsASCIIDigit(s[i])
  }

  function Pow10(k: nat): (p: nat)
    ensures p >= 1
  {
    if k == 0 then 1 else 10 * Pow10(k - 1)
  }

  function DigitChar(d: nat): (c: char)
    requires d < 10
    ensures IsASCIIDigit(c) && c as int - '0' as int == d
  {
    ('0' as int + d) as char
  }

  /** The number a string of decimal digits denotes. */
  ghost function Value(d: string): nat
    requires AllDigits(d)
  {
    if d == [] then 0 else Value(d[..|d| - 1]) * 10 + (d[|d| - 1] as int - '0' as int)
  }

  /** fmt's %d of a non-negative integer: the shortest digit string that
      denotes `n`. */
  function Digits(n: nat): (d: string)
    ensures 1 <= |d| && AllDigits(d) && Value(d) == n
    ensures n < Pow10(|d|) && (|d| > 1 ==> Pow10(|d| - 1) <= n)
    decreases n
  {
    if n < 10 then
      [DigitChar(n)]
    else
      var d := Digits(n / 10);
      assert (d + [DigitChar(n % 10)])[..|d|] == d;
      d + [DigitChar(n % 10)]
  }

  function Zeros(k: nat): (z: string)
    ensures |z| == k && AllDigits(z) && Value(z) == 0
  {
    if k == 0 then "" else
      var z := Zeros(k - 1);
      assert (z + "0")[..k - 1] == z;
      z + "0"
  }

  /** fmt's %0<w>d of a non-negative integer: its digits, left-padded with
      zeros to width `w`. */
  function Pad(n: nat, w: nat): (p: string)
    ensures AllDigits(p) && Value(p) == n
    ensures 1 <= w && n < Pow10(w) ==> |p| == w
  {
    var d := Digits(n);
    if |d| > w then
      Pow10Monotone(w, |d| - 1);
      d
    else if |d| == w then
      d
    else
      ValueConcat(Zeros(w - |d|), d);
      Zeros(w - |d|) + d
  }

  /** strings.TrimSuffix. */
  function TrimSuffix(s: string, suffix: string): (r: string)
    ensures if |suffix| <= |s| && s[|s| - |suffix|..] == suffix then r + suffix == s else r == s
  {
    if |suffix| <= |s| && s[|s| - |suffix|..] == suffix then s[..|s| - |suffix|] else s
  }

  // ---------------------------------------------------------------------------
  // Facts about Value

  lemma {:induction false} Pow10Monotone(a: nat, b: nat)
    requires a <= b
    ensures Pow10(a) <= Pow10(b)
    decreases b
  {
    if a < b {
      Pow10Monotone(a, b - 1);
    }
  }

  lemma {:induction false} ValueConcat(a: string, b: string)
    requires AllDigits(a) && AllDigits(b)
    ensures AllDigits(a + b)
    ensures Value(a + b) == Value(a) * Pow10(|b|) + Value(b)
    decreases |b|
  {
    if b != [] {
      var b' := b[..|b| - 1];
      assert (a + b)[..|a + b| - 1] == a + b';
      ValueConcat(a, b');
      var d := b[|b| - 1] as int - '0' as int;
      assert (a + b)[|a + b| - 1] == b[|b| - 1];
      assert Value(a + b) == Value(a + b') * 10 + d;
      assert Value(b) == Value(b') * 10 + d;
      assert Pow10(|b|) == Pow10(|b'|) * 10;
      Shift(Value(a), Pow10(|b'|), Value(b'), d);
    } else {
      assert a + b == a;
    }
  }

  lemma Shift(x: int, p: int, y: int, d: int)
    ensures (x * p + y) * 10 + d == x * (p * 10) + (y * 10 + d)
  {
  }

  lemma {:induction false} ValueBound(d: string)
    requires AllDigits(d)
    ensures Value(d) < Pow10(|d|)
  {
    if d != [] {
      ValueBound(d[..|d| - 1]);
    }
  }

  /** Digit strings of one length are equal exactly when their values are. */
  lemma {:induction false} ValueInjective(a: string, b: string)
    requires AllDigits(a) && AllDigits(b) && |a| == |b| && Value(a) == Value(b)
    ensures a == b
  {
    if a != [] {
      var k := |a| - 1;
      assert a[k] as int - '0' as int == b[k] as int - '0' as int;
      ValueInjective(a[..k], b[..k]);
      assert a == a[..k] + [a[k]] && b == b[..k] + [b[k]];
    }
  }

  lemma {:induction false} ZeroGroup(g: string)
    requires AllDigits(g) && |g| == 3
    ensures g == "000" <==> Value(g) == 0
  {
    assert "000"[..2] == "00" && "00"[..1] == "0" && "0"[..0] == "";
    assert Value("000") == 0;
    if Value(g) == 0 {
      ValueInjective(g, "000");
    }
  }

  /** The last three digits of a numeral denote its value modulo 1000. */
  lemma {:induction false} LastThree(d: string)
    requires AllDigits(d) && |d| >= 3
    ensures Value(d[|d| - 3..]) == Value(d) % 1000
    ensures d[|d| - 3..] == "000" <==> Value(d) % 1000 == 0
  {
    var hi, lo := d[..|d| - 3], d[|d| - 3..];
    assert d == hi + lo;
    ValueConcat(hi, lo);
    ValueBound(lo);
    assert Pow10(3) == 1000;
    assert Value(d) == Value(hi) * 1000 + Value(lo);
    ModThousand(Value(hi), Value(lo));
    ZeroGroup(lo);
  }

  lemma {:induction false} ModThousand(a: nat, b: nat)
    requires b < 1000
    ensures (a * 1000 + b) % 1000 == b
  {
  }

  // ---------------------------------------------------------------------------
  // Fractional seconds

  /** '.' followed by 3, 6 or 9 digits, or nothing. */
  ghost predicate IsFraction(f: string)
  {
    f == "" || ((|f| == 4 || |f| == 7 || |f| == 10) && f[0] == '.' && AllDigits(f[1..]))
  }

  /** The nanoseconds a fractional part denotes. */
  ghost function FractionNanos(f: string): nat
    requires IsFraction(f)
  {
    if f == "" then 0 else Value(f[1..]) * Pow10(10 - |f|)
  }

  /** The fractional part printed for `nanos` nanoseconds: nothing for zero,
      otherwise '.' and the fewest of 3, 6 or 9 digits that represent the
      nanoseconds exactly, so that no trailing group of three is "000". */
  function Fraction(nanos: nat): (f: string)
    requires nanos < 1_000_000_000
    ensures IsFraction(f)
    ensures f == "" <==> nanos == 0
    ensures f != "" ==> f[|f| - 3..] != "000"
  {
    if nanos == 0 then ""
    else if nanos % 1_000_000 == 0 then
      assert 0 < nanos / 1_000_000 < 1000;
      DotGroups(nanos / 1_000_000, 3)
    else if nanos % 1000 == 0 then
      assert nanos / 1000 < 1_000_000 && (nanos / 1000) % 1000 != 0 by {
        Thousands(nanos);
      }
      DotGroups(nanos / 1000, 6)
    else
      DotGroups(nanos, 9)
  }

  /** '.' and `q` in `w` = 3, 6 or 9 digits, when its last group of three
      digits is not "000". */
  function DotGroups(q: nat, w: nat): (f: string)
    requires (w == 3 && q < 1000) || (w == 6 && q < 1_000_000) || (w == 9 && q < 1_000_000_000)
    requires q % 1000 != 0
    ensures f == "." + Pad(q, w)
    ensures IsFraction(f) && f != "" && f[|f| - 3..] != "000"
  {
    assert Pow10(3) == 1000 && Pow10(6) == 1_000_000 && Pow10(9) == 1_000_000_000;
    var p := Pad(q, w);
    LastThree(p);
    assert ("." + p)[1..] == p && ("." + p)[|p| - 2..] == p[|p| - 3..];
    "." + p
  }

  /** The fractional part denotes exactly the nanoseconds it was printed for. */
  lemma {:induction false} FractionDenotes(nanos: nat)
    requires nanos < 1_000_000_000
    ensures FractionNanos(Fraction(nanos)) == nanos
  {
    var f := Fraction(nanos);
    if nanos == 0 {
    } else if nanos % 1_000_000 == 0 {
      var q := nanos / 1_000_000;
      assert f == "." + Pad(q, 3);
      ScaledFraction(f, Pad(q, 3));
      assert Pow10(6) == 1_000_000;
      assert FractionNanos(f) == q * 1_000_000;
      assert q * 1_000_000 == nanos;
    } else if nanos % 1000 == 0 {
      var q := nanos / 1000;
      assert f == "." + Pad(q, 6);
      ScaledFraction(f, Pad(q, 6));
      assert Pow10(3) == 1000;
      assert FractionNanos(f) == q * 1000;
      assert q * 1000 == nanos;
    } else {
      assert f == "." + Pad(nanos, 9);
      ScaledFraction(f, Pad(nanos, 9));
      assert Pow10(0) == 1;
    }
  }

  lemma {:induction false} ScaledFraction(f: string, p: string)
    requires f == "." + p && IsFraction(f)
    ensures FractionNanos(f) == Value(p) * Pow10(10 - |f|)
  {
    assert f[1..] == p;
  }

  lemma {:induction false} DivThousand(a: nat, b: nat)
    requires b < 1000
    ensures (a * 1000 + b) / 1000 == a && (a * 1000 + b) % 1000 == b
  {
  }

  /** Nanoseconds are a whole number of milliseconds exactly when their last
      two groups of three digits are zero. */
  lemma {:induction false} Thousands(n: nat)
    ensures (n / 1000) / 1000 == n / 1_000_000
    ensures n % 1_000_000 == 0 <==> n % 1000 == 0 && (n / 1000) % 1000 == 0
  {
    var q, r := n / 1000, n % 1000;
    var q2, r2 := q / 1000, q % 1000;
    assert n == q2 * 1_000_000 + (r2 * 1000 + r);
    assert 0 <= r2 * 1000 + r < 1_000_000;
  }

  /** Dropping the last three digits of a zero-padded numeral divides it by 1000. */
  lemma {:induction false} DropLastThree(n: nat, w: nat)
    requires 3 < w && n < Pow10(w)
    ensures Pad(n, w)[..w - 3] == Pad(n / 1000, w - 3)
  {
    var x := Pad(n, w);
    var hi, lo := x[..w - 3], x[w - 3..];
    assert x == hi + lo;
    ValueConcat(hi, lo);
    ValueBound(lo);
    ValueBound(hi);
    assert Pow10(3) == 1000;
    assert Pow10(w) == Pow10(w - 3) * 1000 by {
      assert Pow10(w) == 10 * Pow10(w - 1);
      assert Pow10(w - 1) == 10 * Pow10(w - 2);
      assert Pow10(w - 2) == 10 * Pow10(w - 3);
    }
    DivThousand(Value(hi), Value(lo));
    ValueInjective(hi, Pad(n / 1000, w - 3));
  }

  /** The three trims the Duration and Timestamp encoders apply in turn. */
  function TrimZeroGroups(s: string): string
  {
    TrimSuffix(TrimSuffix(TrimSuffix(s, "000"), "000"), ".000")
  }

  /** What is left of '.' and nine digits after the three trims: the
      digits up to the last group of three that is not "000". */
  function KeptGroups(x: string): string
    requires |x| == 9
  {
    if x[6..] != "000" then "." + x
    else if x[3..6] != "000" then "." + x[..6]
    else if x[..3] != "000" then "." + x[..3]
    else ""
  }

  lemma {:induction false} TrimNineDigits(p: string, x: string)
    requires |x| == 9 && AllDigits(x) && x[6..] != "000"
    ensures TrimZeroGroups(p + "." + x) == p + KeptGroups(x)
  {
    var s := p + "." + x;
    assert s[|s| - 3..] == x[6..];
    assert s[|s| - 4..][0] == x[5];
    assert KeptGroups(x) == "." + x;
    assert s == p + ("." + x);
  }

  lemma {:induction false} TrimSixDigits(p: string, x: string)
    requires |x| == 9 && AllDigits(x) && x[6..] == "000" && x[3..6] != "000"
    ensures TrimZeroGroups(p + "." + x) == p + KeptGroups(x)
  {
    var s := p + "." + x;
    assert s[|s| - 3..] == x[6..];
    assert s[..|s| - 3] == p + "." + x[..6];
    var s1 := p + "." + x[..6];
    assert s1[|s1| - 3..] == x[3..6];
    assert s1[|s1| - 4..][0] == x[2];
    assert TrimSuffix(s, "000") == s1;
    assert KeptGroups(x) == "." + x[..6];
    assert s1 == p + ("." + x[..6]);
  }

  lemma {:induction false} TrimThreeDigits(p: string, x: string)
    requires |x| == 9 && AllDigits(x) && x[6..] == "000" && x[3..6] == "000" && x[..3] != "000"
    ensures TrimZeroGroups(p + "." + x) == p + KeptGroups(x)
  {
    var s := p + "." + x;
    assert s[|s| - 3..] == x[6..];
    assert s[..|s| - 3] == p + "." + x[..6];
    var s1 := p + "." + x[..6];
    assert s1[|s1| - 3..] == x[3..6];
    assert s1[..|s1| - 3] == p + "." + x[..3];
    var s2 := p + "." + x[..3];
    assert s2[|s2| - 4..] == "." + x[..3];
    assert ("." + x[..3])[1..] == x[..3];
    assert s2[|s2| - 4..] != ".000";
    assert TrimSuffix(s, "000") == s1;
    assert TrimSuffix(s1, "000") == s2;
    assert KeptGroups(x) == "." + x[..3];
    assert s2 == p + ("." + x[..3]);
  }

  lemma {:induction false} TrimAllZeros(p: string, x: string)
    requires |x| == 9 && x[6..] == "000" && x[3..6] == "000" && x[..3] == "000"
    ensures TrimZeroGroups(p + "." + x) == p + KeptGroups(x)
  {
    var s := p + "." + x;
    assert s[|s| - 3..] == x[6..];
    assert s[..|s| - 3] == p + "." + x[..6];
    var s1 := p + "." + x[..6];
    assert s1[|s1| - 3..] == x[3..6];
    assert s1[..|s1| - 3] == p + "." + x[..3];
    var s2 := p + "." + x[..3];
    assert s2[|s2| - 4..] == ".000";
    assert s2[..|s2| - 4] == p;
    assert TrimSuffix(s, "000") == s1;
    assert TrimSuffix(s1, "000") == s2;
    assert KeptGroups(x) == "";
    assert p + "" == p;
  }

  lemma {:induction false} TrimGroups(p: string, x: string)
    requires |x| == 9 && AllDigits(x)
    ensures TrimZeroGroups(p + "." + x) == p + KeptGroups(x)
  {
    if x[6..] != "000" {
      TrimNineDigits(p, x);
    } else if x[3..6] != "000" {
      TrimSixDigits(p, x);
    } else if x[..3] != "000" {
      TrimThreeDigits(p, x);
    } else {
      TrimAllZeros(p, x);
    }
  }

  /** The last group of three digits of a padded numeral, and what precedes it. */
  lemma {:induction false} SplitLastGroup(n: nat, w: nat)
    requires 3 < w && n < Pow10(w)
    ensures var x := Pad(n, w);
      |x| == w && x[..w - 3] == Pad(n / 1000, w - 3) && (x[w - 3..] == "000" <==> n % 1000 == 0)
  {
    LastThree(Pad(n, w));
    DropLastThree(n, w);
  }

  /** The nine digits of `nanos`, read in groups of three. */
  lemma {:induction false} NanosGroups(nanos: nat)
    requires nanos < 1_000_000_000
    ensures var x := Pad(nanos, 9);
      |x| == 9 &&
      (x[6..] == "000" <==> nanos % 1000 == 0) &&
      (x[3..6] == "000" <==> (nanos / 1000) % 1000 == 0) &&
      (x[..3] == "000" <==> (nanos / 1000) / 1000 == 0)
  {
    var x := Pad(nanos, 9);
    assert Pow10(9) == 1_000_000_000 && Pow10(6) == 1_000_000;
    SplitLastGroup(nanos, 9);
    var m := nanos / 1000;
    var y := Pad(m, 6);
    assert m < 1_000_000;
    SplitLastGroup(m, 6);
    ZeroGroup(y[..3]);
    assert x[3..6] == y[3..] && x[..3] == y[..3];
  }

  lemma {:induction false} FractionGroups(nanos: nat)
    requires nanos < 1_000_000_000
    ensures Fraction(nanos) == KeptGroups(Pad(nanos, 9))
  {
    var x := Pad(nanos, 9);
    NanosGroups(nanos);
    Thousands(nanos);
    if nanos == 0 {
    } else if nanos % 1000 != 0 {
      assert KeptGroups(x) == "." + x;
    } else if (nanos / 1000) % 1000 != 0 {
      assert x[..6] == Pad(nanos / 1000, 6) by {
        assert Pow10(9) == 1_000_000_000;
        SplitLastGroup(nanos, 9);
      }
      assert KeptGroups(x) == "." + x[..6];
    } else {
      assert x[..3] == Pad(nanos / 1_000_000, 3) by {
        assert Pow10(9) == 1_000_000_000 && Pow10(6) == 1_000_000;
        SplitLastGroup(nanos, 9);
        SplitLastGroup(nanos / 1000, 6);
        assert x[..3] == x[..6][..3];
      }
      assert KeptGroups(x) == "." + x[..3];
    }
  }

  /** Printing '.' and nine zero-padded digits and then trimming "000", "000"
      and ".000" from the end, as the Duration and Timestamp encoders do,
      leaves exactly `Fraction`. */
  lemma {:induction false} TrimmedFraction(p: string, nanos: nat)
    requires nanos < 1_000_000_000
    ensures TrimZeroGroups(p + "." + Pad(nanos, 9)) == p + Fraction(nanos)
  {
    NanosGroups(nanos);
    TrimGroups(p, Pad(nanos, 9));
    FractionGroups(nanos);
  }

  /** A numeral followed by a fractional part splits in only one way: the
      digits run up to the '.' or to the end. */
  lemma {:induction false} NumeralSplit(d1: string, f1: string, d2: string, f2: string)
    requires 1 <= |d1| && 1 <= |d2| && AllDigits(d1) && AllDigits(d2)
    requires IsFraction(f1) && IsFraction(f2)
    requires d1 + f1 == d2 + f2
    ensures d1 == d2 && f1 == f2
  {
    assert d1 == (d1 + f1)[..|d1|] && d2 == (d2 + f2)[..|d2|];
    assert f1 == (d1 + f1)[|d1|..] && f2 == (d2 + f2)[|d2|..];
  }

  /** A fractional part names its nanoseconds exactly. */
  lemma {:induction false} FractionInjective(a: nat, b: nat)
    requires a < 1_000_000_000 && b < 1_000_000_000 && Fraction(a) == Fraction(b)
    ensures a == b
  {
    FractionDenotes(a);
    FractionDenotes(b);
  }

  /** A numeral names its number exactly. */
  lemma {:induction false} DigitsInjective(a: nat, b: nat)
    requires Digits(a) == Digits(b)
    ensures a == b
  {
  }
}
