/**
  Identifier case conversions of protobuf names (strings.go).

  Each converter is specified position by position: for every input position
  there is a "piece" (zero, one or two characters) that the converter emits for
  it, and the output is the concatenation of the pieces in input order. The
  methods are the source's loops; each is proved to produce exactly that
  concatenation. The lemmas then state the length, character and round-trip
  laws of the conversions.

  Strings are sequences of characters. The source walks the bytes of a UTF-8
  string, but every rule tests only ASCII characters and no byte of a non-ASCII
  character is ASCII, so walking characters gives the same result.
*/
module Strs {

  predicate IsASCIILower(c: char) { 'a' <= c <= 'z' }
  predicate IsASCIIUpper(c: char) { 'A' <= c <= 'Z' }
  predicate IsASCIIDigit(c: char) { '0' <= c <= '9' }

  /** The three classes are exactly the 26 lower-case letters, the 26
      upper-case letters and the ten digits, and no character is in two. */
  lemma ASCIIClasses(c: char)
    ensures IsASCIILower(c) <==> c in "abcdefghijklmnopqrstuvwxyz"
    ensures IsASCIIUpper(c) <==> c in "ABCDEFGHIJKLMNOPQRSTUVWXYZ"
    ensures IsASCIIDigit(c) <==> c in "0123456789"
    ensures !(IsASCIILower(c) && IsASCIIUpper(c)) && !(IsASCIILower(c) && IsASCIIDigit(c))
    ensures !(IsASCIIUpper(c) && IsASCIIDigit(c))
  {
  }

  function ToUpper(c: char): (u: char)
    requires IsASCIILower(c)
    ensures IsASCIIUpper(u) && u as int == c as int - 32
  {
    (c as int - ('a' as int - 'A' as int)) as char
  }

  function ToLower(c: char): (l: char)
    requires IsASCIIUpper(c)
    ensures IsASCIILower(l) && ToUpper(l) == c && l as int == c as int + 32
  {
    (c as int + ('a' as int - 'A' as int)) as char
  }

  /** Number of occurrences of `c` in `s`. */
  function Occurrences(s: string, c: char): nat
  {
    if s == [] then 0 else Occurrences(s[..|s| - 1], c) + (if s[|s| - 1] == c then 1 else 0)
  }

  /** Number of upper-case ASCII letters in `s`. */
  function UpperCount(s: string): nat
  {
    if s == [] then 0 else UpperCount(s[..|s| - 1]) + (if IsASCIIUpper(s[|s| - 1]) then 1 else 0)
  }

  predicate NoUpper(s: string)
  {
    forall i :: 0 <= i < |s| ==> !IsASCIIUpper(s[i])
  }

  /** Position `k` holds a '_' that is not followed by a lower-case letter. */
  predicate Stray(s: string, k: nat)
    requires k < |s|
  {
    s[k] == '_' && !(k + 1 < |s| && IsASCIILower(s[k + 1]))
  }

  /** Every '_' of `s` is immediately followed by a lower-case ASCII letter. */
  predicate UnderscoresPrecedeLower(s: string)
  {
    forall k :: 0 <= k < |s| ==> !Stray(s, k)
  }

  /** `parts` joined with `sep` between consecutive elements (strings.Join). */
  function Join(parts: seq<string>, sep: char): string
  {
    if |parts| == 0 then ""
    else if |parts| == 1 then parts[0]
    else parts[0] + [sep] + Join(parts[1..], sep)
  }

  // ---------------------------------------------------------------------------
  // JSONCamelCase

  /** What JSONCamelCase emits for input position `i`: nothing for '_', the
      upper-case form of a lower-case letter that follows a '_', and the
      character itself otherwise. */
  function CamelPiece(s: string, i: nat): string
    requires i < |s|
  {
    if s[i] == '_' then ""
    else if i > 0 && s[i - 1] == '_' && IsASCIILower(s[i]) then [ToUpper(s[i])]
    else [s[i]]
  }

  /** The pieces of the first `n` positions of `s`, in order. */
  function CamelPrefix(s: string, n: nat): string
    requires n <= |s|
  {
    if n == 0 then "" else CamelPrefix(s, n - 1) + CamelPiece(s, n - 1)
  }

  /** The camelCase form of a snake_case identifier. */
  function Camel(s: string): string
  {
    CamelPrefix(s, |s|)
  }

  /** strings.go JSONCamelCase: one pass with a flag remembering whether the
      previous character was '_'. */
  method JSONCamelCase(s: string) returns (r: string)
    ensures r == Camel(s)
  {
    var b := "";
    var wasUnderscore := false;
    var i := 0;
    while i < |s|
      invariant 0 <= i <= |s|
      invariant b == CamelPrefix(s, i)
      invariant wasUnderscore == (i > 0 && s[i - 1] == '_')
    {
      var c := s[i];
      if c != '_' {
        if wasUnderscore && IsASCIILower(c) {
          c := ToUpper(c);
        }
        b := b + [c];
      }
      wasUnderscore := c == '_';
      i := i + 1;
    }
    r := b;
  }

  // ---------------------------------------------------------------------------
  // JSONSnakeCase

  /** What JSONSnakeCase emits for one character. */
  function SnakePiece(c: char): string
  {
    if IsASCIIUpper(c) then ['_', ToLower(c)] else [c]
  }

  /** The snake_case form of a camelCase identifier. */
  function Snake(s: string): string
  {
    if s == [] then "" else Snake(s[..|s| - 1]) + SnakePiece(s[|s| - 1])
  }

  /** strings.go JSONSnakeCase. */
  method JSONSnakeCase(s: string) returns (r: string)
    ensures r == Snake(s)
  {
    var b := "";
    var i := 0;
    while i < |s|
      invariant 0 <= i <= |s|
      invariant b == Snake(s[..i])
    {
      var c := s[i];
      assert s[..i + 1][..i] == s[..i];
      if IsASCIIUpper(c) {
        b := b + ['_'];
        c := ToLower(c);
      }
      b := b + [c];
      i := i + 1;
    }
    assert s[..|s|] == s;
    r := b;
  }

  // ---------------------------------------------------------------------------
  // GoCamelCase

  /** Position `i` of `s` starts a word: it is the first position, or follows
      '_', '.' or a digit. */
  predicate WordStart(s: string, i: nat)
    requires i < |s|
  {
    i == 0 || s[i - 1] == '_' || s[i - 1] == '.' || IsASCIIDigit(s[i - 1])
  }

  /** What GoCamelCase emits for input position `i`. */
  function GoPiece(s: string, i: nat): string
    requires i < |s|
  {
    var nextLower := i + 1 < |s| && IsASCIILower(s[i + 1]);
    if s[i] == '.' then (if nextLower then "" else "_")
    else if s[i] == '_' then
      (if i == 0 || s[i - 1] == '.' then "X" else if nextLower then "" else "_")
    else if IsASCIILower(s[i]) && WordStart(s, i) then [ToUpper(s[i])]
    else [s[i]]
  }

  function GoPrefix(s: string, n: nat): string
    requires n <= |s|
  {
    if n == 0 then "" else GoPrefix(s, n - 1) + GoPiece(s, n - 1)
  }

  /** The Go identifier form of a protobuf name. */
  function GoCamel(s: string): string
  {
    GoPrefix(s, |s|)
  }

  /** strings.go GoCamelCase: a word-at-a-time pass whose inner loop copies
      the run of lower-case letters that follows the first letter of a word. */
  method GoCamelCase(s: string) returns (r: string)
    ensures r == GoCamel(s)
  {
    var b := "";
    var i := 0;
    while i < |s|
      invariant 0 <= i <= |s|
      invariant b == GoPrefix(s, i)
      invariant i < |s| && IsASCIILower(s[i]) ==> WordStart(s, i)
    {
      var c := s[i];
      if c == '.' && i + 1 < |s| && IsASCIILower(s[i + 1]) {
        // a '.' before a lower-case letter is dropped
        assert GoPiece(s, i) == "";
      } else if c == '.' {
        assert GoPiece(s, i) == "_";
        b := b + ['_'];
      } else if c == '_' && (i == 0 || s[i - 1] == '.') {
        assert GoPiece(s, i) == "X";
        b := b + ['X'];
      } else if c == '_' && i + 1 < |s| && IsASCIILower(s[i + 1]) {
        // a '_' before a lower-case letter is dropped
        assert GoPiece(s, i) == "";
      } else if IsASCIIDigit(c) {
        assert GoPiece(s, i) == [c];
        b := b + [c];
      } else {
        if IsASCIILower(c) {
          c := ToUpper(c);
        }
        assert GoPiece(s, i) == [c];
        b := b + [c];
        while i + 1 < |s| && IsASCIILower(s[i + 1])
          invariant 0 <= i < |s|
          invariant b == GoPrefix(s, i + 1)
          invariant i + 1 < |s| && IsASCIILower(s[i + 1]) ==> !WordStart(s, i + 1)
          decreases |s| - i
        {
          assert GoPiece(s, i + 1) == [s[i + 1]];
          b := b + [s[i + 1]];
          i := i + 1;
        }
      }
      i := i + 1;
    }
    r := b;
  }

  // ---------------------------------------------------------------------------
  // Identifiers

  predicate IsIdentStart(c: char) { c == '_' || IsASCIILower(c) || IsASCIIUpper(c) }
  predicate IsIdentChar(c: char) { IsIdentStart(c) || IsASCIIDigit(c) }

  /** A protobuf full name: one or more identifiers ([A-Za-z_][A-Za-z0-9_]*)
      separated by single dots. */
  predicate IsValidFullName(s: string)
  {
    |s| > 0 && IsIdentStart(s[0]) && forall i :: 0 <= i < |s| ==> NamePosition(s, i)
  }

  /** Position `i` of a name holds an identifier character, or a dot that is
      followed by the first character of the next identifier. */
  predicate NamePosition(s: string, i: nat)
    requires i < |s|
  {
    IsIdentChar(s[i]) || (s[i] == '.' && i + 1 < |s| && IsIdentStart(s[i + 1]))
  }

  /** An exported Go identifier made of ASCII letters, digits and '_'. */
  predicate IsExportedGoIdent(t: string)
  {
    |t| > 0 && IsASCIIUpper(t[0]) && forall i :: 0 <= i < |t| ==> IsIdentChar(t[i])
  }

  // ---------------------------------------------------------------------------
  // Laws of JSONSnakeCase

  lemma {:induction false} SnakeConcat(a: string, b: string)
    ensures Snake(a + b) == Snake(a) + Snake(b)
    decreases |b|
  {
    if b == [] {
      assert a + b == a;
    } else {
      var b' := b[..|b| - 1];
      assert (a + b)[..|a + b| - 1] == a + b';
      SnakeConcat(a, b');
    }
  }

  /** JSONSnakeCase leaves no upper-case letter, and each upper-case letter of
      the input costs one extra character (its '_'). */
  lemma {:induction false} SnakeShape(s: string)
    ensures NoUpper(Snake(s))
    ensures |Snake(s)| == |s| + UpperCount(s)
  {
    if s != [] {
      SnakeShape(s[..|s| - 1]);
    }
  }

  lemma SnakeSingle(c: char)
    ensures Snake([c]) == SnakePiece(c)
  {
    assert [c][..0] == [];
  }

  // ---------------------------------------------------------------------------
  // Laws of JSONCamelCase

  /** The pieces of the first `n` positions depend on those positions only. */
  lemma {:induction false} CamelPrefixAgree(s: string, t: string, n: nat)
    requires n <= |s| && n <= |t| && s[..n] == t[..n]
    ensures CamelPrefix(s, n) == CamelPrefix(t, n)
  {
    if n > 0 {
      assert s[..n - 1] == s[..n][..n - 1] && t[..n - 1] == t[..n][..n - 1];
      CamelPrefixAgree(s, t, n - 1);
      assert s[n - 1] == s[..n][n - 1] && t[n - 1] == t[..n][n - 1];
      if n > 1 {
        assert s[n - 2] == s[..n][n - 2] && t[n - 2] == t[..n][n - 2];
      }
    }
  }

  lemma {:induction false} CamelPrefixShape(s: string, n: nat)
    requires n <= |s|
    ensures '_' !in CamelPrefix(s, n)
    ensures |CamelPrefix(s, n)| == n - Occurrences(s[..n], '_')
  {
    if n > 0 {
      CamelPrefixShape(s, n - 1);
      assert s[..n][..n - 1] == s[..n - 1];
    }
  }

  /** JSONCamelCase drops every '_' and changes nothing else in number. */
  lemma CamelShape(s: string)
    ensures '_' !in Camel(s)
    ensures |Camel(s)| == |s| - Occurrences(s, '_')
  {
    CamelPrefixShape(s, |s|);
    assert s[..|s|] == s;
  }

  // ---------------------------------------------------------------------------
  // Round trips between the two JSON conversions

  lemma SnakeOfCamelPiece(s: string, i: nat)
    requires i < |s| && !IsASCIIUpper(s[i])
    requires i > 0 && s[i - 1] == '_' && s[i] != '_' ==> IsASCIILower(s[i])
    ensures Snake(CamelPiece(s, i)) ==
      if s[i] == '_' then "" else if i > 0 && s[i - 1] == '_' then ['_', s[i]] else [s[i]]
  {
    if s[i] != '_' {
      if i > 0 && s[i - 1] == '_' {
        SnakeSingle(ToUpper(s[i]));
      } else {
        SnakeSingle(s[i]);
      }
    }
  }

  /** One position of the round trip JSONSnakeCase(JSONCamelCase(s)) == s. */
  lemma SnakeCamelStep(s: string, i: nat)
    requires i < |s| && !IsASCIIUpper(s[i])
    requires i > 0 ==> !Stray(s, i - 1)
    requires Snake(CamelPrefix(s, i)) == if i > 0 && s[i - 1] == '_' then s[..i - 1] else s[..i]
    ensures Snake(CamelPrefix(s, i + 1)) == if s[i] == '_' then s[..i] else s[..i + 1]
  {
    var prev, piece := CamelPrefix(s, i), CamelPiece(s, i);
    assert Snake(CamelPrefix(s, i + 1)) == Snake(prev) + Snake(piece) by {
      SnakeConcat(prev, piece);
    }
    SnakeOfCamelPiece(s, i);
    if s[i] == '_' {
      assert Snake(piece) == [];
      assert Snake(prev) == s[..i];
    } else if i > 0 && s[i - 1] == '_' {
      assert Snake(piece) == ['_', s[i]] && Snake(prev) == s[..i - 1];
      PrefixExtend(s, i - 1, 2);
    } else {
      assert Snake(piece) == [s[i]] && Snake(prev) == s[..i];
      PrefixExtend(s, i, 1);
    }
  }

  lemma PrefixExtend(s: string, i: nat, k: nat)
    requires i + k <= |s| && 1 <= k <= 2
    ensures s[..i + k] == s[..i] + (if k == 1 then [s[i]] else [s[i], s[i + 1]])
  {
  }

  lemma {:induction false} SnakeCamelPrefix(s: string, n: nat)
    requires n <= |s| && NoUpper(s) && UnderscoresPrecedeLower(s)
    ensures Snake(CamelPrefix(s, n)) == if n > 0 && s[n - 1] == '_' then s[..n - 1] else s[..n]
  {
    if n > 0 {
      SnakeCamelPrefix(s, n - 1);
      assert !IsASCIIUpper(s[n - 1]);
      assert n > 1 ==> !Stray(s, n - 2);
      SnakeCamelStep(s, n - 1);
    }
  }

  /** Positions k < n holding a lower-case letter right after a '_'. */
  ghost function Raised(s: string, n: nat): nat
    requires n <= |s|
  {
    if n == 0 then 0
    else Raised(s, n - 1) + (if n >= 2 && s[n - 2] == '_' && IsASCIILower(s[n - 1]) then 1 else 0)
  }

  ghost function Strays(s: string, n: nat): nat
    requires n <= |s|
  {
    if n == 0 then 0 else Strays(s, n - 1) + (if Stray(s, n - 1) then 1 else 0)
  }

  lemma {:induction false} UpperCountConcat(a: string, b: string)
    ensures UpperCount(a + b) == UpperCount(a) + UpperCount(b)
    decreases |b|
  {
    if b == [] {
      assert a + b == a;
    } else {
      var b' := b[..|b| - 1];
      assert (a + b)[..|a + b| - 1] == a + b';
      UpperCountConcat(a, b');
    }
  }

  lemma {:induction false} CamelPrefixUppers(s: string, n: nat)
    requires n <= |s| && NoUpper(s)
    ensures UpperCount(CamelPrefix(s, n)) == Raised(s, n)
  {
    if n > 0 {
      CamelPrefixUppers(s, n - 1);
      var prev, p := CamelPrefix(s, n - 1), CamelPiece(s, n - 1);
      assert CamelPrefix(s, n) == prev + p;
      UpperCountConcat(prev, p);
      assert !IsASCIIUpper(s[n - 1]);
      PieceUppers(s, n - 1);
    }
  }

  lemma PieceUppers(s: string, i: nat)
    requires i < |s| && !IsASCIIUpper(s[i])
    ensures UpperCount(CamelPiece(s, i)) == if i >= 1 && s[i - 1] == '_' && IsASCIILower(s[i]) then 1 else 0
  {
    var p := CamelPiece(s, i);
    if p != "" {
      assert p[..0] == [];
    }
  }

  /** Every '_' before position n is either paired with the lower-case letter
      after it or stray. */
  lemma {:induction false} UnderscoreSplit(s: string, n: nat)
    requires n <= |s|
    ensures Occurrences(s[..n], '_') ==
      Raised(s, n) + Strays(s, n) + (if 0 < n < |s| && s[n - 1] == '_' && IsASCIILower(s[n]) then 1 else 0)
  {
    if n > 0 {
      UnderscoreSplit(s, n - 1);
      assert s[..n][..n - 1] == s[..n - 1];
    }
  }

  lemma {:induction false} NoStrays(s: string, n: nat)
    requires n <= |s| && Strays(s, n) == 0
    ensures forall k :: 0 <= k < n ==> !Stray(s, k)
  {
    if n > 0 {
      NoStrays(s, n - 1);
    }
  }

  /** The reversibility check of the field-mask encoder accepts exactly the
      strings without upper-case letters in which every '_' is followed by a
      lower-case letter. */
  lemma SnakeCamelRoundTrip(s: string)
    ensures Snake(Camel(s)) == s <==> NoUpper(s) && UnderscoresPrecedeLower(s)
  {
    assert s[..|s|] == s;
    if NoUpper(s) && UnderscoresPrecedeLower(s) {
      SnakeCamelPrefix(s, |s|);
      if |s| > 0 {
        assert !Stray(s, |s| - 1);
      }
    }
    if Snake(Camel(s)) == s {
      SnakeShape(Camel(s));
      CamelShape(s);
      CamelPrefixUppers(s, |s|);
      UnderscoreSplit(s, |s|);
      NoStrays(s, |s|);
    }
  }

  /** "foo__bar" and "foo_" are not reversible: each holds a stray '_'
      (the second of two, and a trailing one). */
  lemma StrayUnderscoreIrreversible()
    ensures Snake(Camel("foo__bar")) != "foo__bar"
    ensures Snake(Camel("foo_")) != "foo_"
  {
    SnakeCamelRoundTrip("foo__bar");
    assert Stray("foo__bar", 3);
    SnakeCamelRoundTrip("foo_");
    assert Stray("foo_", 3);
  }

  /** "foo_bar" is reversible. */
  lemma SnakeNameReversible()
    ensures Snake(Camel("foo_bar")) == "foo_bar"
  {
    var c := "foo_bar";
    SnakeCamelRoundTrip(c);
    assert NoUpper(c);
    forall k | 0 <= k < |c| ensures !Stray(c, k) {
      assert c[k] == '_' ==> k == 3;
    }
  }

  /** Appending a character other than '_' after a string that does not end
      in '_' appends that character to the camelCase form. */
  lemma CamelAppendPlain(t: string, x: char)
    requires x != '_' && (t == [] || t[|t| - 1] != '_')
    ensures Camel(t + [x]) == Camel(t) + [x]
  {
    var t' := t + [x];
    assert t'[..|t|] == t[..|t|] && t[..|t|] == t;
    CamelPrefixAgree(t', t, |t|);
    assert CamelPiece(t', |t|) == [x];
  }

  /** Appending '_' and a lower-case letter appends the upper-case letter. */
  lemma CamelAppendRaised(t: string, x: char)
    requires IsASCIIUpper(x)
    ensures Camel(t + ['_', ToLower(x)]) == Camel(t) + [x]
  {
    var t' := t + ['_', ToLower(x)];
    assert t'[..|t|] == t[..|t|] && t[..|t|] == t;
    CamelPrefixAgree(t', t, |t|);
    assert CamelPiece(t', |t|) == "";
    assert CamelPiece(t', |t| + 1) == [x];
    assert CamelPrefix(t', |t| + 2) == CamelPrefix(t', |t|) + CamelPiece(t', |t|) + CamelPiece(t', |t| + 1);
  }

  lemma {:induction false} CamelSnakePrefix(c: string, n: nat)
    requires n <= |c| && '_' !in c
    ensures Camel(Snake(c[..n])) == c[..n]
    ensures Snake(c[..n]) == [] || Snake(c[..n])[|Snake(c[..n])| - 1] != '_'
  {
    if n > 0 {
      var p := c[..n - 1];
      var x := c[n - 1];
      assert c[..n][..n - 1] == p;
      assert c[..n] == p + [x];
      CamelSnakePrefix(c, n - 1);
      var t := Snake(p);
      assert Snake(c[..n]) == t + SnakePiece(x);
      if IsASCIIUpper(x) {
        CamelAppendRaised(t, x);
      } else {
        CamelAppendPlain(t, x);
      }
    }
  }

  /** JSONCamelCase undoes JSONSnakeCase on every string without '_'. */
  lemma CamelSnakeRoundTrip(c: string)
    requires '_' !in c
    ensures Camel(Snake(c)) == c
  {
    CamelSnakePrefix(c, |c|);
    assert c[..|c|] == c;
  }

  // ---------------------------------------------------------------------------
  // Dotted paths

  lemma {:induction false} CamelAcrossDot(a: string, b: string, k: nat)
    requires k <= |b|
    ensures CamelPrefix(a + "." + b, |a| + 1 + k) == Camel(a) + "." + CamelPrefix(b, k)
  {
    var s := a + "." + b;
    assert s[|a|] == '.' && s[|a| + 1..] == b;
    CamelAfterDot(s, |a| + 1, k);
    CamelUpToDot(a, b);
  }

  lemma {:induction false} CamelUpToDot(a: string, b: string)
    ensures CamelPrefix(a + "." + b, |a| + 1) == Camel(a) + "."
  {
    var s := a + "." + b;
    assert s[..|a|] == a[..|a|];
    CamelPrefixAgree(s, a, |a|);
    assert s[|a|] == '.';
  }

  /** After a '.', the conversion starts afresh: the positions after the
      '.' at m - 1 give the pieces they give in the rest of the string alone. */
  lemma {:induction false} CamelAfterDot(s: string, m: nat, k: nat)
    requires 1 <= m && m + k <= |s| && s[m - 1] == '.'
    ensures CamelPrefix(s, m + k) == CamelPrefix(s, m) + CamelPrefix(s[m..], k)
  {
    if k == 0 {
      assert CamelPrefix(s[m..], 0) == "";
      assert CamelPrefix(s, m) + "" == CamelPrefix(s, m);
    } else {
      CamelAfterDot(s, m, k - 1);
      CamelAfterDotStep(s, m, k);
    }
  }

  /** One more position after the '.'. */
  lemma CamelAfterDotStep(s: string, m: nat, k: nat)
    requires 1 <= m && 1 <= k && m + k <= |s| && s[m - 1] == '.'
    requires CamelPrefix(s, m + k - 1) == CamelPrefix(s, m) + CamelPrefix(s[m..], k - 1)
    ensures CamelPrefix(s, m + k) == CamelPrefix(s, m) + CamelPrefix(s[m..], k)
  {
    var t := s[m..];
    var p, q, c := CamelPrefix(s, m), CamelPrefix(t, k - 1), CamelPiece(t, k - 1);
    assert CamelPiece(s, m + k - 1) == c by {
      assert t[k - 1] == s[m + k - 1];
      assert k >= 2 ==> t[k - 2] == s[m + k - 2];
      CamelPieceAfterDot(s, t, m, k);
    }
    assert CamelPrefix(s, m + k) == (p + q) + c;
    assert CamelPrefix(t, k) == q + c;
  }

  /** One position after a '.': its piece depends only on it and on what
      follows the '.'. */
  lemma CamelPieceAfterDot(s: string, t: string, m: nat, k: nat)
    requires 1 <= m && 1 <= k && m + k <= |s| && k <= |t| && s[m - 1] == '.'
    requires t[k - 1] == s[m + k - 1] && (k >= 2 ==> t[k - 2] == s[m + k - 2])
    ensures CamelPiece(s, m + k - 1) == CamelPiece(t, k - 1)
  {
  }

  /** Neither conversion looks across or alters a '.'. */
  lemma ConvertAcrossDot(a: string, b: string)
    ensures Camel(a + "." + b) == Camel(a) + "." + Camel(b)
    ensures Snake(a + "." + b) == Snake(a) + "." + Snake(b)
  {
    assert Camel(a + "." + b) == Camel(a) + "." + Camel(b) by {
      CamelAcrossDot(a, b, |b|);
    }
    assert Snake(a + "." + b) == Snake(a) + "." + Snake(b) by {
      SnakeConcat(a + ".", b);
      SnakeConcat(a, ".");
      SnakeSingle('.');
    }
  }

  /** The camelCase form of each element. */
  function CamelEach(parts: seq<string>): (r: seq<string>)
    ensures |r| == |parts| && forall i :: 0 <= i < |parts| ==> r[i] == Camel(parts[i])
  {
    if parts == [] then [] else [Camel(parts[0])] + CamelEach(parts[1..])
  }

  /** The snake_case form of each element. */
  function SnakeEach(parts: seq<string>): (r: seq<string>)
    ensures |r| == |parts| && forall i :: 0 <= i < |parts| ==> r[i] == Snake(parts[i])
  {
    if parts == [] then [] else [Snake(parts[0])] + SnakeEach(parts[1..])
  }

  /** Converting a dotted path is converting each segment and rejoining. */
  lemma {:induction false} ConvertDottedPath(parts: seq<string>)
    ensures Camel(Join(parts, '.')) == Join(CamelEach(parts), '.')
    ensures Snake(Join(parts, '.')) == Join(SnakeEach(parts), '.')
  {
    if |parts| == 0 {
      assert Camel("") == "" && Snake("") == "";
    } else if |parts| == 1 {
    } else {
      ConvertDottedPath(parts[1..]);
      ConvertAcrossDot(parts[0], Join(parts[1..], '.'));
      assert CamelEach(parts)[1..] == CamelEach(parts[1..]);
      assert SnakeEach(parts)[1..] == SnakeEach(parts[1..]);
    }
  }

  // ---------------------------------------------------------------------------
  // Laws of GoCamelCase

  lemma {:induction false} GoPrefixShape(s: string, n: nat)
    requires n <= |s|
    ensures '.' !in GoPrefix(s, n) && |GoPrefix(s, n)| <= n
  {
    if n > 0 {
      GoPrefixShape(s, n - 1);
    }
  }

  /** GoCamelCase removes every '.' and never lengthens its input. */
  lemma GoCamelShape(s: string)
    ensures '.' !in GoCamel(s) && |GoCamel(s)| <= |s|
  {
    GoPrefixShape(s, |s|);
  }

  lemma {:induction false} GoPrefixOfName(s: string, n: nat)
    requires IsValidFullName(s) && 1 <= n <= |s|
    ensures |GoPrefix(s, n)| > 0 && IsASCIIUpper(GoPrefix(s, n)[0])
    ensures forall i :: 0 <= i < |GoPrefix(s, n)| ==> IsIdentChar(GoPrefix(s, n)[i])
  {
    if n == 1 {
      assert GoPrefix(s, 1) == GoPiece(s, 0);
      assert IsIdentStart(s[0]);
    } else {
      GoPrefixOfName(s, n - 1);
      GoPieceIdent(s, n - 1);
      var p, q := GoPrefix(s, n - 1), GoPiece(s, n - 1);
      assert GoPrefix(s, n) == p + q;
      forall i | 0 <= i < |p + q|
        ensures IsIdentChar((p + q)[i])
      {
        if i < |p| {
          assert (p + q)[i] == p[i];
        } else {
          assert (p + q)[i] == q[i - |p|];
        }
      }
    }
  }

  /** On a valid name, GoCamelCase emits only identifier characters. */
  lemma GoPieceIdent(s: string, i: nat)
    requires IsValidFullName(s) && i < |s|
    ensures forall k :: 0 <= k < |GoPiece(s, i)| ==> IsIdentChar(GoPiece(s, i)[k])
  {
    assert NamePosition(s, i);
  }

  /** GoCamelCase turns a valid protobuf full name into an exported Go
      identifier. */
  lemma GoCamelIsExportedIdent(s: string)
    requires IsValidFullName(s)
    ensures IsExportedGoIdent(GoCamel(s))
  {
    GoPrefixOfName(s, |s|);
  }
}
