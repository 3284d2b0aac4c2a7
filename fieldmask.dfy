/**
  The FieldMask encoder (well_known_types.go:268-293): every path must be a
  valid protobuf name whose camelCase form converts back to the same path;
  the converted paths are joined with ','.
*/
module FieldMasks {
  import opened Encoding
  import opened Strs

  /** Why one path is refused, if it is. */
  function PathError(p: string): Option<Error>
  {
    if !IsValidFullName(p) then Some(FieldMaskInvalidPath(p))
    else if Snake(Camel(p)) != p then Some(FieldMaskIrreversiblePath(p))
    else None
  }

  /** The error for the first refused path, or None when every path is accepted. */
  function FieldMaskError(paths: seq<string>): Option<Error>
  {
    if paths == [] then None
    else if PathError(paths[0]).Some? then PathError(paths[0])
    else FieldMaskError(paths[1..])
  }

  /** What the FieldMask encoder writes and returns. */
  function EncodeFieldMask(paths: seq<string>): (w: Written)
    ensures StringOrNothing(w)
    ensures w.err.None? ==> '_' !in w.tokens[0].text
  {
    match FieldMaskError(paths)
    case Some(err) => Refuse(err)
    case None =>
      var cs := CamelEach(paths);
      forall i | 0 <= i < |cs| ensures '_' !in cs[i] {
        CamelShape(paths[i]);
      }
      JoinAvoids(cs, ',', '_');
      Text(Join(cs, ','))
  }

  /** Joining parts that lack a character other than the separator gives a
      text that lacks it too. */
  lemma {:induction false} JoinAvoids(xs: seq<string>, sep: char, c: char)
    requires c != sep && forall i :: 0 <= i < |xs| ==> c !in xs[i]
    ensures c !in Join(xs, sep)
    decreases |xs|
  {
    if |xs| > 1 {
      JoinAvoids(xs[1..], sep, c);
      assert Join(xs, sep) == xs[0] + [sep] + Join(xs[1..], sep);
    }
  }

  /** The encoder step by step: each path is checked and converted in turn,
      the first refused path ends the loop with nothing written, and the
      converted paths are written joined with ','. */
  method MarshalFieldMask(e: Encoder, paths: seq<string>) returns (err: Option<Error>)
    modifies e
    ensures e.tokens == old(e.tokens) + EncodeFieldMask(paths).tokens
    ensures err == EncodeFieldMask(paths).err
  {
    var converted: seq<string> := [];
    var i := 0;
    while i < |paths|
      invariant 0 <= i <= |paths|
      invariant converted == CamelEach(paths[..i])
      invariant FieldMaskError(paths) == FieldMaskError(paths[i..])
      invariant e.tokens == old(e.tokens)
    {
      var cc, pathErr := CheckPath(paths[i]);
      if pathErr.Some? {
        FieldMaskRefused(paths, i);
        assert e.tokens == old(e.tokens) + [];
        return pathErr;
      }
      FieldMaskAdvance(paths, i);
      converted := converted + [cc];
      i := i + 1;
    }
    FieldMaskDone(paths);
    e.WriteString(Join(converted, ','));
    return None;
  }

  /** The check and conversion of one path: it must be a valid name, and
      its camelCase form must convert back to it. */
  method CheckPath(s: string) returns (cc: string, err: Option<Error>)
    ensures err == PathError(s)
    ensures err.None? ==> cc == Camel(s)
  {
    cc := "";
    if !IsValidFullName(s) {
      return cc, Some(FieldMaskInvalidPath(s));
    }
    cc := JSONCamelCase(s);
    var back := JSONSnakeCase(cc);
    if s != back {
      return cc, Some(FieldMaskIrreversiblePath(s));
    }
    return cc, None;
  }

  /** An accepted path passes the decision on to the next one, and its
      camelCase form is the next converted path. */
  lemma {:induction false} FieldMaskAdvance(paths: seq<string>, i: nat)
    requires i < |paths| && PathError(paths[i]).None?
    ensures FieldMaskError(paths[i..]) == FieldMaskError(paths[i + 1..])
    ensures CamelEach(paths[..i + 1]) == CamelEach(paths[..i]) + [Camel(paths[i])]
  {
    assert paths[i..][0] == paths[i] && paths[i..][1..] == paths[i + 1..];
    assert paths[..i + 1] == paths[..i] + [paths[i]];
    CamelEachAppend(paths[..i], paths[i]);
  }

  /** A refused path, with every earlier path accepted, decides the outcome. */
  lemma {:induction false} FieldMaskRefused(paths: seq<string>, i: nat)
    requires i < |paths| && FieldMaskError(paths) == FieldMaskError(paths[i..])
    requires PathError(paths[i]).Some?
    ensures EncodeFieldMask(paths) == Refuse(PathError(paths[i]).value)
  {
    assert paths[i..][0] == paths[i];
  }

  /** With every path accepted, the converted paths are written. */
  lemma {:induction false} FieldMaskDone(paths: seq<string>)
    requires FieldMaskError(paths) == FieldMaskError(paths[|paths|..])
    ensures EncodeFieldMask(paths) == Text(Join(CamelEach(paths[..|paths|]), ','))
  {
    assert paths[..|paths|] == paths && paths[|paths|..] == [];
  }

  lemma {:induction false} CamelEachAppend(xs: seq<string>, x: string)
    ensures CamelEach(xs + [x]) == CamelEach(xs) + [Camel(x)]
  {
  }

  // ---------------------------------------------------------------------------
  // Which masks are accepted

  /** A path is accepted exactly when it is a valid name, has no upper-case
      letter, and each of its '_' is followed by a lower-case letter. */
  lemma {:induction false} PathAccepted(p: string)
    ensures PathError(p).None? <==> IsValidFullName(p) && NoUpper(p) && UnderscoresPrecedeLower(p)
  {
    SnakeCamelRoundTrip(p);
  }

  /** A mask is accepted exactly when each of its paths is. */
  lemma {:induction false} FieldMaskAccepted(paths: seq<string>)
    ensures FieldMaskError(paths).None? <==> forall i :: 0 <= i < |paths| ==> PathError(paths[i]).None?
  {
    if paths != [] {
      FieldMaskAccepted(paths[1..]);
      assert forall i :: 1 <= i < |paths| ==> paths[i] == paths[1..][i - 1];
    }
  }

  /** A refused mask is refused for its first refused path, with that path's error. */
  lemma {:induction false} FieldMaskFirstError(paths: seq<string>)
    requires FieldMaskError(paths).Some?
    ensures exists i :: (0 <= i < |paths| && FieldMaskError(paths) == PathError(paths[i])
                         && forall j :: 0 <= j < i ==> PathError(paths[j]).None?)
  {
    if PathError(paths[0]).None? {
      FieldMaskFirstError(paths[1..]);
      var i :| 0 <= i < |paths[1..]| && FieldMaskError(paths[1..]) == PathError(paths[1..][i])
        && forall j :: 0 <= j < i ==> PathError(paths[1..][j]).None?;
      assert forall j :: 1 <= j < i + 1 ==> paths[j] == paths[1..][j - 1];
      assert FieldMaskError(paths) == PathError(paths[i + 1]);
    } else {
      assert FieldMaskError(paths) == PathError(paths[0]);
    }
  }

  /** The empty mask is the empty string. */
  lemma EmptyFieldMask()
    ensures EncodeFieldMask([]) == Written([Str("")], None)
  {
  }

  /** "a..b" is not a valid name; "foo_" is valid but not reversible. */
  lemma FieldMaskRefusals()
    ensures EncodeFieldMask(["a..b"]) == Written([], Some(FieldMaskInvalidPath("a..b")))
    ensures EncodeFieldMask(["foo_"]) == Written([], Some(FieldMaskIrreversiblePath("foo_")))
  {
    assert !IsValidFullName("a..b") by {
      assert !NamePosition("a..b", 1) by {
        assert !IsIdentChar("a..b"[1]) && !IsIdentStart("a..b"[2]);
      }
    }
    assert IsValidFullName("foo_") by {
      var s := "foo_";
      assert |s| == 4 && s[0] == 'f' && s[1] == 'o' && s[2] == 'o' && s[3] == '_';
      assert NamePosition(s, 0) && NamePosition(s, 1) && NamePosition(s, 2) && NamePosition(s, 3);
    }
    StrayUnderscoreIrreversible();
  }

  // ---------------------------------------------------------------------------
  // The encoding is lossless

  /** The first position of `c` in `s`. */
  ghost function IndexOf(s: string, c: char): (i: nat)
    requires c in s
    ensures i < |s| && s[i] == c && c !in s[..i]
  {
    if s[0] == c then 0 else
      assert s == [s[0]] + s[1..];
      var i := IndexOf(s[1..], c);
      assert s[..i + 1] == [s[0]] + s[1..][..i];
      i + 1
  }

  /** strings.Split: the pieces of `s` between occurrences of `sep`. */
  ghost function Split(s: string, sep: char): seq<string>
    decreases |s|
  {
    if sep !in s then [s] else
      var i := IndexOf(s, sep);
      [s[..i]] + Split(s[i + 1..], sep)
  }

  /** Splitting undoes joining when no part holds the separator. */
  lemma {:induction false} SplitJoin(xs: seq<string>, sep: char)
    requires |xs| > 0 && forall i :: 0 <= i < |xs| ==> sep !in xs[i]
    ensures Split(Join(xs, sep), sep) == xs
  {
    if |xs| > 1 {
      var s := Join(xs, sep);
      var rest := Join(xs[1..], sep);
      assert s == xs[0] + [sep] + rest;
      assert s[|xs[0]|] == sep && s[..|xs[0]|] == xs[0];
      var i := IndexOf(s, sep);
      assert i == |xs[0]|;
      assert s[i + 1..] == rest;
      SplitJoin(xs[1..], sep);
    }
  }

  /** Camel keeps every character that is not an upper-case letter only if
      it was already there. */
  lemma {:induction false} CamelIntroducesOnlyUpper(s: string, n: nat, x: char)
    requires n <= |s| && !IsASCIIUpper(x) && x in CamelPrefix(s, n)
    ensures x in s[..n]
  {
    var p := CamelPrefix(s, n - 1);
    assert CamelPrefix(s, n) == p + CamelPiece(s, n - 1);
    if x in p {
      CamelIntroducesOnlyUpper(s, n - 1, x);
      assert s[..n - 1] == s[..n][..n - 1];
    } else {
      assert x == s[n - 1] && s[..n][n - 1] == s[n - 1];
    }
  }

  /** A valid name has no ','. */
  lemma {:induction false} NameHasNoComma(p: string)
    requires IsValidFullName(p)
    ensures ',' !in p
  {
    if ',' in p {
      NameChar(p, IndexOf(p, ','));
    }
  }

  lemma {:induction false} NameChar(p: string, k: nat)
    requires IsValidFullName(p) && k < |p|
    ensures IsIdentChar(p[k]) || p[k] == '.'
  {
    assert NamePosition(p, k);
  }

  /** Neither has the camelCase form of a valid name. */
  lemma {:induction false} CamelHasNoComma(p: string)
    requires IsValidFullName(p)
    ensures ',' !in Camel(p)
  {
    NameHasNoComma(p);
    assert p[..|p|] == p;
    if ',' in Camel(p) {
      CamelIntroducesOnlyUpper(p, |p|, ',');
    }
  }

  /** An accepted mask can be read back: splitting the text at ',' and
      converting each part to snake_case gives the original paths. */
  lemma {:induction false} FieldMaskLossless(paths: seq<string>)
    requires FieldMaskError(paths).None?
    ensures var text := Join(CamelEach(paths), ',');
      paths == [] <==> text == ""
    ensures paths != [] ==> SnakeEach(Split(Join(CamelEach(paths), ','), ',')) == paths
  {
    FieldMaskAccepted(paths);
    var cs := CamelEach(paths);
    if paths != [] {
      assert Split(Join(cs, ','), ',') == cs by {
        forall i | 0 <= i < |paths| ensures ',' !in cs[i] {
          assert IsValidFullName(paths[i]) by {
            PathAccepted(paths[i]);
          }
          CamelHasNoComma(paths[i]);
        }
        SplitJoin(cs, ',');
      }
      assert SnakeEach(cs) == paths by {
        forall i | 0 <= i < |paths| ensures SnakeEach(cs)[i] == paths[i] {
          assert PathError(paths[i]).None?;
        }
      }
      assert Join(cs, ',') != "" by {
        assert PathError(paths[0]).None?;
        assert Snake(Camel(paths[0])) == paths[0] != "";
        JoinNonEmpty(cs, ',');
      }
    }
  }

  lemma {:induction false} JoinNonEmpty(xs: seq<string>, sep: char)
    requires |xs| > 0 && xs[0] != ""
    ensures Join(xs, sep) != ""
  {
    if |xs| > 1 {
      assert |Join(xs, sep)| >= |xs[0]|;
    }
  }
}
