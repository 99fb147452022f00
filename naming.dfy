/**
 * The camelCase to snake_case translation behind toUnderScore: the regular
 * expression /(?<=[a-z])([A-Z])/ puts an underscore in front of every
 * upper-case ASCII letter whose predecessor in the ORIGINAL name is a
 * lower-case ASCII letter, then strtolower lower-cases the ASCII letters.
 * Only a lower-to-upper step is a boundary, so a run of capitals stays one
 * word ("userID" becomes "user_id") and a digit never opens one ("a1B"
 * becomes "a1b").
 */
module Naming {

  predicate IsLower(c: char) { 'a' <= c <= 'z' }

  predicate IsUpper(c: char) { 'A' <= c <= 'Z' }

  function LowerChar(c: char): (d: char)
    ensures !IsUpper(d)
    ensures d == '_' <==> c == '_'
  {
    if IsUpper(c) then (c as int + 32) as char else c
  }

  /** strtolower: upper-case ASCII letters become lower-case, nothing else changes. */
  function AsciiLower(s: string): (r: string)
    ensures |r| == |s|
    ensures forall i :: 0 <= i < |s| ==> r[i] == LowerChar(s[i])
  {
    if s == [] then [] else [LowerChar(s[0])] + AsciiLower(s[1..])
  }

  /** The pattern (?<=[a-z])([A-Z]) matches the character at position i. */
  predicate Boundary(s: string, i: int) {
    0 < i < |s| && IsLower(s[i - 1]) && IsUpper(s[i])
  }

  /** preg_replace('/(?<=[a-z])([A-Z])/', '_$1', s) */
  function InsertSeparators(s: string): string
    decreases |s|
  {
    if s == [] then []
    else InsertSeparators(s[..|s| - 1]) + (if Boundary(s, |s| - 1) then "_" else "") + [s[|s| - 1]]
  }

  /** The converted name, as toUnderScore computes it on a cache miss. */
  function SnakeCase(name: string): (r: string)
    ensures forall i :: 0 <= i < |r| ==> !IsUpper(r[i])
  {
    AsciiLower(InsertSeparators(name))
  }

  /** The number of lower-to-upper boundaries in s. */
  function BoundaryCount(s: string): nat
    decreases |s|
  {
    if s == [] then 0
    else BoundaryCount(s[..|s| - 1]) + (if Boundary(s, |s| - 1) then 1 else 0)
  }

  /** s with every underscore removed. */
  function StripUnderscores(s: string): (r: string)
    ensures |r| <= |s|
    decreases |s|
  {
    if s == [] then []
    else StripUnderscores(s[..|s| - 1]) + (if s[|s| - 1] == '_' then "" else [s[|s| - 1]])
  }

  lemma AsciiLowerConcat(a: string, b: string)
    ensures AsciiLower(a + b) == AsciiLower(a) + AsciiLower(b)
  {
  }

  lemma {:induction false} StripUnderscoresConcat(a: string, b: string)
    ensures StripUnderscores(a + b) == StripUnderscores(a) + StripUnderscores(b)
    decreases |b|
  {
    if b == [] {
      assert a + b == a;
    } else {
      var b' := b[..|b| - 1];
      assert (a + b)[..|a + b| - 1] == a + b';
      StripUnderscoresConcat(a, b');
    }
  }

  /** The boundaries of a prefix are the boundaries of the whole name before its end. */
  lemma BoundaryOfPrefix(s: string, n: nat, i: int)
    requires n <= |s| && i < n
    ensures Boundary(s[..n], i) == Boundary(s, i)
  {
  }

  /** A name without lower-to-upper boundaries is left as it is by the insertion. */
  lemma {:induction false} InsertSeparatorsWithoutBoundary(t: string)
    requires forall i :: 0 < i < |t| ==> !Boundary(t, i)
    ensures InsertSeparators(t) == t
    decreases |t|
  {
    if t != [] {
      var p := t[..|t| - 1];
      forall i | 0 < i < |p|
        ensures !Boundary(p, i)
      {
        BoundaryOfPrefix(t, |t| - 1, i);
      }
      InsertSeparatorsWithoutBoundary(p);
      assert p + [t[|t| - 1]] == t;
    }
  }

  /** A name already in snake_case (no upper-case ASCII letter) is left as it is. */
  lemma SnakeCaseFixesLowerCase(t: string)
    requires forall i :: 0 <= i < |t| ==> !IsUpper(t[i])
    ensures SnakeCase(t) == t
  {
    InsertSeparatorsWithoutBoundary(t);
  }

  /** Converting twice gives what converting once gives. */
  lemma SnakeCaseIdempotent(s: string)
    ensures SnakeCase(SnakeCase(s)) == SnakeCase(s)
  {
    SnakeCaseFixesLowerCase(SnakeCase(s));
  }

  /** Exactly one underscore is inserted per lower-to-upper boundary. */
  lemma {:induction false} InsertSeparatorsLength(s: string)
    ensures |InsertSeparators(s)| == |s| + BoundaryCount(s)
    decreases |s|
  {
    if s != [] {
      InsertSeparatorsLength(s[..|s| - 1]);
    }
  }

  /** Removing the underscores undoes the insertion. */
  lemma {:induction false} StripInsertSeparators(s: string)
    ensures StripUnderscores(InsertSeparators(s)) == StripUnderscores(s)
    decreases |s|
  {
    if s != [] {
      var p := s[..|s| - 1];
      var sep: string := if Boundary(s, |s| - 1) then "_" else "";
      var last := [s[|s| - 1]];
      StripInsertSeparators(p);
      StripUnderscoresConcat(InsertSeparators(p) + sep, last);
      StripUnderscoresConcat(InsertSeparators(p), sep);
      assert StripUnderscores(sep) == [] by {
        if sep != [] { assert sep[..0] == []; }
      }
      StripUnderscoresConcat(p, last);
      assert p + last == s;
    }
  }

  lemma {:induction false} StripAsciiLower(s: string)
    ensures StripUnderscores(AsciiLower(s)) == AsciiLower(StripUnderscores(s))
    decreases |s|
  {
    if s != [] {
      var p := s[..|s| - 1];
      var last := [s[|s| - 1]];
      assert p + last == s;
      AsciiLowerConcat(p, last);
      StripAsciiLower(p);
      StripUnderscoresConcat(AsciiLower(p), AsciiLower(last));
      StripUnderscoresConcat(p, last);
      AsciiLowerConcat(StripUnderscores(p), StripUnderscores(last));
    }
  }

  /**
   * The conversion changes a name only by inserting underscores and
   * lower-casing: with the underscores taken out, the result is the
   * lower-cased name with its own underscores taken out.
   */
  lemma SnakeCaseOnlyInsertsUnderscores(s: string)
    ensures StripUnderscores(SnakeCase(s)) == AsciiLower(StripUnderscores(s))
    ensures |SnakeCase(s)| == |s| + BoundaryCount(s)
  {
    StripAsciiLower(InsertSeparators(s));
    StripInsertSeparators(s);
    InsertSeparatorsLength(s);
  }

  /** "userId" becomes "user_id". */
  lemma SnakeCaseOfCamelCase()
    ensures SnakeCase("userId") == "user_id"
  {
    SeparatorsOfUserI();
    assert InsertSeparators("userId") == "user_Id" by {
      assert "userId"[..5] == "userI";
    }
    var r := AsciiLower("user_Id");
    assert r[0] == 'u' && r[5] == 'i' && r[6] == 'd';
    assert r == "user_id";
  }

  lemma SeparatorsOfUserI()
    ensures InsertSeparators("userI") == "user_I"
  {
    InsertSeparatorsWithoutBoundary("user");
    assert "userI"[..4] == "user";
  }

  /** "userID" becomes "user_id": the capital after a capital opens no new word. */
  lemma SnakeCaseOfAcronym()
    ensures SnakeCase("userID") == "user_id"
  {
    SeparatorsOfUserI();
    assert InsertSeparators("userID") == "user_ID" by {
      assert "userID"[..5] == "userI";
    }
    var r := AsciiLower("user_ID");
    assert r[0] == 'u' && r[5] == 'i' && r[6] == 'd';
    assert r == "user_id";
  }

  /** "a1B" becomes "a1b": a digit before a capital is no boundary. */
  lemma SnakeCaseAfterDigit()
    ensures SnakeCase("a1B") == "a1b"
  {
    assert InsertSeparators("a1") == "a1" by {
      InsertSeparatorsWithoutBoundary("a1");
    }
    assert InsertSeparators("a1B") == "a1B" by {
      assert "a1B"[..2] == "a1";
    }
    assert AsciiLower("a1B") == "a1b";
  }

  /** "URLPath" becomes "urlpath": no lower-case letter precedes a capital. */
  lemma SnakeCaseOfLeadingCapitals()
    ensures SnakeCase("URLPath") == "urlpath"
  {
    NoSeparatorsInURLPath();
    var r := AsciiLower("URLPath");
    assert r[0] == 'u' && r[1] == 'r' && r[2] == 'l' && r[3] == 'p';
    assert r == "urlpath";
  }

  lemma NoSeparatorsInURLPath()
    ensures InsertSeparators("URLPath") == "URLPath"
  {
    var t := "URLPath";
    forall i | 0 < i < |t|
      ensures !Boundary(t, i)
    {
      assert i < 5 ==> !IsLower(t[i - 1]);
      assert i >= 5 ==> !IsUpper(t[i]);
    }
    InsertSeparatorsWithoutBoundary(t);
  }
}
