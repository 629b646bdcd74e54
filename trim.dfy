/** The semantics of ECMAScript's String.prototype.trim over strings of code points.
    A character is stripped when it belongs to the WhiteSpace production (section 12.2
    of ECMA-262, 2023 edition) or to the LineTerminator production (section 12.3). */
module JsTrim {

  /** WhiteSpace: TAB, VT, FF, ZWNBSP and every character of Unicode category Zs;
      LineTerminator: LF, CR, LINE SEPARATOR and PARAGRAPH SEPARATOR. */
  predicate IsWhitespace(c: char) {
    || c == '\t' || c == '\U{000B}' || c == '\U{000C}' || c == '\U{FEFF}'
    || c == ' ' || c == '\U{00A0}' || c == '\U{1680}'
    || ('\U{2000}' <= c <= '\U{200A}')
    || c == '\U{202F}' || c == '\U{205F}' || c == '\U{3000}'
    || c == '\n' || c == '\r' || c == '\U{2028}' || c == '\U{2029}'
  }

  /** Every character trim strips lies in the Basic Multilingual Plane, so it is one UTF-16
      code unit as well as one code point. */
  lemma WhitespaceInBasicPlane(c: char)
    ensures IsWhitespace(c) ==> c as int < 0x1_0000
  {
  }

  /** Every character of s is stripped by trim. */
  predicate AllWhitespace(s: string) {
    forall k :: 0 <= k < |s| ==> IsWhitespace(s[k])
  }

  /** s starts and ends with a character trim keeps (or is empty). */
  predicate Trimmed(s: string) {
    s == [] || (!IsWhitespace(s[0]) && !IsWhitespace(s[|s| - 1]))
  }

  /** Removes the leading run of whitespace: the result is the suffix of s that starts
      at its first non-whitespace character. */
  function TrimStart(s: string): (r: string)
    ensures |r| <= |s| && r == s[|s| - |r|..]
    ensures AllWhitespace(s[..|s| - |r|])
    ensures r == [] || !IsWhitespace(r[0])
  {
    if s != [] && IsWhitespace(s[0]) then TrimStart(s[1..]) else s
  }

  /** Removes the trailing run of whitespace: the result is the prefix of s that ends
      at its last non-whitespace character. */
  function TrimEnd(s: string): (r: string)
    ensures |r| <= |s| && r == s[..|r|]
    ensures AllWhitespace(s[|r|..])
    ensures r == [] || !IsWhitespace(r[|r| - 1])
  {
    if s != [] && IsWhitespace(s[|s| - 1]) then TrimEnd(s[..|s| - 1]) else s
  }

  /** r is s with exactly the whitespace before index i and after r removed, and r has no
      whitespace at either end. */
  predicate StripsTo(s: string, i: nat, r: string) {
    && i + |r| <= |s|
    && r == s[i..i + |r|]
    && AllWhitespace(s[..i])
    && AllWhitespace(s[i + |r|..])
    && Trimmed(r)
  }

  /** String.prototype.trim: a slice of s with only whitespace outside it and none at
      its ends. */
  function Trim(s: string): (r: string)
    ensures Trimmed(r)
    ensures exists i :: StripsTo(s, i, r)
  {
    var t := TrimStart(s);
    var r := TrimEnd(t);
    var i := |s| - |t|;
    assert t == s[i..];
    assert r == t[..|r|] == s[i..i + |r|];
    assert AllWhitespace(s[i + |r|..]) by {
      assert s[i + |r|..] == t[|r|..];
    }
    assert Trimmed(r) by {
      if r != [] { assert r[0] == t[0]; }
    }
    assert StripsTo(s, i, r);
    r
  }

  /** TrimStart stops at the first character trim keeps. */
  lemma {:induction false} TrimStartAt(s: string, i: nat)
    requires i < |s| && AllWhitespace(s[..i]) && !IsWhitespace(s[i])
    ensures TrimStart(s) == s[i..]
  {
    if i > 0 {
      assert IsWhitespace(s[..i][0]);
      assert s[1..][..i - 1] == s[1..i];
      TrimStartAt(s[1..], i - 1);
      assert s[1..][i - 1..] == s[i..];
    }
  }

  /** Whitespace before i and whitespace from i on make a string of whitespace only. */
  lemma JoinWhitespace(s: string, i: nat)
    requires i <= |s| && AllWhitespace(s[..i]) && AllWhitespace(s[i..])
    ensures AllWhitespace(s)
  {
    forall k | 0 <= k < |s| ensures IsWhitespace(s[k]) {
      if k < i { assert s[..i][k] == s[k]; } else { assert s[i..][k - i] == s[k]; }
    }
  }

  /** trim's own specification determines its result: any slice s[i..j] with only
      whitespace outside it and none at its ends is Trim(s). */
  lemma TrimUnique(s: string, i: nat, j: nat)
    requires i <= j <= |s|
    requires AllWhitespace(s[..i]) && AllWhitespace(s[j..]) && Trimmed(s[i..j])
    ensures s[i..j] == Trim(s)
  {
    if i == j {
      JoinWhitespace(s, i);
      AllWhitespaceTrimsAway(s);
    } else {
      assert s[i..j][0] == s[i];
      TrimStartAt(s, i);
      var t := s[i..];
      assert t[..j - i] == s[i..j];
      assert t[j - i..] == s[j..];
      SliceEndUnique(t, j - i);
    }
  }

  /** In t, a prefix with whitespace after it and none at its end is TrimEnd(t). */
  lemma {:induction false} SliceEndUnique(t: string, j: nat)
    requires j <= |t|
    requires AllWhitespace(t[j..]) && Trimmed(t[..j])
    ensures t[..j] == TrimEnd(t)
  {
    if j < |t| {
      assert IsWhitespace(t[j..][|t| - j - 1]);
      var u := t[..|t| - 1];
      assert u[..j] == t[..j];
      assert u[j..] == t[j..|t| - 1];
      SliceEndUnique(u, j);
    } else {
      assert t[..j] == t;
      if t != [] { assert t[..j][|t| - 1] == t[|t| - 1]; }
    }
  }

  /** A string of whitespace only has nothing left after TrimStart. */
  lemma {:induction false} AllWhitespaceTrimsAway(s: string)
    requires AllWhitespace(s)
    ensures TrimStart(s) == []
  {
    if s != [] {
      assert IsWhitespace(s[0]);
      AllWhitespaceTrimsAway(s[1..]);
    }
  }

  /** trim leaves a string that is already trimmed as it is. */
  lemma TrimOfTrimmed(s: string)
    requires Trimmed(s)
    ensures Trim(s) == s
  {
    assert s[..0] == [] && s[|s|..] == [];
    assert s[0..|s|] == s;
    TrimUnique(s, 0, |s|);
  }

  /** trim is idempotent. */
  lemma TrimIdempotent(s: string)
    ensures Trim(Trim(s)) == Trim(s)
  {
    TrimOfTrimmed(Trim(s));
  }

  /** trim removes exactly the whitespace padding around a trimmed value. */
  lemma TrimOfPadded(before: string, value: string, after: string)
    requires AllWhitespace(before) && AllWhitespace(after) && Trimmed(value)
    ensures Trim(before + value + after) == value
  {
    var s := before + value + after;
    var i, j := |before|, |before| + |value|;
    assert s[..i] == before && s[i..j] == value && s[j..] == after;
    TrimUnique(s, i, j);
  }

  /** trim yields the empty string exactly when s consists of whitespace only. */
  lemma TrimEmptyIff(s: string)
    ensures Trim(s) == [] <==> AllWhitespace(s)
  {
    if AllWhitespace(s) {
      assert s[..0] == [] && s[0..0] == [];
      assert s[0..] == s;
      TrimUnique(s, 0, 0);
    } else {
      var r := Trim(s);
      var i :| StripsTo(s, i, r);
      if r == [] {
        JoinWhitespace(s, i);
      }
    }
  }
}
