/**
 The part of the JavaScript string library that the todo store relies on:
 `String.prototype.trim`, which removes every leading and trailing code point
 that ECMA-262 classifies as WhiteSpace (section 12.2) or LineTerminator
 (section 12.3), and the truthiness of a string (only the empty string is
 falsy).
 */
module JsString {

  /** WhiteSpace and LineTerminator code points of ECMA-262 (sections 12.2 and 12.3):
      TAB, VT, FF, ZWNBSP, every Unicode "Space_Separator" (Zs) code point, LF, CR, LS, PS. */
  predicate IsWhitespace(c: char) {
    c == '\t' || c == '\U{000B}' || c == '\U{000C}' || c == '\U{FEFF}'
    || c == ' ' || c == '\U{00A0}' || c == '\U{1680}'
    || ('\U{2000}' <= c <= '\U{200A}')
    || c == '\U{202F}' || c == '\U{205F}' || c == '\U{3000}'
    || c == '\n' || c == '\r' || c == '\U{2028}' || c == '\U{2029}'
  }

  /** Every character of `s` from position `lo` up to (not including) `hi` is whitespace. */
  predicate BlankBetween(s: string, lo: int, hi: int)
    requires 0 <= lo <= hi <= |s|
  {
    forall k :: lo <= k < hi ==> IsWhitespace(s[k])
  }

  /** A string made of whitespace only (the empty string included). */
  predicate IsBlank(s: string) {
    BlankBetween(s, 0, |s|)
  }

  /** JavaScript truthiness of a string value: every string but "" is truthy. */
  predicate Truthy(s: string) {
    s != ""
  }

  /** Removes the leading run of whitespace: the result is the longest suffix of `s`
      that does not start with whitespace. */
  function TrimStart(s: string): (r: string)
    ensures |r| <= |s| && r == s[|s| - |r|..]
    ensures BlankBetween(s, 0, |s| - |r|)
    ensures r == [] || !IsWhitespace(r[0])
  {
    if s != [] && IsWhitespace(s[0]) then
      var r := TrimStart(s[1..]);
      assert s[1..][|s| - 1 - |r|..] == s[|s| - |r|..];
      r
    else
      s
  }

  /** Removes the trailing run of whitespace: the result is the longest prefix of `s`
      that does not end with whitespace. */
  function TrimEnd(s: string): (r: string)
    ensures |r| <= |s| && r == s[..|r|]
    ensures BlankBetween(s, |r|, |s|)
    ensures r == [] || !IsWhitespace(r[|r| - 1])
  {
    if s != [] && IsWhitespace(s[|s| - 1]) then
      var r := TrimEnd(s[..|s| - 1]);
      assert s[..|s| - 1][..|r|] == s[..|r|];
      r
    else
      s
  }

  /** The contract of `TrimStart` pins its result down: cutting any other number of
      leading characters breaks it. */
  lemma {:induction false} TrimStartUnique(s: string, n: nat)
    requires n <= |s| && BlankBetween(s, 0, n) && (n == |s| || !IsWhitespace(s[n]))
    ensures TrimStart(s) == s[n..]
  {
    if n > 0 {
      TrimStartUnique(s[1..], n - 1);
      assert s[1..][n - 1..] == s[n..];
    }
  }

  /** The contract of `TrimEnd` pins its result down: keeping any other number of
      leading characters breaks it. */
  lemma {:induction false} TrimEndUnique(s: string, n: nat)
    requires n <= |s| && BlankBetween(s, n, |s|) && (n == 0 || !IsWhitespace(s[n - 1]))
    ensures TrimEnd(s) == s[..n]
  {
    if n < |s| {
      TrimEndUnique(s[..|s| - 1], n);
      assert s[..|s| - 1][..n] == s[..n];
    }
  }

  /** `String.prototype.trim`: strips both the leading and the trailing run of whitespace. */
  function Trim(s: string): (r: string)
  {
    TrimEnd(TrimStart(s))
  }

  /** The trimmed string neither starts nor ends with whitespace. */
  lemma TrimHasNoOuterWhitespace(s: string)
    ensures Trim(s) == [] || (!IsWhitespace(Trim(s)[0]) && !IsWhitespace(Trim(s)[|Trim(s)| - 1]))
  {
    var t := TrimStart(s);
    var r := TrimEnd(t);
    assert r != [] ==> r[0] == t[0];
  }

  /** Trimming a non-blank text that neither starts nor ends with whitespace, padded
      with whitespace on both sides, gives back the text. */
  lemma TrimOfPadded(before: string, text: string, after: string)
    requires IsBlank(before) && IsBlank(after)
    requires text != [] && !IsWhitespace(text[0]) && !IsWhitespace(text[|text| - 1])
    ensures Trim(before + text + after) == text
  {
    var s, t := before + text + after, text + after;
    assert TrimStart(s) == t by {
      assert s == before + t;
      assert BlankBetween(s, 0, |before|) by {
        forall k | 0 <= k < |before| ensures IsWhitespace(s[k]) {
          assert s[k] == before[k];
        }
      }
      TrimStartUnique(s, |before|);
      assert s[|before|..] == t;
    }
    assert TrimEnd(t) == text by {
      assert BlankBetween(t, |text|, |t|) by {
        forall k | |text| <= k < |t| ensures IsWhitespace(t[k]) {
          assert t[k] == after[k - |text|];
        }
      }
      TrimEndUnique(t, |text|);
      assert t[..|text|] == text;
    }
  }

  /** `trim()` yields the empty (falsy) string exactly when the input is blank. */
  lemma TrimEmptyIffBlank(s: string)
    ensures Trim(s) == [] <==> IsBlank(s)
  {
    var t := TrimStart(s);
    var r := TrimEnd(t);
    if r != [] {
      assert r[0] == t[0] == s[|s| - |t|];
    }
  }

  /** Trimming an already trimmed string changes nothing. */
  lemma TrimIdempotent(s: string)
    ensures Trim(Trim(s)) == Trim(s)
  {
    var r := Trim(s);
    TrimHasNoOuterWhitespace(s);
    assert TrimStart(r) == r by {
      TrimStartUnique(r, 0);
    }
    assert TrimEnd(r) == r by {
      TrimEndUnique(r, |r|);
    }
  }
}
