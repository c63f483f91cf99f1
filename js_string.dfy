/**
 * The two pieces of ECMAScript string behaviour the contacts router relies on:
 * the white-space class that both `String.prototype.trim` and the regular
 * expression escape `\s` use, and `trim` itself.
 */
module JsString {

  /**
   * ECMAScript WhiteSpace and LineTerminator code points (section 12.2 and
   * 12.3 of ECMA-262): the set `trim` removes and `\s` matches.
   */
  predicate IsWhiteSpace(c: char) {
    c == '\t' || c == '\n' || c == '\U{0B}' || c == '\U{0C}' || c == '\r' ||
    c == ' ' || c == '\U{A0}' || c == '\U{1680}' ||
    ('\U{2000}' <= c <= '\U{200A}') ||
    c == '\U{2028}' || c == '\U{2029}' || c == '\U{202F}' || c == '\U{205F}' ||
    c == '\U{3000}' || c == '\U{FEFF}'
  }

  /** Every character of `s` is matched by `\S`. */
  predicate NoWhiteSpace(s: string) {
    forall i :: 0 <= i < |s| ==> !IsWhiteSpace(s[i])
  }

  /** Every character of `s` is matched by `\s`. */
  predicate AllWhiteSpace(s: string) {
    forall i :: 0 <= i < |s| ==> IsWhiteSpace(s[i])
  }

  /** Neither end of `s` is white space. */
  predicate IsTrimmed(s: string) {
    s == [] || (!IsWhiteSpace(s[0]) && !IsWhiteSpace(s[|s| - 1]))
  }

  /** Drops the leading white space of `s`: the result is the suffix left behind. */
  function TrimStart(s: string): (r: string)
    ensures |r| <= |s| && r == s[|s| - |r|..]
    ensures AllWhiteSpace(s[..|s| - |r|])
    ensures r == [] || !IsWhiteSpace(r[0])
  {
    if |s| > 0 && IsWhiteSpace(s[0]) then
      var r := TrimStart(s[1..]);
      assert s[..|s| - |r|] == [s[0]] + s[1..][..|s| - 1 - |r|];
      r
    else
      s
  }

  /** Drops the trailing white space of `s`: the result is the prefix left behind. */
  function TrimEnd(s: string): (r: string)
    ensures |r| <= |s| && r == s[..|r|]
    ensures AllWhiteSpace(s[|r|..])
    ensures r == [] || !IsWhiteSpace(r[|r| - 1])
  {
    if |s| > 0 && IsWhiteSpace(s[|s| - 1]) then
      var r := TrimEnd(s[..|s| - 1]);
      assert s[|r|..] == s[..|s| - 1][|r|..] + [s[|s| - 1]];
      r
    else
      s
  }

  /**
   * `s.trim()`: the infix of `s` left once the white space at both ends is
   * removed.
   */
  function Trim(s: string): (r: string)
    ensures IsTrimmed(r)
    ensures exists i :: 0 <= i <= |s| - |r| && r == s[i..i + |r|] &&
                        AllWhiteSpace(s[..i]) && AllWhiteSpace(s[i + |r|..])
  {
    var t := TrimStart(s);
    var r := TrimEnd(t);
    var i := |s| - |t|;
    assert r == s[i..i + |r|];
    assert s[i + |r|..] == t[|r|..];
    r
  }

  /** A string with no white space at all is left unchanged by `trim`. */
  lemma TrimOfNoWhiteSpace(s: string)
    requires NoWhiteSpace(s)
    ensures Trim(s) == s
  {
  }

  /** `trim` is idempotent. */
  lemma TrimIdempotent(s: string)
    ensures Trim(Trim(s)) == Trim(s)
  {
  }

  /** Leading white space is all of `s` exactly when `s` is all white space. */
  lemma {:induction false} TrimStartOfAllWhiteSpace(s: string)
    requires AllWhiteSpace(s)
    ensures TrimStart(s) == []
  {
    if |s| > 0 {
      TrimStartOfAllWhiteSpace(s[1..]);
    }
  }

  /** `s.trim() === ''` exactly when `s` is empty or white space only. */
  lemma TrimEmptyIffAllWhiteSpace(s: string)
    ensures Trim(s) == [] <==> AllWhiteSpace(s)
  {
    if AllWhiteSpace(s) {
      TrimStartOfAllWhiteSpace(s);
    }
    if Trim(s) == [] {
      // TrimEnd keeps any non-white first character, so TrimStart left nothing.
      var t := TrimStart(s);
      assert t == [];
      assert s[..|s|] == s;
    }
  }
}
