/**
 * String trimming as ECMAScript's `String.prototype.trim` does it: leading and
 * trailing WhiteSpace and LineTerminator code points are removed.
 */
module JsText {

  /** ECMAScript WhiteSpace (including every Zs code point) and LineTerminator. */
  predicate IsSpace(c: char) {
    || c == '\t' || c == '\n' || c == '\U{000B}' || c == '\U{000C}' || c == '\r'
    || c == ' ' || c == '\U{00A0}' || c == '\U{1680}'
    || ('\U{2000}' <= c <= '\U{200A}')
    || c == '\U{2028}' || c == '\U{2029}' || c == '\U{202F}' || c == '\U{205F}'
    || c == '\U{3000}' || c == '\U{FEFF}'
  }

  /** Every character of `s` is white space (vacuously so for ""). */
  predicate IsBlank(s: string) {
    forall i :: 0 <= i < |s| ==> IsSpace(s[i])
  }

  /** `s` without its leading white space. */
  function TrimStart(s: string): (r: string)
    ensures |r| <= |s| && r == s[|s| - |r|..]
    ensures forall i :: 0 <= i < |s| - |r| ==> IsSpace(s[i])
    ensures r == [] || !IsSpace(r[0])
  {
    if |s| > 0 && IsSpace(s[0]) then
      var r := TrimStart(s[1..]);
      assert forall i :: 1 <= i < |s| - |r| ==> s[i] == s[1..][i - 1];
      r
    else
      s
  }

  /** `s` without its trailing white space. */
  function TrimEnd(s: string): (r: string)
    ensures |r| <= |s| && r == s[..|r|]
    ensures forall i :: |r| <= i < |s| ==> IsSpace(s[i])
    ensures r == [] || !IsSpace(r[|r| - 1])
  {
    if |s| > 0 && IsSpace(s[|s| - 1]) then
      var r := TrimEnd(s[..|s| - 1]);
      assert forall i :: |r| <= i < |s| - 1 ==> s[i] == s[..|s| - 1][i];
      r
    else
      s
  }

  /**
   * `r` is the infix of `s` that starts at offset `a`, with only white space
   * before and after it.
   */
  predicate Framed(s: string, a: int, r: string) {
    && 0 <= a <= |s| - |r| && r == s[a..a + |r|]
    && (forall i :: 0 <= i < a ==> IsSpace(s[i]))
    && (forall i :: a + |r| <= i < |s| ==> IsSpace(s[i]))
  }

  /**
   * `s` without leading and trailing white space: the infix of `s` that
   * starts after the leading blanks and leaves only blanks after it; it
   * starts and ends with a non-blank, and it is "" exactly when `s` is blank.
   */
  function Trim(s: string): (r: string)
    ensures Framed(s, |s| - |TrimStart(s)|, r)
    ensures r == [] || (!IsSpace(r[0]) && !IsSpace(r[|r| - 1]))
    ensures r == [] <==> IsBlank(s)
  {
    var t := TrimStart(s);
    var r := TrimEnd(t);
    TrimParts(s, t, r);
    r
  }

  /** How the two halves of `Trim` fit back together into `s`. */
  lemma TrimParts(s: string, t: string, r: string)
    requires |t| <= |s| && t == s[|s| - |t|..] && forall i :: 0 <= i < |s| - |t| ==> IsSpace(s[i])
    requires |r| <= |t| && r == t[..|r|] && forall i :: |r| <= i < |t| ==> IsSpace(t[i])
    requires r == [] || !IsSpace(r[0])
    ensures Framed(s, |s| - |t|, r)
    ensures r == [] <==> IsBlank(s)
  {
    var a := |s| - |t|;
    assert forall i :: a <= i < |s| ==> s[i] == t[i - a];
    if r != [] {
      assert s[a] == r[0];
    }
  }

  /** A string that starts and ends with a non-blank is its own trim. */
  lemma TrimKeeps(s: string)
    requires s != [] && !IsSpace(s[0]) && !IsSpace(s[|s| - 1])
    ensures Trim(s) == s
  {
    assert TrimStart(s) == s;
    assert TrimEnd(s) == s;
  }

  /** Blanks, then `x`, then blanks: `x` is framed at offset `|pre|`. */
  lemma PaddedFramed(pre: string, x: string, post: string)
    requires IsBlank(pre) && IsBlank(post)
    ensures Framed(pre + x + post, |pre|, x)
  {
    var s := pre + x + post;
    assert s[|pre|..|pre| + |x|] == x;
    assert forall i :: 0 <= i < |pre| ==> s[i] == pre[i];
    assert forall i :: |pre| + |x| <= i < |s| ==> s[i] == post[i - |pre| - |x|];
  }

  /** At most one non-empty infix with non-blank ends is framed by white space. */
  lemma FramedUnique(s: string, a: int, r: string, b: int, x: string)
    requires Framed(s, a, r) && r != [] && !IsSpace(r[0]) && !IsSpace(r[|r| - 1])
    requires Framed(s, b, x) && x != [] && !IsSpace(x[0]) && !IsSpace(x[|x| - 1])
    ensures r == x
  {
    assert s[a] == r[0] && s[b] == x[0];
    assert s[a + |r| - 1] == r[|r| - 1] && s[b + |x| - 1] == x[|x| - 1];
    assert a == b;
    assert |r| == |x|;
  }

  /**
   * Trimming removes exactly the surrounding white space: a string made of
   * blanks, then a part that is "" or starts and ends with a non-blank, then
   * blanks, trims to that part.
   */
  lemma TrimPadded(pre: string, x: string, post: string)
    requires IsBlank(pre) && IsBlank(post)
    requires x == [] || (!IsSpace(x[0]) && !IsSpace(x[|x| - 1]))
    ensures Trim(pre + x + post) == x
  {
    var s := pre + x + post;
    PaddedFramed(pre, x, post);
    if x == [] {
      assert IsBlank(s);
    } else {
      assert s[|pre|] == x[0];
      FramedUnique(s, |s| - |TrimStart(s)|, Trim(s), |pre|, x);
    }
  }

  /** Trimming twice is trimming once. */
  lemma TrimIdempotent(s: string)
    ensures Trim(Trim(s)) == Trim(s)
  {
  }
}
