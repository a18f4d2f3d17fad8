/**
 * Character and string helpers that stand for the JavaScript string built-ins
 * the core relies on (`\s` in regular expressions, `trim`, ASCII case folding
 * of `/i` patterns, `startsWith`/`endsWith`, `indexOf`).
 */
module Text {
  import opened Wrappers

  /** `s.indexOf(c)`: the position of the first `c` in `s`, or `None` when there is none. */
  function IndexOf(s: string, c: char): (r: Option<nat>)
    ensures r.Some? ==> r.value < |s| && s[r.value] == c && forall k :: 0 <= k < r.value ==> s[k] != c
    ensures r.None? ==> forall k :: 0 <= k < |s| ==> s[k] != c
  {
    if s == [] then None
    else if s[0] == c then Some(0)
    else match IndexOf(s[1..], c)
      case None => None
      case Some(j) => Some(j + 1)
  }

  /** The characters JavaScript's `\s` class and `String.prototype.trim` treat as white space. */
  predicate IsSpace(c: char)
  {
    var n := c as int;
    || n == 0x09 || n == 0x0A || n == 0x0B || n == 0x0C || n == 0x0D || n == 0x20
    || n == 0xA0 || n == 0x1680 || (0x2000 <= n <= 0x200A) || n == 0x2028 || n == 0x2029
    || n == 0x202F || n == 0x205F || n == 0x3000 || n == 0xFEFF
  }

  predicate IsAsciiUpper(c: char) { 'A' <= c <= 'Z' }

  predicate IsAsciiLower(c: char) { 'a' <= c <= 'z' }

  predicate IsAsciiDigit(c: char) { '0' <= c <= '9' }

  /**
   * Case folding as a `/i` pattern made of ASCII letters sees it: only the
   * ASCII letters have a case partner that such a pattern can match.
   */
  function Lower(c: char): (r: char)
    ensures IsAsciiUpper(c) ==> IsAsciiLower(r)
    ensures !IsAsciiUpper(c) ==> r == c
  {
    if IsAsciiUpper(c) then (c as int + 32) as char else c
  }

  /** `s` with every ASCII upper-case letter lowered. */
  function LowerAll(s: string): (r: string)
    ensures |r| == |s|
    ensures forall i :: 0 <= i < |s| ==> r[i] == Lower(s[i])
  {
    seq(|s|, i requires 0 <= i < |s| => Lower(s[i]))
  }

  /** `s` begins with `p`, letters compared without regard to ASCII case; `p` is written in lower case. */
  predicate StartsWithNoCase(s: string, p: string)
  {
    |p| <= |s| && forall i :: 0 <= i < |p| ==> Lower(s[i]) == p[i]
  }

  predicate StartsWith(s: string, p: string)
  {
    |p| <= |s| && s[..|p|] == p
  }

  predicate EndsWith(s: string, p: string)
  {
    |p| <= |s| && s[|s| - |p|..] == p
  }

  lemma ConcatAssoc(a: string, b: string, c: string)
    ensures (a + b) + c == a + (b + c)
  {
  }

  lemma DropOfAppend(x: string, y: string, n: nat)
    requires n <= |x|
    ensures (x + y)[n..] == x[n..] + y
  {
  }

  /** `r` occurs in `s` as a contiguous piece. */
  predicate IsInfix(r: string, s: string)
  {
    exists i :: 0 <= i <= |s| && r <= s[i..]
  }

  /** A piece of a suffix of `s` is a piece of `s`. */
  lemma InfixOfSuffix(r: string, s: string, k: nat)
    requires k <= |s| && IsInfix(r, s[k..])
    ensures IsInfix(r, s)
  {
    var i :| 0 <= i <= |s| - k && r <= s[k..][i..];
    assert s[k..][i..] == s[k + i..];
  }

  /** Number of white-space characters at the front of `s`. */
  function LeadingSpace(s: string): (n: nat)
    ensures n <= |s|
    ensures forall i :: 0 <= i < n ==> IsSpace(s[i])
    ensures n < |s| ==> !IsSpace(s[n])
  {
    if s == [] || !IsSpace(s[0]) then 0 else 1 + LeadingSpace(s[1..])
  }

  /** Number of white-space characters at the end of `s`. */
  function TrailingSpace(s: string): (n: nat)
    ensures n <= |s|
    ensures forall i :: |s| - n <= i < |s| ==> IsSpace(s[i])
    ensures n < |s| ==> !IsSpace(s[|s| - n - 1])
  {
    if s == [] || !IsSpace(s[|s| - 1]) then 0 else 1 + TrailingSpace(s[..|s| - 1])
  }

  /** `String.prototype.trim`: the longest infix of `s` that neither starts nor ends with white space. */
  function Trim(s: string): (r: string)
    ensures |r| <= |s|
    ensures r == [] || (!IsSpace(r[0]) && !IsSpace(r[|r| - 1]))
    ensures IsInfix(r, s)
    ensures (forall i :: 0 <= i < |s| ==> !IsSpace(s[i])) ==> r == s
  {
    var a := LeadingSpace(s);
    var t := s[a..];
    var b := TrailingSpace(t);
    assert t[..|t| - b] <= s[a..];
    t[..|t| - b]
  }

  /** `r` is the piece of `s` starting at `lo`, and everything of `s` around it is white space. */
  predicate SpaceTrimmedAt(s: string, r: string, lo: int)
  {
    && 0 <= lo <= |s| - |r|
    && r == s[lo..lo + |r|]
    && (forall i :: 0 <= i < lo ==> IsSpace(s[i]))
    && (forall i :: lo + |r| <= i < |s| ==> IsSpace(s[i]))
  }

  /** `trim` removes white space only, from the front and from the back of its input. */
  lemma TrimExact(s: string)
    ensures exists lo :: SpaceTrimmedAt(s, Trim(s), lo)
  {
    var a := LeadingSpace(s);
    var t := s[a..];
    var b := TrailingSpace(t);
    var r := t[..|t| - b];
    assert Trim(s) == r;
    assert r == s[a..a + |r|];
    forall i | a + |r| <= i < |s|
      ensures IsSpace(s[i])
    {
      assert s[i] == t[i - a];
    }
    assert SpaceTrimmedAt(s, r, a);
  }

  /** Leading white space makes no difference to `trim`. */
  lemma TrimAfterSpace(s: string)
    ensures Trim(s[LeadingSpace(s)..]) == Trim(s)
  {
    var a := LeadingSpace(s);
    var t := s[a..];
    assert LeadingSpace(t) == 0;
    assert t[0..] == t;
  }
}
