/**
 * Blob storage keys for converted PDFs (lib/utils/blob.ts): a file name is
 * reduced to a safe slug and wrapped as `<prefix><slug>.pdf`.
 */
module BlobKey {
  import opened Wrappers
  import opened Text

  const MaxSlugLength := 120
  const DefaultPrefix := "pdf/"
  const EmptySlug := "file"
  const DefaultBase := "output"

  /** The characters a slug keeps: `[a-zA-Z0-9._-]`. */
  predicate IsSlugChar(c: char)
  {
    ('a' <= c <= 'z') || ('A' <= c <= 'Z') || ('0' <= c <= '9') || c == '.' || c == '_' || c == '-'
  }

  /** Characters that a slug may not start with (`[-_.]`). */
  predicate IsEdgeChar(c: char)
  {
    c == '-' || c == '_' || c == '.'
  }

  /** Combining diacritical marks, U+0300 to U+036F, dropped after decomposition. */
  predicate IsCombiningMark(c: char)
  {
    0x300 <= c as int <= 0x36F
  }

  /** Every character of `s` is one a slug keeps. */
  predicate SlugChars(s: string)
  {
    forall i :: 0 <= i < |s| ==> IsSlugChar(s[i])
  }

  predicate NoDoubleHyphen(s: string)
  {
    forall i :: 0 <= i < |s| - 1 ==> !(s[i] == '-' && s[i + 1] == '-')
  }

  /** ASCII letters and digits: the slug characters other than `[-_.]`. */
  predicate IsAlnum(c: char)
  {
    IsSlugChar(c) && !IsEdgeChar(c)
  }

  /** Every character of `r` is a hyphen or occurs in `s`. */
  predicate DrawnFrom(r: string, s: string)
  {
    forall i :: 0 <= i < |r| ==> r[i] == '-' || r[i] in s
  }

  predicate NoAlnum(s: string)
  {
    forall i :: 0 <= i < |s| ==> !IsAlnum(s[i])
  }

  predicate AllEdge(s: string)
  {
    forall i :: 0 <= i < |s| ==> IsEdgeChar(s[i])
  }

  /** What the key promises of its slug. */
  predicate IsSlug(s: string)
  {
    && 1 <= |s| <= MaxSlugLength
    && SlugChars(s)
    && NoDoubleHyphen(s)
    && !IsEdgeChar(s[0])
  }

  /** JavaScript `a || b` for an optional string: a missing or empty `a` falls through. */
  function OrElse(a: Option<string>, b: string): (r: string)
    ensures a.Some? && a.value != "" ==> r == a.value
    ensures a.None? || a.value == "" ==> r == b
  {
    if a.Some? && a.value != "" then a.value else b
  }

  /** The base name: `rawName`, else `fallback`, else "output". */
  function BaseName(rawName: Option<string>, fallback: Option<string>): (r: string)
    ensures rawName.Some? && rawName.value != "" ==> r == rawName.value
    ensures (rawName.None? || rawName.value == "") && fallback.Some? && fallback.value != "" ==> r == fallback.value
    ensures (rawName.None? || rawName.value == "") && (fallback.None? || fallback.value == "") ==> r == DefaultBase
  {
    OrElse(rawName, OrElse(fallback, DefaultBase))
  }

  /** Index of the last '.' in `s`, if any. */
  function LastDot(s: string): (r: Option<nat>)
    ensures r.Some? ==> r.value < |s| && s[r.value] == '.' && forall j :: r.value < j < |s| ==> s[j] != '.'
    ensures r.None? ==> forall j :: 0 <= j < |s| ==> s[j] != '.'
  {
    if s == [] then None
    else if s[|s| - 1] == '.' then Some(|s| - 1)
    else LastDot(s[..|s| - 1])
  }

  /** `s` ends in a dot followed by one or more non-dot characters: what `/\.[^.]+$/` matches. */
  predicate HasExtension(s: string)
  {
    exists d :: 0 <= d < |s| - 1 && s[d] == '.' && forall j :: d < j < |s| ==> s[j] != '.'
  }

  /** `replace(/\.[^.]+$/, "")`: removes one trailing extension. */
  function StripExtension(s: string): (r: string)
    ensures r <= s
    ensures r == s <==> !HasExtension(s)
    ensures r != s ==> |r| + 1 < |s| && s[|r|] == '.' && forall j :: |r| < j < |s| ==> s[j] != '.'
  {
    match LastDot(s)
    case Some(d) =>
      if d < |s| - 1 then s[..d]
      else
        assert !HasExtension(s) by {
          forall e | 0 <= e < |s| - 1 && s[e] == '.' ensures exists j :: e < j < |s| && s[j] == '.' {
            assert s[|s| - 1] == '.';
          }
        }
        s
    case None => s
  }

  /** `replace(/[\u0300-\u036f]/g, "")`. */
  function StripMarks(s: string): (r: string)
    ensures |r| <= |s|
    ensures forall i :: 0 <= i < |r| ==> !IsCombiningMark(r[i])
    ensures (forall i :: 0 <= i < |s| ==> !IsCombiningMark(s[i])) ==> r == s
  {
    if s == [] then []
    else if IsCombiningMark(s[0]) then StripMarks(s[1..])
    else [s[0]] + StripMarks(s[1..])
  }

  /** Every character left after removing marks comes from the input. */
  lemma {:induction false} StripMarksFrom(s: string)
    ensures DrawnFrom(StripMarks(s), s)
    decreases |s|
  {
    if s != [] {
      var rest := StripMarks(s[1..]);
      StripMarksFrom(s[1..]);
      forall i | 0 <= i < |rest| && rest[i] != '-'
        ensures rest[i] in s
      {
        var j :| 0 <= j < |s[1..]| && s[1..][j] == rest[i];
        assert s[1 + j] == rest[i];
      }
    }
  }

  /** Marks are removed piece by piece: the removal distributes over concatenation. */
  lemma {:induction false} StripMarksAppend(a: string, b: string)
    ensures StripMarks(a + b) == StripMarks(a) + StripMarks(b)
    decreases |a|
  {
    if a == [] {
      assert a + b == b;
    } else {
      assert (a + b)[1..] == a[1..] + b;
      StripMarksAppend(a[1..], b);
    }
  }

  /** A single character: a mark disappears, any other character survives. */
  lemma StripMarksChar(c: char)
    ensures StripMarks([c]) == if IsCombiningMark(c) then [] else [c]
  {
  }

  /** Length of the run of characters outside the slug set at the front of `s`. */
  function DisallowedRun(s: string): (n: nat)
    ensures n <= |s|
    ensures forall i :: 0 <= i < n ==> !IsSlugChar(s[i])
    ensures n < |s| ==> IsSlugChar(s[n])
  {
    if s == [] || IsSlugChar(s[0]) then 0 else 1 + DisallowedRun(s[1..])
  }

  /** `replace(/[^a-zA-Z0-9._-]+/g, "-")`: each run of other characters becomes one hyphen. */
  function HyphenateRuns(s: string): (r: string)
    ensures SlugChars(r)
    ensures |r| <= |s|
    ensures SlugChars(s) ==> r == s
    decreases |s|
  {
    if s == [] then []
    else if IsSlugChar(s[0]) then [s[0]] + HyphenateRuns(s[1..])
    else "-" + HyphenateRuns(s[DisallowedRun(s)..])
  }

  /** Every character after hyphenation is an inserted hyphen or comes from the input. */
  lemma {:induction false} HyphenateFrom(s: string)
    ensures DrawnFrom(HyphenateRuns(s), s)
    decreases |s|
  {
    if s != [] {
      var n := HyphenatePiece(s);
      var rest := HyphenateRuns(s[n..]);
      HyphenateFrom(s[n..]);
      forall i | 0 <= i < |rest| && rest[i] != '-'
        ensures rest[i] in s
      {
        var j :| 0 <= j < |s[n..]| && s[n..][j] == rest[i];
        assert s[n + j] == rest[i];
      }
    }
  }

  /** A whole run of disallowed characters becomes a single hyphen. */
  lemma HyphenateDisallowed(d: string)
    requires d != [] && forall i :: 0 <= i < |d| ==> !IsSlugChar(d[i])
    ensures HyphenateRuns(d) == "-"
  {
    assert d[DisallowedRun(d)..] == [];
  }

  lemma DisallowedRunAppend(x: string, y: string)
    requires DisallowedRun(x) < |x| || y == [] || IsSlugChar(y[0])
    ensures DisallowedRun(x + y) == DisallowedRun(x)
  {
    var n := DisallowedRun(x);
    assert forall i :: 0 <= i < n ==> (x + y)[i] == x[i];
    assert n < |x + y| ==> (x + y)[n] == (if n < |x| then x[n] else y[0]);
  }

  /**
   * Hyphenation works piece by piece when the cut does not fall inside a run
   * of disallowed characters.
   */
  lemma {:induction false} HyphenateAppend(x: string, y: string)
    requires x == [] || y == [] || IsSlugChar(x[|x| - 1]) || IsSlugChar(y[0])
    ensures HyphenateRuns(x + y) == HyphenateRuns(x) + HyphenateRuns(y)
    decreases |x|
  {
    if x == [] {
      assert x + y == y;
    } else {
      var xn := x[HyphenatePiece(x)..];
      assert xn != [] ==> xn[|xn| - 1] == x[|x| - 1];
      HyphenateAppend(xn, y);
      HyphenateStep(x, y);
    }
  }

  /** How much of `s` the first step of the hyphenation consumes. */
  function HyphenatePiece(s: string): (n: nat)
    requires s != []
    ensures 1 <= n <= |s|
  {
    if IsSlugChar(s[0]) then 1 else DisallowedRun(s)
  }

  lemma HyphenateStep(x: string, y: string)
    requires x != [] && (y == [] || IsSlugChar(x[|x| - 1]) || IsSlugChar(y[0]))
    requires var xn := x[HyphenatePiece(x)..];
             HyphenateRuns(xn + y) == HyphenateRuns(xn) + HyphenateRuns(y)
    ensures HyphenateRuns(x + y) == HyphenateRuns(x) + HyphenateRuns(y)
  {
    var n := HyphenatePiece(x);
    var xn := x[n..];
    if !IsSlugChar(x[0]) {
      DisallowedRunAppend(x, y);
    }
    DropOfAppend(x, y, n);
    assert (x + y)[0] == x[0];
    var head := if IsSlugChar(x[0]) then [x[0]] else "-";
    assert HyphenateRuns(x + y) == head + (HyphenateRuns(xn) + HyphenateRuns(y));
    assert HyphenateRuns(x) == head + HyphenateRuns(xn);
    ConcatAssoc(head, HyphenateRuns(xn), HyphenateRuns(y));
  }

  /** Length of the run of hyphens at the front of `s`. */
  function HyphenRun(s: string): (n: nat)
    ensures n <= |s|
    ensures forall i :: 0 <= i < n ==> s[i] == '-'
    ensures n < |s| ==> s[n] != '-'
  {
    if s == [] || s[0] != '-' then 0 else 1 + HyphenRun(s[1..])
  }

  /** `replace(/-+/g, "-")`: runs of hyphens collapse to one. */
  function CollapseHyphens(s: string): (r: string)
    ensures NoDoubleHyphen(r)
    ensures |r| <= |s|
    ensures SlugChars(s) ==> SlugChars(r)
    ensures NoDoubleHyphen(s) ==> r == s
    ensures s != [] ==> r != [] && r[0] == s[0]
    decreases |s|
  {
    if s == [] then []
    else if s[0] == '-' then
      var n := HyphenRun(s);
      var rest := CollapseHyphens(s[n..]);
      assert NoDoubleHyphen(s) ==> n == 1 by {
        if NoDoubleHyphen(s) && |s| > 1 {
          assert s[1] != '-';
          assert s[1..][0] == s[1];
        }
      }
      "-" + rest
    else [s[0]] + CollapseHyphens(s[1..])
  }

  /** Every character after the collapse comes from the input. */
  lemma {:induction false} CollapseFrom(s: string)
    ensures DrawnFrom(CollapseHyphens(s), s)
    decreases |s|
  {
    if s != [] {
      var n := CollapsePiece(s);
      var rest := CollapseHyphens(s[n..]);
      CollapseFrom(s[n..]);
      forall i | 0 <= i < |rest| && rest[i] != '-'
        ensures rest[i] in s
      {
        var j :| 0 <= j < |s[n..]| && s[n..][j] == rest[i];
        assert s[n + j] == rest[i];
      }
    }
  }

  /** A whole run of hyphens becomes one. */
  lemma CollapseRun(h: string)
    requires h != [] && forall i :: 0 <= i < |h| ==> h[i] == '-'
    ensures CollapseHyphens(h) == "-"
  {
    assert h[HyphenRun(h)..] == [];
  }

  lemma HyphenRunAppend(x: string, y: string)
    requires HyphenRun(x) < |x| || y == [] || y[0] != '-'
    ensures HyphenRun(x + y) == HyphenRun(x)
  {
    var n := HyphenRun(x);
    assert forall i :: 0 <= i < n ==> (x + y)[i] == x[i];
    assert n < |x + y| ==> (x + y)[n] == (if n < |x| then x[n] else y[0]);
  }

  /**
   * Collapsing works piece by piece when the cut does not fall inside a run
   * of hyphens: every character other than a repeated hyphen survives, in order.
   */
  lemma {:induction false} CollapseAppend(x: string, y: string)
    requires x == [] || y == [] || x[|x| - 1] != '-' || y[0] != '-'
    ensures CollapseHyphens(x + y) == CollapseHyphens(x) + CollapseHyphens(y)
    decreases |x|
  {
    if x == [] {
      assert x + y == y;
    } else {
      var xn := x[CollapsePiece(x)..];
      assert xn != [] ==> xn[|xn| - 1] == x[|x| - 1];
      CollapseAppend(xn, y);
      CollapseStep(x, y);
    }
  }

  /** How much of `s` the first step of the collapse consumes. */
  function CollapsePiece(s: string): (n: nat)
    requires s != []
    ensures 1 <= n <= |s|
  {
    if s[0] != '-' then 1 else HyphenRun(s)
  }

  lemma CollapseStep(x: string, y: string)
    requires x != [] && (y == [] || x[|x| - 1] != '-' || y[0] != '-')
    requires var xn := x[CollapsePiece(x)..];
             CollapseHyphens(xn + y) == CollapseHyphens(xn) + CollapseHyphens(y)
    ensures CollapseHyphens(x + y) == CollapseHyphens(x) + CollapseHyphens(y)
  {
    var n := CollapsePiece(x);
    var xn := x[n..];
    if x[0] == '-' {
      HyphenRunAppend(x, y);
    }
    DropOfAppend(x, y, n);
    assert (x + y)[0] == x[0];
    var head := if x[0] != '-' then [x[0]] else "-";
    assert CollapseHyphens(x + y) == head + (CollapseHyphens(xn) + CollapseHyphens(y));
    assert CollapseHyphens(x) == head + CollapseHyphens(xn);
    ConcatAssoc(head, CollapseHyphens(xn), CollapseHyphens(y));
  }

  /** Length of the run of `[-_.]` at the front of `s`. */
  function EdgeRunFront(s: string): (n: nat)
    ensures n <= |s|
    ensures forall i :: 0 <= i < n ==> IsEdgeChar(s[i])
    ensures n < |s| ==> !IsEdgeChar(s[n])
  {
    if s == [] || !IsEdgeChar(s[0]) then 0 else 1 + EdgeRunFront(s[1..])
  }

  /** Length of the run of `[-_.]` at the end of `s`. */
  function EdgeRunBack(s: string): (n: nat)
    ensures n <= |s|
    ensures forall i :: |s| - n <= i < |s| ==> IsEdgeChar(s[i])
    ensures n < |s| ==> !IsEdgeChar(s[|s| - n - 1])
  {
    if s == [] || !IsEdgeChar(s[|s| - 1]) then 0 else 1 + EdgeRunBack(s[..|s| - 1])
  }

  /** The leading alternative `^[-_.]+`: drops the run of `[-_.]` at the front. */
  function DropFront(s: string): (r: string)
    ensures |r| <= |s| && r == s[|s| - |r|..]
    ensures forall i :: 0 <= i < |s| - |r| ==> IsEdgeChar(s[i])
    ensures r != [] ==> !IsEdgeChar(r[0])
    ensures s == [] || !IsEdgeChar(s[0]) ==> r == s
    ensures SlugChars(s) ==> SlugChars(r)
    ensures NoDoubleHyphen(s) ==> NoDoubleHyphen(r)
  {
    var n := EdgeRunFront(s);
    assert forall i :: 0 <= i < |s| - n ==> s[n..][i] == s[n + i];
    assert s != [] && !IsEdgeChar(s[0]) ==> n == 0;
    assert s[0..] == s;
    s[n..]
  }

  /** The trailing alternative `[-_.]+$`: drops the run of `[-_.]` at the end. */
  function DropBack(s: string): (r: string)
    ensures |r| <= |s| && r == s[..|r|]
    ensures forall i :: |r| <= i < |s| ==> IsEdgeChar(s[i])
    ensures r != [] ==> !IsEdgeChar(r[|r| - 1])
    ensures s == [] || !IsEdgeChar(s[|s| - 1]) ==> r == s
    ensures SlugChars(s) ==> SlugChars(r)
    ensures NoDoubleHyphen(s) ==> NoDoubleHyphen(r)
  {
    var n := EdgeRunBack(s);
    assert s != [] && !IsEdgeChar(s[|s| - 1]) ==> n == 0;
    assert s[..|s|] == s;
    s[..|s| - n]
  }

  /** `replace(/^[-_.]+|[-_.]+$/g, "")`: removes the leading and the trailing run of `[-_.]`. */
  function TrimEdges(s: string): (r: string)
    ensures r != [] ==> !IsEdgeChar(r[0]) && !IsEdgeChar(r[|r| - 1])
    ensures s == [] || (!IsEdgeChar(s[0]) && !IsEdgeChar(s[|s| - 1])) ==> r == s
    ensures SlugChars(s) ==> SlugChars(r)
    ensures NoDoubleHyphen(s) ==> NoDoubleHyphen(r)
  {
    var t := DropFront(s);
    var r := DropBack(t);
    assert r != [] ==> r[0] == t[0];
    r
  }

  /**
   * The trim removes exactly characters of `[-_.]`, before and after a
   * contiguous piece of the input; with the ends of the result outside
   * `[-_.]`, the removed runs are the longest ones.
   */
  lemma TrimEdgesExact(s: string)
    ensures exists lo :: TrimmedAt(s, TrimEdges(s), lo)
  {
    var t := DropFront(s);
    var r := DropBack(t);
    var lo := |s| - |t|;
    assert t == s[lo..];
    assert r == s[lo..lo + |r|];
    assert forall i :: lo + |r| <= i < |s| ==> s[i] == t[i - lo];
    assert TrimEdges(s) == r;
    assert TrimmedAt(s, r, lo);
  }

  /** `r` is the piece of `s` at `lo`, with only `[-_.]` before and after it. */
  predicate TrimmedAt(s: string, r: string, lo: int)
  {
    && 0 <= lo <= |s| - |r| && r == s[lo..lo + |r|]
    && (forall i :: 0 <= i < lo ==> IsEdgeChar(s[i]))
    && (forall i :: lo + |r| <= i < |s| ==> IsEdgeChar(s[i]))
  }

  /** A string that begins with a letter or digit after a run of `[-_.]` keeps that letter or digit first. */
  lemma TrimEdgesFront(e: string, c: char, rest: string)
    requires AllEdge(e) && IsAlnum(c)
    ensures TrimEdges(e + [c] + rest) != [] && TrimEdges(e + [c] + rest)[0] == c
  {
    var s := e + [c] + rest;
    assert s[|e|] == c;
    assert forall i :: 0 <= i < |e| ==> s[i] == e[i];
    assert EdgeRunFront(s) == |e|;
    var t := DropFront(s);
    assert t[0] == c;
    var r := DropBack(t);
    assert r != [];
    assert r[0] == t[0];
  }

  /** `slice(0, 120)`. */
  function Truncate(s: string): (r: string)
    ensures r <= s && |r| <= MaxSlugLength
    ensures |s| <= MaxSlugLength ==> r == s
    ensures |s| > MaxSlugLength ==> |r| == MaxSlugLength
    ensures SlugChars(s) ==> SlugChars(r)
    ensures NoDoubleHyphen(s) ==> NoDoubleHyphen(r)
  {
    s[..if |s| < MaxSlugLength then |s| else MaxSlugLength]
  }

  /** The slug of a base name; `decompose` stands for `String.prototype.normalize("NFKD")`. */
  function Slug(base: string, decompose: string -> string): (r: string)
    ensures IsSlug(r)
    ensures r == EmptySlug || DrawnFrom(r, decompose(base))
  {
    var d := decompose(base);
    var stripped := StripMarks(d);
    var hyphenated := HyphenateRuns(stripped);
    var collapsed := CollapseHyphens(hyphenated);
    var trimmed := TrimEdges(collapsed);
    var cut := Truncate(trimmed);
    if cut == [] then
      EmptySlugIsSlug();
      EmptySlug
    else
      CutIsSlug(d);
      SlugFrom(d, cut);
      cut
  }

  lemma EmptySlugIsSlug()
    ensures IsSlug(EmptySlug)
  {
  }

  /** A non-empty result of the cleaning stages has the slug shape. */
  lemma CutIsSlug(d: string)
    ensures var cut := Truncate(TrimEdges(CollapseHyphens(HyphenateRuns(StripMarks(d)))));
            cut != [] ==> IsSlug(cut)
  {
    var trimmed := TrimEdges(CollapseHyphens(HyphenateRuns(StripMarks(d))));
    var cut := Truncate(trimmed);
    assert cut != [] ==> cut[0] == trimmed[0];
  }

  /** Every character of the cut slug is a hyphen or a character of the decomposed name. */
  lemma SlugFrom(d: string, cut: string)
    requires cut == Truncate(TrimEdges(CollapseHyphens(HyphenateRuns(StripMarks(d)))))
    ensures DrawnFrom(cut, d)
  {
    var stripped := StripMarks(d);
    var hyphenated := HyphenateRuns(stripped);
    var collapsed := CollapseHyphens(hyphenated);
    var trimmed := TrimEdges(collapsed);
    StripMarksFrom(d);
    HyphenateFrom(stripped);
    DrawnFromTrans(hyphenated, stripped, d);
    CollapseFrom(hyphenated);
    DrawnFromTrans(collapsed, hyphenated, d);
    TrimEdgesFrom(collapsed);
    DrawnFromTrans(trimmed, collapsed, d);
    TruncateFrom(trimmed);
    DrawnFromTrans(cut, trimmed, d);
  }

  lemma TrimEdgesFrom(s: string)
    ensures DrawnFrom(TrimEdges(s), s)
  {
    var t := DropFront(s);
    var r := DropBack(t);
    assert TrimEdges(s) == r;
    var lo := |s| - |t|;
    forall i | 0 <= i < |r|
      ensures r[i] in s
    {
      assert r[i] == t[i] == s[lo + i];
    }
  }

  lemma TruncateFrom(s: string)
    ensures DrawnFrom(Truncate(s), s)
  {
    var r := Truncate(s);
    forall i | 0 <= i < |r|
      ensures r[i] in s
    {
      assert r[i] == s[i];
    }
  }

  lemma DrawnFromTrans(a: string, b: string, c: string)
    requires DrawnFrom(a, b) && DrawnFrom(b, c)
    ensures DrawnFrom(a, c)
  {
    forall i | 0 <= i < |a| && a[i] != '-'
      ensures a[i] in c
    {
      var j :| 0 <= j < |b| && b[j] == a[i];
    }
  }

  lemma StripMarksNoAlnum(d: string)
    requires NoAlnum(d)
    ensures NoAlnum(StripMarks(d))
  {
    var stripped := StripMarks(d);
    StripMarksFrom(d);
    forall i | 0 <= i < |stripped|
      ensures !IsAlnum(stripped[i])
    {
      if stripped[i] != '-' {
        var j :| 0 <= j < |d| && d[j] == stripped[i];
      }
    }
  }

  lemma HyphenateNoAlnum(d: string)
    requires NoAlnum(d)
    ensures AllEdge(HyphenateRuns(d))
  {
    var h := HyphenateRuns(d);
    HyphenateFrom(d);
    forall i | 0 <= i < |h|
      ensures IsEdgeChar(h[i])
    {
      assert IsSlugChar(h[i]);
      if h[i] != '-' {
        var j :| 0 <= j < |d| && d[j] == h[i];
      }
    }
  }

  lemma CollapseAllEdge(e: string)
    requires AllEdge(e)
    ensures AllEdge(CollapseHyphens(e))
  {
    var c := CollapseHyphens(e);
    CollapseFrom(e);
    forall i | 0 <= i < |c|
      ensures IsEdgeChar(c[i])
    {
      if c[i] != '-' {
        var j :| 0 <= j < |e| && e[j] == c[i];
      }
    }
  }

  /** The stages before the trim, applied to a name without letters or digits, leave only `[-_.]`. */
  lemma CleanedWithoutAlnum(d: string)
    requires NoAlnum(d)
    ensures AllEdge(CollapseHyphens(HyphenateRuns(StripMarks(d))))
  {
    StripMarksNoAlnum(d);
    HyphenateNoAlnum(StripMarks(d));
    CollapseAllEdge(HyphenateRuns(StripMarks(d)));
  }

  /** A name without any ASCII letter or digit after decomposition gets the fallback slug `file`. */
  lemma SlugWithoutAlnum(base: string, decompose: string -> string)
    requires NoAlnum(decompose(base))
    ensures Slug(base, decompose) == EmptySlug
  {
    var collapsed := CollapseHyphens(HyphenateRuns(StripMarks(decompose(base))));
    CleanedWithoutAlnum(decompose(base));
    TrimEdgesExact(collapsed);
    var lo :| TrimmedAt(collapsed, TrimEdges(collapsed), lo);
  }

  /** Removing marks in front of a letter or digit keeps the letter or digit and leaves no letter or digit before it. */
  lemma StripMarksSplit(p: string, c: char, q: string)
    requires NoAlnum(p) && IsAlnum(c)
    ensures StripMarks(p + [c] + q) == StripMarks(p) + [c] + StripMarks(q)
    ensures NoAlnum(StripMarks(p))
  {
    StripMarksAppend(p, [c] + q);
    StripMarksAppend([c], q);
    assert [c][1..] == [];
    assert StripMarks([c]) == [c];
    ConcatAssoc(p, [c], q);
    ConcatAssoc(StripMarks(p), [c], StripMarks(q));
    StripMarksNoAlnum(p);
  }

  /** Hyphenating in front of a letter or digit keeps it and leaves only `[-_.]` before it. */
  lemma HyphenateSplit(p: string, c: char, q: string)
    requires NoAlnum(p) && IsAlnum(c)
    ensures HyphenateRuns(p + [c] + q) == HyphenateRuns(p) + [c] + HyphenateRuns(q)
    ensures AllEdge(HyphenateRuns(p))
  {
    HyphenateAppend(p, [c] + q);
    HyphenateCons(c, q);
    ConcatAssoc(p, [c], q);
    ConcatAssoc(HyphenateRuns(p), [c], HyphenateRuns(q));
    HyphenateNoAlnum(p);
  }

  lemma HyphenateCons(c: char, q: string)
    requires IsSlugChar(c)
    ensures HyphenateRuns([c] + q) == [c] + HyphenateRuns(q)
  {
    assert ([c] + q)[0] == c && ([c] + q)[1..] == q;
  }

  lemma CollapseCons(c: char, q: string)
    requires c != '-'
    ensures CollapseHyphens([c] + q) == [c] + CollapseHyphens(q)
  {
    assert ([c] + q)[0] == c && ([c] + q)[1..] == q;
  }

  /** Collapsing in front of a letter or digit keeps it and leaves only `[-_.]` before it. */
  lemma CollapseSplit(e: string, c: char, q: string)
    requires AllEdge(e) && IsAlnum(c)
    ensures CollapseHyphens(e + [c] + q) == CollapseHyphens(e) + [c] + CollapseHyphens(q)
    ensures AllEdge(CollapseHyphens(e))
  {
    CollapseAppend(e, [c] + q);
    CollapseCons(c, q);
    ConcatAssoc(e, [c], q);
    ConcatAssoc(CollapseHyphens(e), [c], CollapseHyphens(q));
    CollapseAllEdge(e);
  }

  /** The slug begins with the first ASCII letter or digit of the decomposed name. */
  lemma SlugStartsWithFirstAlnum(base: string, decompose: string -> string, k: nat)
    requires k < |decompose(base)| && IsAlnum(decompose(base)[k])
    requires NoAlnum(decompose(base)[..k])
    ensures Slug(base, decompose)[0] == decompose(base)[k]
  {
    var d := decompose(base);
    var c := d[k];
    var p := d[..k];
    var q := d[k + 1..];
    assert d == p + [c] + q;
    StripMarksSplit(p, c, q);
    var p1, q1 := StripMarks(p), StripMarks(q);
    HyphenateSplit(p1, c, q1);
    var p2, q2 := HyphenateRuns(p1), HyphenateRuns(q1);
    CollapseSplit(p2, c, q2);
    var p3, q3 := CollapseHyphens(p2), CollapseHyphens(q2);
    TrimEdgesFront(p3, c, q3);
    var trimmed := TrimEdges(p3 + [c] + q3);
    assert Truncate(trimmed)[0] == c;
  }

  /**
   * `toPdfKey(rawName, fallback)` with `BLOB_PREFIX` passed as `blobPrefix`:
   * the result is the prefix ("pdf/" when unset or empty), a slug, and ".pdf".
   */
  function ToPdfKey(rawName: Option<string>, fallback: Option<string>, blobPrefix: Option<string>,
                    decompose: string -> string): (r: string)
    ensures var prefix := OrElse(blobPrefix, DefaultPrefix);
            && |r| >= |prefix| + 5
            && r[..|prefix|] == prefix
            && IsSlug(r[|prefix|..|r| - 4])
            && r[|r| - 4..] == ".pdf"
  {
    var prefix := OrElse(blobPrefix, DefaultPrefix);
    var slug := Slug(StripExtension(BaseName(rawName, fallback)), decompose);
    var r := prefix + slug + ".pdf";
    assert r[|prefix|..|r| - 4] == slug;
    r
  }

  /**
   * A slug that already has the promised shape, does not end in `[-_.]` and
   * is left alone by decomposition (true of every ASCII string) is its own slug.
   */
  lemma SlugOfSlug(s: string, decompose: string -> string)
    requires IsSlug(s) && !IsEdgeChar(s[|s| - 1])
    requires decompose(s) == s
    ensures Slug(s, decompose) == s
  {
    assert forall i :: 0 <= i < |s| ==> !IsCombiningMark(s[i]);
    assert StripMarks(s) == s;
    assert HyphenateRuns(s) == s;
    assert CollapseHyphens(s) == s;
    assert TrimEdges(s) == s by {
      TrimEdgesExact(s);
    }
  }

  /** Adding an extension and stripping it again gives back the name. */
  lemma StripAddedExtension(name: string, ext: string)
    requires ext != [] && forall i :: 0 <= i < |ext| ==> ext[i] != '.'
    ensures StripExtension(name + "." + ext) == name
  {
    var s := name + "." + ext;
    assert s[|name|] == '.';
    assert HasExtension(s) by {
      forall j | |name| < j < |s| ensures s[j] != '.' { assert s[j] == ext[j - |name| - 1]; }
    }
    var r := StripExtension(s);
    assert r == s[..|r|];
  }

  /** A missing or empty `rawName` gives the key of `fallback`. */
  lemma ToPdfKeyFallback(rawName: Option<string>, fallback: Option<string>, blobPrefix: Option<string>,
                         decompose: string -> string)
    requires rawName.None? || rawName.value == ""
    ensures ToPdfKey(rawName, fallback, blobPrefix, decompose) == ToPdfKey(fallback, None, blobPrefix, decompose)
  {
    assert BaseName(rawName, fallback) == BaseName(fallback, None);
  }

  /**
   * A clean name with an extension, such as `report-2024.docx` without
   * `BLOB_PREFIX`, gives `pdf/report-2024.pdf`.
   */
  lemma ToPdfKeyOfCleanName(name: string, ext: string, fallback: Option<string>, decompose: string -> string)
    requires IsSlug(name) && !IsEdgeChar(name[|name| - 1]) && decompose(name) == name
    requires ext != [] && forall i :: 0 <= i < |ext| ==> ext[i] != '.'
    ensures ToPdfKey(Some(name + "." + ext), fallback, None, decompose) == DefaultPrefix + name + ".pdf"
  {
    var raw := name + "." + ext;
    assert BaseName(Some(raw), fallback) == raw;
    StripAddedExtension(name, ext);
    SlugOfSlug(name, decompose);
    assert OrElse(None, DefaultPrefix) == DefaultPrefix;
  }
}
