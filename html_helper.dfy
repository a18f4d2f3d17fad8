/**
 * `replaceHtmlTags` of lib/convert-api/docx-to-pdf/html-helper.ts: every
 * string found as an array element or object property of the payload that
 * looks like HTML is turned into plain text (`<br>` tags become newlines,
 * other tags are dropped). The walk rewrites children in place; here each
 * rewritten container is returned as a new value.
 */
module HtmlHelper {
  import opened Wrappers
  import opened Text
  import opened Json

  /** `/<[^>]*>/.test(s)`: some '<' is followed, later, by a '>'. */
  predicate HasHtml(s: string)
  {
    exists i, j :: 0 <= i < j < |s| && s[i] == '<' && s[j] == '>'
  }

  /**
   * Length of the `/<br\s*\/?>/i` match at the front of `s`, or 0 when there
   * is none. The white-space run is maximal, so the match is unique.
   */
  function BrTagLength(s: string): (n: nat)
    ensures n <= |s|
    ensures n > 0 ==> n >= 4 && s[0] == '<' && s[n - 1] == '>'
  {
    if |s| < 4 || s[0] != '<' || Lower(s[1]) != 'b' || Lower(s[2]) != 'r' then 0
    else
      var k := 3 + LeadingSpace(s[3..]);
      if k < |s| && s[k] == '>' then k + 1
      else if k + 1 < |s| && s[k] == '/' && s[k + 1] == '>' then k + 2
      else 0
  }

  /** `s.replace(/<br\s*\/?>/gi, "\n")`, scanning left to right as a global replace does. */
  function ReplaceBr(s: string): (r: string)
    ensures |r| <= |s|
    decreases |s|
  {
    if s == [] then []
    else if BrTagLength(s) > 0 then "\n" + ReplaceBr(s[BrTagLength(s)..])
    else [s[0]] + ReplaceBr(s[1..])
  }

  /**
   * `s.replace(/<[^>]*>/g, "")`: from each '<' that has a '>' after it, the
   * text up to the first such '>' is removed; a '<' with no '>' after it
   * ends the matching, since no later position can match either.
   */
  function StripTags(s: string): (r: string)
    ensures |r| <= |s|
    decreases |s|
  {
    if s == [] then []
    else if s[0] == '<' then
      match IndexOf(s[1..], '>')
      case Some(j) => StripTags(s[j + 2..])
      case None => s
    else [s[0]] + StripTags(s[1..])
  }

  /** `htmlToText(s)`: breaks become newlines, then the tags go; nothing tag-like is left. */
  function HtmlToText(s: string): (r: string)
    ensures !HasHtml(r)
    ensures |r| <= |s|
  {
    StripTagsClean(ReplaceBr(s));
    StripTags(ReplaceBr(s))
  }

  /** After tag stripping no '<' is followed by a '>'. */
  lemma {:induction false} StripTagsClean(s: string)
    ensures !HasHtml(StripTags(s))
    decreases |s|
  {
    if s == [] {
    } else if s[0] == '<' {
      match IndexOf(s[1..], '>')
      case Some(j) => StripTagsClean(s[j + 2..]);
      case None =>
        assert forall k :: 0 <= k < |s| ==> s[k] != '>' by {
          forall k | 0 < k < |s| ensures s[k] != '>' { assert s[k] == s[1..][k - 1]; }
        }
    } else {
      StripTagsClean(s[1..]);
      var r := StripTags(s);
      var t := StripTags(s[1..]);
      assert r == [s[0]] + t;
      forall i, j | 0 <= i < j < |r| && r[i] == '<' ensures r[j] != '>' {
        assert i > 0;
        assert r[i] == t[i - 1] && r[j] == t[j - 1];
      }
    }
  }

  /**
   * A `<br>` tag written out: `<`, `b` and `r` in either case, white space,
   * an optional `/`, then `>`.
   */
  predicate IsBrTag(t: string)
  {
    && |t| >= 4 && t[0] == '<' && Lower(t[1]) == 'b' && Lower(t[2]) == 'r' && t[|t| - 1] == '>'
    && SpacesThenSlash(t[3..|t| - 1])
  }

  /** White space, optionally followed by one `/`. */
  predicate SpacesThenSlash(m: string)
  {
    || (forall i :: 0 <= i < |m| ==> IsSpace(m[i]))
    || (m != [] && m[|m| - 1] == '/' && forall i :: 0 <= i < |m| - 1 ==> IsSpace(m[i]))
  }

  /** A run of white space before a character that is not white space. */
  lemma {:induction false} LeadingSpaceOfRun(sp: string, rest: string)
    requires forall i :: 0 <= i < |sp| ==> IsSpace(sp[i])
    requires rest != [] && !IsSpace(rest[0])
    ensures LeadingSpace(sp + rest) == |sp|
    decreases |sp|
  {
    if sp == [] {
      assert sp + rest == rest;
    } else {
      assert (sp + rest)[1..] == sp[1..] + rest;
      LeadingSpaceOfRun(sp[1..], rest);
    }
  }

  /** A written-out `<br>` tag at the front is matched whole, whatever follows it. */
  lemma BrTagLengthOfTag(t: string, y: string)
    requires IsBrTag(t)
    ensures BrTagLength(t + y) == |t|
  {
    var s := t + y;
    var m := t[3..|t| - 1];
    assert forall i :: 0 <= i < |t| ==> s[i] == t[i];
    if forall i :: 0 <= i < |m| ==> IsSpace(m[i]) {
      assert s[3..] == m + ([s[|t| - 1]] + y);
      LeadingSpaceOfRun(m, [s[|t| - 1]] + y);
    } else {
      var sp := m[..|m| - 1];
      assert s[3..] == sp + ([s[|t| - 2]] + ([s[|t| - 1]] + y));
      LeadingSpaceOfRun(sp, [s[|t| - 2]] + ([s[|t| - 1]] + y));
    }
  }

  /** What `BrTagLength` matches is a written-out `<br>` tag. */
  lemma BrTagLengthIsTag(s: string)
    requires BrTagLength(s) > 0
    ensures IsBrTag(s[..BrTagLength(s)])
  {
    var n := BrTagLength(s);
    var t := s[..n];
    var l := LeadingSpace(s[3..]);
    var k := 3 + l;
    assert forall i :: 0 <= i < l ==> s[3 + i] == s[3..][i];
    assert forall i :: 0 <= i < n ==> t[i] == s[i];
    var m := t[3..n - 1];
    assert forall i :: 0 <= i < |m| ==> m[i] == s[3 + i];
    if n == k + 1 {
      assert forall i :: 0 <= i < |m| ==> IsSpace(m[i]);
    } else {
      assert n == k + 2 && m[l] == '/';
      assert forall i :: 0 <= i < |m| - 1 ==> IsSpace(m[i]);
    }
  }

  /** A `<br>` tag becomes one newline. */
  lemma ReplaceBrOfTag(t: string, y: string)
    requires IsBrTag(t)
    ensures ReplaceBr(t + y) == "\n" + ReplaceBr(y)
  {
    BrTagLengthOfTag(t, y);
    assert (t + y)[|t|..] == y;
  }

  /** Text without a '<' goes through the break replacement unchanged. */
  lemma {:induction false} ReplaceBrOfPlain(x: string, y: string)
    requires '<' !in x
    ensures ReplaceBr(x + y) == x + ReplaceBr(y)
    decreases |x|
  {
    if x == [] {
      assert x + y == y;
    } else {
      var s := x + y;
      assert s[0] == x[0] && s[1..] == x[1..] + y;
      ReplaceBrOfPlain(x[1..], y);
      ConcatAssoc([x[0]], x[1..], ReplaceBr(y));
      assert [x[0]] + x[1..] == x;
    }
  }

  /** Text without a '<' goes through tag stripping unchanged. */
  lemma {:induction false} StripTagsOfPlain(x: string, y: string)
    requires '<' !in x
    ensures StripTags(x + y) == x + StripTags(y)
    decreases |x|
  {
    if x == [] {
      assert x + y == y;
    } else {
      var s := x + y;
      assert s[0] == x[0] && s[1..] == x[1..] + y;
      StripTagsOfPlain(x[1..], y);
      ConcatAssoc([x[0]], x[1..], StripTags(y));
      assert [x[0]] + x[1..] == x;
    }
  }

  /** A tag `<...>` with no '>' inside is removed with its brackets. */
  lemma StripTagsOfTag(x: string, t: string, y: string)
    requires '<' !in x && '>' !in t
    ensures StripTags(x + "<" + t + ">" + y) == x + StripTags(y)
  {
    var tag := "<" + t + ">" + y;
    assert tag[0] == '<';
    assert tag[1..] == t + ">" + y;
    assert forall i :: 0 <= i < |t| ==> tag[1..][i] == t[i];
    assert tag[1..][|t|] == '>';
    assert IndexOf(tag[1..], '>') == Some(|t|);
    assert tag[|t| + 2..] == y;
    assert StripTags(tag) == StripTags(y);
    assert x + "<" + t + ">" + y == x + tag;
    StripTagsOfPlain(x, tag);
  }

  /** Past a first character that is not '<', `hasHtml` looks at the rest only. */
  lemma HasHtmlOfTail(s: string)
    requires s != [] && s[0] != '<'
    ensures HasHtml(s) <==> HasHtml(s[1..])
  {
    if HasHtml(s) {
      var i, j :| 0 <= i < j < |s| && s[i] == '<' && s[j] == '>';
      assert s[1..][i - 1] == '<' && s[1..][j - 1] == '>';
    }
    if HasHtml(s[1..]) {
      var i, j :| 0 <= i < j < |s[1..]| && s[1..][i] == '<' && s[1..][j] == '>';
      assert s[i + 1] == '<' && s[j + 1] == '>';
    }
  }

  /** Without a tag, tag stripping changes nothing. */
  lemma {:induction false} StripTagsOfClean(s: string)
    requires !HasHtml(s)
    ensures StripTags(s) == s
    decreases |s|
  {
    if s != [] {
      if s[0] == '<' {
        assert forall k :: 0 <= k < |s| - 1 ==> s[1..][k] == s[k + 1];
      } else {
        HasHtmlOfTail(s);
        StripTagsOfClean(s[1..]);
        assert s == [s[0]] + s[1..];
      }
    }
  }

  /** With a tag, tag stripping removes at least its two brackets. */
  lemma {:induction false} StripTagsShrinks(s: string)
    requires HasHtml(s)
    ensures |StripTags(s)| < |s|
    decreases |s|
  {
    if s[0] == '<' {
      var i, j :| 0 <= i < j < |s| && s[i] == '<' && s[j] == '>';
      assert s[1..][j - 1] == '>';
    } else {
      HasHtmlOfTail(s);
      StripTagsShrinks(s[1..]);
    }
  }

  /** Tag stripping changes a string exactly when `hasHtml` holds of it. */
  lemma StripTagsChanges(s: string)
    ensures HasHtml(s) <==> StripTags(s) != s
  {
    if HasHtml(s) {
      StripTagsShrinks(s);
    } else {
      StripTagsOfClean(s);
    }
  }

  /** Plain text, with no '<' in it, is left as it is by `htmlToText`. */
  lemma HtmlToTextOfPlain(s: string)
    requires '<' !in s
    ensures HtmlToText(s) == s
  {
    ReplaceBrOfPlain(s, "");
    StripTagsOfPlain(s, "");
    assert s + "" == s;
  }

  /** What the loop body of `walk` does with one child value. */
  function ScrubChild(v: Json): (r: Json)
    ensures v.JStr? ==> r.JStr? && !HasHtml(r.s) && (!HasHtml(v.s) ==> r == v)
    ensures !v.JStr? && !IsContainer(v) ==> r == v
    ensures v.JArr? ==> r.JArr? && |r.items| == |v.items|
    ensures v.JObj? ==> r.JObj? && Keys(r.members) == Keys(v.members)
    decreases v, 1
  {
    match v
    case JStr(s) =>
      if HasHtml(s) then JStr(HtmlToText(s)) else v
    case JArr(_) => Scrub(v)
    case JObj(_) => Scrub(v)
    case _ => v
  }

  /** `walk(o)` as the value it leaves behind; strings and scalars at the top are not touched. */
  function Scrub(o: Json): (r: Json)
    ensures !IsContainer(o) ==> r == o
    ensures o.JArr? ==> r.JArr? && |r.items| == |o.items|
    ensures o.JObj? ==> r.JObj? && Keys(r.members) == Keys(o.members)
    decreases o, 0
  {
    match o
    case JArr(items) => JArr(seq(|items|, i requires 0 <= i < |items| => ScrubChild(items[i])))
    case JObj(ms) => JObj(seq(|ms|, i requires 0 <= i < |ms| => Member(ms[i].key, ScrubChild(ms[i].value))))
    case _ => o
  }

  /** Every string reachable below the top has no HTML left. */
  ghost predicate Clean(o: Json)
    decreases o, 0
  {
    match o
    case JArr(items) => forall i :: 0 <= i < |items| ==> CleanChild(items[i])
    case JObj(ms) => forall i :: 0 <= i < |ms| ==> CleanChild(ms[i].value)
    case _ => true
  }

  ghost predicate CleanChild(v: Json)
    decreases v, 1
  {
    match v
    case JStr(s) => !HasHtml(s)
    case JArr(_) => Clean(v)
    case JObj(_) => Clean(v)
    case _ => true
  }

  /** The walk leaves a clean tree. */
  lemma {:induction false} ScrubIsClean(o: Json)
    ensures Clean(Scrub(o))
    decreases o
  {
    match o
    case JArr(items) =>
      forall i | 0 <= i < |items| ensures CleanChild(Scrub(o).items[i]) {
        if IsContainer(items[i]) { ScrubIsClean(items[i]); }
      }
    case JObj(ms) =>
      forall i | 0 <= i < |ms| ensures CleanChild(Scrub(o).members[i].value) {
        if IsContainer(ms[i].value) { ScrubIsClean(ms[i].value); }
      }
    case _ =>
  }

  /** The walk changes nothing in a clean tree. */
  lemma {:induction false} ScrubOfClean(o: Json)
    requires Clean(o)
    ensures Scrub(o) == o
    decreases o
  {
    match o
    case JArr(items) =>
      forall i | 0 <= i < |items| ensures ScrubChild(items[i]) == items[i] {
        if IsContainer(items[i]) { ScrubOfClean(items[i]); }
      }
      assert Scrub(o).items == items;
    case JObj(ms) =>
      forall i | 0 <= i < |ms| ensures Member(ms[i].key, ScrubChild(ms[i].value)) == ms[i] {
        if IsContainer(ms[i].value) { ScrubOfClean(ms[i].value); }
      }
      assert Scrub(o).members == ms;
    case _ =>
  }

  /** Replacing HTML a second time changes nothing. */
  lemma ScrubIdempotent(o: Json)
    ensures Scrub(Scrub(o)) == Scrub(o)
  {
    ScrubIsClean(o);
    ScrubOfClean(Scrub(o));
  }

  /**
   * `replaceHtmlTags(obj)`: the walk with its two loops. An array child or an
   * object property that is a string is rewritten when it holds HTML; a
   * child array or object is walked recursively; everything else stays.
   */
  method ReplaceHtmlTags(obj: Json) returns (r: Json)
    ensures r == Scrub(obj)
    decreases obj
  {
    match obj
    case JArr(items) =>
      var arr := items;
      for i := 0 to |arr|
        invariant |arr| == |items|
        invariant forall k :: 0 <= k < i ==> arr[k] == ScrubChild(items[k])
        invariant forall k :: i <= k < |arr| ==> arr[k] == items[k]
      {
        var v := arr[i];
        if v.JStr? {
          if HasHtml(v.s) { arr := arr[i := JStr(HtmlToText(v.s))]; }
        } else if IsContainer(v) {
          var w := ReplaceHtmlTags(v);
          arr := arr[i := w];
        }
      }
      r := JArr(arr);
    case JObj(ms) =>
      var props := ms;
      for i := 0 to |props|
        invariant |props| == |ms|
        invariant forall k :: 0 <= k < i ==> props[k] == Member(ms[k].key, ScrubChild(ms[k].value))
        invariant forall k :: i <= k < |props| ==> props[k] == ms[k]
      {
        var v := props[i].value;
        if v.JStr? {
          if HasHtml(v.s) { props := props[i := Member(props[i].key, JStr(HtmlToText(v.s)))]; }
        } else if IsContainer(v) {
          var w := ReplaceHtmlTags(v);
          props := props[i := Member(props[i].key, w)];
        }
      }
      r := JObj(props);
    case _ =>
      r := obj;
  }
}
