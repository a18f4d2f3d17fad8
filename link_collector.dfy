/**
 * `collectImageLinks` and the URL check of `getImage` in
 * lib/convert-api/docx-to-pdf/document-helper.ts: the http(s) values of
 * `link` properties found anywhere in the payload, each once, in the order
 * the depth-first walk first meets them.
 */
module LinkCollector {
  import opened Wrappers
  import opened Text
  import opened Json

  /** `/^https?:\/\//i.test(s)`. */
  predicate IsHttpUrl(s: string)
  {
    StartsWithNoCase(s, "http://") || StartsWithNoCase(s, "https://")
  }

  /** The `/i` test agrees with lower-casing the string and then comparing its start. */
  lemma HttpUrlIgnoresCase(s: string)
    ensures IsHttpUrl(s) <==> StartsWith(LowerAll(s), "http://") || StartsWith(LowerAll(s), "https://")
  {
    var l := LowerAll(s);
    if |s| >= 7 {
      assert l[..7] == seq(7, i requires 0 <= i < 7 => Lower(s[i]));
    }
    if |s| >= 8 {
      assert l[..8] == seq(8, i requires 0 <= i < 8 => Lower(s[i]));
    }
  }

  /** The link an object contributes itself: its `link` property, when that is an http(s) string. */
  function OwnLink(members: seq<Member>): (r: seq<string>)
    ensures |r| <= 1
    ensures forall s :: s in r <==> IsHttpUrl(s) && Get(members, "link") == Some(JStr(s))
  {
    match Get(members, "link")
    case Some(JStr(s)) => if IsHttpUrl(s) then [s] else []
    case _ => []
  }

  function Flatten(ss: seq<seq<string>>): (r: seq<string>)
    ensures forall x :: x in r <==> exists i :: 0 <= i < |ss| && x in ss[i]
  {
    if ss == [] then []
    else
      var r := ss[0] + Flatten(ss[1..]);
      assert forall i :: 1 <= i < |ss| ==> ss[i] == ss[1..][i - 1];
      r
  }

  lemma FlattenSnoc(ss: seq<seq<string>>, s: seq<string>)
    ensures Flatten(ss + [s]) == Flatten(ss) + s
  {
    if ss == [] {
      assert [s][1..] == [];
    } else {
      assert (ss + [s])[1..] == ss[1..] + [s];
      FlattenSnoc(ss[1..], s);
    }
  }

  /** Every link the walk meets, duplicates included, in visiting order. */
  function Visits(o: Json): seq<string>
    decreases o
  {
    match o
    case JArr(items) =>
      Flatten(seq(|items|, i requires 0 <= i < |items| => Visits(items[i])))
    case JObj(ms) =>
      OwnLink(ms) + Flatten(seq(|ms|, i requires 0 <= i < |ms| => Visits(ms[i].value)))
    case _ => []
  }

  /** Some object inside `o` (itself included) has `s` as its `link` property. */
  ghost predicate HasLinkProperty(o: Json, s: string)
    decreases o
  {
    match o
    case JArr(items) => exists i :: 0 <= i < |items| && HasLinkProperty(items[i], s)
    case JObj(ms) =>
      Get(ms, "link") == Some(JStr(s)) || exists i :: 0 <= i < |ms| && HasLinkProperty(ms[i].value, s)
    case _ => false
  }

  /**
   * A string is visited exactly when it is http(s) and is the `link` of
   * some object in the tree: strings under other keys are never taken.
   */
  lemma {:induction false} VisitsAreLinks(o: Json, s: string)
    ensures s in Visits(o) <==> IsHttpUrl(s) && HasLinkProperty(o, s)
    decreases o
  {
    match o
    case JArr(items) =>
      var ss := seq(|items|, i requires 0 <= i < |items| => Visits(items[i]));
      forall i | 0 <= i < |items| ensures s in ss[i] <==> IsHttpUrl(s) && HasLinkProperty(items[i], s) {
        VisitsAreLinks(items[i], s);
      }
    case JObj(ms) =>
      var ss := seq(|ms|, i requires 0 <= i < |ms| => Visits(ms[i].value));
      forall i | 0 <= i < |ms| ensures s in ss[i] <==> IsHttpUrl(s) && HasLinkProperty(ms[i].value, s) {
        VisitsAreLinks(ms[i].value, s);
      }
    case _ =>
  }

  /** `links.add(x)` on the insertion-ordered set, as the sequence `Array.from` yields. */
  function Add(acc: seq<string>, x: string): (r: seq<string>)
    ensures Distinct(acc) ==> Distinct(r)
    ensures forall y :: y in r <==> y in acc || y == x
    ensures acc <= r
  {
    if x in acc then acc else acc + [x]
  }

  /** Adding each of `xs` in turn. */
  function AddAll(acc: seq<string>, xs: seq<string>): (r: seq<string>)
    ensures Distinct(acc) ==> Distinct(r)
    ensures forall y :: y in r <==> y in acc || y in xs
    ensures acc <= r
    decreases |xs|
  {
    if xs == [] then acc
    else
      var r := AddAll(Add(acc, xs[0]), xs[1..]);
      assert forall y :: y in xs <==> y == xs[0] || y in xs[1..];
      r
  }

  lemma {:induction false} AddAllAppend(acc: seq<string>, xs: seq<string>, ys: seq<string>)
    ensures AddAll(acc, xs + ys) == AddAll(AddAll(acc, xs), ys)
    decreases |xs|
  {
    if xs == [] {
      assert xs + ys == ys;
    } else {
      assert (xs + ys)[0] == xs[0] && (xs + ys)[1..] == xs[1..] + ys;
      AddAllAppend(Add(acc, xs[0]), xs[1..], ys);
    }
  }

  /** One more child walked. */
  lemma AddAllStep(acc: seq<string>, ss: seq<seq<string>>, i: nat)
    requires i < |ss|
    ensures AddAll(acc, Flatten(ss[..i + 1])) == AddAll(AddAll(acc, Flatten(ss[..i])), ss[i])
  {
    assert ss[..i + 1] == ss[..i] + [ss[i]];
    FlattenSnoc(ss[..i], ss[i]);
    AddAllAppend(acc, Flatten(ss[..i]), ss[i]);
  }

  /** The recursive `walk`, adding to the set it closes over; `acc` is the set's content in insertion order. */
  method Walk(o: Json, acc: seq<string>) returns (r: seq<string>)
    ensures r == AddAll(acc, Visits(o))
    decreases o, 1
  {
    if !Truthy(o) { return acc; }
    match o
    case JArr(items) =>
      r := WalkItems(o, acc);
    case JObj(ms) =>
      r := acc;
      match Get(ms, "link") {
        case Some(JStr(v)) => if IsHttpUrl(v) { r := Add(r, v); }
        case _ =>
      }
      assert r == AddAll(acc, OwnLink(ms));
      var start := r;
      r := WalkMembers(o, start);
      AddAllAppend(acc, OwnLink(ms), Flatten(seq(|ms|, i requires 0 <= i < |ms| => Visits(ms[i].value))));
    case _ =>
      r := acc;
  }

  /** `for (const v of o) walk(v)`. */
  method WalkItems(o: Json, acc: seq<string>) returns (r: seq<string>)
    requires o.JArr?
    ensures r == AddAll(acc, Visits(o))
    decreases o, 0
  {
    var items := o.items;
    ghost var ss := seq(|items|, i requires 0 <= i < |items| => Visits(items[i]));
    r := acc;
    for i := 0 to |items|
      invariant r == AddAll(acc, Flatten(ss[..i]))
    {
      r := Walk(items[i], r);
      AddAllStep(acc, ss, i);
    }
    assert ss[..|items|] == ss;
  }

  /** `for (const k of Object.keys(o)) walk(o[k])`. */
  method WalkMembers(o: Json, acc: seq<string>) returns (r: seq<string>)
    requires o.JObj?
    ensures r == AddAll(acc, Flatten(seq(|o.members|, i requires 0 <= i < |o.members| => Visits(o.members[i].value))))
    decreases o, 0
  {
    var ms := o.members;
    ghost var ss := seq(|ms|, i requires 0 <= i < |ms| => Visits(ms[i].value));
    r := acc;
    for i := 0 to |ms|
      invariant r == AddAll(acc, Flatten(ss[..i]))
    {
      r := Walk(ms[i].value, r);
      AddAllStep(acc, ss, i);
    }
    assert ss[..|ms|] == ss;
  }

  /**
   * `collectImageLinks(obj)`: each http(s) `link` value of the tree exactly
   * once, in first-visit order.
   */
  method CollectImageLinks(obj: Json) returns (r: seq<string>)
    ensures r == AddAll([], Visits(obj))
    ensures Distinct(r)
    ensures forall s :: s in r <==> IsHttpUrl(s) && HasLinkProperty(obj, s)
  {
    r := Walk(obj, []);
    forall s ensures s in r <==> IsHttpUrl(s) && HasLinkProperty(obj, s) {
      VisitsAreLinks(obj, s);
    }
  }

  datatype TagError = InvalidImageTag

  /**
   * What `tagObj?.[key]` reads in JavaScript: nothing, a value of the
   * payload, or a built-in method the tag inherits from its prototype.
   */
  datatype JsValue = Undefined | Data(json: Json) | BuiltinMethod

  /** JavaScript truthiness; every function is truthy. */
  predicate JsTruthy(x: JsValue)
  {
    x.BuiltinMethod? || (x.Data? && Truthy(x.json))
  }

  /** The tag's own property `key`, as the payload sets it: only objects have one. */
  function OwnProp(v: Json, key: string): (r: JsValue)
    ensures r.Data? <==> v.JObj? && Get(v.members, key).Some?
    ensures r.Data? ==> Get(v.members, key) == Some(r.json)
    ensures !r.Data? ==> r == Undefined
  {
    if v.JObj? && Get(v.members, key).Some? then Data(Get(v.members, key).value) else Undefined
  }

  /**
   * `tagObj?.[key]`. A string primitive also inherits the methods of
   * `String.prototype`, and `link` is one of them (the HTML method of
   * Annex B of ECMAScript, present in Node). Objects, arrays, numbers and
   * booleans inherit nothing named `link` or `url`.
   */
  function Prop(v: Json, key: string): (r: JsValue)
    ensures v.JStr? && key == "link" ==> r == BuiltinMethod
    ensures !(v.JStr? && key == "link") ==> r == OwnProp(v, key)
  {
    if v.JStr? && key == "link" then BuiltinMethod else OwnProp(v, key)
  }

  /** `tagObj?.[key]` is truthy. */
  predicate TruthyProp(v: Json, key: string)
  {
    JsTruthy(Prop(v, key))
  }

  /** `a || b`. */
  function OrElse(a: JsValue, b: JsValue): (r: JsValue)
    ensures JsTruthy(a) ==> r == a
    ensures !JsTruthy(a) ==> r == b
  {
    if JsTruthy(a) then a else b
  }

  /** `const url = link || url || tagObj`, then the check that `url` is an http(s) string. */
  function CheckedUrl(link: JsValue, url: JsValue, tag: Json): (r: Result<string, TagError>)
    ensures r.Ok? ==> IsHttpUrl(r.value)
    ensures r.Ok? <==> var u := OrElse(link, OrElse(url, Data(tag))); u.Data? && u.json.JStr? && IsHttpUrl(u.json.s)
    ensures r.Ok? ==> r.value == OrElse(link, OrElse(url, Data(tag))).json.s
  {
    var u := OrElse(link, OrElse(url, Data(tag)));
    if u.Data? && u.json.JStr? && IsHttpUrl(u.json.s) then Ok(u.json.s) else Err(InvalidImageTag)
  }

  /**
   * The URL `getImage` hands to the cache, as written: `tagObj?.link`,
   * else `tagObj?.url`, else the tag itself, which must be an http(s)
   * string. For a string tag `tagObj?.link` is `String.prototype.link`, a
   * function, so every string tag is rejected.
   */
  function ImageTagUrl(tag: Json): (r: Result<string, TagError>)
    ensures r.Ok? ==> IsHttpUrl(r.value)
    ensures tag.JStr? ==> r == Err(InvalidImageTag)
    ensures tag.JObj? && (exists s :: Get(tag.members, "link") == Some(JStr(s)) && s != "" && IsHttpUrl(s)) ==>
      r.Ok? && Get(tag.members, "link") == Some(JStr(r.value))
    ensures tag.JObj? && !TruthyProp(tag, "link")
            && (exists s :: Get(tag.members, "url") == Some(JStr(s)) && IsHttpUrl(s)) ==>
      r.Ok? && Get(tag.members, "url") == Some(JStr(r.value))
    ensures tag.JObj? && !TruthyProp(tag, "link") && !TruthyProp(tag, "url") ==> r.Err?
    ensures !tag.JStr? && !tag.JObj? ==> r.Err?
  {
    CheckedUrl(Prop(tag, "link"), Prop(tag, "url"), tag)
  }

  /**
   * The check as its error message describes it: a string tag is used
   * when it is an http(s) URL, and an object's `link`, else its `url`,
   * must be one. Only own properties of the payload are read.
   */
  function ImageTagUrlIntended(tag: Json): (r: Result<string, TagError>)
    ensures r.Ok? ==> IsHttpUrl(r.value)
    ensures tag.JStr? ==> r == (if IsHttpUrl(tag.s) then Ok(tag.s) else Err(InvalidImageTag))
    ensures tag.JObj? && (exists s :: Get(tag.members, "link") == Some(JStr(s)) && s != "" && IsHttpUrl(s)) ==>
      r.Ok? && Get(tag.members, "link") == Some(JStr(r.value))
    ensures tag.JObj? && !TruthyProp(tag, "link")
            && (exists s :: Get(tag.members, "url") == Some(JStr(s)) && IsHttpUrl(s)) ==>
      r.Ok? && Get(tag.members, "url") == Some(JStr(r.value))
    ensures tag.JObj? && !TruthyProp(tag, "link") && !TruthyProp(tag, "url") ==> r.Err?
    ensures !tag.JStr? && !tag.JObj? ==> r.Err?
  {
    CheckedUrl(OwnProp(tag, "link"), OwnProp(tag, "url"), tag)
  }

  /** An http(s) string tag: rejected as written, accepted as intended. */
  lemma StringTagRejected(s: string)
    requires IsHttpUrl(s)
    ensures ImageTagUrl(JStr(s)) == Err(InvalidImageTag)
    ensures ImageTagUrlIntended(JStr(s)) == Ok(s)
  {
  }

  /** The two checks differ only on string tags. */
  lemma IntendedAgreesOffStrings(tag: Json)
    requires !tag.JStr?
    ensures ImageTagUrl(tag) == ImageTagUrlIntended(tag)
  {
  }

  /** A truthy `link` that is not an http(s) string is rejected even when `url` is valid. */
  lemma LinkShadowsUrl(link: string, url: string)
    requires link != "" && !IsHttpUrl(link) && IsHttpUrl(url)
    ensures ImageTagUrl(JObj([Member("link", JStr(link)), Member("url", JStr(url))])).Err?
    ensures ImageTagUrlIntended(JObj([Member("link", JStr(link)), Member("url", JStr(url))])).Err?
  {
  }
}
