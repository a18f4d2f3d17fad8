/**
 * The parsed JSON payload the templating routes receive, as a tagged tree
 * (what `JSON.parse` produces and the duck-typed walks inspect).
 */
module Json {
  import opened Wrappers

  datatype Json =
    | JNull
    | JBool(b: bool)
    | JNum(n: real)
    | JStr(s: string)
    | JArr(items: seq<Json>)
    | JObj(members: seq<Member>)

  /** One own property of an object, in `Object.keys` order. */
  datatype Member = Member(key: string, value: Json)

  /** JavaScript truthiness of a parsed value (`JSON.parse` never yields NaN). */
  predicate Truthy(v: Json)
  {
    match v
    case JNull => false
    case JBool(b) => b
    case JNum(n) => n != 0.0
    case JStr(s) => s != ""
    case JArr(_) => true
    case JObj(_) => true
  }

  /** `v && typeof v === "object"`: the values a walk descends into. */
  predicate IsContainer(v: Json)
  {
    v.JArr? || v.JObj?
  }

  /** `o[key]` on an object: the value of the first member with that key (keys of a parsed object are distinct). */
  function Get(members: seq<Member>, key: string): (r: Option<Json>)
    ensures r.Some? <==> exists i :: 0 <= i < |members| && members[i].key == key
    ensures r.Some? ==> exists i :: 0 <= i < |members| && members[i] == Member(key, r.value)
  {
    if members == [] then None
    else if members[0].key == key then Some(members[0].value)
    else
      var r := Get(members[1..], key);
      assert forall i :: 1 <= i < |members| ==> members[i] == members[1..][i - 1];
      r
  }

  /** `Object.keys(o)`. */
  function Keys(members: seq<Member>): (r: seq<string>)
    ensures |r| == |members|
    ensures forall i :: 0 <= i < |r| ==> r[i] == members[i].key
  {
    seq(|members|, i requires 0 <= i < |members| => members[i].key)
  }
}
