/**
 * The dynamic JavaScript values the site's utilities receive as `any`:
 * their truthiness, property access, `String(v)` conversion, and the
 * `JSON.parse(JSON.stringify(v, replacer))` round trip the question
 * sanitiser performs.
 *
 * Numbers are integers here; functions, symbols and other host objects that
 * JSON cannot carry are `JsOpaque`, holding the text `String()` renders for
 * them. A DOM node is an object whose `nodeType` property is truthy.
 */
module JsValues {
  import opened Wrappers
  import opened Text

  datatype JsValue =
    | JsUndefined
    | JsNull
    | JsBool(b: bool)
    | JsNum(n: int)
    | JsStr(s: string)
    | JsArr(items: seq<JsValue>)
    | JsObj(fields: map<string, JsValue>)
    | JsOpaque(rendering: string)

  /** JavaScript truthiness: `undefined`, `null`, `false`, `0` and `""` are falsy. */
  predicate Truthy(v: JsValue)
  {
    match v
    case JsUndefined => false
    case JsNull => false
    case JsBool(b) => b
    case JsNum(n) => n != 0
    case JsStr(s) => s != ""
    case _ => true
  }

  /** `v[key]` / `v?.[key]` for a named property: `undefined` unless `v` is an object having it. */
  function Get(v: JsValue, key: string): (r: JsValue)
    ensures !v.JsObj? ==> r == JsUndefined
  {
    if v.JsObj? && key in v.fields then v.fields[key] else JsUndefined
  }

  /** `v?.[0]`: the first array element, the first character of a string or an object's "0" member. */
  function Index0(v: JsValue): JsValue
  {
    match v
    case JsArr(items) => if items == [] then JsUndefined else items[0]
    case JsStr(s) => if s == [] then JsUndefined else JsStr([s[0]])
    case JsObj(_) => Get(v, "0")
    case _ => JsUndefined
  }

  /** An object the JSON replacer treats as a DOM node. */
  predicate IsDomNode(v: JsValue)
  {
    v.JsObj? && "nodeType" in v.fields && Truthy(v.fields["nodeType"])
  }

  /** Joins strings with a separator, as `Array.prototype.join` does. */
  function Join(parts: seq<string>, sep: string): (r: string)
    ensures parts == [] ==> r == ""
    ensures |parts| == 1 ==> r == parts[0]
  {
    if parts == [] then ""
    else if |parts| == 1 then parts[0]
    else parts[0] + sep + Join(parts[1..], sep)
  }

  /** `String(v)`. Arrays join their elements with "," and show `null`/`undefined` as "". */
  function ToJsString(v: JsValue): string
  {
    match v
    case JsUndefined => "undefined"
    case JsNull => "null"
    case JsBool(b) => if b then "true" else "false"
    case JsNum(n) => IntToString(n)
    case JsStr(s) => s
    case JsArr(items) =>
      Join(seq(|items|, i requires 0 <= i < |items| =>
             if items[i].JsNull? || items[i].JsUndefined? then "" else ToJsString(items[i])), ",")
    case JsObj(_) => "[object Object]"
    case JsOpaque(r) => r
  }

  /** `String(v || fallback)` for a string fallback. */
  function StringOr(v: JsValue, fallback: string): (r: string)
    ensures !Truthy(v) ==> r == fallback
    ensures v.JsStr? && Truthy(v) ==> r == v.s
  {
    if Truthy(v) then ToJsString(v) else fallback
  }

  /**
   * The value `JSON.stringify(v, replacer)` followed by `JSON.parse` yields,
   * where the replacer drops functions, symbols and DOM nodes; `None` when the
   * value itself is dropped (stringify then gives `undefined`). Dropped object
   * members disappear and dropped array elements become `null`.
   */
  function JsonRoundTrip(v: JsValue): Option<JsValue>
  {
    match v
    case JsUndefined => None
    case JsOpaque(_) => None
    case JsObj(f) =>
      if IsDomNode(v) then None
      else Some(JsObj(map k | k in f && JsonRoundTrip(f[k]).Some? :: JsonRoundTrip(f[k]).value))
    case JsArr(items) =>
      Some(JsArr(seq(|items|, i requires 0 <= i < |items| =>
        if JsonRoundTrip(items[i]).Some? then JsonRoundTrip(items[i]).value else JsNull)))
    case _ => Some(v)
  }

  /** A value JSON carries unchanged: no `undefined`, host object or DOM node anywhere in it. */
  predicate JsonSafe(v: JsValue)
  {
    match v
    case JsUndefined => false
    case JsOpaque(_) => false
    case JsObj(f) => !IsDomNode(v) && forall k :: k in f ==> JsonSafe(f[k])
    case JsArr(items) => forall i :: 0 <= i < |items| ==> JsonSafe(items[i])
    case _ => true
  }

  /** JSON-safe values survive the sanitiser's serialisation round trip unchanged. */
  lemma {:induction false} JsonSafeRoundTrip(v: JsValue)
    requires JsonSafe(v)
    ensures JsonRoundTrip(v) == Some(v)
  {
    match v
    case JsObj(f) =>
      forall k | k in f
        ensures JsonRoundTrip(f[k]) == Some(f[k])
      {
        JsonSafeRoundTrip(f[k]);
      }
      var g := map k | k in f && JsonRoundTrip(f[k]).Some? :: JsonRoundTrip(f[k]).value;
      assert g == f;
    case JsArr(items) =>
      forall i | 0 <= i < |items|
        ensures JsonRoundTrip(items[i]) == Some(items[i])
      {
        JsonSafeRoundTrip(items[i]);
      }
      var t := seq(|items|, i requires 0 <= i < |items| =>
        if JsonRoundTrip(items[i]).Some? then JsonRoundTrip(items[i]).value else JsNull);
      assert t == items;
    case _ =>
  }

  /** Whatever the round trip yields is itself JSON-safe. */
  lemma {:induction false} JsonRoundTripIsSafe(v: JsValue)
    requires JsonRoundTrip(v).Some?
    ensures JsonSafe(JsonRoundTrip(v).value)
  {
    match v
    case JsObj(f) =>
      forall k | k in f && JsonRoundTrip(f[k]).Some?
        ensures JsonSafe(JsonRoundTrip(f[k]).value)
      {
        JsonRoundTripIsSafe(f[k]);
      }
      var g := map k | k in f && JsonRoundTrip(f[k]).Some? :: JsonRoundTrip(f[k]).value;
      assert !("nodeType" in g && Truthy(g["nodeType"]));
    case JsArr(items) =>
      forall i | 0 <= i < |items| && JsonRoundTrip(items[i]).Some?
        ensures JsonSafe(JsonRoundTrip(items[i]).value)
      {
        JsonRoundTripIsSafe(items[i]);
      }
    case _ =>
  }
}
