/** Parsed JSON values, as `json.load` and `JSON.parse` hand them to the
    alias code: an object is the list of its members in order (a Python
    dict or a JavaScript object holds each key once). */
module JsonData {
  import opened Text

  datatype Json =
    | JNull
    | JBool(b: bool)
    | JInt(n: int)
      /** A number with a fraction or exponent, kept as the shortest decimal
          text that prints it back. */
    | JFloat(text: string)
    | JString(s: string)
    | JArray(items: seq<Json>)
    | JObject(members: seq<(string, Json)>)

  /** `d.get(key)` / `obj[key]`: a parsed object keeps the last member with
      a repeated key, so this is the value of the last member with that key. */
  function Get(members: seq<(string, Json)>, key: string): (r: Option<Json>)
    ensures r.Some? <==> exists i :: 0 <= i < |members| && members[i].0 == key
    ensures r.Some? ==> exists i :: (0 <= i < |members| && members[i] == (key, r.value)
      && forall j :: i < j < |members| ==> members[j].0 != key)
    decreases |members|
  {
    if members == [] then None
    else
      var n := |members| - 1;
      if members[n].0 == key then
        assert members[n] == (key, members[n].1);
        Some(members[n].1)
      else
        var init := members[..n];
        assert forall i :: 0 <= i < n ==> members[i] == init[i];
        Get(init, key)
  }

  /** `key in d`. */
  predicate HasKey(members: seq<(string, Json)>, key: string)
  {
    Get(members, key).Some?
  }

  /** Python's `isinstance(x, (int, float))`; `bool` is a subclass of `int`. */
  predicate IsNumber(j: Json)
  {
    j.JBool? || j.JInt? || j.JFloat?
  }

  /** What a Python dict accepts as a key: everything but lists and dicts. */
  predicate Hashable(j: Json)
  {
    !j.JArray? && !j.JObject?
  }

  /** JavaScript truthiness of a parsed value. */
  predicate Truthy(j: Json)
  {
    match j
    case JNull => false
    case JBool(b) => b
    case JInt(n) => n != 0
    case JFloat(t) => t != "0" && t != "-0"
    case JString(s) => s != ""
    case _ => true
  }

  /** JavaScript's `String(v)`. An array joins its elements' texts with
      commas, writing null as the empty text. */
  function JsString(j: Json): string
  {
    match j
    case JNull => "null"
    case JBool(b) => if b then "true" else "false"
    case JInt(n) => IntToString(n)
    case JFloat(t) => t
    case JString(s) => s
    case JArray(items) => JoinTexts(items)
    case JObject(_) => "[object Object]"
  }

  function JoinTexts(items: seq<Json>): string
    decreases items, 0
  {
    if items == [] then ""
    else
      var first := if items[0].JNull? then "" else JsString(items[0]);
      if |items| == 1 then first else first + "," + JoinTexts(items[1..])
  }
}
