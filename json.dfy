/** JSON-shaped values as Vert.x `JsonObject` and `JsonArray` hold them, with
    the typed getters the core uses. */
module Json {
  import opened Wrappers

  datatype Json =
    | JNull
    | JBool(b: bool)
    | JNum(n: int)
    | JStr(s: string)
    | JArr(items: seq<Json>)
    | JObj(fields: map<string, Json>)

  /** A `JsonObject`: keys mapped to values. */
  type JsonObject = map<string, Json>

  /** The two words used for "status" and "outcome". */
  function UpDown(up: bool): (j: Json)
    ensures j == JStr("UP") <==> up
    ensures j == JStr("DOWN") <==> !up
  {
    JStr(if up then "UP" else "DOWN")
  }

  /** `getString(key)`: the string stored under `key`, or null when the key
      is absent. Vert.x does not return null for a present value of another
      type (it casts or converts it); the model reads such a value as
      absent. */
  function GetString(o: JsonObject, key: string): (r: Option<string>)
    ensures r.Some? <==> key in o && o[key].JStr?
    ensures r.Some? ==> o[key] == JStr(r.value)
  {
    if key in o && o[key].JStr? then Some(o[key].s) else None
  }

  /** `getJsonObject(key)`: the object stored under `key`, or null when the
      key is absent. Vert.x casts, so a present value of another type throws
      `ClassCastException`; the model reads it as absent. */
  function GetObject(o: JsonObject, key: string): (r: Option<JsonObject>)
    ensures r.Some? <==> key in o && o[key].JObj?
    ensures r.Some? ==> o[key] == JObj(r.value)
  {
    if key in o && o[key].JObj? then Some(o[key].fields) else None
  }

  /** `getJsonArray(key)`: the array stored under `key`, or null when the
      key is absent. A present value of another type throws in Vert.x; the
      model reads it as absent. */
  function GetArray(o: JsonObject, key: string): (r: Option<seq<Json>>)
    ensures r.Some? <==> key in o && o[key].JArr?
    ensures r.Some? ==> o[key] == JArr(r.value)
  {
    if key in o && o[key].JArr? then Some(o[key].items) else None
  }
}
