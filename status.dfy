/** The `Status` data object a procedure completes its promise with:
    whether the check is ok, an optional JSON payload and whether the
    procedure itself is in error. */
module Statuses {
  import opened Json

  datatype Status = Status(ok: bool, data: JsonObject, procedureInError: bool)

  /** `new Status()`: not ok, empty data, no procedure error. A status built
      this way counts as down. */
  const Default: Status := Status(false, map[], false)

  /** `Status.OK()` and `Status.OK(data)`. */
  function OK(data: JsonObject): Status {
    Default.(ok := true, data := data)
  }

  /** `Status.KO()` and `Status.KO(data)`. */
  function KO(data: JsonObject): Status {
    Default.(ok := false, data := data)
  }
}

/** The generated converter between `Status` and its JSON form. */
module StatusConverter {
  import opened Json
  import opened Statuses

  /** The status that the setters called by `fromJson` leave behind when
      they start from `obj`: each of the three known keys is applied only
      when its value has the right JSON type; every other entry is ignored. */
  function Decoded(json: JsonObject, obj: Status): Status {
    Status(
      if "ok" in json && json["ok"].JBool? then json["ok"].b else obj.ok,
      if "data" in json && json["data"].JObj? then json["data"].fields else obj.data,
      if "procedureInError" in json && json["procedureInError"].JBool?
      then json["procedureInError"].b else obj.procedureInError)
  }

  /** `StatusConverter.fromJson(json, obj)`: walks the entries of `json` in
      the map's own (unspecified) order and calls the matching setter. */
  method FromJson(json: JsonObject, obj: Status) returns (s: Status)
    ensures s == Decoded(json, obj)
  {
    s := obj;
    var todo := json.Keys;
    while todo != {}
      invariant todo <= json.Keys
      invariant s == Decoded(json - todo, obj)
      decreases todo
    {
      var key :| key in todo;
      var value := json[key];
      if key == "data" {
        if value.JObj? {
          s := s.(data := value.fields);
        }
      } else if key == "ok" {
        if value.JBool? {
          s := s.(ok := value.b);
        }
      } else if key == "procedureInError" {
        if value.JBool? {
          s := s.(procedureInError := value.b);
        }
      }
      assert json - (todo - {key}) == (json - todo)[key := value];
      todo := todo - {key};
    }
    assert json - todo == json;
  }

  /** `new Status(json)`: a default status updated from `json`. */
  function FromJsonObject(json: JsonObject): (s: Status)
    ensures s.ok <==> "ok" in json && json["ok"] == JBool(true)
    ensures s.procedureInError <==> "procedureInError" in json && json["procedureInError"] == JBool(true)
    ensures s.data == if "data" in json && json["data"].JObj? then json["data"].fields else map[]
  {
    Decoded(json, Default)
  }

  /** `StatusConverter.toJson(obj, json)`: writes the three properties of
      `obj` into `json`, keeping its other entries. */
  function ToJson(obj: Status, json: JsonObject): (r: JsonObject)
    ensures r.Keys == json.Keys + {"data", "ok", "procedureInError"}
    ensures r["data"] == JObj(obj.data)
    ensures r["ok"] == JBool(obj.ok)
    ensures r["procedureInError"] == JBool(obj.procedureInError)
    ensures forall k :: k in json && k != "data" && k != "ok" && k != "procedureInError" ==> r[k] == json[k]
  {
    json["data" := JObj(obj.data)]["ok" := JBool(obj.ok)]["procedureInError" := JBool(obj.procedureInError)]
  }

  /** Reading back what `toJson` wrote reproduces the status, whatever the
      target held before and whatever other entries the JSON carried. */
  lemma RoundTrip(s: Status, json: JsonObject, target: Status)
    ensures Decoded(ToJson(s, json), target) == s
  {
  }

  /** Entries under unknown keys leave the target unchanged. */
  lemma DecodedIgnoresUnknownKeys(json: JsonObject, obj: Status, key: string, value: Json)
    requires key != "data" && key != "ok" && key != "procedureInError"
    ensures Decoded(json[key := value], obj) == Decoded(json, obj)
  {
  }

  /** Each property is set only from a value of the right JSON type: a
      known key that is missing, or holds a value of another type, leaves
      its property as the target had it, whatever the other entries. */
  lemma DecodedIgnoresWrongTypes(json: JsonObject, obj: Status)
    ensures !("ok" in json && json["ok"].JBool?) ==> Decoded(json, obj).ok == obj.ok
    ensures !("data" in json && json["data"].JObj?) ==> Decoded(json, obj).data == obj.data
    ensures !("procedureInError" in json && json["procedureInError"].JBool?) ==>
      Decoded(json, obj).procedureInError == obj.procedureInError
  {
  }
}
