/** `StatusHelper`: the JSON report of a leaf outcome and the JSON up/down
    test that composites apply to their children's reports. */
module StatusHelper {
  import opened Wrappers
  import opened Json
  import opened Statuses
  import opened Outcomes

  /** `StatusHelper.from(name, ar)`: the JSON report of a completed check. */
  function From(name: Option<string>, ar: AsyncResult<Value>): (json: JsonObject)
    ensures ("id" in json) <==> name.Some?
    ensures name.Some? ==> json["id"] == JStr(name.value)
    ensures json.Keys <= {"id", "status", "data", "error"} && "status" in json
    ensures ar.Succeeded? ==>
      var res := StatusOf(ar.result);
      && (json["status"] == JStr("DOWN") <==> res.Some? && !res.value.ok)
      && (json["status"] == JStr("UP") <==> res.None? || res.value.ok)
      && ("data" in json <==> res.Some? && res.value.data != map[])
      && ("data" in json ==> json["data"] == JObj(res.value.data))
      && ("error" in json <==> res.Some? && res.value.procedureInError)
      && ("error" in json ==> json["error"] == JBool(true))
    ensures ar.Failed? ==>
      && json["status"] == JStr("DOWN")
      && "data" in json && json["data"] == JObj(map["cause" := JStr(ar.cause.message)])
      && "error" !in json
  {
    var res := if ar.Succeeded? then StatusOf(ar.result) else None;
    var j0: JsonObject := if name.Some? then map["id" := JStr(name.value)] else map[];
    if ar.Succeeded? then
      var j1 := j0["status" := UpDown(!(res.Some? && !res.value.ok))];
      var j2 := if res.Some? && res.value.data != map[] then j1["data" := JObj(res.value.data)] else j1;
      if res.Some? && res.value.procedureInError then j2["error" := JBool(true)] else j2
    else
      j0["status" := JStr("DOWN")]["data" := JObj(map["cause" := JStr(ar.cause.message)])]
  }

  /** `StatusHelper.onError(name, e)`: the report of a procedure that could
      not be executed. */
  function OnError(name: Option<string>, e: Failure): (json: JsonObject)
    ensures ("id" in json) <==> name.Some?
    ensures name.Some? ==> json["id"] == JStr(name.value)
    ensures json.Keys <= {"id", "status", "data"}
    ensures "status" in json && json["status"] == JStr("DOWN")
    ensures "data" in json
    ensures json["data"] == JObj(map["procedure-execution-failure" := JBool(true), "cause" := JStr(e.message)])
  {
    var j0: JsonObject := if name.Some? then map["id" := JStr(name.value)] else map[];
    j0["status" := JStr("DOWN")]
      ["data" := JObj(map["procedure-execution-failure" := JBool(true)]["cause" := JStr(e.message)])]
  }

  /** `StatusHelper.isUp(json)`: a null report, or one whose "status" or
      "outcome" is the string "UP". */
  function IsUpJson(json: Option<JsonObject>): (b: bool)
    ensures b <==>
      json.None?
      || ("status" in json.value && json.value["status"] == JStr("UP"))
      || ("outcome" in json.value && json.value["outcome"] == JStr("UP"))
  {
    json.None? || GetString(json.value, "status") == Some("UP") || GetString(json.value, "outcome") == Some("UP")
  }

  /** `StatusHelper.isUp(future)`: a failed future is never up. */
  function IsUpFuture(f: AsyncResult<Option<JsonObject>>): (b: bool)
    ensures f.Failed? ==> !b
    ensures f.Succeeded? ==> b == IsUpJson(f.result)
  {
    f.Succeeded? && IsUpJson(f.result)
  }

  /** A success with no value, or with a value that is not a status, is
      reported UP without data and without error. */
  lemma EmptySuccessIsUp(name: Option<string>, v: Value)
    requires v.VNull? || v.VOther?
    ensures From(name, Succeeded(v))["status"] == JStr("UP")
    ensures "data" !in From(name, Succeeded(v)) && "error" !in From(name, Succeeded(v))
    ensures IsUpJson(Some(From(name, Succeeded(v))))
  {
  }

  /** An explicit down status with data is reported DOWN with that data and
      without the error flag. */
  lemma ExplicitDownKeepsData(name: Option<string>, data: JsonObject)
    requires data != map[]
    ensures From(name, Succeeded(VStatus(KO(data))))["status"] == JStr("DOWN")
    ensures From(name, Succeeded(VStatus(KO(data))))["data"] == JObj(data)
    ensures "error" !in From(name, Succeeded(VStatus(KO(data))))
    ensures !IsUpJson(Some(From(name, Succeeded(VStatus(KO(data))))))
  {
  }

  /** A default `new Status()` counts as down. */
  lemma DefaultStatusIsDown(name: Option<string>)
    ensures !IsUpJson(Some(From(name, Succeeded(VStatus(Default)))))
  {
  }
}
