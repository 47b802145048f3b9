/** `CheckResult`: the recursive outcome record of an evaluation, its
    up/down verdict, its diagnostic data and its JSON rendering. */
module CheckResults {
  import opened Wrappers
  import opened Json
  import opened Statuses
  import opened Outcomes

  /** The `checks` list of a result, which may be null. */
  datatype CheckList = NullList | List(items: seq<CheckResult>)

  datatype CheckResult = CheckResult(
    id: Option<string>,
    status: Option<Status>,
    failure: Option<Failure>,
    checks: CheckList)

  /** `new CheckResult()`: every field null. */
  const Empty: CheckResult := CheckResult(None, None, None, NullList)

  /** `CheckResult.from(name, status)`: sets only the id and the status. */
  function FromStatus(name: Option<string>, status: Option<Status>): (r: CheckResult)
    ensures r.id == name && r.status == status
    ensures r.failure.None? && r.checks.NullList?
  {
    Empty.(id := name).(status := status)
  }

  /** `CheckResult.from(name, e)`: sets only the id and the failure. */
  function FromFailure(name: Option<string>, e: Failure): (r: CheckResult)
    ensures r.id == name && r.failure == Some(e)
    ensures r.status.None? && r.checks.NullList?
  {
    Empty.(id := name).(failure := Some(e))
  }

  /** The verdict of a result: a status decides by its `ok` flag, else a
      failure means down, else every nested result must be up (no nested
      list, or an empty one, is up). */
  function Up(r: CheckResult): bool {
    if r.status.Some? then r.status.value.ok
    else if r.failure.Some? then false
    else match r.checks
      case NullList => true
      case List(cs) => forall i :: 0 <= i < |cs| ==> Up(cs[i])
  }

  /** `getUp()`: the loop with an early exit over the nested results. */
  method GetUp(r: CheckResult) returns (up: bool)
    ensures up == Up(r)
    decreases r
  {
    if r.status.Some? {
      return r.status.value.ok;
    } else if r.failure.Some? {
      return false;
    }
    match r.checks {
      case NullList =>
      case List(cs) =>
        var i := 0;
        while i < |cs|
          invariant 0 <= i <= |cs|
          invariant forall j :: 0 <= j < i ==> Up(cs[j])
        {
          var u := GetUp(cs[i]);
          if !u {
            return false;
          }
          i := i + 1;
        }
    }
    return true;
  }

  /** `CheckResult.isUp(result)`: a null result is up. */
  function IsUp(r: Option<CheckResult>): (b: bool)
    ensures r.None? ==> b
    ensures r.Some? ==> b == Up(r.value)
  {
    r.None? || Up(r.value)
  }

  /** `CheckResult.isUp(future)`: a failed future is down. */
  function IsUpFuture(f: AsyncResult<Option<CheckResult>>): (b: bool)
    ensures f.Failed? ==> !b
    ensures f.Succeeded? ==> b == IsUp(f.result)
  {
    f.Succeeded? && IsUp(f.result)
  }

  /** `getData()`: the status payload when the status has one, the failure
      cause when there is no status, and nothing otherwise. */
  function GetData(r: CheckResult): (d: Option<JsonObject>)
    ensures d.Some? ==> d.value != map[]
    ensures r.status.Some? ==> (d.Some? <==> r.status.value.data != map[])
    ensures r.status.Some? && d.Some? ==> d.value == r.status.value.data
    ensures r.status.None? && r.failure.Some? ==>
      && d.Some?
      && d.value.Keys == {"cause"} + (if r.failure.value.procedureException then {"procedure-execution-failure"} else {})
      && d.value["cause"] == JStr(r.failure.value.message)
      && (r.failure.value.procedureException ==> d.value["procedure-execution-failure"] == JBool(true))
    ensures r.status.None? && r.failure.None? ==> d.None?
  {
    if r.status.Some? then
      if r.status.value.data == map[] then None else Some(r.status.value.data)
    else if r.failure.Some? then
      var data := map["cause" := JStr(r.failure.value.message)];
      var full := data["procedure-execution-failure" := JBool(true)];
      assert "cause" in data && "cause" in full;
      if r.failure.value.procedureException then Some(full) else Some(data)
    else None
  }

  /** The JSON form of a result (`toJson()`): the id when there is one, the
      status, the data when there is some, `"error": true` for a status in
      error, the nested results without their own `"outcome"`, and the
      outcome. */
  function Render(r: CheckResult): JsonObject {
    var up := Up(r);
    var j0: JsonObject := if r.id.Some? then map["id" := JStr(r.id.value)] else map[];
    var j1 := j0["status" := UpDown(up)];
    var data := GetData(r);
    var j2 := if data.Some? then j1["data" := JObj(data.value)] else j1;
    var j3 := if r.status.Some? && r.status.value.procedureInError then j2["error" := JBool(true)] else j2;
    var j4 := match r.checks
      case NullList => j3
      case List(cs) => j3["checks" := JArr(seq(|cs|, i requires 0 <= i < |cs| => JObj(Render(cs[i]) - {"outcome"})))];
    j4["outcome" := UpDown(up)]
  }

  /** `toJson()`: builds the object by successive puts, rendering each
      nested result in turn. */
  method ToJson(r: CheckResult) returns (json: JsonObject)
    ensures json == Render(r)
    decreases r
  {
    json := map[];
    if r.id.Some? {
      json := json["id" := JStr(r.id.value)];
    }
    var up := GetUp(r);
    json := json["status" := UpDown(up)];
    var data := GetData(r);
    if data.Some? {
      json := json["data" := JObj(data.value)];
    }
    if r.status.Some? && r.status.value.procedureInError {
      json := json["error" := JBool(true)];
    }
    match r.checks {
      case NullList =>
      case List(cs) =>
        var entries: seq<Json> := [];
        var i := 0;
        while i < |cs|
          invariant 0 <= i <= |cs|
          invariant |entries| == i
          invariant forall j :: 0 <= j < i ==> entries[j] == JObj(Render(cs[j]) - {"outcome"})
        {
          var nested := ToJson(cs[i]);
          nested := nested - {"outcome"};
          entries := entries + [JObj(nested)];
          i := i + 1;
        }
        assert entries == seq(|cs|, i requires 0 <= i < |cs| => JObj(Render(cs[i]) - {"outcome"}));
        json := json["checks" := JArr(entries)];
    }
    json := json["outcome" := UpDown(up)];
  }

  /** Which keys the JSON form carries, and that "status" and "outcome"
      both say UP exactly when the result is up. */
  lemma RenderKeys(r: CheckResult)
    ensures Render(r).Keys ==
      {"status", "outcome"}
      + (if r.id.Some? then {"id"} else {})
      + (if GetData(r).Some? then {"data"} else {})
      + (if r.status.Some? && r.status.value.procedureInError then {"error"} else {})
      + (if r.checks.List? then {"checks"} else {})
    ensures Render(r)["status"] == Render(r)["outcome"] == UpDown(Up(r))
    ensures r.id.Some? ==> Render(r)["id"] == JStr(r.id.value)
    ensures GetData(r).Some? ==> Render(r)["data"] == JObj(GetData(r).value)
    ensures "error" in Render(r) ==> Render(r)["error"] == JBool(true)
  {
  }

  /** The nested entries are the children's JSON forms, in list order, each
      without an "outcome" key. */
  lemma RenderNested(r: CheckResult)
    requires r.checks.List?
    ensures Render(r)["checks"].JArr?
    ensures |Render(r)["checks"].items| == |r.checks.items|
    ensures forall i :: 0 <= i < |r.checks.items| ==>
      && Render(r)["checks"].items[i] == JObj(Render(r.checks.items[i]) - {"outcome"})
      && "outcome" !in Render(r)["checks"].items[i].fields
  {
  }

  /** A result with neither status nor failure is rendered UP exactly when
      every nested entry it renders has status UP. */
  lemma {:induction false} RenderedOutcomeFollowsEntries(r: CheckResult)
    requires r.status.None? && r.failure.None? && r.checks.List?
    ensures var items := Render(r)["checks"].items;
      Render(r)["outcome"] == JStr("UP") <==>
        forall i :: 0 <= i < |items| ==> "status" in items[i].fields && items[i].fields["status"] == JStr("UP")
  {
    var cs := r.checks.items;
    var items := Render(r)["checks"].items;
    forall i | 0 <= i < |cs|
      ensures "status" in items[i].fields && (items[i].fields["status"] == JStr("UP") <==> Up(cs[i]))
    {
      RenderKeys(cs[i]);
      assert items[i].fields == Render(cs[i]) - {"outcome"};
    }
  }

  /** The entry of a leaf whose status carries data and no procedure error
      has exactly the keys status, id and data. */
  lemma LeafEntryKeys(name: string, s: Status)
    requires s.data != map[] && !s.procedureInError
    ensures (Render(FromStatus(Some(name), Some(s))) - {"outcome"}).Keys == {"status", "id", "data"}
  {
    RenderKeys(FromStatus(Some(name), Some(s)));
  }

  /** Results built by `from`: a status decides the verdict, a missing
      status and failure is up, a failure is down and carries its cause. */
  lemma FromVerdicts(name: Option<string>, s: Status, e: Failure)
    ensures Up(FromStatus(name, Some(s))) == s.ok
    ensures Up(FromStatus(name, None))
    ensures GetData(FromStatus(name, None)).None?
    ensures !Up(FromFailure(name, e))
    ensures GetData(FromFailure(name, e)).Some?
    ensures GetData(FromFailure(name, e)).value["cause"] == JStr(e.message)
  {
  }
}
