/** `DefaultCompositeProcedure`: a named group of procedures whose check
    runs every child and reports UP only when every child is up. */
module Composite {
  import opened Wrappers
  import opened Json
  import opened Leaf
  import CheckResults
  import Outcomes
  import Statuses
  import StatusHelper

  /** A child of a composite: a leaf procedure or another composite. */
  datatype Node = LeafNode(procedure: DefaultProcedure) | CompositeNode(composite: CompositeProcedure)

  /** The entry a composite writes for one child, from the child's report:
      the report's own "id" when it has one (else the child's key), the
      child's verdict under "status", then either the report's "data" object
      without its "result" entry or, when there is no data object, the
      report's "checks" array. */
  function Entry(key: string, report: JsonObject): (e: JsonObject)
    ensures "id" in e && "status" in e
    ensures !("data" in e && "checks" in e)
  {
    var base := map["id" := if "id" in report then report["id"] else JStr(key),
                    "status" := UpDown(StatusHelper.IsUpJson(Some(report)))];
    match GetObject(report, "data")
    case Some(data) => base["data" := JObj(data - {"result"})]
    case None =>
      match GetArray(report, "checks")
      case Some(cs) => base["checks" := JArr(cs)]
      case None => base
  }

  /** Which keys an entry has and what each holds. */
  lemma EntryShape(key: string, report: JsonObject)
    ensures var e := Entry(key, report);
      && e.Keys == {"id", "status"}
        + (if GetObject(report, "data").Some? then {"data"}
           else if GetArray(report, "checks").Some? then {"checks"} else {})
      && e["id"] == (if "id" in report then report["id"] else JStr(key))
      && (e["status"] == JStr("UP") <==> StatusHelper.IsUpJson(Some(report)))
      && ("data" in e ==> e["data"] == JObj(GetObject(report, "data").value - {"result"}))
      && ("checks" in e ==> e["checks"] == report["checks"])
  {
  }

  /** The puts that build one child's entry. */
  method WriteEntry(key: string, json: JsonObject) returns (r: JsonObject)
    ensures r == Entry(key, json)
  {
    var up := StatusHelper.IsUpJson(Some(json));
    r := map[];
    r := r["id" := if "id" in json then json["id"] else JStr(key)];
    r := r["status" := if up then JStr("UP") else JStr("DOWN")];
    var data := GetObject(json, "data");
    var nested := GetArray(json, "checks");
    if data.Some? {
      r := r["data" := JObj(data.value - {"result"})];
    } else if nested.Some? {
      r := r["checks" := JArr(nested.value)];
    }
  }

  /** Every child listed in `order` reported up. */
  ghost predicate AllUp(order: seq<string>, tasks: map<string, JsonObject>)
    requires forall i :: 0 <= i < |order| ==> order[i] in tasks
  {
    forall i :: 0 <= i < |order| ==> StatusHelper.IsUpJson(Some(tasks[order[i]]))
  }

  lemma AllUpSnoc(order: seq<string>, key: string, tasks: map<string, JsonObject>)
    requires forall i :: 0 <= i < |order| ==> order[i] in tasks
    requires key in tasks
    ensures AllUp(order + [key], tasks) == (AllUp(order, tasks) && StatusHelper.IsUpJson(Some(tasks[key])))
  {
    var o := order + [key];
    assert o[|order|] == key;
    assert forall i :: 0 <= i < |order| ==> o[i] == order[i];
  }

  /** The first loop of `check`: one promise per child of the snapshot,
      completed with that child's report. */
  method StartAll(copy: map<string, Node>, reports: map<string, JsonObject>) returns (tasks: map<string, JsonObject>)
    requires copy.Keys <= reports.Keys
    ensures tasks.Keys == copy.Keys
    ensures forall k :: k in tasks ==> tasks[k] == reports[k]
  {
    tasks := map[];
    var todo := copy.Keys;
    while todo != {}
      invariant todo <= copy.Keys
      invariant tasks.Keys == copy.Keys - todo
      invariant forall k :: k in tasks ==> tasks[k] == reports[k]
      decreases todo
    {
      var key :| key in todo;
      tasks := tasks[key := reports[key]];
      todo := todo - {key};
    }
  }

  /** The completion handler of `check`: walks the completed promises in
      the map's iteration order, writing each child's entry and folding the
      verdicts into `success`. */
  method Collect(tasks: map<string, JsonObject>) returns (checks: seq<Json>, order: seq<string>, success: bool)
    ensures IsEnumeration(order, tasks.Keys)
    ensures |checks| == |order|
    ensures forall i :: 0 <= i < |order| ==> checks[i] == JObj(Entry(order[i], tasks[order[i]]))
    ensures success <==> forall k :: k in tasks ==> StatusHelper.IsUpJson(Some(tasks[k]))
  {
    success := true;
    checks := [];
    order := [];
    var remaining := tasks.Keys;
    while remaining != {}
      invariant remaining <= tasks.Keys
      invariant multiset(order) + multiset(remaining) == multiset(tasks.Keys)
      invariant Listed(checks, order, tasks)
      invariant success == AllUp(order, tasks)
      decreases remaining
    {
      var key :| key in remaining;
      var json := tasks[key];
      var up := StatusHelper.IsUpJson(Some(json));
      success := success && up;
      var r := WriteEntry(key, json);
      TakeOne(order, remaining, key, tasks.Keys);
      ListedSnoc(checks, order, tasks, key);
      AllUpSnoc(order, key, tasks);
      checks := checks + [JObj(r)];
      order := order + [key];
      remaining := remaining - {key};
    }
    EnumerationFacts(order, tasks.Keys);
    assert AllUp(order, tasks) <==> forall k :: k in tasks ==> StatusHelper.IsUpJson(Some(tasks[k]));
  }

  /** `checks` holds, position by position, the entries of the children
      listed in `order`. */
  ghost predicate Listed(checks: seq<Json>, order: seq<string>, tasks: map<string, JsonObject>) {
    && |checks| == |order|
    && forall i :: 0 <= i < |order| ==> order[i] in tasks && checks[i] == JObj(Entry(order[i], tasks[order[i]]))
  }

  lemma ListedSnoc(checks: seq<Json>, order: seq<string>, tasks: map<string, JsonObject>, key: string)
    requires Listed(checks, order, tasks) && key in tasks
    ensures Listed(checks + [JObj(Entry(key, tasks[key]))], order + [key], tasks)
  {
  }

  /** Moving one key from the remaining set to the end of the order keeps
      their union. */
  lemma TakeOne(order: seq<string>, remaining: set<string>, key: string, keys: set<string>)
    requires multiset(order) + multiset(remaining) == multiset(keys) && key in remaining
    ensures multiset(order + [key]) + multiset(remaining - {key}) == multiset(keys)
  {
    assert multiset(remaining) == multiset(remaining - {key}) + multiset{key};
  }

  /** The whole report once every child has reported. */
  method Report(tasks: map<string, JsonObject>) returns (result: JsonObject, order: seq<string>)
    ensures result.Keys == {"checks", "outcome"}
    ensures result["outcome"] == UpDown(forall k :: k in tasks ==> StatusHelper.IsUpJson(Some(tasks[k])))
    ensures IsEnumeration(order, tasks.Keys)
    ensures EntriesOf(result, order, tasks)
  {
    var checks, success;
    checks, order, success := Collect(tasks);
    result := map["checks" := JArr(checks)];
    result := result["outcome" := if success then JStr("UP") else JStr("DOWN")];
    assert result["checks"].items == checks;
  }

  /** The "checks" array of `result` holds the entries of the children in
      `order`. */
  ghost predicate EntriesOf(result: JsonObject, order: seq<string>, reports: map<string, JsonObject>) {
    && "checks" in result && result["checks"].JArr?
    && |result["checks"].items| == |order|
    && forall i :: 0 <= i < |order| ==>
         order[i] in reports && result["checks"].items[i] == JObj(Entry(order[i], reports[order[i]]))
  }

  /** `order` lists every key of `keys` exactly once. */
  predicate IsEnumeration(order: seq<string>, keys: set<string>) {
    && multiset(order) == multiset(keys)
    && forall i :: 0 <= i < |order| ==> order[i] in keys
  }
  /** What an enumeration of a key set gives: the same members, the same
      number of them, no repetition. */
  lemma EnumerationFacts(order: seq<string>, keys: set<string>)
    requires IsEnumeration(order, keys)
    ensures forall k :: k in keys ==> k in order
    ensures |order| == |keys|
  {
    assert |order| == |multiset(order)| == |multiset(keys)| == |keys|;
    forall k | k in keys
      ensures k in order
    {
      assert k in multiset(keys);
    }
  }
  /** An element occurring at two positions is counted twice. */
  lemma CountAtLeast(s: seq<string>, i: int, j: int)
    requires 0 <= i < j < |s|
    ensures multiset(s)[s[i]] >= if s[i] == s[j] then 2 else 1
  {
    assert s == s[..j] + [s[j]] + s[j + 1..];
    assert s[..j][i] == s[i];
    assert s[i] in multiset(s[..j]);
  }

  /** No key is listed twice. */
  lemma EnumerationDistinct(order: seq<string>, keys: set<string>)
    requires IsEnumeration(order, keys)
    ensures forall i, j :: 0 <= i < j < |order| ==> order[i] != order[j]
  {
    forall i, j | 0 <= i < j < |order|
      ensures order[i] != order[j]
    {
      CountAtLeast(order, i, j);
      assert multiset(keys)[order[i]] <= 1;
    }
  }

  class CompositeProcedure {
    var children: map<string, Node>

    /** `new DefaultCompositeProcedure()`: no children. */
    constructor ()
      ensures children == map[]
    {
      children := map[];
    }

    /** `add(name, check)`: a null argument throws; otherwise the child is
        stored under `name`, replacing any previous one. */
    method Add(name: Option<string>, check: Option<Node>) returns (r: Result<Unit, JavaException>)
      modifies this
      ensures r.Err? <==> name.None? || check.None?
      ensures r.Err? ==> r.error == NullPointerException && children == old(children)
      ensures r.Ok? ==> children == old(children)[name.value := check.value]
    {
      if name.None? || check.None? {
        return Err(NullPointerException);
      }
      children := children[name.value := check.value];
      return Ok(Unit);
    }

    /** `remove(name)`: a null name throws; otherwise the child is dropped
        and the answer says whether there was one. */
    method Remove(name: Option<string>) returns (r: Result<bool, JavaException>)
      modifies this
      ensures r.Err? <==> name.None?
      ensures r.Err? ==> r.error == NullPointerException && children == old(children)
      ensures r.Ok? ==> r.value == (name.value in old(children)) && children == old(children) - {name.value}
    {
      if name.None? {
        return Err(NullPointerException);
      }
      var present := name.value in children;
      children := children - {name.value};
      return Ok(present);
    }

    /** `get(name)`: the child under `name`, or null. */
    function Get(name: string): (r: Option<Node>)
      reads this
      ensures r.Some? <==> name in children
      ensures r.Some? ==> r.value == children[name]
    {
      if name in children then Some(children[name]) else None
    }

    /** `check(resultHandler)`: starts every child of a snapshot of the
        children, then, once all have reported (`reports` holds what each
        child delivered), writes one entry per child in the map's iteration
        order and the overall outcome. The iteration order is not fixed by
        the source; `order` is the one taken. */
    method Check(reports: map<string, JsonObject>) returns (result: JsonObject, order: seq<string>)
      requires children.Keys <= reports.Keys
      ensures result.Keys == {"checks", "outcome"}
      ensures result["outcome"] == UpDown(forall k :: k in children ==> StatusHelper.IsUpJson(Some(reports[k])))
      ensures IsEnumeration(order, children.Keys)
      ensures EntriesOf(result, order, reports)
    {
      var copy := children;
      var tasks := StartAll(copy, reports);
      // Once every promise has completed.
      result, order := Report(tasks);
      assert EntriesOf(result, order, tasks);
      assert EntriesOf(result, order, reports) by {
        forall i | 0 <= i < |order|
          ensures tasks[order[i]] == reports[order[i]]
        {
        }
      }
      assert (forall k :: k in tasks ==> StatusHelper.IsUpJson(Some(tasks[k])))
        <==> (forall k :: k in children ==> StatusHelper.IsUpJson(Some(reports[k])));
    }
  }

  /** A composite's report carries "outcome" and no "status", so a parent
      reads it as up exactly when its outcome is UP. */
  lemma CompositeReportIsUp(result: JsonObject, up: bool)
    requires result.Keys == {"checks", "outcome"} && result["outcome"] == UpDown(up)
    ensures StatusHelper.IsUpJson(Some(result)) == up
  {
  }

  /** The outcome of a composite is UP exactly when every entry it wrote is
      UP: entries and outcome never disagree. */
  lemma OutcomeFollowsEntries(order: seq<string>, keys: set<string>, reports: map<string, JsonObject>)
    requires IsEnumeration(order, keys) && keys <= reports.Keys
    ensures (forall k :: k in keys ==> StatusHelper.IsUpJson(Some(reports[k])))
      <==> (forall i :: 0 <= i < |order| ==> Entry(order[i], reports[order[i]])["status"] == JStr("UP"))
  {
    EnumerationFacts(order, keys);
    if forall i :: 0 <= i < |order| ==> Entry(order[i], reports[order[i]])["status"] == JStr("UP") {
      forall k | k in keys
        ensures StatusHelper.IsUpJson(Some(reports[k]))
      {
        var i :| 0 <= i < |order| && order[i] == k;
        EntryShape(order[i], reports[order[i]]);
      }
    }
  }

  /** The entry of a leaf written by `StatusHelper.from`: its id is the
      leaf's name, its status its verdict, and a failed run shows its cause
      under "data". */
  lemma LeafEntry(key: string, name: string, ar: Outcomes.AsyncResult<Outcomes.Value>)
    ensures var e := Entry(key, StatusHelper.From(Some(name), ar));
      && e["id"] == JStr(name)
      && (e["status"] == JStr("UP") <==> CheckResults.Up(Leaf.From(name, ar)))
      && (ar.Failed? ==> e["data"] == JObj(map["cause" := JStr(ar.cause.message)]))
  {
    ReportsAgree(name, ar);
    var j := StatusHelper.From(Some(name), ar);
    if ar.Failed? {
      assert map["cause" := JStr(ar.cause.message)] - {"result"} == map["cause" := JStr(ar.cause.message)];
    }
  }

  /** A child that completes with a fresh `Status` carrying data but no
      "ok" flag makes its composite DOWN: whatever its siblings report, the
      outcome that `Check` states for the composite is "DOWN". */
  lemma DataWithoutOkIsDown(keys: set<string>, reports: map<string, JsonObject>, key: string, name: string, data: JsonObject)
    requires key in keys && keys <= reports.Keys
    requires reports[key] == StatusHelper.From(Some(name),
      Outcomes.Succeeded(Outcomes.VStatus(Statuses.Default.(data := data))))
    ensures UpDown(forall k :: k in keys ==> StatusHelper.IsUpJson(Some(reports[k]))) == JStr("DOWN")
  {
    assert !StatusHelper.IsUpJson(Some(reports[key]));
  }
}
