# vertx-health-check registry, modelled in Dafny

This project models the core of the Vert.x health-check library and proves
properties of it. The core is a hierarchical registry of health-check
procedures. A procedure is registered under a `/`-separated name. Each
segment of the name is a node in a tree of composites and leaves.

- A leaf (`DefaultProcedure`) runs a user handler against a timeout timer.
  It reports the first outcome as a `CheckResult`.
- A composite (`DefaultCompositeProcedure`) reports every child. Its outcome
  is UP exactly when every child is up.
- `HealthChecksImpl` registers leaves, creating the missing composites on
  the way. It also unregisters names and looks names up for `checkStatus`.
- `CheckResult`, `StatusHelper` and `StatusConverter` compute the verdict,
  the diagnostic data and the JSON forms.

Modules, one concept each:

- **`Wrappers`** (`wrappers.dfy`): nullable references (`Option`), calls that
  may throw (`Result`), and the three Java exceptions the core raises.
- **`Json`** (`json.dfy`): JSON values and the typed getters
  (`getString`, `getJsonObject`, `getJsonArray`). An absent key reads as
  null. A present value of another type reads as absent too. Vert.x instead
  casts it, or converts it to a string (see "## Left out").
- **`JavaStrings`** (`java_strings.dfy`): Java's `split("/")` and
  `trim().isEmpty()`.
  - `split` keeps leading and inner empty pieces and drops trailing ones.
  - A name without `/` splits to itself.
  - A name made only of slashes splits to nothing.
- **`Statuses`** and **`StatusConverter`** (`status.dfy`): the `Status`
  record and its generated JSON converter. `fromJson` is a loop over the
  entries in the map's unspecified order.
- **`Outcomes`** (`outcomes.dfy`): what a promise can be completed with, and
  failure causes.
- **`CheckResults`** (`check_result.dfy`): the recursive result record, its
  verdict (`getUp`, a loop with an early exit), its data and `toJson`.
- **`StatusHelper`** (`status_helper.dfy`): the JSON report of a leaf
  outcome, and the JSON up/down test.
- **`Leaf`** (`default_procedure.dfy`): `DefaultProcedure`. A run of `check`
  is a class holding a one-shot promise cell. Events are delivered to it in
  any order: complete, fail, a throw from the handler, and the timer firing.
- **`Composite`** (`composite_procedure.dfy`): `DefaultCompositeProcedure`.
  It is a class whose `children` map is updated by `add` and `remove`. Its
  `check` runs the two loops of the source: start every child, then collect
  the reports in the map's iteration order.
- **`Trees`** (`trees.dfy`): the registry's tree as a value, and register,
  unregister and look-up stated on that value.
- **`Registry`** (`health_checks.dfy`): `HealthChecksImpl`. It is a class
  over the real object graph of `CompositeProcedure` objects.
  - The ghost fields `Repr`, `Loc` and `Abs` hold its composites, the path of
    each composite, and the tree that the graph denotes.
  - `Valid()` states that every composite's `children` map mirrors the node
    at its path.
  - Every method is proved against the value-level operation of `Trees`.

Asynchrony is replaced by explicit inputs:

- A leaf run is driven by a sequence of events.
- A composite's `check` receives the report each child delivered.
- `checkStatus(name)` returns the node it would evaluate.

Where the code and its documentation differ, the model follows the code.

- `register` on a name made only of slashes, such as `"/"`, fails with
  `ArrayIndexOutOfBoundsException`. `split` yields no segments, so
  `segments[segments.length - 1]` faults. The model keeps this error path.
- `register` keeps blank segments, but `checkStatus` skips them. A name
  with a leading slash or an empty or blank inner segment ("/a", "a//b",
  "a/ /b") is registered under a composite named by that blank segment.
  Looking the same name up then fails with "Not found".
  `Registry.RegisterBlankSegmentNotFound` shows this for "/a", and
  `Registry.RegisterThenLookup` promises a successful look-up only for names
  without blank segments.
- `Procedure.check` is typed on `CheckResult`, but
  `DefaultCompositeProcedure.check` reads and writes JSON reports. The
  model follows the composite's code.

## Model

| member | source | states |
|---|---|---|
| JavaStrings.Split | src/main/java/io/vertx/ext/healthchecks/impl/HealthChecksImpl.java:44 | `split("/")`: the name itself when it has no `/`, otherwise the pieces without the trailing empty ones |
| JavaStrings.IsBlank | src/main/java/io/vertx/ext/healthchecks/impl/HealthChecksImpl.java:128 | `trim().isEmpty()`, characterised by `BlankIff` |
| JavaStrings.SplitEmptyIff | src/main/java/io/vertx/ext/healthchecks/impl/HealthChecksImpl.java:44 | `split("/")` yields no segment exactly for a non-empty name made only of slashes |
| JavaStrings.SplitPieces | src/main/java/io/vertx/ext/healthchecks/impl/HealthChecksImpl.java:44 | no segment contains `/`; only trailing empty pieces are dropped, and the last segment kept is non-empty |
| JavaStrings.JoinSplitAll | src/main/java/io/vertx/ext/healthchecks/impl/HealthChecksImpl.java:44 | gluing the pieces back with `/` gives the name back |
| JavaStrings.SplitAllJoin | src/main/java/io/vertx/ext/healthchecks/impl/HealthChecksImpl.java:44 | splitting pieces joined with `/` gives back the pieces, when no piece contains `/` |
| JavaStrings.BlankIff | src/main/java/io/vertx/ext/healthchecks/impl/HealthChecksImpl.java:128 | `trim().isEmpty()` holds exactly when every character is at most U+0020 |
| StatusConverter.FromJson | src/main/generated/io/vertx/ext/healthchecks/StatusConverter.java:15-35 | the entry loop, in any order, leaves the status that applies each known key only when its value has the right JSON type |
| StatusConverter.ToJson | src/main/generated/io/vertx/ext/healthchecks/StatusConverter.java:41-47 | writes `data`, `ok` and `procedureInError` from the status and keeps every other entry of the target |
| StatusConverter.RoundTrip | src/main/generated/io/vertx/ext/healthchecks/StatusConverter.java:15-47 | reading back what `toJson` wrote reproduces the status, whatever the target held before |
| StatusConverter.DecodedIgnoresUnknownKeys | src/main/generated/io/vertx/ext/healthchecks/StatusConverter.java:16-34 | an entry under any other key leaves the target unchanged |
| StatusConverter.DecodedIgnoresWrongTypes | src/main/generated/io/vertx/ext/healthchecks/StatusConverter.java:18-32 | for any JSON object and any target, each of `ok`, `data` and `procedureInError` that is missing or holds a value of the wrong JSON type keeps the target's value |
| StatusConverter.Decoded | src/main/generated/io/vertx/ext/healthchecks/StatusConverter.java:16-34 | the status the setter calls leave: each known key applied only when its value has the right JSON type |
| StatusConverter.FromJsonObject | src/main/generated/io/vertx/ext/healthchecks/StatusConverter.java:15-35 | `new Status(json)`: ok and procedureInError are true only when the JSON holds the boolean true; data is the JSON's data object, else empty |
| Outcomes.StatusOf | src/main/java/io/vertx/ext/healthchecks/impl/DefaultProcedure.java:59-64 | a `Status` is used as is, a JSON object is converted with `new Status(json)`, anything else gives null |
| CheckResults.FromStatus | src/main/java/io/vertx/ext/healthchecks/CheckResult.java:17-21 | sets the id and the status only; failure and checks stay null |
| CheckResults.FromFailure | src/main/java/io/vertx/ext/healthchecks/CheckResult.java:23-27 | sets the id and the failure only; status and checks stay null |
| CheckResults.Up | src/main/java/io/vertx/ext/healthchecks/CheckResult.java:68-83 | the verdict: the status's `ok`, else down on a failure, else the AND of the nested verdicts |
| CheckResults.GetUp | src/main/java/io/vertx/ext/healthchecks/CheckResult.java:68-83 | the early-exit loop returns the verdict: the status's `ok`, else down on a failure, else the AND over the nested results (up when there are none) |
| CheckResults.IsUp | src/main/java/io/vertx/ext/healthchecks/CheckResult.java:33-40 | a null result is up; otherwise its verdict |
| CheckResults.IsUpFuture | src/main/java/io/vertx/ext/healthchecks/CheckResult.java:29-31 | a failed future is down; otherwise the verdict of its result |
| CheckResults.GetData | src/main/java/io/vertx/ext/healthchecks/CheckResult.java:85-100 | status data when non-empty; without a status, the failure's cause plus `procedure-execution-failure` exactly for a procedure exception; otherwise null |
| CheckResults.ToJson | src/main/java/io/vertx/ext/healthchecks/CheckResult.java:123-147 | the successive puts and the loop over nested results build the JSON form, with nested results rendered recursively |
| CheckResults.Render | src/main/java/io/vertx/ext/healthchecks/CheckResult.java:123-147 | the JSON form of a result, which `ToJson` is proved to build; its keys are stated by `RenderKeys` and `RenderNested` |
| CheckResults.RenderKeys | src/main/java/io/vertx/ext/healthchecks/CheckResult.java:123-147 | the key set: `id` iff an id, `data` iff data, `error` iff a status in error, `checks` iff a list; `status` and `outcome` both say UP iff the result is up |
| CheckResults.RenderNested | src/main/java/io/vertx/ext/healthchecks/CheckResult.java:136-143 | nested entries are the children's JSON forms in list order, each without `outcome` |
| CheckResults.RenderedOutcomeFollowsEntries | src/main/java/io/vertx/ext/healthchecks/CheckResult.java:74-82 | with neither status nor failure, the outcome is UP exactly when every nested entry says UP |
| CheckResults.LeafEntryKeys | src/test/java/io/vertx/ext/healthchecks/HealthChecksTest.java:99-106 | a leaf entry whose status has data and no error has exactly the keys status, id and data |
| CheckResults.FromVerdicts | src/main/java/io/vertx/ext/healthchecks/CheckResult.java:17-27 | a status decides the verdict, a result with neither status nor failure is up without data, a failure is down and carries its cause |
| StatusHelper.From | src/main/java/io/vertx/ext/healthchecks/impl/StatusHelper.java:13-48 | `id` iff a name; on success DOWN iff a status that is not ok, `data` iff non-empty status data, `error` iff procedure in error; on failure DOWN with only the cause as data |
| StatusHelper.OnError | src/main/java/io/vertx/ext/healthchecks/impl/StatusHelper.java:50-60 | `id` iff a name, DOWN, data holding the procedure-failure flag and the cause |
| StatusHelper.IsUpJson | src/main/java/io/vertx/ext/healthchecks/impl/StatusHelper.java:67-74 | up exactly for a null report or one whose `status` or `outcome` is the string UP |
| StatusHelper.IsUpFuture | src/main/java/io/vertx/ext/healthchecks/impl/StatusHelper.java:62-65 | a failed future is never up; otherwise the report's test |
| StatusHelper.EmptySuccessIsUp | src/main/java/io/vertx/ext/healthchecks/impl/StatusHelper.java:27-40 | a success with no value, or a value that is not a status, is UP without data or error |
| StatusHelper.ExplicitDownKeepsData | src/main/java/io/vertx/ext/healthchecks/impl/StatusHelper.java:27-40 | a KO status with data is DOWN, carries that data and no error flag |
| StatusHelper.DefaultStatusIsDown | src/test/java/io/vertx/ext/healthchecks/impl/DefaultCompositeHealthCheckTest.java:132-135 | a default `new Status()` is reported down |
| Leaf.New | src/main/java/io/vertx/ext/healthchecks/impl/DefaultProcedure.java:24-33 | a null vertx, name or handler throws NullPointerException; otherwise the fields are stored and the timeout is not checked |
| Leaf.From | src/main/java/io/vertx/ext/healthchecks/impl/DefaultProcedure.java:55-69 | the id is always the name; a success holds the status it stands for (null for no value or another value, which is up); a failure holds its cause and is down |
| Leaf.CheckRun.constructor | src/main/java/io/vertx/ext/healthchecks/impl/DefaultProcedure.java:38-43 | a fresh pending promise, nothing delivered, the timer armed exactly when `timeout >= 0` |
| Leaf.CheckRun.TryComplete | src/main/java/io/vertx/ext/healthchecks/impl/DefaultProcedure.java:38-39 | only a pending promise is written; the result handler then receives `from(name, outcome)` once |
| Leaf.CheckRun.TryFail | src/main/java/io/vertx/ext/healthchecks/impl/DefaultProcedure.java:41-49 | only a pending promise is failed; a written one is left as it is |
| Leaf.CheckRun.Deliver | src/main/java/io/vertx/ext/healthchecks/impl/DefaultProcedure.java:41-49 | an event writes its outcome into a pending promise; the timer writes "Timeout" only when armed; a thrown exception is wrapped as a procedure exception |
| Leaf.EventOutcome | src/main/java/io/vertx/ext/healthchecks/impl/DefaultProcedure.java:41-49 | what each event writes into a pending promise: the value, the cause, the wrapped exception, or "Timeout" when the timer is armed |
| Leaf.FirstOutcome | src/main/java/io/vertx/ext/healthchecks/impl/DefaultProcedure.java:38-49 | none exactly when no event writes; otherwise the outcome of an event that writes, with every earlier event writing nothing |
| Leaf.Check | src/main/java/io/vertx/ext/healthchecks/impl/DefaultProcedure.java:35-53 | the result handler is called at most once, and exactly once with `from(name, first outcome)` when some event writes the promise |
| Leaf.FirstOutcomeSnoc | src/main/java/io/vertx/ext/healthchecks/impl/DefaultProcedure.java:38-49 | a later event changes the outcome only when none was written yet |
| Leaf.FirstOutcomeWins | src/test/java/io/vertx/ext/healthchecks/HealthChecksTest.java:382-406 | once an outcome is written, every later event is ignored |
| Leaf.FirstOutcomeSkips | src/main/java/io/vertx/ext/healthchecks/impl/DefaultProcedure.java:41-43 | events that write nothing (a disarmed timer firing) change nothing |
| Leaf.TimeoutWins | src/test/java/io/vertx/ext/healthchecks/HealthChecksTest.java:327-361 | when the armed timer fires first, the result is down with cause "Timeout" flagged as a procedure failure, whatever comes later |
| Leaf.TimerGuaranteesOutcome | src/main/java/io/vertx/ext/healthchecks/impl/DefaultProcedure.java:41-43 | with an armed timer that fires, there is always an outcome |
| Leaf.ThrowOnStart | src/test/java/io/vertx/ext/healthchecks/HealthChecksTest.java:363-379 | a handler that throws first fails the check with the thrown message, flagged as a procedure failure |
| Leaf.ReportsAgree | src/main/java/io/vertx/ext/healthchecks/impl/StatusHelper.java:13-48 | the JSON report of an outcome and the `CheckResult` built by `from` agree on up or down |
| Composite.Entry | src/main/java/io/vertx/ext/healthchecks/impl/DefaultCompositeProcedure.java:72-85 | the entry written for one child from its report: it always has `id` and `status`, and never both `data` and `checks`; the rest of its shape is stated by `EntryShape` |
| Composite.EntryShape | src/main/java/io/vertx/ext/healthchecks/impl/DefaultCompositeProcedure.java:72-85 | an entry has `id` (the reported one, else the key) and `status` (UP iff the report is up), then data without `result` if the report has a data object, else its checks array, never both |
| Composite.WriteEntry | src/main/java/io/vertx/ext/healthchecks/impl/DefaultCompositeProcedure.java:72-85 | the puts build exactly that entry |
| Composite.StartAll | src/main/java/io/vertx/ext/healthchecks/impl/DefaultCompositeProcedure.java:57-62 | one task per child of the snapshot, holding that child's report |
| Composite.Collect | src/main/java/io/vertx/ext/healthchecks/impl/DefaultCompositeProcedure.java:66-88 | the loop lists every task exactly once, writes each one's entry at its position, and `success` is the AND of the reports' verdicts |
| Composite.Report | src/main/java/io/vertx/ext/healthchecks/impl/DefaultCompositeProcedure.java:66-96 | the report has exactly `checks` and `outcome`, with outcome UP iff every report is up (so an empty composite is UP) |
| Composite.EnumerationFacts | src/main/java/io/vertx/ext/healthchecks/impl/DefaultCompositeProcedure.java:67 | the iteration order covers every key, with as many entries as keys |
| Composite.EnumerationDistinct | src/main/java/io/vertx/ext/healthchecks/impl/DefaultCompositeProcedure.java:67 | no key is listed twice |
| Composite.CompositeProcedure.constructor | src/main/java/io/vertx/ext/healthchecks/impl/DefaultCompositeProcedure.java:19 | a new composite has no children |
| Composite.CompositeProcedure.Add | src/main/java/io/vertx/ext/healthchecks/impl/DefaultCompositeProcedure.java:22-31 | a null name or child throws NullPointerException and changes nothing; otherwise the child replaces whatever was under the name, other keys unchanged |
| Composite.CompositeProcedure.Remove | src/main/java/io/vertx/ext/healthchecks/impl/DefaultCompositeProcedure.java:33-37 | a null name throws; otherwise the answer is whether the name was present, and only that key is removed |
| Composite.CompositeProcedure.Get | src/main/java/io/vertx/ext/healthchecks/impl/DefaultCompositeProcedure.java:39-42 | exactly the mapped child, or null when the name is absent |
| Composite.CompositeProcedure.Check | src/main/java/io/vertx/ext/healthchecks/impl/DefaultCompositeProcedure.java:45-99 | one entry per child of the snapshot, each exactly once, and outcome UP iff every child's report is up |
| Composite.CompositeReportIsUp | src/main/java/io/vertx/ext/healthchecks/impl/DefaultCompositeProcedure.java:90-94 | a parent reads a composite's report as up exactly when its outcome is UP |
| Composite.OutcomeFollowsEntries | src/main/java/io/vertx/ext/healthchecks/impl/DefaultCompositeProcedure.java:66-94 | the outcome is UP exactly when every entry written says UP |
| Composite.LeafEntry | src/main/java/io/vertx/ext/healthchecks/impl/DefaultCompositeProcedure.java:72-85 | a leaf's entry carries the leaf's name, its verdict, and the cause of a failed run under data |
| Composite.DataWithoutOkIsDown | src/test/java/io/vertx/ext/healthchecks/impl/DefaultCompositeHealthCheckTest.java:130-135 | when one child of a composite completed with a new `Status` carrying data but no ok flag, the outcome `CompositeProcedure.Check` gives the composite is "DOWN", whatever its siblings report |
| Trees.UpdateKinds | src/main/java/io/vertx/ext/healthchecks/impl/DefaultCompositeProcedure.java:22-37 | a put or remove under a composite changes that key and what is below it, keeps every ancestor a composite, and leaves every other path as it was |
| Trees.Graft | src/main/java/io/vertx/ext/healthchecks/impl/HealthChecksImpl.java:44-68 | the tree `register` builds: missing composites created along the name and the leaf put at it; characterised by `GraftKinds` |
| Trees.Obstacle | src/main/java/io/vertx/ext/healthchecks/impl/HealthChecksImpl.java:55-68 | the segment before the last whose node is a leaf, met while walking the name; characterised by `ObstacleIff` |
| Trees.RegisterTree | src/main/java/io/vertx/ext/healthchecks/impl/HealthChecksImpl.java:44-68 | `register` on the segments: IllegalArgumentException naming the obstacle, otherwise the graft of the leaf |
| Trees.UnregisterTree | src/main/java/io/vertx/ext/healthchecks/impl/HealthChecksImpl.java:80-86 | `unregister` on the segments: the last one removed from its parent when the parent is a composite, otherwise no change |
| Trees.Walk | src/main/java/io/vertx/ext/healthchecks/impl/HealthChecksImpl.java:125-142 | the look-up of `checkStatus`: skips blank segments, and fails only with "Not found" or "'seg' is not a composite" for a non-blank segment of the name |
| Trees.GraftKinds | src/main/java/io/vertx/ext/healthchecks/impl/HealthChecksImpl.java:44-68 | the registered tree: the new node at the name, a composite at every proper prefix, every other path unchanged |
| Trees.GraftIsUpdate | src/main/java/io/vertx/ext/healthchecks/impl/HealthChecksImpl.java:44-48 | when the parent is already a composite, registering is one `add` under the parent |
| Trees.GraftAfterCreate | src/main/java/io/vertx/ext/healthchecks/impl/HealthChecksImpl.java:57-60 | creating a missing composite on the way does not change the tree that registering builds |
| Trees.ObstacleIff | src/main/java/io/vertx/ext/healthchecks/impl/HealthChecksImpl.java:55-68 | registering meets a leaf exactly when some proper prefix of the name is a leaf; the error names that prefix's last segment |
| Trees.RegisterKinds | src/main/java/io/vertx/ext/healthchecks/impl/HealthChecksImpl.java:44-48 | after a register, the name holds the new leaf (replacing any node), nothing is below it, its prefixes are composites, other paths are unchanged |
| Trees.PrefixComposite | src/main/java/io/vertx/ext/healthchecks/impl/HealthChecksImpl.java:157-164 | every prefix of a composite's path is a composite |
| Trees.UnregisterKinds | src/main/java/io/vertx/ext/healthchecks/impl/HealthChecksImpl.java:80-86 | when the parent is a composite, the name and its whole subtree are gone; otherwise, and on every other path, nothing changes |
| Trees.WalkAppend | src/main/java/io/vertx/ext/healthchecks/impl/HealthChecksImpl.java:127-142 | looking up an existing non-blank prefix and then the rest is looking up the rest from that node |
| Trees.WalkIsAt | src/main/java/io/vertx/ext/healthchecks/impl/HealthChecksImpl.java:125-142 | without blank segments, the look-up succeeds exactly when the path names a node, and yields that node |
| Trees.WalkSkipsBlank | src/main/java/io/vertx/ext/healthchecks/impl/HealthChecksImpl.java:128-130 | a blank segment anywhere in the name changes nothing |
| Trees.WalkAfterRegister | src/test/java/io/vertx/ext/healthchecks/HealthChecksTest.java:280-310 | after registering a name without blank segments, the look-up finds the new leaf |
| Trees.WalkAfterUnregister | src/test/java/io/vertx/ext/healthchecks/HealthChecksTest.java:408-470 | after unregistering a name whose parent is a composite, the look-up fails with "Not found" |
| Registry.PutCoherent | src/main/java/io/vertx/ext/healthchecks/impl/DefaultCompositeProcedure.java:22-37 | a put or remove on one registered composite keeps the object graph mirroring the tree, updated at that composite's path |
| Registry.RegisterSpec | src/main/java/io/vertx/ext/healthchecks/impl/HealthChecksImpl.java:33-50 | the checks in source order (null name, timeout <= 0, empty name, null procedure) with their exceptions; success exactly when they pass, the name has segments and no leaf is in the way; the result is the graft of the new leaf |
| Registry.UnregisterSpec | src/main/java/io/vertx/ext/healthchecks/impl/HealthChecksImpl.java:73-87 | a null name throws NullPointerException, an empty one IllegalArgumentException; otherwise it succeeds exactly when the name has segments |
| Registry.LookupSpec | src/main/java/io/vertx/ext/healthchecks/impl/HealthChecksImpl.java:118-152 | `checkStatus(name)` on the tree: the root for no name, "" and "/"; any failure is "Not found" or "'seg' is not a composite" for a non-blank segment of the name |
| Registry.SlashHasNoSegments | src/main/java/io/vertx/ext/healthchecks/impl/HealthChecksImpl.java:122 | the name "/" has no segments, so it would otherwise look up the root |
| Registry.RegisterThenLookup | src/main/java/io/vertx/ext/healthchecks/impl/HealthChecksImpl.java:118-152 | after a register, `checkStatus` of the same name (without blank segments) finds the new leaf with the given timeout and handler |
| Registry.SplitLeadingSlash | src/main/java/io/vertx/ext/healthchecks/impl/HealthChecksImpl.java:44 | "/a" splits into a blank segment and "a" |
| Registry.RegisterBlankSegmentNotFound | src/main/java/io/vertx/ext/healthchecks/impl/HealthChecksImpl.java:118-152 | after registering "/a" on an empty registry, `checkStatus("/a")` fails with "Not found": registering keeps the blank segment, looking up skips it |
| Registry.UnregisterThenLookup | src/main/java/io/vertx/ext/healthchecks/impl/HealthChecksImpl.java:73-87 | after unregistering a name whose parent is a composite, `checkStatus` of it fails with "Not found" |
| Registry.SplitFooBar | src/test/java/io/vertx/ext/healthchecks/HealthChecksTest.java:472-476 | "foo" splits to one segment and "foo/bar" to two |
| Registry.RegisterBelowLeafFails | src/test/java/io/vertx/ext/healthchecks/HealthChecksTest.java:472-476 | registering "foo" and then "foo/bar" throws IllegalArgumentException naming "foo" |
| Registry.ProgressStep | src/main/java/io/vertx/ext/healthchecks/impl/HealthChecksImpl.java:55-68 | one loop step of `traverseAndCreate`: a leaf is met only while nothing was created, a missing segment gets an empty composite, an existing composite is reused |
| Registry.HealthChecksImpl.constructor | src/main/java/io/vertx/ext/healthchecks/impl/HealthChecksImpl.java:21-26 | the registry starts with an empty root composite and the given vertx |
| Registry.HealthChecksImpl.PutChild | src/main/java/io/vertx/ext/healthchecks/impl/HealthChecksImpl.java:47-48 | an `add` or `remove` on a registered composite updates the denoted tree at that composite's path and keeps the registry valid |
| Registry.HealthChecksImpl.Descend | src/main/java/io/vertx/ext/healthchecks/impl/HealthChecksImpl.java:56-67 | a leaf throws with the source's message and changes nothing; an existing composite is reused; a missing segment gets a fresh empty composite |
| Registry.HealthChecksImpl.TraverseAndCreate | src/main/java/io/vertx/ext/healthchecks/impl/HealthChecksImpl.java:52-71 | throws exactly when a leaf is in the way and then leaves the tree unchanged; otherwise returns the composite at every segment but the last, with the register result unchanged |
| Registry.HealthChecksImpl.Register | src/main/java/io/vertx/ext/healthchecks/impl/HealthChecksImpl.java:33-50 | throws what `RegisterSpec` throws and changes nothing, or leaves the tree `RegisterSpec` gives |
| Registry.HealthChecksImpl.RegisterPath | src/main/java/io/vertx/ext/healthchecks/impl/HealthChecksImpl.java:44-49 | from the segments on, the same: the error without change, or the grafted tree |
| Registry.HealthChecksImpl.RegisterDefault | src/main/java/io/vertx/ext/healthchecks/impl/HealthChecksImpl.java:28-31 | the one-argument form behaves as `register` with a 1000 ms timeout |
| Registry.HealthChecksImpl.FindLastParent | src/main/java/io/vertx/ext/healthchecks/impl/HealthChecksImpl.java:154-166 | returns a composite exactly when every segment but the last names a composite, and then the one at that path |
| Registry.HealthChecksImpl.Unregister | src/main/java/io/vertx/ext/healthchecks/impl/HealthChecksImpl.java:73-87 | throws what `UnregisterSpec` throws and changes nothing, or leaves the tree `UnregisterSpec` gives |
| Registry.HealthChecksImpl.CheckStatus | src/main/java/io/vertx/ext/healthchecks/impl/HealthChecksImpl.java:118-152 | no name, "" and "/" give the root; otherwise the walk fails with "Not found" or "'seg' is not a composite" as the look-up does, or gives the node it names |

## Left out

- `invoke`, `compute` and `checkStatus()` hand their work to futures, the
  event loop and context promises. None of this is modelled. `CheckStatus`
  returns the node that `compute` would evaluate.
- Threads, `synchronized`, `setTimer` and `CompositeFuture.join` are left
  out. A leaf run is a sequence of events in an arbitrary order. A
  composite's `check` receives the report each child delivered, once all
  have completed.
- HashMap iteration order is not fixed. The order taken is an output,
  stated to list every key exactly once.
- Leaf.CheckRun.TryComplete: completing an already written promise throws
  `IllegalStateException` in Vert.x. The model reports `accepted == false`
  and changes nothing.
- The `HealthChecksImpl` constructor's null check on `vertx` is left out.
  A vertx reference is a plain value here and cannot be null.
  `DefaultProcedure`'s own null checks are modelled.
- The timeout is a Java `long`, modelled as an unbounded integer. No check
  compares it with another bound, so nothing wraps.
- `Status.data` is never null in this model, because `new Status()` starts
  with an empty object. `StatusConverter.toJson` therefore always writes
  `"data"`, and `StatusHelper`'s null test on data is always false.
- Composite.Entry: the getters at `DefaultCompositeProcedure.java` lines
  73-78 cast. A child report whose "data" is not an object, or whose
  "checks" is not an array, makes the completion handler throw, and the
  result handler is never called. The model reads such a value as absent
  and writes an entry. A non-string "status", "outcome" or "id" is likewise
  read as absent, or kept as it is for "id". `GetString`, `GetObject` and
  `GetArray` do not model the cast or the string conversion.
- A child report delivered to a composite is a JSON object, never null.
  `DefaultCompositeProcedure.java` line 73 dereferences it before the null
  test at line 76.
- `data.remove("result")` in the composite changes the child's own data
  object in place. The model builds the entry without `"result"` and does
  not model the aliasing.
- The dead `check == null` branch at `HealthChecksImpl.java` lines 144-148
  is not modelled. A successful walk always ends on a node.
- The fluent setters of `CheckResult` are modelled as building a value.
  Only the `from` builders use them in the core.
- `printStackTrace` in `DefaultProcedure.check` is left out.
- Exception messages are opaque strings: a `Failure` keeps only its
  message and whether it is a `ProcedureException`.
- The HTTP handler, authentication and the example programs are not part
  of this model.
