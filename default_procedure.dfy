/** `DefaultProcedure`: a leaf of the registry that runs the user's check
    against a timeout and turns its first outcome into a `CheckResult`.

    The asynchronous run is modelled as a sequence of events delivered one
    at a time to a one-shot promise cell: the user completing or failing the
    promise, the handler throwing while it is being started, and the
    timeout timer firing. */
module Leaf {
  import opened Wrappers
  import opened Json
  import opened Statuses
  import opened Outcomes
  import opened CheckResults
  import StatusHelper

  /** Identity of a `Vertx` instance and of the user's
      `Handler<Promise<Status>>`; the core only stores them. */
  type VertxRef = nat
  type HandlerRef = nat

  datatype DefaultProcedure = DefaultProcedure(name: string, timeout: int, handler: HandlerRef)

  /** The constructor: null `vertx`, `name` or `handler` throw
      `NullPointerException`; the timeout is not checked here. */
  function New(vertx: Option<VertxRef>, name: Option<string>, timeout: int, handler: Option<HandlerRef>)
    : (r: Result<DefaultProcedure, JavaException>)
    ensures r.Ok? <==> vertx.Some? && name.Some? && handler.Some?
    ensures r.Err? ==> r.error == NullPointerException
    ensures r.Ok? ==> r.value.name == name.value && r.value.timeout == timeout && r.value.handler == handler.value
  {
    if vertx.None? || name.None? || handler.None? then Err(NullPointerException)
    else Ok(DefaultProcedure(name.value, timeout, handler.value))
  }

  /** `DefaultProcedure.from(name, ar)`: the `CheckResult` for an outcome. */
  function From(name: string, ar: AsyncResult<Value>): (r: CheckResult)
    ensures r.id == Some(name) && r.checks.NullList?
    ensures ar.Succeeded? ==> r.failure.None? && r.status == StatusOf(ar.result)
    ensures ar.Succeeded? && ar.result.VStatus? ==> r.status == Some(ar.result.status)
    ensures ar.Succeeded? && (ar.result.VNull? || ar.result.VOther?) ==> r.status.None? && Up(r)
    ensures ar.Failed? ==> r.status.None? && r.failure == Some(ar.cause) && !Up(r)
  {
    match ar
    case Succeeded(v) => FromStatus(Some(name), StatusOf(v))
    case Failed(cause) => FromFailure(Some(name), cause)
  }

  /** The one-shot promise cell. */
  datatype PromiseState = Pending | Done(outcome: AsyncResult<Value>)

  /** What can happen to a running check. `Throw` is the handler raising an
      exception while it is started; `TimerFire` is the timeout timer. */
  datatype Event =
    | Complete(value: Value)
    | Fail(cause: Failure)
    | Throw(exception: Failure)
    | TimerFire

  /** The outcome an event writes into a still pending promise, if any. */
  function EventOutcome(timerArmed: bool, e: Event): Option<AsyncResult<Value>> {
    match e
    case Complete(v) => Some(Succeeded(v))
    case Fail(c) => Some(Failed(c))
    case Throw(x) => Some(Failed(WrapException(x)))
    case TimerFire => if timerArmed then Some(Failed(ProcedureException("Timeout"))) else None
  }

  /** The outcome of the first event that writes the promise. */
  function FirstOutcome(timerArmed: bool, events: seq<Event>): (r: Option<AsyncResult<Value>>)
    ensures r.None? <==> forall i :: 0 <= i < |events| ==> EventOutcome(timerArmed, events[i]).None?
    ensures r.Some? ==>
      exists i :: && 0 <= i < |events| && r == EventOutcome(timerArmed, events[i])
                  && (forall j :: 0 <= j < i ==> EventOutcome(timerArmed, events[j]).None?)
  {
    if events == [] then None
    else if EventOutcome(timerArmed, events[0]).Some? then EventOutcome(timerArmed, events[0])
    else FirstOutcome(timerArmed, events[1..])
  }

  /** One invocation of `check`: the promise it creates and what the result
      handler has received so far. */
  class CheckRun {
    const name: string
    const timerArmed: bool
    var state: PromiseState
    var delivered: seq<CheckResult>

    /** The completion listener hands `from(name, outcome)` to the result
        handler once, when the promise is written. */
    ghost predicate Valid()
      reads this
    {
      match state
      case Pending => delivered == []
      case Done(o) => delivered == [From(name, o)]
    }

    /** Creates the promise; the timer is armed only for `timeout >= 0`. */
    constructor (p: DefaultProcedure)
      ensures Valid()
      ensures name == p.name && timerArmed == (p.timeout >= 0)
      ensures state == Pending && delivered == []
    {
      name := p.name;
      timerArmed := p.timeout >= 0;
      state := Pending;
      delivered := [];
    }

    /** `promise.tryComplete(v)`: only a pending promise is written. */
    method TryComplete(v: Value) returns (accepted: bool)
      requires Valid()
      modifies this
      ensures Valid()
      ensures accepted == old(state).Pending?
      ensures state == (if accepted then Done(Succeeded(v)) else old(state))
    {
      accepted := state.Pending?;
      if accepted {
        state := Done(Succeeded(v));
        delivered := delivered + [From(name, Succeeded(v))];
      }
    }

    /** `promise.tryFail(cause)`: only a pending promise is written. */
    method TryFail(cause: Failure) returns (accepted: bool)
      requires Valid()
      modifies this
      ensures Valid()
      ensures accepted == old(state).Pending?
      ensures state == (if accepted then Done(Failed(cause)) else old(state))
    {
      accepted := state.Pending?;
      if accepted {
        state := Done(Failed(cause));
        delivered := delivered + [From(name, Failed(cause))];
      }
    }

    /** Delivers one event: the user's `complete`/`fail` (which, on an
        already written promise, change nothing for this run), the wrapped
        exception from the `catch` around the handler, or the timer's
        `tryFail(new ProcedureException("Timeout"))`. */
    method Deliver(e: Event) returns (accepted: bool)
      requires Valid()
      modifies this
      ensures Valid()
      ensures state == (if old(state).Pending? && EventOutcome(timerArmed, e).Some?
                        then Done(EventOutcome(timerArmed, e).value) else old(state))
    {
      match e {
        case Complete(v) =>
          accepted := TryComplete(v);
        case Fail(c) =>
          accepted := TryFail(c);
        case Throw(x) =>
          accepted := TryFail(WrapException(x));
        case TimerFire =>
          accepted := false;
          if timerArmed {
            accepted := TryFail(ProcedureException("Timeout"));
          }
      }
    }
  }

  /** `check(resultHandler)`: runs the check against the given order of
      events and returns what the result handler received. */
  method Check(p: DefaultProcedure, events: seq<Event>) returns (delivered: seq<CheckResult>)
    ensures |delivered| <= 1
    ensures FirstOutcome(p.timeout >= 0, events).None? ==> delivered == []
    ensures FirstOutcome(p.timeout >= 0, events).Some? ==>
      delivered == [From(p.name, FirstOutcome(p.timeout >= 0, events).value)]
  {
    var run := new CheckRun(p);
    var i := 0;
    while i < |events|
      invariant 0 <= i <= |events|
      invariant run.Valid() && run.name == p.name && run.timerArmed == (p.timeout >= 0)
      invariant run.state == (match FirstOutcome(p.timeout >= 0, events[..i])
                              case None => Pending
                              case Some(o) => Done(o))
    {
      FirstOutcomeSnoc(p.timeout >= 0, events[..i], events[i]);
      assert events[..i + 1] == events[..i] + [events[i]];
      var _ := run.Deliver(events[i]);
      i := i + 1;
    }
    assert events[..i] == events;
    delivered := run.delivered;
  }

  /** Adding an event at the end changes the first outcome only when there
      was none yet. */
  lemma {:induction false} FirstOutcomeSnoc(armed: bool, events: seq<Event>, e: Event)
    ensures FirstOutcome(armed, events + [e]) ==
      if FirstOutcome(armed, events).Some? then FirstOutcome(armed, events) else EventOutcome(armed, e)
  {
    if events == [] {
      assert [] + [e] == [e];
    } else {
      assert (events + [e])[1..] == events[1..] + [e];
      FirstOutcomeSnoc(armed, events[1..], e);
    }
  }

  /** The first outcome wins: whatever happens after it is ignored. */
  lemma {:induction false} FirstOutcomeWins(armed: bool, before: seq<Event>, after: seq<Event>)
    requires FirstOutcome(armed, before).Some?
    ensures FirstOutcome(armed, before + after) == FirstOutcome(armed, before)
  {
    assert before != [];
    if EventOutcome(armed, before[0]).None? {
      assert (before + after)[1..] == before[1..] + after;
      FirstOutcomeWins(armed, before[1..], after);
    }
  }

  /** Events that write nothing in front of others change nothing. */
  lemma {:induction false} FirstOutcomeSkips(armed: bool, before: seq<Event>, after: seq<Event>)
    requires FirstOutcome(armed, before).None?
    ensures FirstOutcome(armed, before + after) == FirstOutcome(armed, after)
  {
    if before != [] {
      assert (before + after)[1..] == before[1..] + after;
      FirstOutcomeSkips(armed, before[1..], after);
    } else {
      assert before + after == after;
    }
  }

  /** A check whose timer fires before anything else writes its promise is
      reported down with cause "Timeout", flagged as a procedure execution
      failure, whatever the user does later. */
  lemma TimeoutWins(p: DefaultProcedure, before: seq<Event>, after: seq<Event>)
    requires p.timeout >= 0
    requires FirstOutcome(true, before).None?
    ensures FirstOutcome(p.timeout >= 0, before + [TimerFire] + after) == Some(Failed(ProcedureException("Timeout")))
    ensures var r := From(p.name, Failed(ProcedureException("Timeout")));
      && !Up(r)
      && GetData(r) == Some(map["cause" := JStr("Timeout"), "procedure-execution-failure" := JBool(true)])
  {
    assert before + [TimerFire] + after == before + ([TimerFire] + after);
    FirstOutcomeSkips(true, before, [TimerFire] + after);
    var r := From(p.name, Failed(ProcedureException("Timeout")));
    assert GetData(r).value.Keys == {"cause", "procedure-execution-failure"};
  }

  /** With an armed timer that eventually fires, the result handler is
      called exactly once. */
  lemma {:induction false} TimerGuaranteesOutcome(armed: bool, events: seq<Event>)
    requires armed && TimerFire in events
    ensures FirstOutcome(armed, events).Some?
  {
    if events[0] != TimerFire && EventOutcome(armed, events[0]).None? {
      assert TimerFire in events[1..];
      TimerGuaranteesOutcome(armed, events[1..]);
    }
  }

  /** A handler that throws on start, before anything else happened, makes
      the check fail with the thrown message, as a procedure failure. */
  lemma ThrowOnStart(p: DefaultProcedure, x: Failure, after: seq<Event>)
    ensures FirstOutcome(p.timeout >= 0, [Throw(x)] + after) == Some(Failed(WrapException(x)))
    ensures var r := From(p.name, Failed(WrapException(x)));
      !Up(r) && GetData(r).Some? && GetData(r).value["cause"] == JStr(x.message)
      && GetData(r).value["procedure-execution-failure"] == JBool(true)
  {
  }

  /** The JSON report `StatusHelper.from` gives for an outcome and the
      `CheckResult` that `from` gives for it agree on up/down. */
  lemma ReportsAgree(name: string, ar: AsyncResult<Value>)
    ensures StatusHelper.IsUpJson(Some(StatusHelper.From(Some(name), ar))) == Up(From(name, ar))
  {
  }
}
