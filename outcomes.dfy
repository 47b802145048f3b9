/** What an asynchronous check can end with: a value or a failure cause. */
module Outcomes {
  import opened Wrappers
  import opened Json
  import opened Statuses
  import StatusConverter

  /** A `Throwable` as the core sees it: its message (an opaque string) and
      whether it is a `ProcedureException`. */
  datatype Failure = Failure(message: string, procedureException: bool)

  /** `new ProcedureException(message)`. */
  function ProcedureException(message: string): Failure {
    Failure(message, true)
  }

  /** `new ProcedureException(e)`: wraps a thrown exception, keeping its
      message. */
  function WrapException(e: Failure): Failure {
    Failure(e.message, true)
  }

  /** The value a `Promise<Status>` was completed with: nothing, a `Status`,
      a plain `JsonObject` (duck-typed status) or any other object. */
  datatype Value =
    | VNull
    | VStatus(status: Status)
    | VJson(obj: JsonObject)
    | VOther(description: string)

  /** An `AsyncResult<T>`: succeeded with a result, or failed with a cause. */
  datatype AsyncResult<+T> = Succeeded(result: T) | Failed(cause: Failure)

  /** The `Status` a completion value stands for: a `Status` as is, a JSON
      object converted with `new Status(json)`, anything else null. */
  function StatusOf(v: Value): (res: Option<Status>)
    ensures v.VStatus? ==> res == Some(v.status)
    ensures v.VJson? ==> res == Some(StatusConverter.FromJsonObject(v.obj))
    ensures (v.VNull? || v.VOther?) ==> res.None?
  {
    match v
    case VStatus(s) => Some(s)
    case VJson(o) => Some(StatusConverter.FromJsonObject(o))
    case _ => None
  }
}
