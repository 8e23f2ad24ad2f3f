/** The action objects the engine executes and the error wrapping every handler shares. */
module Actions {
  import opened Wrappers
  import opened Resolver
  import opened Host

  /** A `MicrosoftAction`. A missing string field is "" and a missing count is 0: the handlers
      test them only for truthiness, for which the two agree. */
  datatype Action = Action(
    action: string,
    loc: string,
    newText: string,
    comment: string,
    withinPara: Option<Within>,
    rowCount: nat,
    columnCount: nat,
    values: seq<seq<string>>,
    rowData: Option<seq<seq<string>>>)

  /** `${operation} operation failed: ${message}`, the message a handler rethrows. */
  function OperationFailed(operation: string, message: string): string {
    operation + " operation failed: " + message
  }

  /** A handler's method did what its specification says: on success the new document,
      on failure no change and the error. */
  predicate Completes(r: Result<Doc>, before: Doc, after: Doc, outcome: Outcome) {
    match r
    case Success(d) => after == d && outcome == Pass
    case Failure(e) => after == before && outcome == Fail(e)
  }
}
