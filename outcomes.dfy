/** Optional values, results and the error taxonomy the HTTP routes raise. */
module Outcomes {

  datatype Option<+T> = None | Some(value: T)

  /** Why an operation was refused. Each maps to the HTTP status the route raises. */
  datatype Failure =
    | NotFound            // 404: equipment, request or team does not exist
    | Forbidden           // 403: role or team-membership check failed
    | InvalidTransition   // 400 "Invalid transition"
    | DurationRequired    // 400 "Duration required for repaired"
    | AssigneeNotInTeam   // 400 "Assignee not in team"
    | InvalidDate         // 400 "Invalid scheduled_start" / "Invalid date range"
    | TeamExists          // 400 "Team exists"
    | IntegrityError      // 500: a unique or foreign-key constraint rejected the flush or commit
    | MultipleResults     // 500: scalar_one_or_none found more than one row
    | MissingKey          // 500: a dict lookup raised KeyError

  function StatusCode(f: Failure): (code: int)
    ensures code in {400, 403, 404, 500}
    ensures code == 404 <==> f == NotFound
    ensures code == 403 <==> f == Forbidden
    ensures code == 500 <==> f in {IntegrityError, MultipleResults, MissingKey}
  {
    match f
    case NotFound => 404
    case Forbidden => 403
    case IntegrityError | MultipleResults | MissingKey => 500
    case _ => 400
  }

  datatype Result<+T> = Ok(value: T) | Err(failure: Failure)

  /** A route that answers 204 No Content on success. */
  datatype Outcome = Done | Refused(failure: Failure)
}
