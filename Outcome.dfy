/** Optional values and the failures that the services and repositories raise. */
module Outcome {

  datatype Option<+T> = None | Some(value: T) {
    /** The wrapped value, or `default` when there is none. */
    function GetOr(default: T): T {
      match this
      case Some(v) => v
      case None => default
    }
  }

  /**
   * The failures of the core. Most stand for one `HTTPException(400, ...)` or
   * `ValueError` raised in the source; the HTTP status code is not modelled.
   * `UniqueViolation` stands for the `IntegrityError` of a commit, and
   * `ParentIsDescendant` is returned only by the corrected update check.
   */
  datatype Error =
    | ParentNotFound                // the requested parent activity does not exist
    | SelfParent                    // an activity may not become its own parent
    | NestingLimit                  // the parent is already at level 2
    | ParentIsDescendant            // the parent lies in the activity's own subtree (corrected check only)
    | ActivityNotFound(id: int)     // no activity with this id
    | BuildingNotFound(id: int)     // no building with this id
    | DuplicateActivityIds          // an activity-id list repeats an id
    | UnresolvedActivityIds         // fewer activities resolved than ids were given
    | UniqueViolation               // the store's unique constraint rejected the commit

  datatype Result<+T> = Ok(value: T) | Err(error: Error)
}
