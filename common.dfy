/** Option and Result: absent rows and refused requests. */
module Wrappers {
  datatype Option<+T> = None | Some(value: T)

  datatype Result<+T, +E> = Success(value: T) | Failure(error: E)
}

/** Searching a sequence front to back, as a query's `.first()` or
    Python's `next(iter(...), None)` over a list does. */
module Seqs {
  import opened Wrappers

  /** The index of the first element of `s` that satisfies `p`, if any. */
  function FirstIndex<T>(s: seq<T>, p: T -> bool): (r: Option<nat>)
    ensures r.Some? ==> r.value < |s| && p(s[r.value])
    ensures r.Some? ==> forall i :: 0 <= i < r.value ==> !p(s[i])
    ensures r.None? <==> forall i :: 0 <= i < |s| ==> !p(s[i])
  {
    if |s| == 0 then None
    else if p(s[0]) then Some(0)
    else
      match FirstIndex(s[1..], p)
      case None =>
        assert forall i :: 1 <= i < |s| ==> s[i] == s[1..][i - 1];
        None
      case Some(k) =>
        assert forall i :: 1 <= i < k + 1 ==> s[i] == s[1..][i - 1];
        Some(k + 1)
  }
}

/** The status a request ends with. `ServerError` stands for an exception the
    handler does not catch; `ConstraintViolation` for a commit the database
    refuses (NOT NULL or UNIQUE), whose response is decided by error handlers
    that are not part of this model. */
module Http {
  datatype Status =
    | Ok
    | Created
    | Unauthorized
    | Forbidden
    | NotFound
    | Conflict
    | Unprocessable
    | ServerError
    | ConstraintViolation
}
