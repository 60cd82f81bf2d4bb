/** Error outcomes of the document pipeline. Every `throw` of the source, and every
    TypeError it would raise by reading a property of `undefined`, is one of these. */
module Failures {

  datatype Error =
    | MissingFields(fields: seq<string>)  // newer required-field check, with the missing names
    | IncorrectFormat                     // older required-word check
    | NotADriverPenalty                   // a "Team" "Manager" label pair in the incident span
    | HeadlineNotFound                    // no headline line in the newer reconstruction
    | UndefinedAccess                     // a TypeError: indexing or measuring `undefined`
    | FetchFailed                         // the listing page could not be fetched
    | MainPageMissing                     // no `list-view` element on the listing page
    | DocumentListMissing                 // no `.decision-document-list` inside it

  /** A value that may be absent, as a lookup that finds nothing returns `null`. */
  datatype Option<T> = None | Some(value: T)

  /** A value or the error that interrupted its computation. */
  datatype Result<T> = Ok(value: T) | Err(error: Error) {
    predicate IsFailure() { Err? }

    function PropagateFailure<U>(): Result<U>
      requires Err?
    {
      Err(error)
    }

    function Extract(): T
      requires Ok?
    {
      value
    }
  }

  /** An outcome that carries no value: a check that passed or the error it raised. */
  datatype Outcome = Pass | Fail(error: Error) {
    predicate IsFailure() { Fail? }

    function PropagateFailure<U>(): Result<U>
      requires Fail?
    {
      Err(error)
    }
  }
}
