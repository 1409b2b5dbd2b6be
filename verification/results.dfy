/** Optional values, typed errors and results shared by every part of the model. */
module Results {

  /** A nullable column or an absent input field. */
  datatype Option<+T> = None | Some(value: T)

  /** The ways an operation of the request workflow can fail. */
  datatype Error =
    | NotFound              // a `firstOrFail` query matched no row (HTTP 404)
    | ValidationFailed      // a required input field is missing or empty (HTTP 422)
    | ConfigurationMissing  // no department carries the Department A flag (HTTP 500)
    | DuplicateKey          // a unique index refused the insert
    | MissingParent         // a foreign key refused a row whose parent does not exist
    | StillReferenced       // a foreign key with no delete action refused deleting a referenced row
    | OutOfRange            // a value does not fit its column

  /** The outcome of an operation: a new value, or an error that leaves every table as it was. */
  datatype Result<+T> = Ok(value: T) | Err(error: Error)

  /** The characters PHP's `trim` strips: space, tab, newline, carriage return, NUL and vertical tab. */
  const TrimChars: set<char> := {' ', '\t', '\n', '\r', '\0', '\U{000B}'}

  /** A string that `trim` reduces to the empty string. */
  predicate Blank(s: string) {
    forall i :: 0 <= i < |s| ==> s[i] in TrimChars
  }

  /**
   Laravel's `required` rule on a string field: the field is given, is not
   null, and is not empty once trimmed. `None` stands for both a missing field
   and a null one.
   */
  predicate Present(s: Option<string>) {
    s.Some? && !Blank(s.value)
  }
}
