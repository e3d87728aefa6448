/** Optional values, and the ways a call of the backend can end: a returned value or a raised exception. */
module Wrappers {

  /** A value that may be absent (Python's `None`). */
  datatype Option<+T> = None | Some(value: T) {

    /** `d.get(key, default)`: the value if present, otherwise the default. */
    function GetOr(default: T): T {
      match this
      case Some(v) => v
      case None => default
    }
  }

  /** The exceptions the modelled code raises or lets through. */
  datatype Failure =
    | Problem(status: int, title: string, detail: string)  // connexion's ProblemException
    | Error(message: string)                               // a plain `Exception(message)`
    | AttributeError                                       // an attribute read on `None`
    | IndexError                                           // `[0]` of an empty list
    | KeyError(key: string)                                // a missing dictionary key
    | IntegrityError                                       // a commit refused by a UNIQUE or NOT NULL constraint

  /** A call either returns a value or raises. */
  datatype Outcome<+T> = Returned(value: T) | Raised(failure: Failure)
}
