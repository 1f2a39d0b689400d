/** The two result shapes of the search: an optional action (`None` in the
    source) and a value-or-error outcome for the one exception the search
    can raise. */
module Wrappers {

  datatype Option<+T> = None | Some(value: T)

  /** The only failure of the search: `1 / len(children)` at a chance ply
      with no legal actions raises `ZeroDivisionError`. */
  datatype SearchError = ChanceNodeWithoutMoves

  datatype Result<+T> = Ok(value: T) | Err(error: SearchError)
}
