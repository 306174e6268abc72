/** Option and Result datatypes used across the model. */
module Wrappers {

  /** A value that may be absent: a session variable that was never set, a cell that failed to parse. */
  datatype Option<+T> = None | Some(value: T)

  /** Either a value or the exception that would have escaped the macro. */
  datatype Result<+T, +E> = Ok(value: T) | Err(error: E)
}

/** The exceptions that can leave a macro's `run`. */
module Errors {

  datatype Fault =
    | GenreParse(title: string)       // json.loads / tok['name'] on a genre cell
    | KeywordCell(title: string)      // the keyword cell cannot even be re-read in the handler
    | CastParse(title: string)        // ast.literal_eval of the first match's cast cell
    | MissingVar(key: string)         // vars[key] on a key that was never set
    | UnknownTitle(title: string)     // genres[pickid] on a title the genre map lacks
    | EmptyChoice                     // random.choice on an empty sequence
    | TooFewCast                      // random.sample(population, 2) on fewer than two pairs
    | CultureUnset                    // the explicit raise in the culture accessor
}
