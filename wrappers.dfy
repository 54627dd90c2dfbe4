/** Result type and the exceptions the scraper's Python code can raise. */
module Wrappers {

  /** The Python exceptions (and pandas failures) the modelled code can raise. */
  datatype Error =
    | ValueError(literal: string)       // int()/float() given text that is not a number
    | IndexError                        // indexing an empty list, e.g. `height.split()[1]`
    | KeyError(key: string)             // a dict or DataFrame column lookup that misses
    | ColumnsOverlap(columns: set<string>) // DataFrame.join with shared column names
    | LabelNotUnique(name: string)     // `.loc[label]` on an index holding the label twice
    | UrlMissing(name: string)          // a NaN (or non-text) url handed to the fetcher

  datatype Option<+T> = None | Some(value: T)

  datatype Result<+T> = Ok(value: T) | Err(error: Error) {
    predicate IsFailure() { Err? }

    function PropagateFailure<U>(): Result<U>
      requires Err?
    {
      Err(error)
    }

    function Extract(): T
      requires Ok?
    {
      value
    }
  }
}
