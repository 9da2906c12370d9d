/** Optional values, results, and the Python exceptions the modelled code can raise. */
module Wrappers {

  datatype Option<+T> = None | Some(value: T)

  /** Python exceptions that escape a call in the modelled code, by class. */
  datatype Exception =
    | AssertionError      // a failed `assert r.status_code == 200`
    | AttributeError      // an attribute read on None (an HTML element that was not found)
    | IndexError          // `authors[0]` on an empty list
    | KeyError            // a dictionary lookup with an unknown key
    | ValueError          // `list.index` of an absent value, or a malformed URL
    | NotImplementedError // an IEEE host with no extraction path
    | TimeoutException    // the browser did not find the awaited element in time
    | NoSuchElementException // a rendered page lacks the element the browser code reads
    | RequestException    // the HTTP request itself failed
    | TypeError           // a call with the wrong number of arguments

  datatype Result<+T> = Ok(value: T) | Err(error: Exception) {
    predicate IsFailure() { Err? }

    function PropagateFailure<U>(): Result<U>
      requires Err?
    {
      Err(error)
    }

    function Extract(): T
      requires Ok?
    {
      value
    }
  }
}
