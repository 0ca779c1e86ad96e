/** Optional values and the outcome of one request to the upstream API. */
module Wrappers {

  /** A JSON field that may be absent (`dict.get` returning `None`). */
  datatype Option<+T> = None | Some(value: T)

  /** The outcome of one HTTP request: the decoded body, or a failure
      (transport error, non-success status or undecodable body), all of
      which the program catches alike. */
  datatype Fetch<+T> = Failed | Fetched(value: T)
}
