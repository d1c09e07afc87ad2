/** Failure-carrying result types shared by the store and the scraper. */
module Wrappers {

  /** A value that may be absent. */
  datatype Option<+T> = None | Some(value: T)

  /** The exceptions the modelled code raises. */
  datatype Error =
    | KeyError        // a crawl id that the store does not hold
    | AttributeError  // a Status member that the enum does not declare

  /** Either a value or the exception raised instead of returning one. */
  datatype Result<+T> = Ok(value: T) | Err(error: Error)
}
