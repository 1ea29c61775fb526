/**
 Outcome types shared by the three pieces of the résumé-matching helper.
 The source signals every failure by raising an exception, and an error
 here carries just its message. For the extractor and the response handler,
 which re-raise a plain exception, that message is all a caller receives;
 the prompt builder's exception reaches the caller unwrapped, and its class
 is not recorded.
 */
module Results {

  datatype Option<+T> = None | Some(value: T)

  /** A successful value, or the message of the exception the source raises. */
  datatype Result<+T> = Ok(value: T) | Err(message: string)
}
