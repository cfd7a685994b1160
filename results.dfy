/**
 * The error kinds the service throws (the `@/errors` factories) and the
 * Result and Option wrappers that stand in for a thrown exception or a
 * missing row.
 */
module Results {
  import opened Js

  datatype Error =
    | RequestError(status: int, statusText: Value)  // the lookup endpoint rejected the postal code
    | NotFoundError                                 // no enrollment, or a postal code the lookup does not know
    | InvalidDataError                              // what the upsert reports for any failure
    | TypeError                                     // a JavaScript runtime TypeError
    | StoreError                                    // a repository call that threw

  datatype Result<T> = Ok(value: T) | Err(error: Error)

  datatype Option<T> = None | Some(value: T)
}
