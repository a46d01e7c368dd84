/** Outcomes of the catalog's operations: a value, or the exception the
    JavaScript code would throw (or reject its promise with). */
module Results {

  datatype Error =
    | NoEntry(path: string)  // ENOENT from readdir, statSync or readFileSync
    | TypeError              // `word[0].toUpperCase()` on an empty token: `word[0]` is undefined

  datatype Result<T> = Ok(value: T) | Err(error: Error)

  datatype Option<T> = None | Some(value: T)
}
