/** Optional values and the error outcomes of the public tree operations. */
module Results {

  datatype Option<T> = None | Some(value: T)

  /** The three ways a public operation can be refused. */
  datatype Error = InvalidOrder | DuplicateKey | KeyNotFound

  /** Success, or the error that made the operation refuse (nothing changed then). */
  datatype Outcome = Pass | Fail(error: Error)
}
