/** Failure-carrying results for the directory's operations.

    The source reports every failure by throwing: a `ContratException`
    raised by its PRECONDITION macro, a `ContratException` thrown
    explicitly when a lookup misses, or the `std::out_of_range` that
    `std::string::substr` throws. Here each throw becomes an error value.
 */
module Resultats {

  /** Why an operation failed. */
  datatype Erreur =
    | ErreurPrecondition   // a PRECONDITION check failed ("ERREUR DE PRECONDITION")
    | EntreeIntrouvable    // a lookup key is absent from its index
    | HorsLimites          // std::string::substr was given a start past the end

  datatype Option<T> = None | Some(value: T)

  /** A value, or the error the source would have thrown instead. */
  datatype Result<T> = Ok(value: T) | Err(error: Erreur)

  /** Success or failure of an operation that returns nothing (`void`). */
  datatype Outcome = Pass | Fail(error: Erreur)
}
