/**
 * Shared vocabulary of the movie/review catalogue: identities, optional values
 * (the source's nullable references) and the service-level error results.
 */
module Common {

  /**
   * Identities generated by the store's identity columns (JPA `Long` ids, never
   * negative). Identities passed in by callers share this type, so a negative one
   * is not modelled.
   */
  type Id = nat

  /** A nullable reference: `None` stands for Java's `null`. */
  datatype Option<+T> = None | Some(value: T)

  /**
   * The `RuntimeException`s the services throw when a referenced row is absent:
   * the movie not-found message or the review not-found message, each naming the
   * missing identity.
   */
  datatype Error = MovieNotFound(movieId: Id) | ReviewNotFound(reviewId: Id)

  /** Result of a service operation that returns a value. */
  datatype Result<+T> = Ok(value: T) | Err(error: Error)

  /** Result of a service operation declared `void`. */
  datatype Outcome = Done | Failed(error: Error)
}
