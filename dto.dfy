/**
 * The transfer objects exchanged at the service boundary. Validation (non-blank
 * strings, rating 1..5, release year >= 1888, non-null ids) happens before the
 * services are called, so fields here carry plain values.
 */
module Dto {
  import opened Common

  /** A review nested in a movie request: rating, comment and reviewer name only. */
  datatype ReviewRequest = ReviewRequest(rating: int, comment: string, reviewerName: string)

  /** A movie request; `reviews` is `None` when the client sent no list. */
  datatype MovieRequest = MovieRequest(
    title: string,
    releaseYear: int,
    genre: string,
    director: string,
    reviews: Option<seq<ReviewRequest>>)

  /** A standalone review request, naming the movie it belongs to. */
  datatype ReviewCreate = ReviewCreate(rating: int, comment: string, reviewerName: string, movieId: Id)

  /** A review as returned to clients. */
  datatype ReviewResponse = ReviewResponse(
    id: Option<Id>,
    rating: int,
    comment: string,
    reviewerName: string,
    movieId: Option<Id>)

  /** A movie as returned to clients; `reviews` is `None` when the entity's list was null. */
  datatype MovieResponse = MovieResponse(
    id: Option<Id>,
    title: string,
    releaseYear: int,
    genre: string,
    director: string,
    reviews: Option<seq<ReviewResponse>>)
}
