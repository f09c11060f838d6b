/**
 * The persistent entities as the mappers and services see them: a movie owning
 * an ordered list of reviews, each review holding a back-reference to its movie.
 * Only the identity of the referenced movie matters to the code, so the
 * back-reference is modelled by that identity.
 */
module Model {
  import opened Common

  /** A review's `movie` field: a null reference, or a movie object whose id may still be unset. */
  datatype MovieLink = Unlinked | LinkedTo(movieId: Option<Id>)

  datatype Review = Review(
    id: Option<Id>,
    rating: int,
    comment: string,
    reviewerName: string,
    movie: MovieLink)

  datatype Movie = Movie(
    id: Option<Id>,
    title: string,
    releaseYear: int,
    genre: string,
    director: string,
    reviews: Option<seq<Review>>)
}
