/**
 * The movie mapper component: request to entity, and entity (with its nested
 * reviews) to response.
 */
module MovieMapper {
  import opened Common
  import opened Dto
  import opened Model

  /** Every review carries a movie back-reference, so mapping it dereferences no null. */
  predicate AllLinked(reviews: seq<Review>) {
    forall i :: 0 <= i < |reviews| ==> reviews[i].movie.LinkedTo?
  }

  /**
   * A fresh movie entity carrying the request's scalar fields. The identity and the
   * review list stay unset (review wiring belongs to the service), so mapping the
   * entity back gives the request's four fields with no id and no reviews.
   */
  function ToEntity(req: MovieRequest): (m: Movie)
    ensures m.id == None && m.reviews == None
    ensures ToResponseDto(m) == MovieResponse(None, req.title, req.releaseYear, req.genre, req.director, None)
  {
    Movie(None, req.title, req.releaseYear, req.genre, req.director, None)
  }

  /**
   * The response for a movie entity: scalar fields and id copied unchanged; a null
   * review list stays null, otherwise the list keeps its length and order and
   * element i is the mapping of review i.
   */
  function ToResponseDto(m: Movie): (r: MovieResponse)
    requires m.reviews.Some? ==> AllLinked(m.reviews.value)
    ensures r.id == m.id && r.title == m.title && r.releaseYear == m.releaseYear
    ensures r.genre == m.genre && r.director == m.director
    ensures r.reviews.None? <==> m.reviews.None?
    ensures m.reviews.Some? ==>
      && |r.reviews.value| == |m.reviews.value|
      && forall i :: 0 <= i < |m.reviews.value| ==>
           r.reviews.value[i] == ToReviewResponseDto(m.reviews.value[i])
  {
    MovieResponse(m.id, m.title, m.releaseYear, m.genre, m.director,
      match m.reviews
      case None => None
      case Some(rs) => Some(seq(|rs|, i requires 0 <= i < |rs| => ToReviewResponseDto(rs[i]))))
  }

  /**
   * A nested review response: the review's own fields and the id of the movie it
   * points to. The source dereferences the back-reference unconditionally, so the
   * review must be linked.
   */
  function ToReviewResponseDto(rv: Review): (r: ReviewResponse)
    requires rv.movie.LinkedTo?
    ensures r.id == rv.id && r.rating == rv.rating && r.comment == rv.comment
    ensures r.reviewerName == rv.reviewerName && r.movieId == rv.movie.movieId
  {
    ReviewResponse(rv.id, rv.rating, rv.comment, rv.reviewerName, rv.movie.movieId)
  }
}
