/**
 * The review mapper component: both directions pass `null` through unchanged.
 */
module ReviewMapper {
  import opened Common
  import opened Dto
  import opened Model

  /**
   * A fresh review entity with the request's rating, comment and reviewer name;
   * identity and movie stay unset. Mapping it back reproduces those three fields
   * with a null id and a null movie id.
   */
  function ToEntity(d: Option<ReviewRequest>): (r: Option<Review>)
    ensures r.None? <==> d.None?
    ensures r.Some? ==> r.value.id == None && r.value.movie == Unlinked
    ensures ToResponseDto(r) ==
      if d.None? then None
      else Some(ReviewResponse(None, d.value.rating, d.value.comment, d.value.reviewerName, None))
  {
    match d
    case None => None
    case Some(dto) => Some(Review(None, dto.rating, dto.comment, dto.reviewerName, Unlinked))
  }

  /**
   * The response for a review entity: id, rating, comment and reviewer name copied;
   * the movie id is the linked movie's id, or null when no movie is attached.
   */
  function ToResponseDto(r: Option<Review>): (d: Option<ReviewResponse>)
    ensures d.None? <==> r.None?
    ensures r.Some? ==>
      && d.value.id == r.value.id
      && d.value.rating == r.value.rating
      && d.value.comment == r.value.comment
      && d.value.reviewerName == r.value.reviewerName
      && d.value.movieId == (if r.value.movie.LinkedTo? then r.value.movie.movieId else None)
  {
    match r
    case None => None
    case Some(rv) =>
      Some(ReviewResponse(rv.id, rv.rating, rv.comment, rv.reviewerName,
        if rv.movie.LinkedTo? then rv.movie.movieId else None))
  }
}
