/**
 * What the services hand back to clients. Both services declare the same private
 * builder for review responses and the movie service one for movie responses;
 * they are written once here, next to the answers the read operations give for
 * the current tables.
 */
module ServiceResponses {
  import opened Common
  import opened Dto
  import opened Model
  import opened EntityStore
  import opened MovieRepository
  import MovieMapper
  import ReviewMapper

  /**
   * The services' private `mapToReviewResponseDto`: the review's fields and its
   * movie's id, or a null movie id when no movie is attached. It agrees with the
   * review mapper component on every review, and with the movie mapper's nested
   * builder on every linked review.
   */
  function MapToReviewResponseDto(r: Review): (d: ReviewResponse)
    ensures ReviewMapper.ToResponseDto(Some(r)) == Some(d)
    ensures r.movie.LinkedTo? ==> d == MovieMapper.ToReviewResponseDto(r)
  {
    ReviewResponse(r.id, r.rating, r.comment, r.reviewerName,
      if r.movie.LinkedTo? then r.movie.movieId else None)
  }

  /**
   * The movie service's private `mapToMovieResponseDto`: scalar fields copied, a
   * null review list kept null, otherwise each review mapped in order. On
   * entities whose reviews are all linked it agrees with the movie mapper.
   */
  function MapToMovieResponseDto(m: Movie): (d: MovieResponse)
    ensures d.id == m.id && d.title == m.title && d.releaseYear == m.releaseYear
    ensures d.genre == m.genre && d.director == m.director
    ensures d.reviews.None? <==> m.reviews.None?
    ensures m.reviews.Some? ==>
      && |d.reviews.value| == |m.reviews.value|
      && forall i :: 0 <= i < |m.reviews.value| ==>
           d.reviews.value[i] == MapToReviewResponseDto(m.reviews.value[i])
  {
    MovieResponse(m.id, m.title, m.releaseYear, m.genre, m.director,
      match m.reviews
      case None => None
      case Some(rs) => Some(seq(|rs|, i requires 0 <= i < |rs| => MapToReviewResponseDto(rs[i]))))
  }

  /**
   * On an entity whose reviews all point back to a movie, the movie service's
   * private builder and the movie mapper produce the same response.
   */
  lemma PrivateBuilderAgreesWithMapper(m: Movie)
    requires m.reviews.Some? ==> MovieMapper.AllLinked(m.reviews.value)
    ensures MapToMovieResponseDto(m) == MovieMapper.ToResponseDto(m)
  {
    var d, e := MapToMovieResponseDto(m), MovieMapper.ToResponseDto(m);
    if m.reviews.Some? {
      assert d.reviews.value == e.reviews.value;
    }
  }

  /**
   * The answer for stored review `rid`: its stored rating, comment and reviewer
   * name, its identity and its movie's identity.
   */
  function ReviewView(db: Db, rid: Id): (d: ReviewResponse)
    requires rid in db.reviews
    ensures var row := db.reviews[rid];
      d == ReviewResponse(Some(rid), row.rating, row.comment, row.reviewerName, Some(row.movieId))
  {
    MapToReviewResponseDto(LoadReview(db, rid))
  }

  /** The answer for stored movie `id` (properties in `MovieViewShape`). */
  function MovieView(db: Db, id: Id): MovieResponse
    requires id in db.movies
  {
    MapToMovieResponseDto(LoadMovie(db, id))
  }

  /**
   * The answer for a stored movie carries its stored fields and the answers for
   * its reviews, in the order the movie's collection loads them, each naming the
   * movie.
   */
  lemma MovieViewShape(db: Db, id: Id)
    requires id in db.movies
    ensures var d, row := MovieView(db, id), db.movies[id];
      && d.id == Some(id) && d.title == row.title && d.releaseYear == row.releaseYear
      && d.genre == row.genre && d.director == row.director
      && d.reviews.Some? && |d.reviews.value| == |ReviewsOf(db, id)|
      && forall i :: 0 <= i < |ReviewsOf(db, id)| ==>
           && ReviewsOf(db, id)[i] in db.reviews
           && d.reviews.value[i] == ReviewView(db, ReviewsOf(db, id)[i])
           && d.reviews.value[i].movieId == Some(id)
  {
  }

  /** The movie mapper gives a stored movie the same answer a lookup does. */
  lemma MapperAnswersStoredMovie(db: Db, id: Id)
    requires id in db.movies
    ensures MovieMapper.ToResponseDto(LoadMovie(db, id)) == MovieView(db, id)
  {
    PrivateBuilderAgreesWithMapper(LoadMovie(db, id));
  }

  /** The movie mapper applied to loaded movies, as the list queries do. */
  function MoviesView(db: Db, ids: seq<Id>): seq<MovieResponse>
    requires forall m :: m in ids ==> m in db.movies
  {
    seq(|ids|, i requires 0 <= i < |ids| => MovieMapper.ToResponseDto(LoadMovie(db, ids[i])))
  }

  /** Element i of a list answer is the same answer a lookup of movie `ids[i]` gives. */
  lemma MoviesViewAgrees(db: Db, ids: seq<Id>)
    requires forall m :: m in ids ==> m in db.movies
    ensures var r := MoviesView(db, ids);
      && |r| == |ids|
      && forall i :: 0 <= i < |ids| ==>
           && ids[i] in db.movies && r[i] == MovieView(db, ids[i])
           && r[i].id == Some(ids[i]) && r[i].genre == db.movies[ids[i]].genre
  {
    var r := MoviesView(db, ids);
    forall i | 0 <= i < |ids| ensures r[i] == MovieView(db, ids[i]) {
      MapperAnswersStoredMovie(db, ids[i]);
    }
  }

  /** `findMoviesByGenre`'s answer for the current tables. */
  function GenreView(db: Db, genre: string): seq<MovieResponse> {
    MoviesView(db, FindByGenre(db, genre))
  }

  /**
   * The genre answer holds the lookup answer of every movie of that genre, each
   * of that genre, by ascending identity (so once each).
   */
  lemma GenreViewFacts(db: Db, genre: string)
    ensures var r := GenreView(db, genre);
      && (forall i :: 0 <= i < |r| ==> r[i].id.Some? && r[i].genre == genre)
      && (forall i, j :: 0 <= i < j < |r| ==> r[i].id.value < r[j].id.value)
      && (WellFormed(db) ==>
           forall m :: m in db.movies && db.movies[m].genre == genre ==> MovieView(db, m) in r)
  {
    var ids := FindByGenre(db, genre);
    var r := GenreView(db, genre);
    MoviesViewAgrees(db, ids);
    if WellFormed(db) {
      forall m | m in db.movies && db.movies[m].genre == genre ensures MovieView(db, m) in r {
        var i :| 0 <= i < |ids| && ids[i] == m;
        assert r[i] == MovieView(db, m);
      }
    }
  }

  /** `findTopRatedMoviesByGenre`'s answer for the current tables. */
  function TopRatedView(db: Db, genre: string): seq<MovieResponse> {
    MoviesView(db, FindTopMoviesByGenreOrderByAverageRatingDesc(db, genre))
  }

  /**
   * The ranked answer holds only lookup answers of stored movies of that genre
   * that have a review, and names each of them once.
   */
  lemma TopRatedViewSound(db: Db, genre: string)
    ensures var r := TopRatedView(db, genre);
      && (forall i :: 0 <= i < |r| ==>
           && r[i].id.Some? && r[i].genre == genre
           && r[i].id.value in db.movies && HasReview(db, r[i].id.value))
      && (forall i, j :: 0 <= i < j < |r| ==> r[i].id != r[j].id)
  {
  }

  /** The ranked answer runs from the highest average rating down. */
  lemma TopRatedViewRanked(db: Db, genre: string)
    requires WellFormed(db)
    ensures var r := TopRatedView(db, genre);
      forall i, j :: 0 <= i < j < |r| ==>
        r[i].id.Some? && r[j].id.Some? && AverageAtLeast(db, r[i].id.value, r[j].id.value)
  {
  }

  /** Every stored movie of that genre that has a review is in the ranked answer. */
  lemma TopRatedViewComplete(db: Db, genre: string)
    requires WellFormed(db)
    ensures var r := TopRatedView(db, genre);
      forall m :: m in db.movies && db.movies[m].genre == genre && HasReview(db, m) ==> MovieView(db, m) in r
  {
    var ids := FindTopMoviesByGenreOrderByAverageRatingDesc(db, genre);
    var r := TopRatedView(db, genre);
    MoviesViewAgrees(db, ids);
    forall m | m in db.movies && db.movies[m].genre == genre && HasReview(db, m)
      ensures MovieView(db, m) in r
    {
      var i :| 0 <= i < |ids| && ids[i] == m;
      assert r[i] == MovieView(db, m);
    }
  }
}
