/**
 * The movie service: create, look up, update and delete movies, and the two
 * genre queries, over the shared store and caches. Every write that completes
 * empties all three caches; a write that fails with "movie not found" changes
 * nothing.
 */
module MovieService {
  import opened Common
  import opened Dto
  import opened Model
  import opened EntityStore
  import opened MovieRepository
  import opened ServiceResponses
  import opened CacheLayer
  import MovieMapper
  import ReviewMapper

  /** The request's scalar columns. */
  function RowOf(req: MovieRequest): MovieRow {
    MovieRow(req.title, req.releaseYear, req.genre, req.director)
  }

  /** The request's review list, a null list read as empty. */
  function RequestedReviews(req: MovieRequest): seq<ReviewRequest> {
    if req.reviews.Some? then req.reviews.value else []
  }

  /** The review rows a review list becomes once attached to movie `movieId`, in list order. */
  function RequestedRows(dtos: seq<ReviewRequest>, movieId: Id): (rows: seq<ReviewRow>)
    ensures |rows| == |dtos|
    ensures forall k :: 0 <= k < |dtos| ==>
      rows[k] == ReviewRow(dtos[k].rating, dtos[k].comment, dtos[k].reviewerName, movieId)
  {
    seq(|dtos|, k requires 0 <= k < |dtos| =>
      ReviewRow(dtos[k].rating, dtos[k].comment, dtos[k].reviewerName, movieId))
  }

  class MovieService {
    const store: Store
    const caches: Caches

    constructor (store: Store, caches: Caches)
      ensures this.store == store && this.caches == caches
    {
      this.store := store;
      this.caches := caches;
    }

    ghost predicate Valid()
      reads store, caches
    {
      Consistent(store, caches)
    }

    /**
     * `createMovieWithReviews`: saves the movie under a fresh identity; when the
     * request lists reviews, attaches them and saves the movie a second time. A
     * null or empty list saves once and answers with a null review list.
     */
    method CreateMovieWithReviews(req: MovieRequest) returns (r: MovieResponse)
      requires Valid()
      modifies store, caches
      ensures Valid() && caches.IsEmpty()
      ensures var id := old(store.nextMovieId);
        && id !in old(store.movies)
        && r.id == Some(id) && r.title == req.title && r.releaseYear == req.releaseYear
        && r.genre == req.genre && r.director == req.director
      ensures RequestedReviews(req) == [] ==>
        && store.Snapshot() == InsertMovie(old(store.Snapshot()), RowOf(req))
        && store.log == old(store.log) + [MovieSaved(old(store.nextMovieId))]
        && r.reviews == None
      ensures RequestedReviews(req) != [] ==>
        var id, dtos := old(store.nextMovieId), RequestedReviews(req);
        && store.Snapshot() == ReplaceMovie(InsertMovie(old(store.Snapshot()), RowOf(req)), id, RowOf(req), RequestedRows(dtos, id))
        && store.log == old(store.log) + [MovieSaved(id), MovieSaved(id)]
        && r == MovieView(store.Snapshot(), id)
    {
      ghost var before := store.Snapshot();
      var movie := MovieMapper.ToEntity(req);
      var id := store.SaveNewMovie(RowOf(req));
      if req.reviews.Some? && req.reviews.value != [] {
        r := AttachReviews(id, RowOf(req), req.reviews.value);
        assert RequestedReviews(req) != [];
      } else {
        r := MovieMapper.ToResponseDto(movie.(id := Some(id)));
        assert RequestedReviews(req) == [];
      }
      caches.EvictAll();
    }

    /** `getMovieById`: the stored movie with its reviews, or "movie not found". It does not use a cache. */
    method GetMovieById(id: Id) returns (r: Result<MovieResponse>)
      ensures r.Ok? <==> id in store.movies
      ensures r.Err? ==> r.error == MovieNotFound(id)
      ensures r.Ok? ==> r.value == MovieView(store.Snapshot(), id)
    {
      if id in store.movies {
        r := Ok(MapToMovieResponseDto(LoadMovie(store.Snapshot(), id)));
      } else {
        r := Err(MovieNotFound(id));
      }
    }

    /**
     * The second half of `createMovieWithReviews`: each request review becomes an
     * entity pointing at the saved movie, the list becomes the movie's
     * collection, the movie is saved again and mapped to its answer.
     */
    method AttachReviews(id: Id, row: MovieRow, dtos: seq<ReviewRequest>) returns (r: MovieResponse)
      requires store.Valid() && id in store.movies
      modifies store
      ensures store.Valid()
      ensures store.Snapshot() == ReplaceMovie(old(store.Snapshot()), id, row, RequestedRows(dtos, id))
      ensures store.log == old(store.log) + [MovieSaved(id)]
      ensures r == MovieView(store.Snapshot(), id)
    {
      var rows := MapReviews(dtos, id);
      store.SaveMovie(id, row, rows);
      r := MovieMapper.ToResponseDto(LoadMovie(store.Snapshot(), id));
      MapperAnswersStoredMovie(store.Snapshot(), id);
    }

    /**
     * `updateMovie`: overwrites the four scalar fields and replaces (does not
     * merge) the movie's reviews with the request's list, a null list meaning
     * none. Fails with "movie not found", changing nothing, for an unknown id.
     */
    method UpdateMovie(id: Id, req: MovieRequest) returns (r: Result<MovieResponse>)
      requires Valid()
      modifies store, caches
      ensures Valid()
      ensures r.Err? <==> id !in old(store.movies)
      ensures r.Err? ==> r.error == MovieNotFound(id) && unchanged(store) && unchanged(caches)
      ensures r.Ok? ==>
        && caches.IsEmpty()
        && store.Snapshot() == ReplaceMovie(old(store.Snapshot()), id, RowOf(req), RequestedRows(RequestedReviews(req), id))
        && store.log == old(store.log) + [MovieSaved(id)]
        && r.value == MovieView(store.Snapshot(), id)
    {
      if id !in store.movies {
        return Err(MovieNotFound(id));
      }
      // the loaded collection is cleared; `rows` are its new contents
      var rows := BuildReviews(RequestedReviews(req), id);
      store.SaveMovie(id, RowOf(req), rows);
      r := Ok(MapToMovieResponseDto(LoadMovie(store.Snapshot(), id)));
      caches.EvictAll();
    }

    /** `deleteMovie`: removes the movie and, by cascade, all its reviews; "movie not found" otherwise. */
    method DeleteMovie(id: Id) returns (o: Outcome)
      requires Valid()
      modifies store, caches
      ensures Valid()
      ensures o.Failed? <==> id !in old(store.movies)
      ensures o.Failed? ==> o.error == MovieNotFound(id) && unchanged(store) && unchanged(caches)
      ensures o.Done? ==>
        && caches.IsEmpty()
        && store.Snapshot() == RemoveMovie(old(store.Snapshot()), id)
        && store.log == old(store.log) + [MovieDeleted(id)]
    {
      if id !in store.movies {
        return Failed(MovieNotFound(id));
      }
      store.DeleteMovieById(id);
      caches.EvictAll();
      o := Done;
    }

    /**
     * `findMoviesByGenre`, read through the "movies" cache: a hit and a miss give
     * the same answer, the current genre list, and afterwards it is cached.
     */
    method FindMoviesByGenre(genre: string) returns (r: seq<MovieResponse>)
      requires Valid()
      modifies caches
      ensures Valid()
      ensures r == GenreView(store.Snapshot(), genre)
      ensures caches.movies == old(caches.movies)[genre := r]
      ensures caches.topRatedMovies == old(caches.topRatedMovies) && caches.reviews == old(caches.reviews)
    {
      ghost var db := store.Snapshot();
      if genre in caches.movies {
        r := caches.movies[genre];
        assert caches.movies == caches.movies[genre := r];
      } else {
        r := MoviesView(store.Snapshot(), FindByGenre(store.Snapshot(), genre));
        caches.PutMovies(genre, r);
        assert store.Snapshot() == db;
      }
    }

    /**
     * `findTopRatedMoviesByGenre`, read through the "topRatedMovies" cache: a hit
     * and a miss give the same answer, the current ranking, and afterwards it is
     * cached.
     */
    method FindTopRatedMoviesByGenre(genre: string) returns (r: seq<MovieResponse>)
      requires Valid()
      modifies caches
      ensures Valid()
      ensures r == TopRatedView(store.Snapshot(), genre)
      ensures caches.topRatedMovies == old(caches.topRatedMovies)[genre := r]
      ensures caches.movies == old(caches.movies) && caches.reviews == old(caches.reviews)
    {
      ghost var db := store.Snapshot();
      if genre in caches.topRatedMovies {
        r := caches.topRatedMovies[genre];
        assert caches.topRatedMovies == caches.topRatedMovies[genre := r];
      } else {
        r := MoviesView(store.Snapshot(), FindTopMoviesByGenreOrderByAverageRatingDesc(store.Snapshot(), genre));
        caches.PutTopRatedMovies(genre, r);
        assert store.Snapshot() == db;
      }
    }
  }

  /**
   * The loop of `createMovieWithReviews`: each review request goes through the
   * review mapper and is attached to the saved movie, in request order.
   */
  method MapReviews(dtos: seq<ReviewRequest>, movieId: Id) returns (rows: seq<ReviewRow>)
    ensures rows == RequestedRows(dtos, movieId)
  {
    rows := [];
    var k := 0;
    while k < |dtos|
      invariant 0 <= k <= |dtos| && |rows| == k
      invariant forall j :: 0 <= j < k ==>
        rows[j] == ReviewRow(dtos[j].rating, dtos[j].comment, dtos[j].reviewerName, movieId)
    {
      var review := ReviewMapper.ToEntity(Some(dtos[k])).value.(movie := LinkedTo(Some(movieId)));
      rows := rows + [ReviewRow(review.rating, review.comment, review.reviewerName, review.movie.movieId.value)];
      k := k + 1;
    }
  }

  /**
   * The loop of `updateMovie`: each review request becomes a review built with
   * the request's fields and the movie, in request order.
   */
  method BuildReviews(dtos: seq<ReviewRequest>, movieId: Id) returns (rows: seq<ReviewRow>)
    ensures rows == RequestedRows(dtos, movieId)
  {
    rows := [];
    var k := 0;
    while k < |dtos|
      invariant 0 <= k <= |dtos| && |rows| == k
      invariant forall j :: 0 <= j < k ==>
        rows[j] == ReviewRow(dtos[j].rating, dtos[j].comment, dtos[j].reviewerName, movieId)
    {
      var review := Review(None, dtos[k].rating, dtos[k].comment, dtos[k].reviewerName, LinkedTo(Some(movieId)));
      rows := rows + [ReviewRow(review.rating, review.comment, review.reviewerName, review.movie.movieId.value)];
      k := k + 1;
    }
  }

  /**
   * An update touches only its own movie: the other movies keep their rows and
   * their review lists, and the movie's previous reviews are gone (orphan
   * removal) while every other review is kept as it was.
   */
  lemma UpdateKeepsOtherMovies(db: Db, id: Id, req: MovieRequest)
    requires WellFormed(db) && id in db.movies
    ensures var after := ReplaceMovie(db, id, RowOf(req), RequestedRows(RequestedReviews(req), id));
      && WellFormed(after)
      && after.movies == db.movies[id := RowOf(req)]
      && (forall rid :: rid in ReviewsOf(db, id) ==> rid !in after.reviews)
      && (forall rid :: rid in db.reviews && db.reviews[rid].movieId != id ==> rid in after.reviews && after.reviews[rid] == db.reviews[rid])
      && (forall m :: m != id ==> ReviewsOf(after, m) == ReviewsOf(db, m))
  {
    var rows := RequestedRows(RequestedReviews(req), id);
    ReplaceMovieKeeps(db, id, RowOf(req), rows);
    forall m | m != id ensures ReviewsOf(ReplaceMovie(db, id, RowOf(req), rows), m) == ReviewsOf(db, m) {
      ReplaceMovieKeepsOtherLists(db, id, RowOf(req), rows, m);
    }
  }

  /**
   * A delete removes the movie and, by cascade, every one of its reviews; the
   * other movies keep their rows and their review lists.
   */
  lemma DeleteCascades(db: Db, id: Id)
    requires WellFormed(db)
    ensures var after := RemoveMovie(db, id);
      && WellFormed(after)
      && id !in after.movies
      && (forall rid :: rid in ReviewsOf(db, id) ==> rid !in after.reviews)
      && (forall m :: m in db.movies && m != id ==> m in after.movies && after.movies[m] == db.movies[m])
      && (forall m :: m != id ==> ReviewsOf(after, m) == ReviewsOf(db, m))
  {
    RemoveMovieKeeps(db, id);
    forall m | m != id ensures ReviewsOf(RemoveMovie(db, id), m) == ReviewsOf(db, m) {
      RemoveMovieKeepsOtherLists(db, id, m);
    }
  }

  /**
   * Read back after that save, the movie's answer carries the request's fields
   * and lists exactly the new reviews, under fresh identities in request order.
   */
  lemma {:induction false} ReplacedReviewsAnswer(db: Db, id: Id, req: MovieRequest)
    requires WellFormed(db) && id in db.movies
    ensures var dtos := RequestedReviews(req);
      var after := ReplaceMovie(db, id, RowOf(req), RequestedRows(dtos, id));
      var r := MovieView(after, id);
      && ReviewsOf(after, id) == Range(db.nextReviewId, |dtos|)
      && r.id == Some(id) && r.title == req.title && r.releaseYear == req.releaseYear
      && r.genre == req.genre && r.director == req.director
      && r.reviews.Some? && |r.reviews.value| == |dtos|
      && forall k :: 0 <= k < |dtos| ==>
           r.reviews.value[k] ==
             ReviewResponse(Some(db.nextReviewId + k), dtos[k].rating, dtos[k].comment, dtos[k].reviewerName, Some(id))
  {
    var dtos := RequestedReviews(req);
    var after := ReplaceMovie(db, id, RowOf(req), RequestedRows(dtos, id));
    ReviewsOfReplaced(db, id, RowOf(req), RequestedRows(dtos, id));
    MovieViewShape(after, id);
    forall k | 0 <= k < |dtos|
      ensures MovieView(after, id).reviews.value[k] ==
        ReviewResponse(Some(db.nextReviewId + k), dtos[k].rating, dtos[k].comment, dtos[k].reviewerName, Some(id))
    {
      ReplacedReviewAt(db, id, req, k);
    }
  }

  /** Review `k` of that answer is request review `k` under identity `nextReviewId + k`. */
  lemma ReplacedReviewAt(db: Db, id: Id, req: MovieRequest, k: nat)
    requires WellFormed(db) && id in db.movies && k < |RequestedReviews(req)|
    ensures var dtos := RequestedReviews(req);
      var after := ReplaceMovie(db, id, RowOf(req), RequestedRows(dtos, id));
      && ReviewsOf(after, id) == Range(db.nextReviewId, |dtos|)
      && MovieView(after, id).reviews.Some?
      && |MovieView(after, id).reviews.value| == |dtos|
      && MovieView(after, id).reviews.value[k] ==
           ReviewResponse(Some(db.nextReviewId + k), dtos[k].rating, dtos[k].comment, dtos[k].reviewerName, Some(id))
  {
    var dtos := RequestedReviews(req);
    var rows := RequestedRows(dtos, id);
    var after := ReplaceMovie(db, id, RowOf(req), rows);
    ReviewsOfReplaced(db, id, RowOf(req), rows);
    MovieViewShape(after, id);
    var start := db.nextReviewId;
    assert ReviewsOf(after, id)[k] == start + k;
    assert after.reviews[start + k] == rows[k];
  }

  /**
   * A movie created without reviews is answered at creation with a null review
   * list, but every later lookup answers it with an empty one: the first answer
   * maps the unsaved entity, the lookup loads the (empty) collection.
   */
  lemma PlainCreateThenLookup(db: Db, req: MovieRequest)
    requires WellFormed(db)
    ensures var id := db.nextMovieId;
      var after := InsertMovie(db, RowOf(req));
      && id in after.movies
      && MovieMapper.ToResponseDto(MovieMapper.ToEntity(req).(id := Some(id))).reviews == None
      && MovieView(after, id).reviews == Some([])
  {
    var id := db.nextMovieId;
    var after := InsertMovie(db, RowOf(req));
    InsertMovieKeeps(db, RowOf(req));
    MovieViewShape(after, id);
    // no stored review points at an identity that was never issued
    assert OwnedSet(after.reviews, id) == {};
    SortedIdsNoneBelow(OwnedSet(after.reviews, id), after.nextReviewId);
  }

}
