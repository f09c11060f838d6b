/**
 * The review service: create, look up, update and delete single reviews over
 * the shared store and caches. A lookup is read through the "reviews" cache;
 * every write that completes empties all three caches, and a write that fails
 * with "not found" changes nothing.
 */
module ReviewService {
  import opened Common
  import opened Dto
  import opened Model
  import opened EntityStore
  import opened ServiceResponses
  import opened CacheLayer

  /** The row a standalone review request becomes: its three fields and its movie. */
  function RowOfCreate(req: ReviewCreate): ReviewRow {
    ReviewRow(req.rating, req.comment, req.reviewerName, req.movieId)
  }

  /** The answer a write of `req` under identity `rid` promises. */
  function Answer(rid: Id, req: ReviewCreate): ReviewResponse {
    ReviewResponse(Some(rid), req.rating, req.comment, req.reviewerName, Some(req.movieId))
  }

  class ReviewService {
    const store: Store
    const caches: Caches

    constructor (store: Store, caches: Caches)
      ensures this.store == store && this.caches == caches
    {
      this.store := store;
      this.caches := caches;
    }

    ghost predicate Valid()
      reads store, caches
    {
      Consistent(store, caches)
    }

    /**
     * `createReview`: looks up the named movie ("movie not found" otherwise,
     * changing nothing), saves a new review of it under a fresh identity and
     * answers with the saved review.
     */
    method CreateReview(req: ReviewCreate) returns (r: Result<ReviewResponse>)
      requires Valid()
      modifies store, caches
      ensures Valid()
      ensures r.Err? <==> req.movieId !in old(store.movies)
      ensures r.Err? ==> r.error == MovieNotFound(req.movieId) && unchanged(store) && unchanged(caches)
      ensures r.Ok? ==>
        var rid := old(store.nextReviewId);
        && rid !in old(store.reviews)
        && caches.IsEmpty()
        && store.Snapshot() == InsertReview(old(store.Snapshot()), RowOfCreate(req))
        && store.log == old(store.log) + [ReviewSaved(rid)]
        && r.value == Answer(rid, req)
        && r.value == ReviewView(store.Snapshot(), rid)
    {
      if req.movieId !in store.movies {
        return Err(MovieNotFound(req.movieId));
      }
      var rid := store.SaveNewReview(RowOfCreate(req));
      r := Ok(MapToReviewResponseDto(LoadReview(store.Snapshot(), rid)));
      caches.EvictAll();
    }

    /**
     * `getReviewById`, read through the "reviews" cache keyed by identity: a hit
     * and a miss give the same answer, the stored review; afterwards it is
     * cached. An unknown identity is "review not found" and caches nothing.
     */
    method GetReviewById(id: Id) returns (r: Result<ReviewResponse>)
      requires Valid()
      modifies caches
      ensures Valid()
      ensures r.Ok? <==> id in store.reviews
      ensures r.Err? ==> r.error == ReviewNotFound(id) && unchanged(caches)
      ensures r.Ok? ==>
        && r.value == ReviewView(store.Snapshot(), id)
        && caches.reviews == old(caches.reviews)[id := r.value]
      ensures caches.movies == old(caches.movies) && caches.topRatedMovies == old(caches.topRatedMovies)
    {
      ghost var db := store.Snapshot();
      if id in caches.reviews {
        r := Ok(caches.reviews[id]);
        assert caches.reviews == caches.reviews[id := r.value];
      } else if id in store.reviews {
        var answer := MapToReviewResponseDto(LoadReview(store.Snapshot(), id));
        caches.PutReview(id, answer);
        assert store.Snapshot() == db;
        r := Ok(answer);
      } else {
        r := Err(ReviewNotFound(id));
      }
    }

    /**
     * `updateReview`: the review is looked up first ("review not found"), then
     * the named movie ("movie not found"); either failure changes nothing.
     * Otherwise the three fields are overwritten and the review moved to that
     * movie, keeping its identity.
     */
    method UpdateReview(id: Id, req: ReviewCreate) returns (r: Result<ReviewResponse>)
      requires Valid()
      modifies store, caches
      ensures Valid()
      ensures r.Err? <==> id !in old(store.reviews) || req.movieId !in old(store.movies)
      ensures r.Err? ==>
        && r.error == (if id !in old(store.reviews) then ReviewNotFound(id) else MovieNotFound(req.movieId))
        && unchanged(store) && unchanged(caches)
      ensures r.Ok? ==>
        && caches.IsEmpty()
        && store.Snapshot() == ReplaceReview(old(store.Snapshot()), id, RowOfCreate(req))
        && store.log == old(store.log) + [ReviewSaved(id)]
        && r.value == Answer(id, req)
        && r.value == ReviewView(store.Snapshot(), id)
    {
      if id !in store.reviews {
        return Err(ReviewNotFound(id));
      }
      if req.movieId !in store.movies {
        return Err(MovieNotFound(req.movieId));
      }
      store.SaveReview(id, RowOfCreate(req));
      r := Ok(MapToReviewResponseDto(LoadReview(store.Snapshot(), id)));
      caches.EvictAll();
    }

    /** `deleteReview`: removes that review only; "review not found", changing nothing, otherwise. */
    method DeleteReview(id: Id) returns (o: Outcome)
      requires Valid()
      modifies store, caches
      ensures Valid()
      ensures o.Failed? <==> id !in old(store.reviews)
      ensures o.Failed? ==> o.error == ReviewNotFound(id) && unchanged(store) && unchanged(caches)
      ensures o.Done? ==>
        && caches.IsEmpty()
        && store.Snapshot() == RemoveReview(old(store.Snapshot()), id)
        && store.log == old(store.log) + [ReviewDeleted(id)]
    {
      if id !in store.reviews {
        return Failed(ReviewNotFound(id));
      }
      store.DeleteReviewById(id);
      caches.EvictAll();
      o := Done;
    }
  }

  /**
   * A created review is listed last among its movie's reviews, and no other
   * movie's list changes.
   */
  lemma CreatedReviewAppended(db: Db, req: ReviewCreate)
    requires WellFormed(db) && req.movieId in db.movies
    ensures var after := InsertReview(db, RowOfCreate(req));
      && WellFormed(after)
      && ReviewsOf(after, req.movieId) == ReviewsOf(db, req.movieId) + [db.nextReviewId]
      && forall m :: m != req.movieId ==> ReviewsOf(after, m) == ReviewsOf(db, m)
  {
    InsertReviewKeeps(db, RowOfCreate(req));
    ReviewsOfAfterInsert(db, RowOfCreate(req), req.movieId);
    forall m | m != req.movieId
      ensures ReviewsOf(InsertReview(db, RowOfCreate(req)), m) == ReviewsOf(db, m)
    {
      ReviewsOfAfterInsert(db, RowOfCreate(req), m);
    }
  }

  /**
   * After a created review, the movie's own answer is its previous answer with
   * the new review's answer appended.
   */
  lemma CreatedReviewShowsInMovie(db: Db, req: ReviewCreate)
    requires WellFormed(db) && req.movieId in db.movies
    ensures var after := InsertReview(db, RowOfCreate(req));
      && req.movieId in after.movies
      && MovieView(after, req.movieId).reviews ==
           Some(MovieView(db, req.movieId).reviews.value + [Answer(db.nextReviewId, req)])
  {
    var after := InsertReview(db, RowOfCreate(req));
    var id := req.movieId;
    CreatedReviewAppended(db, req);
    MovieViewShape(db, id);
    MovieViewShape(after, id);
    var before, now := MovieView(db, id).reviews.value, MovieView(after, id).reviews.value;
    forall i | 0 <= i < |before| ensures now[i] == before[i] {
      assert ReviewsOf(after, id)[i] == ReviewsOf(db, id)[i];
    }
    assert now[|before|] == Answer(db.nextReviewId, req) by {
      assert ReviewsOf(after, id)[|before|] == db.nextReviewId;
    }
    assert now == before + [Answer(db.nextReviewId, req)];
  }

  /**
   * An updated review belongs to the requested movie and to no other, and every
   * other review keeps its movie.
   */
  lemma UpdatedReviewMoves(db: Db, id: Id, req: ReviewCreate)
    requires WellFormed(db) && id in db.reviews && req.movieId in db.movies
    ensures var after := ReplaceReview(db, id, RowOfCreate(req));
      && WellFormed(after)
      && (forall m :: id in ReviewsOf(after, m) <==> m == req.movieId)
      && (forall m, rid :: rid != id ==> (rid in ReviewsOf(after, m) <==> rid in ReviewsOf(db, m)))
  {
  }

  /** A deleted review is on no movie's list, and every other review stays where it was. */
  lemma DeletedReviewGone(db: Db, id: Id)
    requires WellFormed(db)
    ensures var after := RemoveReview(db, id);
      && WellFormed(after)
      && (forall m :: id !in ReviewsOf(after, m))
      && (forall m, rid :: rid != id ==> (rid in ReviewsOf(after, m) <==> rid in ReviewsOf(db, m)))
  {
  }
}
