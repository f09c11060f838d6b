/**
 * The three named caches the services read through and evict: "movies" (genre
 * lists), "topRatedMovies" (ranked genre lists) and "reviews" (single reviews).
 * An entry is only ever written with the answer the query gives at that moment,
 * and every successful write to the tables empties all three.
 */
module CacheLayer {
  import opened Common
  import opened Dto
  import opened EntityStore
  import opened ServiceResponses

  class Caches {
    /** The "movies" cache, keyed by genre. */
    var movies: map<string, seq<MovieResponse>>
    /** The "topRatedMovies" cache, keyed by genre. */
    var topRatedMovies: map<string, seq<MovieResponse>>
    /** The "reviews" cache, keyed by review id. */
    var reviews: map<Id, ReviewResponse>

    constructor ()
      ensures IsEmpty()
    {
      movies := map[];
      topRatedMovies := map[];
      reviews := map[];
    }

    predicate IsEmpty()
      reads this
    {
      movies == map[] && topRatedMovies == map[] && reviews == map[]
    }

    /**
     * Every cached entry is exactly what the uncached query would answer on `db`,
     * so a cache hit can never be told apart from a miss.
     */
    ghost predicate CoherentWith(db: Db)
      reads this
    {
      && (forall g :: g in movies ==> movies[g] == GenreView(db, g))
      && (forall g :: g in topRatedMovies ==> topRatedMovies[g] == TopRatedView(db, g))
      && (forall rid :: rid in reviews ==> rid in db.reviews && reviews[rid] == ReviewView(db, rid))
    }

    /**
     * `@CacheEvict(allEntries = true)` on all three caches; empty caches agree
     * with any tables.
     */
    method EvictAll()
      modifies this
      ensures IsEmpty()
      ensures forall db :: CoherentWith(db)
    {
      movies := map[];
      topRatedMovies := map[];
      reviews := map[];
    }

    /** Stores the answer of the genre query under `genre` in "movies". */
    method PutMovies(genre: string, answer: seq<MovieResponse>)
      modifies this
      ensures movies == old(movies)[genre := answer]
      ensures topRatedMovies == old(topRatedMovies) && reviews == old(reviews)
    {
      movies := movies[genre := answer];
    }

    /** Stores the answer of the ranked genre query under `genre` in "topRatedMovies". */
    method PutTopRatedMovies(genre: string, answer: seq<MovieResponse>)
      modifies this
      ensures topRatedMovies == old(topRatedMovies)[genre := answer]
      ensures movies == old(movies) && reviews == old(reviews)
    {
      topRatedMovies := topRatedMovies[genre := answer];
    }

    /** Stores the answer of a review lookup under `id` in "reviews". */
    method PutReview(id: Id, answer: ReviewResponse)
      modifies this
      ensures reviews == old(reviews)[id := answer]
      ensures movies == old(movies) && topRatedMovies == old(topRatedMovies)
    {
      reviews := reviews[id := answer];
    }
  }

  /**
   * The state both services keep between calls: the tables satisfy their
   * invariant and every cached answer is the current answer.
   */
  ghost predicate Consistent(store: Store, caches: Caches)
    reads store, caches
  {
    store.Valid() && caches.CoherentWith(store.Snapshot())
  }
}
