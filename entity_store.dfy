/**
 * The relational store behind the two repositories: a `movie` table and a
 * `review` table keyed by generated identities, with `review.movie_id` a foreign
 * key into `movie`. `Db` is a snapshot of the tables; `Store` is the mutable
 * store whose methods are the repository writes the services issue.
 */
module EntityStore {
  import opened Common
  import opened Model

  datatype MovieRow = MovieRow(title: string, releaseYear: int, genre: string, director: string)
  datatype ReviewRow = ReviewRow(rating: int, comment: string, reviewerName: string, movieId: Id)

  /** Both tables and the next value of each identity column (identities are never reused). */
  datatype Db = Db(
    movies: map<Id, MovieRow>,
    reviews: map<Id, ReviewRow>,
    nextMovieId: Id,
    nextReviewId: Id)

  /** The repository writes, in the order the services issue them. */
  datatype RepoCall =
    | MovieSaved(movieId: Id)
    | MovieDeleted(movieId: Id)
    | ReviewSaved(reviewId: Id)
    | ReviewDeleted(reviewId: Id)

  /**
   * Store invariant: identities start at 1 and lie below their counter, and every
   * review points to an existing movie (referential integrity of `movie_id`).
   */
  ghost predicate WellFormed(db: Db) {
    && 1 <= db.nextMovieId
    && 1 <= db.nextReviewId
    && (forall id :: id in db.movies ==> 1 <= id < db.nextMovieId)
    && (forall id :: id in db.reviews ==> 1 <= id < db.nextReviewId)
    && (forall id :: id in db.reviews ==> db.reviews[id].movieId in db.movies)
  }

  /** The elements of `s` below `bound`, in ascending order: the order rows are read back in. */
  function SortedIds(s: set<Id>, bound: nat): (r: seq<Id>)
    ensures forall x :: x in r <==> x in s && x < bound
    ensures forall i :: 0 <= i < |r| ==> r[i] < bound
    ensures forall i, j :: 0 <= i < j < |r| ==> r[i] < r[j]
    decreases bound
  {
    if bound == 0 then []
    else SortedIds(s, bound - 1) + (if bound - 1 in s then [bound - 1] else [])
  }

  /** `n` consecutive identities from `start`. */
  function Range(start: Id, n: nat): (r: seq<Id>)
    ensures |r| == n && forall i :: 0 <= i < n ==> r[i] == start + i
  {
    if n == 0 then [] else Range(start, n - 1) + [start + n - 1]
  }

  /** A set with nothing below `bound` lists nothing below it. */
  lemma {:induction false} SortedIdsNoneBelow(s: set<Id>, bound: nat)
    requires forall x :: x in s ==> bound <= x
    ensures SortedIds(s, bound) == []
  {
    if bound > 0 {
      SortedIdsNoneBelow(s, bound - 1);
    }
  }

  /** A set that has nothing below `lo` and everything in `[lo, lo + n)` lists exactly that block. */
  lemma {:induction false} SortedIdsOfBlock(s: set<Id>, lo: Id, n: nat)
    requires forall x :: x in s ==> lo <= x
    requires forall x :: lo <= x < lo + n ==> x in s
    ensures SortedIds(s, lo + n) == Range(lo, n)
  {
    if n == 0 {
      SortedIdsNoneBelow(s, lo);
    } else {
      SortedIdsOfBlock(s, lo, n - 1);
      assert lo + n - 1 in s;
    }
  }

  /** Identities of the reviews whose `movie_id` is `movieId`. */
  function OwnedSet(reviews: map<Id, ReviewRow>, movieId: Id): set<Id> {
    set rid | rid in reviews && reviews[rid].movieId == movieId
  }

  /** The reviews of a movie as its `reviews` collection loads them: by ascending identity. */
  function ReviewsOf(db: Db, movieId: Id): (r: seq<Id>)
    ensures forall rid :: rid in r ==> rid in db.reviews && db.reviews[rid].movieId == movieId
    ensures forall i, j :: 0 <= i < j < |r| ==> r[i] < r[j]
    ensures WellFormed(db) ==>
      forall rid :: rid in db.reviews && db.reviews[rid].movieId == movieId ==> rid in r
  {
    SortedIds(OwnedSet(db.reviews, movieId), db.nextReviewId)
  }

  /** The review table without the rows owned by `movieId` (cascade delete and orphan removal). */
  function WithoutReviewsOf(reviews: map<Id, ReviewRow>, movieId: Id): (m: map<Id, ReviewRow>)
    ensures forall rid :: rid in m <==> rid in reviews && reviews[rid].movieId != movieId
    ensures forall rid :: rid in m ==> m[rid] == reviews[rid]
  {
    map rid | rid in reviews && reviews[rid].movieId != movieId :: reviews[rid]
  }

  /**
   * The review table with `rows` inserted one after another under the fresh
   * identities `start`, `start + 1`, ...
   */
  function WithFresh(base: map<Id, ReviewRow>, start: Id, rows: seq<ReviewRow>): (m: map<Id, ReviewRow>)
    requires forall rid :: rid in base ==> rid < start
    ensures forall rid :: rid in m <==> rid in base || start <= rid < start + |rows|
    ensures forall rid :: rid in base ==> m[rid] == base[rid]
    ensures forall k :: 0 <= k < |rows| ==> m[start + k] == rows[k]
    decreases |rows|
  {
    if rows == [] then base
    else WithFresh(base, start, rows[..|rows| - 1])[start + |rows| - 1 := rows[|rows| - 1]]
  }

  /**
   * After a movie's reviews are replaced with `rows` (all pointing at it), its
   * reviews are exactly the fresh identities, in the order of `rows`.
   */
  lemma ReviewsOfReplaced(db: Db, movieId: Id, row: MovieRow, rows: seq<ReviewRow>)
    requires WellFormed(db)
    requires forall k :: 0 <= k < |rows| ==> rows[k].movieId == movieId
    ensures ReviewsOf(ReplaceMovie(db, movieId, row, rows), movieId) == Range(db.nextReviewId, |rows|)
  {
    var kept := WithoutReviewsOf(db.reviews, movieId);
    OwnedAfterInsert(kept, db.nextReviewId, rows, movieId);
    ReviewsOfBlock(ReplaceMovie(db, movieId, row, rows), movieId, db.nextReviewId, |rows|);
  }

  /** A movie owning exactly the identities `[lo, lo + n)`, the last ones issued, lists them in order. */
  lemma ReviewsOfBlock(db: Db, movieId: Id, lo: Id, n: nat)
    requires db.nextReviewId == lo + n
    requires forall x :: x in OwnedSet(db.reviews, movieId) ==> lo <= x
    requires forall x :: lo <= x < lo + n ==> x in OwnedSet(db.reviews, movieId)
    ensures ReviewsOf(db, movieId) == Range(lo, n)
  {
    SortedIdsOfBlock(OwnedSet(db.reviews, movieId), lo, n);
  }

  /** Inserting rows that all point at `movieId` into a table where none does. */
  lemma OwnedAfterInsert(kept: map<Id, ReviewRow>, lo: Id, rows: seq<ReviewRow>, movieId: Id)
    requires forall rid :: rid in kept ==> rid < lo && kept[rid].movieId != movieId
    requires forall k :: 0 <= k < |rows| ==> rows[k].movieId == movieId
    ensures forall x :: x in OwnedSet(WithFresh(kept, lo, rows), movieId) ==> lo <= x
    ensures forall x :: lo <= x < lo + |rows| ==> x in OwnedSet(WithFresh(kept, lo, rows), movieId)
  {
    var reviews := WithFresh(kept, lo, rows);
    forall x | lo <= x < lo + |rows| ensures x in OwnedSet(reviews, movieId) {
      var k := x - lo;
      assert reviews[lo + k] == rows[k];
    }
  }

  /** Two sets with the same elements below `bound` list the same identities. */
  lemma {:induction false} SortedIdsAgree(s: set<Id>, t: set<Id>, bound: nat)
    requires forall x :: x < bound ==> (x in s <==> x in t)
    ensures SortedIds(s, bound) == SortedIds(t, bound)
  {
    if bound > 0 {
      SortedIdsAgree(s, t, bound - 1);
    }
  }

  /** Raising the bound past identities the set does not hold lists nothing more. */
  lemma {:induction false} SortedIdsNoneBetween(s: set<Id>, lo: nat, hi: nat)
    requires lo <= hi
    requires forall x :: lo <= x < hi ==> x !in s
    ensures SortedIds(s, hi) == SortedIds(s, lo)
    decreases hi - lo
  {
    if lo < hi {
      SortedIdsNoneBetween(s, lo, hi - 1);
    }
  }

  /**
   * A review inserted under the next identity goes to the end of its movie's
   * list; every other movie's list stays as it was.
   */
  lemma ReviewsOfAfterInsert(db: Db, row: ReviewRow, movieId: Id)
    requires WellFormed(db)
    ensures ReviewsOf(InsertReview(db, row), movieId)
      == ReviewsOf(db, movieId) + (if row.movieId == movieId then [db.nextReviewId] else [])
  {
    var after := InsertReview(db, row);
    SortedIdsAgree(OwnedSet(after.reviews, movieId), OwnedSet(db.reviews, movieId), db.nextReviewId);
  }

  /** The review entity loaded for identity `rid`, back-referencing its movie. */
  function LoadReview(db: Db, rid: Id): (r: Review)
    requires rid in db.reviews
    ensures r.id == Some(rid) && r.movie == LinkedTo(Some(db.reviews[rid].movieId))
    ensures var row := db.reviews[rid];
      r.rating == row.rating && r.comment == row.comment && r.reviewerName == row.reviewerName
  {
    var row := db.reviews[rid];
    Review(Some(rid), row.rating, row.comment, row.reviewerName, LinkedTo(Some(row.movieId)))
  }

  /** The movie entity loaded for identity `id`, with its collection of owned reviews. */
  function LoadMovie(db: Db, id: Id): (m: Movie)
    requires id in db.movies
    ensures m.id == Some(id) && m.reviews.Some?
    ensures var row := db.movies[id];
      m.title == row.title && m.releaseYear == row.releaseYear
      && m.genre == row.genre && m.director == row.director
    ensures |m.reviews.value| == |ReviewsOf(db, id)|
    ensures forall i :: 0 <= i < |m.reviews.value| ==>
      m.reviews.value[i] == LoadReview(db, ReviewsOf(db, id)[i])
      && m.reviews.value[i].movie == LinkedTo(Some(id))
  {
    var row := db.movies[id];
    var owned := ReviewsOf(db, id);
    Movie(Some(id), row.title, row.releaseYear, row.genre, row.director,
      Some(seq(|owned|, i requires 0 <= i < |owned| => LoadReview(db, owned[i]))))
  }

  // The repository writes, as transitions of the tables.

  /** `save` of a movie without identity: inserts it under the next identity. */
  function InsertMovie(db: Db, row: MovieRow): Db {
    db.(movies := db.movies[db.nextMovieId := row], nextMovieId := db.nextMovieId + 1)
  }

  /**
   * `save` of an existing movie whose review list holds only new reviews: the
   * scalar columns are overwritten, `cascade = ALL` inserts the new reviews
   * under fresh identities in list order, and `orphanRemoval = true` deletes
   * every review the movie owned before.
   */
  function ReplaceMovie(db: Db, id: Id, row: MovieRow, attached: seq<ReviewRow>): Db
    requires forall rid :: rid in db.reviews ==> rid < db.nextReviewId
  {
    db.(movies := db.movies[id := row],
        reviews := WithFresh(WithoutReviewsOf(db.reviews, id), db.nextReviewId, attached),
        nextReviewId := db.nextReviewId + |attached|)
  }

  /** `deleteById` of a movie: removes it and, by cascade, its reviews. */
  function RemoveMovie(db: Db, id: Id): Db {
    db.(movies := db.movies - {id}, reviews := WithoutReviewsOf(db.reviews, id))
  }

  /** `save` of a review without identity: inserts it under the next identity. */
  function InsertReview(db: Db, row: ReviewRow): Db {
    db.(reviews := db.reviews[db.nextReviewId := row], nextReviewId := db.nextReviewId + 1)
  }

  /** `save` of an existing review: overwrites its row. */
  function ReplaceReview(db: Db, id: Id, row: ReviewRow): Db {
    db.(reviews := db.reviews[id := row])
  }

  /** `deleteById` of a review: removes that row only. */
  function RemoveReview(db: Db, id: Id): Db {
    db.(reviews := db.reviews - {id})
  }

  /** Inserting a movie keeps the invariant, and the new identity was unused. */
  lemma InsertMovieKeeps(db: Db, row: MovieRow)
    requires WellFormed(db)
    ensures db.nextMovieId !in db.movies
    ensures WellFormed(InsertMovie(db, row))
  {
  }

  /** Replacing a stored movie's reviews with rows that point at it keeps the invariant. */
  lemma ReplaceMovieKeeps(db: Db, id: Id, row: MovieRow, attached: seq<ReviewRow>)
    requires WellFormed(db) && id in db.movies
    requires forall k :: 0 <= k < |attached| ==> attached[k].movieId == id
    ensures WellFormed(ReplaceMovie(db, id, row, attached))
  {
    var after := ReplaceMovie(db, id, row, attached);
    var kept := WithoutReviewsOf(db.reviews, id);
    forall rid | rid in after.reviews ensures after.reviews[rid].movieId in after.movies {
      if rid !in kept {
        assert after.reviews[db.nextReviewId + (rid - db.nextReviewId)] == attached[rid - db.nextReviewId];
      }
    }
  }

  /** Replacing one movie's reviews leaves every other movie's list as it was. */
  lemma ReplaceMovieKeepsOtherLists(db: Db, id: Id, row: MovieRow, attached: seq<ReviewRow>, m: Id)
    requires WellFormed(db) && m != id
    requires forall k :: 0 <= k < |attached| ==> attached[k].movieId == id
    ensures ReviewsOf(ReplaceMovie(db, id, row, attached), m) == ReviewsOf(db, m)
  {
    var after := ReplaceMovie(db, id, row, attached);
    var s, t := OwnedSet(after.reviews, m), OwnedSet(db.reviews, m);
    forall x | db.nextReviewId <= x < after.nextReviewId ensures x !in s {
      var k := x - db.nextReviewId;
      assert after.reviews[db.nextReviewId + k] == attached[k];
    }
    SortedIdsNoneBetween(s, db.nextReviewId, after.nextReviewId);
    SortedIdsAgree(s, t, db.nextReviewId);
  }

  /** Removing one movie leaves every other movie's list as it was. */
  lemma RemoveMovieKeepsOtherLists(db: Db, id: Id, m: Id)
    requires m != id
    ensures ReviewsOf(RemoveMovie(db, id), m) == ReviewsOf(db, m)
  {
    SortedIdsAgree(OwnedSet(RemoveMovie(db, id).reviews, m), OwnedSet(db.reviews, m), db.nextReviewId);
  }

  /** Removing a movie together with its reviews keeps the invariant. */
  lemma RemoveMovieKeeps(db: Db, id: Id)
    requires WellFormed(db)
    ensures WellFormed(RemoveMovie(db, id))
  {
  }

  /** Inserting a review of a stored movie keeps the invariant, and the new identity was unused. */
  lemma InsertReviewKeeps(db: Db, row: ReviewRow)
    requires WellFormed(db) && row.movieId in db.movies
    ensures db.nextReviewId !in db.reviews
    ensures WellFormed(InsertReview(db, row))
  {
  }

  /** Overwriting a stored review with a row that points at a stored movie keeps the invariant. */
  lemma ReplaceReviewKeeps(db: Db, id: Id, row: ReviewRow)
    requires WellFormed(db) && id in db.reviews && row.movieId in db.movies
    ensures WellFormed(ReplaceReview(db, id, row))
  {
  }

  /** Removing a review keeps the invariant. */
  lemma RemoveReviewKeeps(db: Db, id: Id)
    requires WellFormed(db)
    ensures WellFormed(RemoveReview(db, id))
  {
  }

  /**
   * The store shared by the movie and review repositories. Its methods are the
   * JPA writes `save` and `deleteById`; reads are the pure functions above,
   * applied to `Snapshot()`.
   */
  class Store {
    var movies: map<Id, MovieRow>
    var reviews: map<Id, ReviewRow>
    var nextMovieId: Id
    var nextReviewId: Id
    /** Every repository write issued so far. */
    ghost var log: seq<RepoCall>

    function Snapshot(): Db
      reads this
    {
      Db(movies, reviews, nextMovieId, nextReviewId)
    }

    ghost predicate Valid()
      reads this
    {
      WellFormed(Snapshot())
    }

    constructor ()
      ensures Valid()
      ensures movies == map[] && reviews == map[] && log == []
      ensures nextMovieId == 1 && nextReviewId == 1
    {
      movies := map[];
      reviews := map[];
      nextMovieId := 1;
      nextReviewId := 1;
      log := [];
    }

    /** `movieRepository.save` of a movie without identity. */
    method SaveNewMovie(row: MovieRow) returns (id: Id)
      requires Valid()
      modifies this
      ensures Valid()
      ensures id == old(nextMovieId) && id !in old(movies)
      ensures Snapshot() == InsertMovie(old(Snapshot()), row)
      ensures log == old(log) + [MovieSaved(id)]
    {
      InsertMovieKeeps(Snapshot(), row);
      id := nextMovieId;
      movies := movies[id := row];
      nextMovieId := nextMovieId + 1;
      log := log + [MovieSaved(id)];
    }

    /** `movieRepository.save` of a stored movie whose review list holds only new reviews. */
    method SaveMovie(id: Id, row: MovieRow, attached: seq<ReviewRow>)
      requires Valid() && id in movies
      requires forall k :: 0 <= k < |attached| ==> attached[k].movieId == id
      modifies this
      ensures Valid()
      ensures Snapshot() == ReplaceMovie(old(Snapshot()), id, row, attached)
      ensures log == old(log) + [MovieSaved(id)]
    {
      ReplaceMovieKeeps(Snapshot(), id, row, attached);
      reviews := WithFresh(WithoutReviewsOf(reviews, id), nextReviewId, attached);
      movies := movies[id := row];
      nextReviewId := nextReviewId + |attached|;
      log := log + [MovieSaved(id)];
    }

    /** `movieRepository.deleteById`. */
    method DeleteMovieById(id: Id)
      requires Valid()
      modifies this
      ensures Valid()
      ensures Snapshot() == RemoveMovie(old(Snapshot()), id)
      ensures log == old(log) + [MovieDeleted(id)]
    {
      RemoveMovieKeeps(Snapshot(), id);
      movies := movies - {id};
      reviews := WithoutReviewsOf(reviews, id);
      log := log + [MovieDeleted(id)];
    }

    /** `reviewRepository.save` of a review without identity. */
    method SaveNewReview(row: ReviewRow) returns (id: Id)
      requires Valid() && row.movieId in movies
      modifies this
      ensures Valid()
      ensures id == old(nextReviewId) && id !in old(reviews)
      ensures Snapshot() == InsertReview(old(Snapshot()), row)
      ensures log == old(log) + [ReviewSaved(id)]
    {
      InsertReviewKeeps(Snapshot(), row);
      id := nextReviewId;
      reviews := reviews[id := row];
      nextReviewId := nextReviewId + 1;
      log := log + [ReviewSaved(id)];
    }

    /** `reviewRepository.save` of a stored review. */
    method SaveReview(id: Id, row: ReviewRow)
      requires Valid() && id in reviews && row.movieId in movies
      modifies this
      ensures Valid()
      ensures Snapshot() == ReplaceReview(old(Snapshot()), id, row)
      ensures log == old(log) + [ReviewSaved(id)]
    {
      ReplaceReviewKeeps(Snapshot(), id, row);
      reviews := reviews[id := row];
      log := log + [ReviewSaved(id)];
    }

    /** `reviewRepository.deleteById`. */
    method DeleteReviewById(id: Id)
      requires Valid()
      modifies this
      ensures Valid()
      ensures Snapshot() == RemoveReview(old(Snapshot()), id)
      ensures log == old(log) + [ReviewDeleted(id)]
    {
      RemoveReviewKeeps(Snapshot(), id);
      reviews := reviews - {id};
      log := log + [ReviewDeleted(id)];
    }
  }
}
