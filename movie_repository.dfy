/**
 * The two queries of the movie repository, as pure functions of the tables:
 * the derived query `findByGenre`, and the ranking query, which joins each movie
 * to its reviews, keeps the movies of the genre, gives one row per movie and
 * orders the rows by descending average rating.
 */
module MovieRepository {
  import opened Common
  import opened EntityStore

  /** Movies of exactly genre `genre` (string equality), by ascending identity. */
  function FindByGenre(db: Db, genre: string): (r: seq<Id>)
    ensures forall m :: m in r ==> m in db.movies && db.movies[m].genre == genre
    ensures WellFormed(db) ==> forall m :: m in db.movies && db.movies[m].genre == genre ==> m in r
    ensures forall i, j :: 0 <= i < j < |r| ==> r[i] < r[j]
  {
    SortedIds((set m | m in db.movies && db.movies[m].genre == genre), db.nextMovieId)
  }

  /** The ranking query's inner join keeps a movie only if some review row points at it. */
  predicate HasReview(db: Db, m: Id) {
    exists rid :: rid in db.reviews && db.reviews[rid].movieId == m
  }

  function RatingSum(db: Db, ids: seq<Id>): int
    requires forall rid :: rid in ids ==> rid in db.reviews
  {
    if ids == [] then 0 else db.reviews[ids[0]].rating + RatingSum(db, ids[1..])
  }

  /** SUM(r.rating) of a movie's reviews. */
  function TotalRating(db: Db, m: Id): int {
    RatingSum(db, ReviewsOf(db, m))
  }

  /** COUNT(r) of a movie's reviews. */
  function ReviewCount(db: Db, m: Id): nat {
    |ReviewsOf(db, m)|
  }

  /** A joined movie has at least one review to average over. */
  lemma JoinedHasReviews(db: Db, m: Id)
    requires WellFormed(db) && HasReview(db, m)
    ensures ReviewCount(db, m) > 0
  {
    var rid :| rid in db.reviews && db.reviews[rid].movieId == m;
    assert rid in ReviewsOf(db, m);
  }

  /**
   * AVG(rating) of `a` is at least that of `b`. The averages are the fractions
   * TotalRating / ReviewCount, compared exactly by cross-multiplying.
   */
  predicate AverageAtLeast(db: Db, a: Id, b: Id) {
    TotalRating(db, a) * ReviewCount(db, b) >= TotalRating(db, b) * ReviewCount(db, a)
  }

  /** Each movie's average is at least the next one's. */
  predicate NonIncreasing(db: Db, s: seq<Id>) {
    forall i :: 0 < i < |s| ==> AverageAtLeast(db, s[i - 1], s[i])
  }

  /** No movie occurs twice (one row per movie). */
  predicate Distinct(s: seq<Id>) {
    forall i, j :: 0 <= i < j < |s| ==> s[i] != s[j]
  }

  /** A sequence is duplicate-free exactly when no element occurs in it twice. */
  lemma {:induction false} DistinctCounts(s: seq<Id>)
    ensures Distinct(s) <==> forall x :: multiset(s)[x] <= 1
  {
    if s != [] {
      var h, t := s[0], s[1..];
      assert s == [h] + t;
      DistinctCounts(t);
      assert Distinct(s) <==> Distinct(t) && h !in t by {
        if Distinct(s) {
          forall i, j | 0 <= i < j < |t| ensures t[i] != t[j] {
            assert t[i] == s[i + 1] && t[j] == s[j + 1];
          }
          forall k | 0 <= k < |t| ensures t[k] != h {
            assert t[k] == s[k + 1];
          }
        }
        if Distinct(t) && h !in t {
          forall i, j | 0 <= i < j < |s| ensures s[i] != s[j] {
            if i == 0 {
              assert s[j] == t[j - 1];
            } else {
              assert s[i] == t[i - 1] && s[j] == t[j - 1];
            }
          }
        }
      }
      assert h !in t <==> multiset(t)[h] == 0;
      assert forall x :: multiset(s)[x] == multiset(t)[x] + (if x == h then 1 else 0);
    }
  }

  /** Rearranging a duplicate-free sequence leaves it duplicate-free. */
  lemma PermutationKeepsDistinct(a: seq<Id>, b: seq<Id>)
    requires multiset(a) == multiset(b) && Distinct(b)
    ensures Distinct(a)
  {
    DistinctCounts(a);
    DistinctCounts(b);
  }

  /** Inserts `x` before the first movie whose average is not above its own. */
  function InsertByAverage(db: Db, x: Id, s: seq<Id>): (r: seq<Id>)
    ensures multiset(r) == multiset(s) + multiset{x}
    ensures |r| > 0 && (r[0] == x || (s != [] && r[0] == s[0]))
    ensures NonIncreasing(db, s) ==> NonIncreasing(db, r)
  {
    if s == [] || AverageAtLeast(db, x, s[0]) then [x] + s
    else
      assert s == [s[0]] + s[1..];
      [s[0]] + InsertByAverage(db, x, s[1..])
  }

  /** Insertion sort by descending average. */
  function SortByAverage(db: Db, s: seq<Id>): (r: seq<Id>)
    ensures multiset(r) == multiset(s)
    ensures NonIncreasing(db, r)
  {
    if s == [] then []
    else
      assert s == [s[0]] + s[1..];
      InsertByAverage(db, s[0], SortByAverage(db, s[1..]))
  }

  /** Comparing fractions with positive denominators by cross-multiplying is transitive. */
  lemma CrossMultiplyTransitive(sa: int, ca: int, sb: int, cb: int, sc: int, cc: int)
    requires ca >= 0 && cb > 0 && cc >= 0
    requires sa * cb >= sb * ca
    requires sb * cc >= sc * cb
    ensures sa * cc >= sc * ca
  {
    assert (sa * cb - sb * ca) * cc >= 0;
    assert (sb * cc - sc * cb) * ca >= 0;
    assert cb * (sa * cc - sc * ca) == (sa * cb - sb * ca) * cc + (sb * cc - sc * cb) * ca;
  }

  /** Adjacent order extends to every pair once every movie has a review. */
  lemma {:induction false} NonIncreasingPairwise(db: Db, s: seq<Id>)
    requires NonIncreasing(db, s)
    requires forall m :: m in s ==> ReviewCount(db, m) > 0
    ensures forall i, j :: 0 <= i < j < |s| ==> AverageAtLeast(db, s[i], s[j])
  {
    if |s| > 1 {
      var t := s[1..];
      assert NonIncreasing(db, t) by {
        forall i | 0 < i < |t| ensures AverageAtLeast(db, t[i - 1], t[i]) {
          assert t[i - 1] == s[i] && t[i] == s[i + 1];
        }
      }
      NonIncreasingPairwise(db, t);
      forall i, j | 0 <= i < j < |s| ensures AverageAtLeast(db, s[i], s[j]) {
        if i > 0 {
          assert s[i] == t[i - 1] && s[j] == t[j - 1];
        } else if j > 1 {
          assert AverageAtLeast(db, s[0], s[1]);
          assert AverageAtLeast(db, s[1], s[j]) by {
            assert s[1] == t[0] && s[j] == t[j - 1];
          }
          assert s[1] in s;
          CrossMultiplyTransitive(TotalRating(db, s[0]), ReviewCount(db, s[0]),
                                  TotalRating(db, s[1]), ReviewCount(db, s[1]),
                                  TotalRating(db, s[j]), ReviewCount(db, s[j]));
        }
      }
    }
  }

  /** Movies of genre `genre` that the inner join keeps, by ascending identity. */
  function JoinedByGenre(db: Db, genre: string): (r: seq<Id>)
    ensures forall m :: m in r <==>
      m in db.movies && db.movies[m].genre == genre && HasReview(db, m) && m < db.nextMovieId
    ensures Distinct(r)
  {
    SortedIds((set m | m in db.movies && db.movies[m].genre == genre && HasReview(db, m)), db.nextMovieId)
  }

  /**
   * The top-rated query: exactly the movies of genre `genre` that have at least
   * one review, each once, by non-increasing average rating (ties by ascending
   * identity, an order the query itself leaves open).
   */
  function FindTopMoviesByGenreOrderByAverageRatingDesc(db: Db, genre: string): (r: seq<Id>)
    ensures forall m :: m in r ==> m in db.movies && db.movies[m].genre == genre && HasReview(db, m)
    ensures WellFormed(db) ==>
      forall m :: m in db.movies && db.movies[m].genre == genre && HasReview(db, m) ==> m in r
    ensures Distinct(r)
    ensures WellFormed(db) ==> forall m :: m in r ==> ReviewCount(db, m) > 0 && m in FindByGenre(db, genre)
    ensures WellFormed(db) ==> forall i, j :: 0 <= i < j < |r| ==> AverageAtLeast(db, r[i], r[j])
  {
    var joined := JoinedByGenre(db, genre);
    var r := SortByAverage(db, joined);
    SortedJoinFacts(db, joined, r);
    PermutationKeepsDistinct(r, joined);
    r
  }

  /** What sorting the joined movies preserves and adds. */
  lemma SortedJoinFacts(db: Db, joined: seq<Id>, r: seq<Id>)
    requires forall m :: m in joined ==> HasReview(db, m)
    requires multiset(r) == multiset(joined) && NonIncreasing(db, r)
    ensures forall m :: m in r <==> m in joined
    ensures WellFormed(db) ==> forall m :: m in r ==> ReviewCount(db, m) > 0
    ensures WellFormed(db) ==> forall i, j :: 0 <= i < j < |r| ==> AverageAtLeast(db, r[i], r[j])
  {
    forall m ensures m in r <==> m in joined {
      assert m in r <==> m in multiset(r);
      assert m in joined <==> m in multiset(joined);
    }
    if WellFormed(db) {
      forall m | m in r ensures ReviewCount(db, m) > 0 {
        JoinedHasReviews(db, m);
      }
      NonIncreasingPairwise(db, r);
    }
  }
}
