# Movie review service: a verified model of the service layer

This project models the service layer of a movie and review catalogue (a Spring Boot
application) and proves properties of it in Dafny. The model covers:

- the movie service and the review service;
- the movie mapper and the review mapper;
- the two queries of the movie repository.

The relational store behind the repositories is `EntityStore.Store`. It is a class with:

- a `movie` table and a `review` table, each a map from a generated identity to a row;
- two identity counters;
- a ghost log of the repository writes issued.

The store has an invariant, `EntityStore.WellFormed`. Identities lie below their
counters, and every review row names an existing movie (referential integrity). Each
write comes as two things:

- a pure transition on table snapshots (`InsertMovie`, `ReplaceMovie`, `RemoveMovie`,
  `InsertReview`, `ReplaceReview`, `RemoveReview`);
- a method that performs it in place.

A lemma for each transition shows that it keeps the invariant.
The JPA mapping of a movie's reviews (`cascade = ALL`, `orphanRemoval = true`) is written
out explicitly:

- saving a movie deletes the reviews it owned and inserts its new list under fresh
  identities, in list order;
- deleting a movie deletes its reviews.

The mapping declares no order for a movie's review collection. As a modelling choice,
the collection loads in ascending identity order. Identities are issued in increasing
order, so this is also insertion order.

The read side is pure functions:

- the mappers;
- both services' private response builders;
- the genre query;
- the ranking query, which joins movies to their reviews, keeps one row per movie, and
  orders the rows by descending average rating.

Averages are compared exactly, by cross-multiplying sums and counts.

The three Spring caches ("movies", "topRatedMovies", "reviews") are an explicit
`CacheLayer.Caches` object holding three maps. Both services keep the invariant
`CacheLayer.Consistent`: the store is well formed and every cached answer equals the
answer the store gives now. Hence a cache hit and a cache miss return the same value.

Every write that completes empties all three caches. A write that fails with "not
found" changes neither the store nor the caches. This follows Spring's default for
`@CacheEvict`, which evicts after the method returns normally. `getMovieById` is not
cached.

Errors are values: `MovieNotFound(id)` and `ReviewNotFound(id)` inside a `Result` or
`Outcome`.

Where the prose description of the system and the code differ, the model follows the
code:

- the code does not cache look-ups of a movie by id;
- eviction happens only after success;
- `updateReview` always takes a movie id and reattaches the review to that movie;
- the order among equally rated movies is left open by the query, and no contract
  fixes it.

Module layout (one file each):

- `Common` holds identities, `Option`, `Result` and the error values.
- `Dto` and `Model` hold the data.
- `MovieMapper` and `ReviewMapper` are the two mappers.
- `EntityStore` and `MovieRepository` are the store and its queries.
- `ServiceResponses` holds the response builders and the answers read operations give.
- `CacheLayer` holds the caches.
- `MovieService` and `ReviewService` are the two services.

Source paths below are relative to the repository root.

## Model

| member | source | states |
|---|---|---|
| MovieMapper.ToEntity | src/main/java/com/example/moviereviews/mapper/MovieMapper.java:16-23 | the entity has no id and no review list; mapping it back reproduces the request's title, year, genre and director with null id and null reviews |
| MovieMapper.ToResponseDto | src/main/java/com/example/moviereviews/mapper/MovieMapper.java:25-41 | id and the four scalar fields copied; a null review list stays null, otherwise same length and order with element i the mapping of review i |
| MovieMapper.ToReviewResponseDto | src/main/java/com/example/moviereviews/mapper/MovieMapper.java:43-51 | id, rating, comment and reviewer name copied and the owning movie's id; requires a non-null movie back-reference, as the source dereferences it |
| ReviewMapper.ToEntity | src/main/java/com/example/moviereviews/mapper/ReviewMapper.java:11-20 | null gives null; otherwise rating, comment and reviewer name copied with id and movie unset; mapping back gives those three fields with null id and null movie id |
| ReviewMapper.ToResponseDto | src/main/java/com/example/moviereviews/mapper/ReviewMapper.java:22-33 | null gives null; otherwise id, rating, comment and reviewer name copied, movie id taken from the attached movie or null when none |
| MovieRepository.FindByGenre | src/main/java/com/example/moviereviews/repository/MovieRepository.java:11 | only stored movies of exactly that genre, all of them when the store is well formed, by strictly ascending identity (so no duplicates) |
| MovieRepository.JoinedByGenre | src/main/java/com/example/moviereviews/repository/MovieRepository.java:13-17 | the join keeps exactly the movies of the genre that some review points at, once each |
| MovieRepository.JoinedHasReviews | src/main/java/com/example/moviereviews/repository/MovieRepository.java:15 | a movie the inner join keeps has a non-zero review count, so its average is defined |
| MovieRepository.InsertByAverage | src/main/java/com/example/moviereviews/repository/MovieRepository.java:18 | inserting into a list ordered by non-increasing average adds exactly that movie and keeps the order |
| MovieRepository.SortByAverage | src/main/java/com/example/moviereviews/repository/MovieRepository.java:18 | the result is a permutation of the input ordered by non-increasing average |
| MovieRepository.CrossMultiplyTransitive | src/main/java/com/example/moviereviews/repository/MovieRepository.java:18 | comparing averages by cross-multiplication is transitive when the middle count is positive |
| MovieRepository.NonIncreasingPairwise | src/main/java/com/example/moviereviews/repository/MovieRepository.java:18 | adjacent order by average extends to every pair when each movie has a review |
| MovieRepository.DistinctCounts | src/main/java/com/example/moviereviews/repository/MovieRepository.java:17 | a list has no repeated movie exactly when every multiplicity is at most one |
| MovieRepository.PermutationKeepsDistinct | src/main/java/com/example/moviereviews/repository/MovieRepository.java:17 | reordering a list without repeats gives a list without repeats |
| MovieRepository.SortedJoinFacts | src/main/java/com/example/moviereviews/repository/MovieRepository.java:15-18 | the sorted join has the same members as the join, each with a review, and every pair is ordered by average |
| MovieRepository.FindTopMoviesByGenreOrderByAverageRatingDesc | src/main/java/com/example/moviereviews/repository/MovieRepository.java:12-20 | exactly the movies of the genre with at least one review, each once, a subset of the genre query, every earlier movie's average at least every later one's |
| EntityStore.ReviewsOf | src/main/java/com/example/moviereviews/model/Movie.java:29-30 | a movie's loaded collection lists only reviews pointing at it, by ascending identity, and all of them in a well-formed store |
| EntityStore.WithoutReviewsOf | src/main/java/com/example/moviereviews/model/Movie.java:29 | the review table minus exactly the rows owned by the movie, the others unchanged |
| EntityStore.WithFresh | src/main/java/com/example/moviereviews/model/Movie.java:29 | the new rows inserted under consecutive fresh identities in list order, the existing rows unchanged |
| EntityStore.LoadReview | src/main/java/com/example/moviereviews/model/Review.java:14-27 | a loaded review carries its identity, its stored fields and a reference to its movie |
| EntityStore.LoadMovie | src/main/java/com/example/moviereviews/model/Movie.java:19-30 | a loaded movie carries its identity, its stored fields and its owned reviews in collection order, each linked back to it |
| EntityStore.ReviewsOfReplaced | src/main/java/com/example/moviereviews/model/Movie.java:29 | after its reviews are replaced, a movie's collection is exactly the fresh identities, in the order of the new list |
| EntityStore.ReviewsOfAfterInsert | src/main/java/com/example/moviereviews/service/ReviewService.java:37 | a saved new review goes to the end of its movie's collection and leaves every other movie's collection as it was |
| EntityStore.ReplaceMovieKeepsOtherLists | src/main/java/com/example/moviereviews/model/Movie.java:29 | replacing one movie's reviews does not change another movie's collection |
| EntityStore.RemoveMovieKeepsOtherLists | src/main/java/com/example/moviereviews/model/Movie.java:29 | deleting one movie does not change another movie's collection |
| EntityStore.InsertMovieKeeps | src/main/java/com/example/moviereviews/service/MovieService.java:36 | saving a new movie keeps the store invariant and uses an unused identity |
| EntityStore.ReplaceMovieKeeps | src/main/java/com/example/moviereviews/service/MovieService.java:93 | saving a movie with a new review list keeps referential integrity and the identity bounds |
| EntityStore.RemoveMovieKeeps | src/main/java/com/example/moviereviews/service/MovieService.java:102 | deleting a movie with its reviews keeps the invariant (no review left pointing at it) |
| EntityStore.InsertReviewKeeps | src/main/java/com/example/moviereviews/service/ReviewService.java:27-37 | saving a review of an existing movie keeps the invariant and uses an unused identity |
| EntityStore.ReplaceReviewKeeps | src/main/java/com/example/moviereviews/service/ReviewService.java:59-67 | overwriting a review and moving it to an existing movie keeps the invariant |
| EntityStore.RemoveReviewKeeps | src/main/java/com/example/moviereviews/service/ReviewService.java:76 | deleting a review keeps the invariant |
| EntityStore.InsertMovie | src/main/java/com/example/moviereviews/service/MovieService.java:36 | defines `save` of a movie without identity: its row is stored under the next movie identity, which then advances; the review table is untouched |
| EntityStore.ReplaceMovie | src/main/java/com/example/moviereviews/service/MovieService.java:93 | defines `save` of an existing movie with a list of new reviews: its row is overwritten, the reviews it owned are deleted (orphan removal) and the new ones inserted under fresh identities in list order (cascade) |
| EntityStore.RemoveMovie | src/main/java/com/example/moviereviews/service/MovieService.java:102 | defines `deleteById` of a movie: its row and, by cascade, every review it owns are removed |
| EntityStore.InsertReview | src/main/java/com/example/moviereviews/service/ReviewService.java:37 | defines `save` of a review without identity: its row is stored under the next review identity, which then advances |
| EntityStore.ReplaceReview | src/main/java/com/example/moviereviews/service/ReviewService.java:67 | defines `save` of an existing review: only its row is overwritten |
| EntityStore.RemoveReview | src/main/java/com/example/moviereviews/service/ReviewService.java:76 | defines `deleteById` of a review: only its row is removed |
| EntityStore.Store.constructor | src/main/java/com/example/moviereviews/model/Movie.java:16-17 | an empty store, with both identity counters at 1, that satisfies the invariant |
| EntityStore.Store.SaveNewMovie | src/main/java/com/example/moviereviews/service/MovieService.java:36 | the tables become `InsertMovie` of the old ones, the returned identity was unused, the invariant holds and one save is logged |
| EntityStore.Store.SaveMovie | src/main/java/com/example/moviereviews/service/MovieService.java:93 | the tables become `ReplaceMovie` of the old ones, the invariant holds and one save is logged |
| EntityStore.Store.DeleteMovieById | src/main/java/com/example/moviereviews/service/MovieService.java:102 | the tables become `RemoveMovie` of the old ones, the invariant holds and one delete is logged |
| EntityStore.Store.SaveNewReview | src/main/java/com/example/moviereviews/service/ReviewService.java:37 | the tables become `InsertReview` of the old ones, the returned identity was unused, the invariant holds and one save is logged |
| EntityStore.Store.SaveReview | src/main/java/com/example/moviereviews/service/ReviewService.java:67 | the tables become `ReplaceReview` of the old ones, the invariant holds and one save is logged |
| EntityStore.Store.DeleteReviewById | src/main/java/com/example/moviereviews/service/ReviewService.java:76 | the tables become `RemoveReview` of the old ones, the invariant holds and one delete is logged |
| CacheLayer.Caches.constructor | src/main/java/com/example/moviereviews/service/MovieService.java:130 | the three caches start empty |
| CacheLayer.Caches.EvictAll | src/main/java/com/example/moviereviews/service/MovieService.java:32 | all three caches emptied, which agrees with any tables |
| CacheLayer.Caches.PutMovies | src/main/java/com/example/moviereviews/service/MovieService.java:130 | the genre's entry in "movies" set, the other two caches unchanged |
| CacheLayer.Caches.PutTopRatedMovies | src/main/java/com/example/moviereviews/service/MovieService.java:138 | the genre's entry in "topRatedMovies" set, the other two caches unchanged |
| CacheLayer.Caches.PutReview | src/main/java/com/example/moviereviews/service/ReviewService.java:47 | the identity's entry in "reviews" set, the other two caches unchanged |
| ServiceResponses.MapToReviewResponseDto | src/main/java/com/example/moviereviews/service/MovieService.java:120-128 | the services' private review builder (also ReviewService.java:79-87) agrees with the review mapper on every review and with the movie mapper's nested builder on every linked review |
| ServiceResponses.MapToMovieResponseDto | src/main/java/com/example/moviereviews/service/MovieService.java:105-118 | scalar fields copied, null review list iff null, otherwise element-wise the private review builder |
| ServiceResponses.PrivateBuilderAgreesWithMapper | src/main/java/com/example/moviereviews/service/MovieService.java:105-118 | on a movie whose reviews are all linked, the private builder and the movie mapper give the same response |
| ServiceResponses.MapperAnswersStoredMovie | src/main/java/com/example/moviereviews/service/MovieService.java:134 | the movie mapper gives a stored movie the same answer as a lookup by id |
| ServiceResponses.ReviewView | src/main/java/com/example/moviereviews/service/ReviewService.java:49-51 | the answer for a stored review is its identity, stored rating, comment, reviewer name and its movie's identity |
| ServiceResponses.MovieView | src/main/java/com/example/moviereviews/service/MovieService.java:58-62 | defines the answer for a stored movie: the private builder applied to the loaded movie (its facts are in `MovieViewShape`) |
| ServiceResponses.MoviesView | src/main/java/com/example/moviereviews/service/MovieService.java:133-135 | defines a list answer: the movie mapper applied to each listed movie, loaded, in list order (its facts are in `MoviesViewAgrees`) |
| ServiceResponses.GenreView | src/main/java/com/example/moviereviews/service/MovieService.java:130-136 | defines the genre answer: the list answer of the genre query (its facts are in `GenreViewFacts`) |
| ServiceResponses.TopRatedView | src/main/java/com/example/moviereviews/service/MovieService.java:138-144 | defines the ranked answer: the list answer of the ranking query (its facts are in the three `TopRatedView` lemmas) |
| ServiceResponses.MovieViewShape | src/main/java/com/example/moviereviews/service/MovieService.java:58-62 | the answer for a stored movie has its identity and stored fields and the answers of its reviews in collection order, each naming the movie |
| ServiceResponses.MoviesViewAgrees | src/main/java/com/example/moviereviews/service/MovieService.java:132-135 | element i of a list answer is the lookup answer of movie i, with that identity and genre |
| ServiceResponses.GenreViewFacts | src/main/java/com/example/moviereviews/service/MovieService.java:130-136 | the genre answer holds only movies of the genre, by ascending identity, and the lookup answer of every movie of the genre |
| ServiceResponses.TopRatedViewSound | src/main/java/com/example/moviereviews/service/MovieService.java:138-144 | the ranked answer holds only stored movies of the genre that have a review, each once |
| ServiceResponses.TopRatedViewRanked | src/main/java/com/example/moviereviews/service/MovieService.java:138-144 | in the ranked answer every earlier movie's average rating is at least every later one's |
| ServiceResponses.TopRatedViewComplete | src/main/java/com/example/moviereviews/service/MovieService.java:138-144 | the ranked answer holds the lookup answer of every stored movie of the genre that has a review |
| MovieService.RequestedRows | src/main/java/com/example/moviereviews/service/MovieService.java:81-91 | one row per request review, in order, with its rating, comment and reviewer name and the movie's identity |
| MovieService.MapReviews | src/main/java/com/example/moviereviews/service/MovieService.java:38-44 | the loop maps each request review and links it to the saved movie, giving exactly the requested rows in order |
| MovieService.BuildReviews | src/main/java/com/example/moviereviews/service/MovieService.java:81-91 | the builder loop gives exactly the requested rows in order, each pointing at the movie |
| MovieService.MovieService.constructor | src/main/java/com/example/moviereviews/service/MovieService.java:24-30 | the service uses the given store and caches |
| MovieService.MovieService.CreateMovieWithReviews | src/main/java/com/example/moviereviews/service/MovieService.java:32-50 | a fresh identity and the request's fields; a null or empty list saves once and answers a null review list; otherwise it saves twice and answers with the stored movie and its new reviews; the caches end empty and consistent |
| MovieService.MovieService.AttachReviews | src/main/java/com/example/moviereviews/service/MovieService.java:37-49 | the second save replaces the movie's reviews with the requested rows and the answer is the stored movie's lookup answer |
| MovieService.MovieService.GetMovieById | src/main/java/com/example/moviereviews/service/MovieService.java:58-62 | succeeds exactly for a stored movie, with its lookup answer; otherwise movie not found; changes nothing |
| MovieService.MovieService.UpdateMovie | src/main/java/com/example/moviereviews/service/MovieService.java:64-95 | not found, changing nothing, iff the movie is absent; otherwise the fields are overwritten, the reviews replaced by the request's list (none for a null list), one save, caches empty, answer is the lookup answer |
| MovieService.MovieService.DeleteMovie | src/main/java/com/example/moviereviews/service/MovieService.java:97-103 | not found, changing nothing, iff absent; otherwise the movie and its reviews removed, one delete, caches empty |
| MovieService.MovieService.FindMoviesByGenre | src/main/java/com/example/moviereviews/service/MovieService.java:130-136 | answers the current genre list whether cached or not, then caches it under the genre, other caches unchanged |
| MovieService.MovieService.FindTopRatedMoviesByGenre | src/main/java/com/example/moviereviews/service/MovieService.java:138-144 | answers the current ranking whether cached or not, then caches it under the genre, other caches unchanged |
| MovieService.UpdateKeepsOtherMovies | src/main/java/com/example/moviereviews/service/MovieService.java:75-93 | an update keeps the invariant, touches only its own movie's row, removes every review the movie had and keeps every other review and every other movie's collection |
| MovieService.DeleteCascades | src/main/java/com/example/moviereviews/service/MovieService.java:97-103 | a delete keeps the invariant, removes the movie and all its reviews, and keeps every other movie's row and collection |
| MovieService.ReplacedReviewsAnswer | src/main/java/com/example/moviereviews/service/MovieService.java:75-94 | after an update, the movie's answer has the request's fields and exactly the request's reviews in order, review k under the fresh identity `nextReviewId + k`, each naming the movie |
| MovieService.ReplacedReviewAt | src/main/java/com/example/moviereviews/service/MovieService.java:81-94 | review k of the answer after an update is request review k under identity `nextReviewId + k` |
| MovieService.PlainCreateThenLookup | src/main/java/com/example/moviereviews/service/MovieService.java:33-49 | a movie created without reviews is answered at creation with a null review list, but a lookup before any further write answers it with an empty one |
| ReviewService.ReviewService.constructor | src/main/java/com/example/moviereviews/service/ReviewService.java:19-23 | the service uses the given store and caches |
| ReviewService.ReviewService.CreateReview | src/main/java/com/example/moviereviews/service/ReviewService.java:25-39 | movie not found, changing nothing, iff the movie is absent; otherwise one new review under an unused identity with the request's fields and movie, answer carrying them, caches empty |
| ReviewService.ReviewService.GetReviewById | src/main/java/com/example/moviereviews/service/ReviewService.java:47-52 | succeeds exactly for a stored review, with its stored fields whether cached or not, then caches it; otherwise review not found, caching nothing; the store is not changed |
| ReviewService.ReviewService.UpdateReview | src/main/java/com/example/moviereviews/service/ReviewService.java:54-69 | review not found is checked before movie not found and either changes nothing; otherwise the review keeps its identity, takes the request's fields and movie, caches empty |
| ReviewService.ReviewService.DeleteReview | src/main/java/com/example/moviereviews/service/ReviewService.java:71-77 | review not found, no delete issued and nothing changed, iff absent; otherwise only that review removed, caches empty |
| ReviewService.CreatedReviewAppended | src/main/java/com/example/moviereviews/service/ReviewService.java:30-37 | a created review keeps the invariant, is appended to its movie's collection, and no other movie's collection changes |
| ReviewService.CreatedReviewShowsInMovie | src/main/java/com/example/moviereviews/service/ReviewService.java:30-38 | after a created review, the movie's answer is its previous answer with the new review's answer appended |
| ReviewService.UpdatedReviewMoves | src/main/java/com/example/moviereviews/service/ReviewService.java:62-67 | an updated review keeps the invariant, belongs to the requested movie and no other, and every other review stays with its movie |
| ReviewService.DeletedReviewGone | src/main/java/com/example/moviereviews/service/ReviewService.java:71-77 | a deleted review keeps the invariant, is on no movie's list, and every other review stays with its movie |

## Left out

- `getAllMovies` and `getAllReviews` (paginated listing with `Page`/`Pageable`): page
  metadata and the cache keyed by a `Pageable` are framework types. The "movies" and
  "reviews" caches are still evicted by every write.
- Controllers, request validation, and security configuration are outside the service
  layer. The validated ranges of rating and release year are not needed by any
  contract.
- Exception types and message texts: only the error kind and the missing identity are
  modelled.
- `AVG` in floating point: averages are compared exactly as fractions, by
  cross-multiplication.
- Store failures, transactions and concurrent requests: the store is a sequential
  in-memory map.
- JPA session behaviour (dirty checking, merge copies, proxies) is not modelled. A
  `save` is modelled as its effect on the tables. The answers of `updateMovie`, of the
  two-save branch of `createMovieWithReviews` and of the review writes are built from
  the reloaded tables, where new reviews already carry their generated identities. The
  single-save branch of `createMovieWithReviews` instead answers the mapped saved
  entity, with a null review list.
- `EntityStore.ReviewsOf`: the mapping declares no order for a movie's review
  collection; loading it by ascending identity is a modelling choice. The results of
  `ServiceResponses.MovieViewShape`, `ReviewService.CreatedReviewAppended` and
  `ReviewService.CreatedReviewShowsInMovie` about positions in that collection rest on it.
- `MovieRepository.FindByGenre`: the derived query declares no order; returning the
  movies by ascending identity is a modelling choice. `ServiceResponses.GenreViewFacts`
  states that order on the same basis.
- `EntityStore.WithFresh`: the source only promises fresh, increasing identities for
  cascaded reviews; issuing them consecutively (`nextReviewId + k`) is a modelling
  choice. `EntityStore.ReviewsOfReplaced`, `MovieService.ReplacedReviewsAnswer` and
  `MovieService.ReplacedReviewAt` name those consecutive identities on the same basis.
- Negative identities: `Common.Id` is the natural numbers, for generated identities
  and for those callers pass in alike. A negative `Long` from a caller, which the
  source answers with "not found", cannot be expressed in the model.
- `EntityStore.Store.SaveMovie`: models saving a movie whose review list holds only new
  reviews. The services never save any other kind of list.
- Null strings, null list elements and a null review request inside a list are not
  modelled. Strings are plain values and list elements are always present.
- `MovieRepository.FindTopMoviesByGenreOrderByAverageRatingDesc`: the order among
  equally rated movies is not stated, as the query leaves it open.
- The Spring cache provider and its key generation are out of scope. Each cache is a
  map keyed by the method's argument.
