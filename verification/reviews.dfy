/** `ReviewsService`: one review per user and movie with a rating from 1 to
    5, and a delete that a plain USER may only apply to their own review.
    The movie table enters as its set of ids. */
module Reviews {
  import opened Outcomes
  import opened Ids
  import opened Schema

  /** A row of `reviews`. */
  datatype Review = Review(movieId: int, userId: int, rating: real, comment: string)

  /** Some review of `movieId` by `userId` exists (`findFirst`). */
  predicate Reviewed(reviews: map<int, Review>, movieId: int, userId: int) {
    exists k :: k in reviews && reviews[k].movieId == movieId && reviews[k].userId == userId
  }

  /** The rating range the create accepts. */
  predicate RatingValid(rating: real) {
    1.0 <= rating <= 5.0
  }

  /** At most one review per (user, movie), and every rating in range. */
  ghost predicate ReviewsValid(reviews: map<int, Review>) {
    && (forall a, b :: a in reviews && b in reviews && a != b ==>
          reviews[a].movieId != reviews[b].movieId || reviews[a].userId != reviews[b].userId)
    && (forall k :: k in reviews ==> RatingValid(reviews[k].rating))
  }

  /** `createReview`: NotFound for a missing movie, then for a missing user;
      BadRequest when the user has already reviewed the movie, then when
      the rating lies outside 1 to 5; otherwise one new review. */
  function CreateReview(reviews: map<int, Review>, movies: set<int>, users: map<int, User>,
                        movieId: int, userId: int, rating: real, comment: string)
    : (r: Result<(map<int, Review>, int)>)
    ensures r.Ok? <==>
      movieId in movies && userId in users && !Reviewed(reviews, movieId, userId) && RatingValid(rating)
    ensures r == Err(NotFound) <==> movieId !in movies || userId !in users
    ensures r == Err(BadRequest) <==>
      movieId in movies && userId in users && (Reviewed(reviews, movieId, userId) || !RatingValid(rating))
    ensures r.Ok? ==>
      && r.value.1 !in reviews
      && r.value.0 == reviews[r.value.1 := Review(movieId, userId, rating, comment)]
  {
    if movieId !in movies then Err(NotFound)
    else if userId !in users then Err(NotFound)
    else if Reviewed(reviews, movieId, userId) then Err(BadRequest)
    else if !RatingValid(rating) then Err(BadRequest)
    else
      var id := FreshId(reviews.Keys);
      Ok((reviews[id := Review(movieId, userId, rating, comment)], id))
  }

  /** A successful create keeps one review per pair and every rating in
      range; a second create for the same pair is refused. */
  lemma CreateReviewKeepsValid(reviews: map<int, Review>, movies: set<int>, users: map<int, User>,
                               movieId: int, userId: int, rating: real, comment: string,
                               rating2: real, comment2: string)
    requires ReviewsValid(reviews)
    requires CreateReview(reviews, movies, users, movieId, userId, rating, comment).Ok?
    ensures var (next, id) := CreateReview(reviews, movies, users, movieId, userId, rating, comment).value;
      && ReviewsValid(next)
      && CreateReview(next, movies, users, movieId, userId, rating2, comment2) == Err(BadRequest)
  {
    var (next, id) := CreateReview(reviews, movies, users, movieId, userId, rating, comment).value;
    assert next[id].movieId == movieId && next[id].userId == userId;
  }

  /** `deleteReview`: NotFound for a missing review, then for a missing
      caller; Forbidden when a USER-role caller deletes someone else's
      review; otherwise exactly that review is removed. */
  function DeleteReview(reviews: map<int, Review>, users: map<int, User>, id: int, userId: int)
    : (r: Result<map<int, Review>>)
    ensures r == Err(NotFound) <==> id !in reviews || userId !in users
    ensures r == Err(Forbidden) <==>
      id in reviews && userId in users && users[userId].role == USER && reviews[id].userId != userId
    ensures r.Ok? ==> id in reviews && r.value == reviews - {id}
  {
    if id !in reviews then Err(NotFound)
    else if userId !in users then Err(NotFound)
    else if users[userId].role == USER && reviews[id].userId != userId then Err(Forbidden)
    else Ok(reviews - {id})
  }

  /** Who may delete: the author always, an ADMIN or SUPERADMIN any
      review, a USER nobody else's. */
  lemma DeleteReviewPermission(reviews: map<int, Review>, users: map<int, User>, id: int, userId: int)
    requires id in reviews && userId in users
    ensures DeleteReview(reviews, users, id, userId).Ok? <==>
      reviews[id].userId == userId || users[userId].role != USER
  {
  }

  /** An author who reviews a movie and then deletes the review restores
      the table; a delete keeps it valid. */
  lemma CreateThenDeleteReview(reviews: map<int, Review>, movies: set<int>, users: map<int, User>,
                               movieId: int, userId: int, rating: real, comment: string)
    requires CreateReview(reviews, movies, users, movieId, userId, rating, comment).Ok?
    ensures var (next, id) := CreateReview(reviews, movies, users, movieId, userId, rating, comment).value;
      DeleteReview(next, users, id, userId) == Ok(reviews)
  {
    var (next, id) := CreateReview(reviews, movies, users, movieId, userId, rating, comment).value;
    assert next - {id} == reviews;
  }

  /** Deleting never breaks the table's constraints. */
  lemma DeleteReviewKeepsValid(reviews: map<int, Review>, users: map<int, User>, id: int, userId: int)
    requires ReviewsValid(reviews)
    ensures var r := DeleteReview(reviews, users, id, userId);
      r.Ok? ==> ReviewsValid(r.value)
  {
  }
}
