/** The `/api/ratings` routes: submitting a rating (creating a placeholder
    book for an unseen `google_book_id`), listing a book's ratings newest
    first, and their count and mean. The two GET routes compare the raw path
    parameter with the local `book_id` column. */
module Ratings {
  import opened Optional
  import opened Store
  import opened StoreFacts
  import opened Http
  import opened Decimal
  import opened Ordering
  import Books

  // ---------------------------------------------------------------- POST /

  /** The body of POST /ratings; the rater's id comes from the body, not from a token. */
  datatype RatingRequest = RatingRequest(userId: Option<Id>, googleBookId: Option<string>, rating: Option<int>)

  /** `!user_id || !google_book_id || !rating || rating < 1 || rating > 5`. */
  predicate Rejected(req: RatingRequest)
  {
    || req.userId.None? || req.userId.value == 0
    || Falsy(req.googleBookId)
    || req.rating.None? || req.rating.value == 0
    || req.rating.value < 1 || req.rating.value > 5
  }

  /** The row `INSERT INTO books (google_book_id, title)` creates. */
  function PlaceholderRow(id: Id): Book
  {
    Book(id, Books.UnknownTitle, None, None, None, None, false)
  }

  /** `INSERT INTO books ... ON CONFLICT (google_book_id) DO NOTHING`: a
      placeholder row for an unseen id; an existing row is left untouched. */
  function EnsureBook(s: Store, gid: string): (t: Store)
    ensures gid in t.books
    ensures gid in s.books ==> t == s
    ensures gid !in s.books ==>
      && t == s.(books := t.books, nextBook := t.nextBook)
      && t.books == s.books[gid := t.books[gid]]
      && t.books[gid].title == Books.UnknownTitle
      && !t.books[gid].featured
      && t.books[gid].authors.None? && t.books[gid].description.None?
      && t.books[gid].imageUrl.None? && t.books[gid].isbn.None?
      && (Valid(s) ==> t.books[gid].id !in BookIds(s))
    ensures BookIds(s) <= BookIds(t)
    ensures Valid(s) ==> Valid(t)
  {
    if gid in s.books then s
    else
      InsertBookValid(s, gid, PlaceholderRow(s.nextBook));
      s.(books := s.books[gid := PlaceholderRow(s.nextBook)], nextBook := s.nextBook + 1)
  }

  /** The key `(user_id, book_id)` a valid request rates. */
  function RatedKey(s: Store, req: RatingRequest): (Id, Id)
    requires !Rejected(req)
  {
    (req.userId.value, EnsureBook(s, req.googleBookId.value).books[req.googleBookId.value].id)
  }

  /** POST /ratings: 400 "Invalid input" for a rejected body; otherwise the
      book is ensured and the rating is upserted on `(user_id, book_id)`:
      a first rating gets the current time, a repeated one only replaces the
      value. Answers 201 with the row. */
  function SubmitRating(s: Store, req: RatingRequest): (r: Reply)
    ensures r.response.status == 400 <==> Rejected(req)
    ensures Rejected(req) ==> r == Reply(s, Fail(400, "Invalid input"))
    ensures !Rejected(req) ==>
      && r.response.status == 201
      && r.next == EnsureBook(s, req.googleBookId.value).(ratings := r.next.ratings, now := s.now + 1)
    ensures !Rejected(req) ==> RatedKey(s, req).1 == r.next.books[req.googleBookId.value].id
    ensures !Rejected(req) ==> r.next.ratings.Keys == s.ratings.Keys + {RatedKey(s, req)}
    ensures !Rejected(req) ==> r.next.ratings[RatedKey(s, req)].value == req.rating.value
    ensures !Rejected(req) && RatedKey(s, req) in s.ratings ==>
      r.next.ratings[RatedKey(s, req)].createdAt == s.ratings[RatedKey(s, req)].createdAt
    ensures !Rejected(req) && RatedKey(s, req) !in s.ratings ==>
      r.next.ratings[RatedKey(s, req)].createdAt == s.now
    ensures !Rejected(req) ==>
      forall k | k in s.ratings && k != RatedKey(s, req) :: r.next.ratings[k] == s.ratings[k]
    ensures !Rejected(req) ==>
      var key := RatedKey(s, req);
      r.response.body == SavedRating(RatingRecord(key.0, key.1, req.rating.value, r.next.ratings[key].createdAt))
  {
    if Rejected(req) then Reply(s, Fail(400, "Invalid input"))
    else
      var t := EnsureBook(s, req.googleBookId.value);
      var key := RatedKey(s, req);
      var row := if key in t.ratings then t.ratings[key].(value := req.rating.value)
                 else Rating(req.rating.value, t.now);
      var u := t.(ratings := t.ratings[key := row], now := t.now + 1);
      Reply(u, Response(201, SavedRating(RatingRecord(key.0, key.1, row.value, row.createdAt))))
  }

  /** Submitting a rating keeps the database valid. */
  lemma SubmitRatingValid(s: Store, req: RatingRequest)
    requires Valid(s)
    ensures Valid(SubmitRating(s, req).next)
  {
    if !Rejected(req) {
      var t := EnsureBook(s, req.googleBookId.value);
      var key := RatedKey(s, req);
      var row := SubmitRating(s, req).next.ratings[key];
      assert SubmitRating(s, req).next == t.(ratings := t.ratings[key := row], now := t.now + 1);
      RatingUpsertValid(t, key, row);
    }
  }

  /** A second rating by the same user of the same book replaces the first:
      no key is added, the value is the second one and the row keeps its
      creation time. */
  lemma {:induction false} SecondRatingReplaces(s: Store, a: RatingRequest, b: RatingRequest)
    requires !Rejected(a) && !Rejected(b)
    requires b.userId == a.userId && b.googleBookId == a.googleBookId
    ensures var t1 := SubmitRating(s, a).next;
            var t2 := SubmitRating(t1, b).next;
            var key := RatedKey(s, a);
            && RatedKey(t1, b) == key
            && t2.ratings.Keys == t1.ratings.Keys
            && t2.ratings[key].value == b.rating.value
            && t2.ratings[key].createdAt == t1.ratings[key].createdAt
            && (forall id: int :: RatingsOf(t2, id) == RatingsOf(t1, id))
  {
    var t1 := SubmitRating(s, a).next;
    var key := RatedKey(s, a);
    assert key in t1.ratings;
    assert a.googleBookId.value in t1.books;
    assert EnsureBook(t1, b.googleBookId.value) == t1;
  }

  // ------------------------------------------------------- GET /:book_id

  /** Ratings of the local book `id` whose rater has a `users` row (the
      listing's inner join), with their creation times. */
  function ListingStamps(s: Store, id: int): map<(Id, Id), nat>
  {
    map k | k in s.ratings && k.1 == id && k.0 in s.users :: s.ratings[k].createdAt
  }

  /** GET /ratings/:book_id: 500 when the parameter is not an integer;
      otherwise rating, reviewer and creation time of each rating of local
      book `book_id` whose rater is a stored user, newest first. `order`
      gives the `(user_id, book_id)` key of each listed row. */
  method ListRatings(s: Store, param: string) returns (order: seq<(Id, Id)>, r: Response)
    ensures ParseInt4(param).None? ==> r == Fail(500, "Failed to fetch ratings") && order == []
    ensures ParseInt4(param).Some? ==>
      var stamps := ListingStamps(s, ParseInt4(param).value);
      && NewestFirst(order, stamps)
      && multiset(order) == multiset(stamps.Keys)
      && r.status == 200 && r.body.RatingList? && |r.body.ratings| == |order|
      && forall i | 0 <= i < |order| ::
           && order[i] in s.ratings && order[i].0 in s.users
           && r.body.ratings[i] == RatingListed(s.ratings[order[i]].value, s.users[order[i].0].username,
                                                s.ratings[order[i]].createdAt)
  {
    var id := ParseInt4(param);
    if id.None? {
      return [], Fail(500, "Failed to fetch ratings");
    }
    var stamps := ListingStamps(s, id.value);
    order := SortNewestFirst(stamps);
    var rows := seq(|order|, i requires 0 <= i < |order| && order[i] in stamps =>
      RatingListed(s.ratings[order[i]].value, s.users[order[i].0].username, s.ratings[order[i]].createdAt));
    r := Response(200, RatingList(rows));
  }

  // ----------------------------------------------- GET /:book_id/average

  /** Keys of the ratings of local book `id` (the aggregate has no join). */
  function RatingsOf(s: Store, id: int): set<(Id, Id)>
  {
    set k | k in s.ratings && k.1 == id
  }

  /** Sum of the values of the ratings under `keys`. */
  ghost function SumOf(ratings: map<(Id, Id), Rating>, keys: set<(Id, Id)>): int
    requires keys <= ratings.Keys
    decreases keys
  {
    if keys == {} then 0
    else
      var k :| k in keys;
      ratings[k].value + SumOf(ratings, keys - {k})
  }

  /** The sum does not depend on which key is taken out first. */
  lemma {:induction false} SumOfRemove(ratings: map<(Id, Id), Rating>, keys: set<(Id, Id)>, k: (Id, Id))
    requires keys <= ratings.Keys && k in keys
    decreases keys
    ensures SumOf(ratings, keys) == ratings[k].value + SumOf(ratings, keys - {k})
  {
    var j :| j in keys && SumOf(ratings, keys) == ratings[j].value + SumOf(ratings, keys - {j});
    if j != k {
      SumOfRemove(ratings, keys - {j}, k);
      SumOfRemove(ratings, keys - {k}, j);
      assert keys - {j} - {k} == keys - {k} - {j};
    }
  }

  /** `AVG(rating)`, exactly, or 0 when there are no ratings. */
  ghost function Mean(s: Store, id: int): real
  {
    var keys := RatingsOf(s, id);
    if |keys| == 0 then 0.0 else SumOf(s.ratings, keys) as real / |keys| as real
  }

  /** GET /ratings/:book_id/average: 500 when the parameter is not an
      integer; otherwise the mean and the number of ratings of local book
      `book_id`, both 0 when it has none. */
  method Average(s: Store, param: string) returns (r: Response)
    ensures ParseInt4(param).None? ==> r == Fail(500, "Failed to fetch average rating")
    ensures ParseInt4(param).Some? ==>
      var id := ParseInt4(param).value;
      r == Response(200, AverageRating(Mean(s, id), |RatingsOf(s, id)|))
  {
    var id := ParseInt4(param);
    if id.None? {
      return Fail(500, "Failed to fetch average rating");
    }
    var keys := RatingsOf(s, id.value);
    var rest := keys;
    var done: set<(Id, Id)> := {};
    var sum := 0;
    var count := 0;
    while rest != {}
      invariant done + rest == keys && done !! rest
      invariant sum == SumOf(s.ratings, done)
      invariant count == |done|
      decreases |rest|
    {
      var k :| k in rest;
      SumOfRemove(s.ratings, done + {k}, k);
      assert done + {k} - {k} == done;
      sum := sum + s.ratings[k].value;
      count := count + 1;
      done := done + {k};
      rest := rest - {k};
    }
    var average := if count == 0 then 0.0 else sum as real / count as real;
    r := Response(200, AverageRating(average, count));
  }

  /** Ratings between 1 and 5 sum to between 1 and 5 times their number. */
  lemma {:induction false} SumOfBounds(ratings: map<(Id, Id), Rating>, keys: set<(Id, Id)>)
    requires keys <= ratings.Keys
    requires forall k | k in keys :: 1 <= ratings[k].value <= 5
    decreases keys
    ensures |keys| <= SumOf(ratings, keys) <= 5 * |keys|
  {
    if keys != {} {
      var k :| k in keys;
      SumOfRemove(ratings, keys, k);
      SumOfBounds(ratings, keys - {k});
    }
  }

  /** A quotient inherits bounds from its numerator. */
  lemma DivBounds(a: real, b: real, lo: real, hi: real)
    requires b > 0.0 && lo * b <= a <= hi * b
    ensures lo <= a / b <= hi
  {
    assert (a / b) * b == a;
  }

  /** In a valid database a rated book's mean lies in [1, 5]. */
  lemma MeanBounds(s: Store, id: int)
    requires Valid(s) && |RatingsOf(s, id)| > 0
    ensures 1.0 <= Mean(s, id) <= 5.0
  {
    var keys := RatingsOf(s, id);
    SumOfBounds(s.ratings, keys);
    var n := |keys| as real;
    var sum := SumOf(s.ratings, keys) as real;
    assert 1.0 * n <= sum <= 5.0 * n;
    DivBounds(sum, n, 1.0, 5.0);
  }

  /** Two raters giving 3 and 5: count 2, mean 4. */
  lemma MeanOfThreeAndFive(s: Store, id: Id, u1: Id, u2: Id)
    requires u1 != u2 && RatingsOf(s, id) == {(u1, id), (u2, id)}
    requires s.ratings[(u1, id)].value == 3 && s.ratings[(u2, id)].value == 5
    ensures |RatingsOf(s, id)| == 2 && Mean(s, id) == 4.0
  {
    var keys := RatingsOf(s, id);
    assert (u1, id) in keys && (u2, id) in keys;
    SumOfRemove(s.ratings, keys, (u1, id));
    assert keys - {(u1, id)} == {(u2, id)};
    SumOfRemove(s.ratings, {(u2, id)}, (u2, id));
    assert {(u2, id)} - {(u2, id)} == {};
  }

  /** Rating an unrated book once: count 1 and the rating is the mean. */
  lemma MeanOfOne(s: Store, id: Id, u: Id)
    requires RatingsOf(s, id) == {(u, id)}
    ensures |RatingsOf(s, id)| == 1 && Mean(s, id) == s.ratings[(u, id)].value as real
  {
    SumOfRemove(s.ratings, {(u, id)}, (u, id));
    assert {(u, id)} - {(u, id)} == {};
  }
}
