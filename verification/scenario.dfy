/** A whole session against an empty database: a user registers, logs in
    and rates a book twice; the average route then reports the second
    rating alone. */
module Scenario {
  import opened Optional
  import opened Store
  import opened Http
  import opened Decimal
  import opened Email
  import opened Text
  import opened Users
  import opened Ratings

  /** Lower-case letters and dots are plain characters. */
  lemma LettersPlain(s: string)
    requires forall k | 0 <= k < |s| :: 'a' <= s[k] <= 'z' || s[k] == '.'
    ensures Plain(s)
  {
  }

  /** "ash@example.com" passes the email check. */
  lemma AshEmailValid()
    ensures EmailMatches("ash@example.com")
  {
    var e := "ash@example.com";
    assert e[..3] == "ash" && e[4..11] == "example" && e[12..] == "com";
    assert Shape(e, 3, 11) by {
      LettersPlain("ash");
      LettersPlain("example");
      LettersPlain("com");
    }
    RegexImpliesScan(e, 3, 11);
  }

  /** Registering "ash" on an empty database creates user 1, whose login
      yields a member's claims. */
  lemma AshRegistersAndLogsIn()
    ensures
      var reg := Register(Empty(), Some("ash"), Some("ash@example.com"), Some("passw"));
      && reg.response == Response(201, Registered(PublicUser(1, "ash", "ash@example.com")))
      && reg.next.books == map[] && reg.next.ratings == map[] && reg.next.nextBook == 1
      && var login := Login(reg.next, Some("ash@example.com"), Some("passw"));
      && login.status == 200 && login.body.token == Claims(1, "ash@example.com", Member)
  {
    AshEmailValid();
    EmailMatchesIffRegex("ash@example.com");
    var reg := Register(Empty(), Some("ash"), Some("ash@example.com"), Some("passw"));
    assert ValidateInput(Some("ash"), Some("ash@example.com"), Some("passw")).None?;
    assert !EmailTaken(Empty(), "ash@example.com");
    LoginAfterRegister(Empty(), Some("ash"), Some("ash@example.com"), Some("passw"), "other");
  }

  /** User 1 rates book "X", unseen so far, with 4 and then with 2: the book
      gets local id 1, whose average is 4 over one rating after the first
      request and 2 over one rating after the second. */
  lemma RatesTwice(t: Store)
    requires t.books == map[] && t.ratings == map[] && t.nextBook == 1
    ensures
      var r1 := SubmitRating(t, RatingRequest(Some(1), Some("X"), Some(4)));
      var r2 := SubmitRating(r1.next, RatingRequest(Some(1), Some("X"), Some(2)));
      && r1.response.status == 201 && r2.response.status == 201
      && r1.next.books["X"].id == 1
      && |RatingsOf(r1.next, 1)| == 1 && Mean(r1.next, 1) == 4.0
      && |RatingsOf(r2.next, 1)| == 1 && Mean(r2.next, 1) == 2.0
  {
    var a := RatingRequest(Some(1), Some("X"), Some(4));
    var b := RatingRequest(Some(1), Some("X"), Some(2));
    var r1 := SubmitRating(t, a);
    assert RatedKey(t, a) == (1, 1);
    assert RatingsOf(r1.next, 1) == {(1, 1)};
    MeanOfOne(r1.next, 1, 1);
    SecondRatingReplaces(t, a, b);
    var r2 := SubmitRating(r1.next, b);
    assert RatingsOf(r2.next, 1) == {(1, 1)};
    MeanOfOne(r2.next, 1, 1);
  }

  /** The path parameter "1" names local book 1. */
  lemma ParseOne()
    ensures ParseInt4("1") == Some(1)
  {
    ParseShowNat(1);
    assert ShowNat(1) == "1";
  }

  /** The whole session: register "ash", log in, rate "X" with 4, then 2.
      The average route, asked for local book "1", reports 4 over one
      rating after the first request and 2 over one rating after the second,
      because the second rating replaces the first. */
  lemma AshRatesTwice()
    ensures
      var reg := Register(Empty(), Some("ash"), Some("ash@example.com"), Some("passw"));
      var login := Login(reg.next, Some("ash@example.com"), Some("passw"));
      var r1 := SubmitRating(reg.next, RatingRequest(Some(1), Some("X"), Some(4)));
      var r2 := SubmitRating(r1.next, RatingRequest(Some(1), Some("X"), Some(2)));
      && login.body.LoggedIn? && login.body.token.id == 1
      && ParseInt4("1") == Some(1)
      && |RatingsOf(r1.next, 1)| == 1 && Mean(r1.next, 1) == 4.0
      && |RatingsOf(r2.next, 1)| == 1 && Mean(r2.next, 1) == 2.0
  {
    AshRegistersAndLogsIn();
    var reg := Register(Empty(), Some("ash"), Some("ash@example.com"), Some("passw"));
    RatesTwice(reg.next);
    ParseOne();
  }
}
