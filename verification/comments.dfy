/** The `/api/comments` routes: adding a comment (token required), listing a
    book's comments newest first, editing one (its author or an admin), and
    deleting one (admins only). */
module Comments {
  import opened Optional
  import opened Store
  import opened StoreFacts
  import opened Http
  import opened Auth
  import opened Decimal
  import opened Ordering

  /** `verifyAdmin` of the comments routes, run after `verifyToken`: it
      re-reads the caller's role from `users`; a missing user row makes the
      lookup throw, which its `catch` reports as 500 "Server error". */
  function VerifyAdmin(s: Store, claims: Claims): (g: Gate)
    ensures g.Admit? <==> claims.id in s.users && s.users[claims.id].role == Admin
    ensures g.Admit? ==> g.claims == claims
    ensures claims.id !in s.users ==> g == Refuse(Fail(500, "Server error"))
    ensures claims.id in s.users && g.Refuse? ==> g == Refuse(Fail(403, "Admin access required"))
  {
    if claims.id !in s.users then Refuse(Fail(500, "Server error"))
    else if s.users[claims.id].role != Admin then Refuse(Fail(403, "Admin access required"))
    else Admit(claims)
  }

  // ---------------------------------------------------------------- POST /

  /** The body of POST /comments. */
  datatype CommentRequest = CommentRequest(googleBookId: Option<string>, text: Option<string>)

  /** POST /comments: 401 without a verifying token; 400 without a book id or
      text; 404 for an unknown book; otherwise one new comment under a fresh
      id, by the token's user, unedited. Existing comments are never
      replaced, so a user may comment on a book any number of times. */
  function AddComment(s: Store, header: Option<string>, keyring: Keyring, req: CommentRequest): (r: Reply)
    ensures r.response.status == 201 || r.next == s
    ensures !Authenticated(header, keyring) ==> r == Reply(s, VerifyToken(header, keyring).response)
    ensures Authenticated(header, keyring) && (Falsy(req.googleBookId) || Falsy(req.text)) ==>
      r.response == Fail(400, "Book ID and comment required")
    ensures (Authenticated(header, keyring) && !Falsy(req.googleBookId) && !Falsy(req.text)
             && req.googleBookId.value !in s.books) ==>
      r.response == Fail(404, "Book not found")
    ensures r.response.status == 201 <==>
      Authenticated(header, keyring) && !Falsy(req.googleBookId) && !Falsy(req.text)
      && req.googleBookId.value in s.books
    ensures r.response.status == 201 ==>
      && r.response.body.SavedComment?
      && var id := r.response.body.comment.commentId;
      && r.next == s.(comments := r.next.comments, nextComment := r.next.nextComment, now := r.next.now)
      && r.next.comments.Keys == s.comments.Keys + {id}
      && (Valid(s) ==> id !in s.comments)
      && (forall c | c in s.comments && c != id :: r.next.comments[c] == s.comments[c])
      && r.next.comments[id].bookId == s.books[req.googleBookId.value].id
      && r.next.comments[id].userId == Session(header, keyring).id
      && r.next.comments[id].text == req.text.value
      && !r.next.comments[id].isEdited
      && r.next.comments[id].createdAt == s.now && r.next.comments[id].updatedAt == s.now
      && r.next.now == s.now + 1
      && r.response.body.comment.row == r.next.comments[id]
    ensures Valid(s) ==> Valid(r.next)
  {
    var gate := VerifyToken(header, keyring);
    if gate.Refuse? then Reply(s, gate.response)
    else if Falsy(req.googleBookId) || Falsy(req.text) then Reply(s, Fail(400, "Book ID and comment required"))
    else if req.googleBookId.value !in s.books then Reply(s, Fail(404, "Book not found"))
    else
      var id := s.nextComment;
      var row := Comment(s.books[req.googleBookId.value].id, gate.claims.id, req.text.value, false, s.now, s.now);
      var t := s.(comments := s.comments[id := row], nextComment := id + 1, now := s.now + 1);
      assert Valid(s) ==> Valid(t) by {
        if Valid(s) {
          CommentInsertValid(s, row);
        }
      }
      Reply(t, Response(201, SavedComment(CommentRecord(id, row))))
  }

  /** Two comments by the same user on the same book are both kept, under
      different ids. */
  lemma CommentsAccumulate(s: Store, header: Option<string>, keyring: Keyring, a: CommentRequest, b: CommentRequest)
    requires Valid(s)
    requires AddComment(s, header, keyring, a).response.status == 201
    requires b.googleBookId == a.googleBookId
    requires AddComment(AddComment(s, header, keyring, a).next, header, keyring, b).response.status == 201
    ensures var r1 := AddComment(s, header, keyring, a);
            var r2 := AddComment(r1.next, header, keyring, b);
            var i1 := r1.response.body.comment.commentId;
            var i2 := r2.response.body.comment.commentId;
            && i1 != i2
            && i1 in r2.next.comments && i2 in r2.next.comments
            && r2.next.comments[i1].userId == r2.next.comments[i2].userId
            && r2.next.comments[i1].bookId == r2.next.comments[i2].bookId
  {
  }

  /** Comments are stamped by the clock at the time they are added, so of two
      comments added one after the other on the same book, any newest-first
      listing of that book shows the later one first. */
  lemma LaterCommentListedFirst(s: Store, header: Option<string>, keyring: Keyring, a: CommentRequest, b: CommentRequest,
                                order: seq<Id>, i: int, j: int)
    requires Valid(s)
    requires AddComment(s, header, keyring, a).response.status == 201
    requires b.googleBookId == a.googleBookId
    requires AddComment(AddComment(s, header, keyring, a).next, header, keyring, b).response.status == 201
    requires NewestFirst(order, ListingStamps(AddComment(AddComment(s, header, keyring, a).next, header, keyring, b).next,
                                              s.books[a.googleBookId.value].id))
    requires 0 <= i < |order| && 0 <= j < |order|
    requires order[i] == AddComment(AddComment(s, header, keyring, a).next, header, keyring, b).response.body.comment.commentId
    requires order[j] == AddComment(s, header, keyring, a).response.body.comment.commentId
    ensures i < j
  {
    var r1 := AddComment(s, header, keyring, a);
    var r2 := AddComment(r1.next, header, keyring, b);
    var i1 := r1.response.body.comment.commentId;
    var i2 := r2.response.body.comment.commentId;
    var stamps := ListingStamps(r2.next, s.books[a.googleBookId.value].id);
    CommentsAccumulate(s, header, keyring, a, b);
    assert r2.next.comments[i1] == r1.next.comments[i1];
    assert stamps[i2] == s.now + 1 && stamps[i1] == s.now;
    NewerListedFirst(order, stamps, i, j);
  }

  // ------------------------------------------------------- GET /:book_id

  /** Comments on the local book `id` whose author has a `users` row (the
      listing's inner join), with their creation times. */
  function ListingStamps(s: Store, id: int): map<Id, nat>
  {
    map c | c in s.comments && s.comments[c].bookId == id && s.comments[c].userId in s.users :: s.comments[c].createdAt
  }

  /** GET /comments/:book_id: 500 when the parameter is not an integer;
      otherwise the comments on local book `book_id` by stored users, each
      with its author's username, newest first. `order` gives the
      `comment_id` of each listed row. */
  method ListComments(s: Store, param: string) returns (order: seq<Id>, r: Response)
    ensures ParseInt4(param).None? ==> r == Fail(500, "Failed to fetch comments") && order == []
    ensures ParseInt4(param).Some? ==>
      var stamps := ListingStamps(s, ParseInt4(param).value);
      && NewestFirst(order, stamps)
      && multiset(order) == multiset(stamps.Keys)
      && r.status == 200 && r.body.CommentList? && |r.body.comments| == |order|
      && forall i | 0 <= i < |order| ::
           && order[i] in s.comments && s.comments[order[i]].userId in s.users
           && s.comments[order[i]].bookId == ParseInt4(param).value
           && r.body.comments[i] == Listing(s, order[i])
  {
    var id := ParseInt4(param);
    if id.None? {
      return [], Fail(500, "Failed to fetch comments");
    }
    var stamps := ListingStamps(s, id.value);
    order := SortNewestFirst(stamps);
    var rows := seq(|order|, i requires 0 <= i < |order| && order[i] in stamps => Listing(s, order[i]));
    r := Response(200, CommentList(rows));
  }

  /** The listing row of a stored comment. */
  function Listing(s: Store, c: Id): CommentListed
    requires c in s.comments && s.comments[c].userId in s.users
  {
    var row := s.comments[c];
    CommentListed(c, row.text, row.createdAt, row.updatedAt, row.isEdited, s.users[row.userId].username)
  }

  // --------------------------------------------------- PUT /:comment_id

  /** The path parameter reads as the id of a stored comment. */
  predicate Names(s: Store, param: string)
  {
    ParseInt4(param).Some? && ParseInt4(param).value >= 0 && ParseInt4(param).value in s.comments
  }

  /** The caller may edit the comment: its author, or an admin. */
  predicate MayEdit(s: Store, c: Id, claims: Claims)
    requires c in s.comments && claims.id in s.users
  {
    s.comments[c].userId == claims.id || s.users[claims.id].role == Admin
  }

  /** PUT /comments/:comment_id, checked in order: 401 without a verifying
      token, 400 without text, 500 for a non-integer id, 404 for an unknown
      comment, 500 when the caller has no user row, 403 unless the caller is
      its author or an admin. Otherwise the text is replaced and the comment
      marked edited, keeping its author, book and creation time. */
  function EditComment(s: Store, header: Option<string>, keyring: Keyring, param: string, text: Option<string>): (r: Reply)
    ensures r.response.status == 200 || r.next == s
    ensures !Authenticated(header, keyring) ==> r == Reply(s, VerifyToken(header, keyring).response)
    ensures Authenticated(header, keyring) && Falsy(text) ==> r.response == Fail(400, "Comment text required")
    ensures Authenticated(header, keyring) && !Falsy(text) && ParseInt4(param).None? ==>
      r.response == Fail(500, "Failed to edit comment")
    ensures Authenticated(header, keyring) && !Falsy(text) && ParseInt4(param).Some? && !Names(s, param) ==>
      r.response == Fail(404, "Comment not found")
    ensures r.response.status == 403 <==>
      && Authenticated(header, keyring) && !Falsy(text) && Names(s, param)
      && Session(header, keyring).id in s.users
      && !MayEdit(s, ParseInt4(param).value, Session(header, keyring))
    ensures Authenticated(header, keyring) && !Falsy(text) && Names(s, param) && Session(header, keyring).id !in s.users ==>
      r.response == Fail(500, "Failed to edit comment")
    ensures r.response.status == 403 ==> r.response == Fail(403, "Unauthorized to edit this comment")
    ensures r.response.status == 200 <==>
      && Authenticated(header, keyring) && !Falsy(text) && Names(s, param)
      && Session(header, keyring).id in s.users
      && MayEdit(s, ParseInt4(param).value, Session(header, keyring))
    ensures r.response.status == 200 ==>
      && Names(s, param)
      && var c := ParseInt4(param).value;
      && var edited := s.comments[c].(text := text.value, isEdited := true, updatedAt := s.now);
      && r.next == s.(comments := s.comments[c := edited], now := s.now + 1)
      && r.response == Response(200, SavedComment(CommentRecord(c, edited)))
    ensures Valid(s) ==> Valid(r.next)
  {
    var gate := VerifyToken(header, keyring);
    if gate.Refuse? then Reply(s, gate.response)
    else if Falsy(text) then Reply(s, Fail(400, "Comment text required"))
    else if ParseInt4(param).None? then Reply(s, Fail(500, "Failed to edit comment"))
    else if !Names(s, param) then Reply(s, Fail(404, "Comment not found"))
    else
      var c: Id := ParseInt4(param).value;
      if gate.claims.id !in s.users then Reply(s, Fail(500, "Failed to edit comment"))
      else if !MayEdit(s, c, gate.claims) then Reply(s, Fail(403, "Unauthorized to edit this comment"))
      else
        var row := s.comments[c].(text := text.value, updatedAt := s.now, isEdited := true);
        assert Valid(s) ==> Valid(s.(comments := s.comments[c := row], now := s.now + 1)) by {
          if Valid(s) {
            CommentUpdateValid(s, c, row);
          }
        }
        Reply(s.(comments := s.comments[c := row], now := s.now + 1),
              Response(200, SavedComment(CommentRecord(c, row))))
  }

  /** A successful edit touches one comment only, and keeps its author,
      book and creation time. */
  lemma EditKeepsAuthorship(s: Store, header: Option<string>, keyring: Keyring, param: string, text: Option<string>)
    requires EditComment(s, header, keyring, param, text).response.status == 200
    ensures var t := EditComment(s, header, keyring, param, text).next;
            var c := ParseInt4(param).value;
            && t.comments.Keys == s.comments.Keys
            && (forall d | d in s.comments && d != c :: t.comments[d] == s.comments[d])
            && t.comments[c].text == text.value && t.comments[c].isEdited
            && t.comments[c].userId == s.comments[c].userId
            && t.comments[c].bookId == s.comments[c].bookId
            && t.comments[c].createdAt == s.comments[c].createdAt
            && t.users == s.users && t.books == s.books && t.ratings == s.ratings
  {
  }

  // ------------------------------------------------ DELETE /:comment_id

  /** DELETE /comments/:comment_id, checked in order: 401 without a verifying
      token, 500 when the caller has no user row, 403 for a non-admin, 500
      for a non-integer id, 404 for an unknown comment. Otherwise exactly that
      comment is removed, so no later listing shows it. */
  function DeleteComment(s: Store, header: Option<string>, keyring: Keyring, param: string): (r: Reply)
    ensures r.response.status == 200 || r.next == s
    ensures !Authenticated(header, keyring) ==> r == Reply(s, VerifyToken(header, keyring).response)
    ensures Authenticated(header, keyring) && VerifyAdmin(s, Session(header, keyring)).Refuse? ==>
      r.response == VerifyAdmin(s, Session(header, keyring)).response
    ensures r.response.status == 403 <==>
      Authenticated(header, keyring) && Session(header, keyring).id in s.users
      && s.users[Session(header, keyring).id].role != Admin
    ensures Authenticated(header, keyring) && VerifyAdmin(s, Session(header, keyring)).Admit? && ParseInt4(param).None? ==>
      r.response == Fail(500, "Failed to delete comment")
    ensures r.response.status == 404 <==>
      Authenticated(header, keyring) && VerifyAdmin(s, Session(header, keyring)).Admit?
      && ParseInt4(param).Some? && !Names(s, param)
    ensures r.response.status == 404 ==> r.response == Fail(404, "Comment not found")
    ensures r.response.status == 200 <==>
      Authenticated(header, keyring) && VerifyAdmin(s, Session(header, keyring)).Admit? && Names(s, param)
    ensures r.response.status == 200 ==>
      var c := ParseInt4(param).value;
      && r.next == s.(comments := r.next.comments)
      && r.next.comments.Keys == s.comments.Keys - {c}
      && (forall d | d in r.next.comments :: r.next.comments[d] == s.comments[d])
      && (forall id: int :: c !in ListingStamps(r.next, id))
      && r.response == Response(200, Message("Comment deleted successfully"))
    ensures Valid(s) ==> Valid(r.next)
  {
    var gate := VerifyToken(header, keyring);
    if gate.Refuse? then Reply(s, gate.response)
    else
      var admin := VerifyAdmin(s, gate.claims);
      if admin.Refuse? then Reply(s, admin.response)
      else if ParseInt4(param).None? then Reply(s, Fail(500, "Failed to delete comment"))
      else if !Names(s, param) then Reply(s, Fail(404, "Comment not found"))
      else
        var c: Id := ParseInt4(param).value;
        assert Valid(s) ==> Valid(s.(comments := s.comments - {c})) by {
          if Valid(s) {
            CommentDeleteValid(s, c);
          }
        }
        Reply(s.(comments := s.comments - {c}), Response(200, Message("Comment deleted successfully")))
  }

  /** An edit by a caller who may not edit leaves every comment as it was,
      whatever the text. */
  lemma ForbiddenEditChangesNothing(s: Store, header: Option<string>, keyring: Keyring, param: string, text: Option<string>)
    requires Authenticated(header, keyring) && Names(s, param) && Session(header, keyring).id in s.users
    requires !MayEdit(s, ParseInt4(param).value, Session(header, keyring))
    ensures EditComment(s, header, keyring, param, text).next == s
    ensures !Falsy(text) ==> EditComment(s, header, keyring, param, text).response.status == 403
  {
  }
}
