/** Request and response shapes of the REST surface: the token payload, the
    book-catalog items the search route passes through, the records the
    routes return, and the status-plus-body response. */
module Http {
  import opened Optional
  import opened Store

  /** The payload signed into a login token: `{id, email, role}`. */
  datatype Claims = Claims(id: Id, email: string, role: Role)

  /** One `industryIdentifiers` entry of a catalog volume. */
  datatype Identifier = Identifier(kind: string, identifier: string)

  /** One volume of a catalog search response, reduced to the fields the
      search route reads: `id`, `volumeInfo.title`, `volumeInfo.authors`
      and `volumeInfo.industryIdentifiers` (a missing list read as empty). */
  datatype Volume = Volume(
    id: string,
    title: Option<string>,
    authors: Option<seq<string>>,
    identifiers: seq<Identifier>)

  /** A `books` row as `RETURNING *` or `SELECT b.*` shows it. */
  datatype BookRecord = BookRecord(googleBookId: string, row: Book)

  /** A row of the featured listing: the book and its aggregated tag names. */
  datatype Listed = Listed(googleBookId: string, row: Book, tags: set<string>)

  /** A `ratings` row as `RETURNING *` shows it. */
  datatype RatingRecord = RatingRecord(userId: Id, bookId: Id, rating: int, createdAt: nat)

  /** A row of the ratings listing: rating, reviewer's username, creation time. */
  datatype RatingListed = RatingListed(rating: int, reviewer: string, createdAt: nat)

  /** A `comments` row as `RETURNING *` shows it. */
  datatype CommentRecord = CommentRecord(commentId: Id, row: Comment)

  /** A row of the comments listing, joined with the author's username. */
  datatype CommentListed = CommentListed(
    commentId: Id,
    text: string,
    createdAt: nat,
    updatedAt: nat,
    isEdited: bool,
    username: string)

  /** The user record registration returns; it has no password field. */
  datatype PublicUser = PublicUser(id: Id, username: string, email: string)

  /** The user record login returns; it has no password field either. */
  datatype Profile = Profile(id: Id, username: string, email: string, role: Role)

  datatype Body =
    | Error(error: string)
    | Message(message: string)
    | SavedBook(book: BookRecord)
    | FeaturedBook(book: BookRecord)
    | BookList(items: set<Listed>)
    | CatalogItems(volumes: seq<Volume>)
    | SavedRating(rating: RatingRecord)
    | RatingList(ratings: seq<RatingListed>)
    | AverageRating(average: real, count: nat)
    | SavedComment(comment: CommentRecord)
    | CommentList(comments: seq<CommentListed>)
    | Registered(user: PublicUser)
    | LoggedIn(token: Claims, profile: Profile)

  datatype Response = Response(status: int, body: Body)

  /** What a route handler leaves behind: the database after the request and
      the response sent. */
  datatype Reply = Reply(next: Store, response: Response)

  /** An error response `{ error: message }`. */
  function Fail(status: int, message: string): Response
  {
    Response(status, Error(message))
  }
}
