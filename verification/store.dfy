/** The relational store the route handlers read and write: the `users`,
    `books`, `tags`, `book_tags`, `ratings` and `comments` tables, each as an
    immutable map or set keyed the way the SQL statements look rows up. */
module Store {
  import opened Optional

  /** Surrogate keys (`SERIAL` columns). */
  type Id = nat

  datatype Role = Admin | Member

  /** Stand-in for a bcrypt digest: `Hash` and `Compare` agree exactly when
      the password is the one that was hashed. Salting and the cost factor
      are not modelled. */
  datatype Digest = Digest(secret: string)

  predicate Compare(password: string, d: Digest)
  {
    d.secret == password
  }

  function Hash(password: string): (d: Digest)
    ensures forall p :: Compare(p, d) <==> p == password
  {
    Digest(password)
  }

  /** A `users` row; its key is `user_id`. */
  datatype User = User(username: string, email: string, hash: Digest, role: Role)

  /** A `books` row; its key is `google_book_id`, `id` is the local surrogate key. */
  datatype Book = Book(
    id: Id,
    title: string,
    authors: Option<seq<string>>,
    description: Option<string>,
    imageUrl: Option<string>,
    isbn: Option<string>,
    featured: bool)

  /** A `ratings` row; its key is the pair `(user_id, book_id)`. */
  datatype Rating = Rating(value: int, createdAt: nat)

  /** A `comments` row; its key is `comment_id`. */
  datatype Comment = Comment(
    bookId: Id,
    userId: Id,
    text: string,
    isEdited: bool,
    createdAt: nat,
    updatedAt: nat)

  /** The whole database. `next*` are the id sequences; `now` is a monotone
      clock standing in for `CURRENT_TIMESTAMP`. */
  datatype Store = Store(
    users: map<Id, User>,
    books: map<string, Book>,
    tags: map<string, Id>,
    bookTags: set<(Id, Id)>,
    ratings: map<(Id, Id), Rating>,
    comments: map<Id, Comment>,
    nextUser: Id,
    nextBook: Id,
    nextTag: Id,
    nextComment: Id,
    now: nat)

  /** An empty database; `SERIAL` sequences start at 1. */
  function Empty(): (s: Store)
    ensures Valid(s)
    ensures s.users == map[] && s.books == map[] && s.comments == map[] && s.ratings == map[]
  {
    Store(map[], map[], map[], {}, map[], map[], 1, 1, 1, 1, 0)
  }

  /** The local ids of the rows of a `books` table. */
  function LocalIds(books: map<string, Book>): set<Id>
  {
    set g | g in books :: books[g].id
  }

  /** The local ids of all stored books; they depend on `books` alone. */
  function BookIds(s: Store): set<Id>
  {
    LocalIds(s.books)
  }

  ghost predicate UsersValid(s: Store)
  {
    && (forall u | u in s.users :: u < s.nextUser)
    && (forall u, v | u in s.users && v in s.users && u != v :: s.users[u].email != s.users[v].email)
  }

  ghost predicate BooksValid(s: Store)
  {
    && (forall g | g in s.books :: s.books[g].id < s.nextBook)
    && (forall g, h | g in s.books && h in s.books && g != h :: s.books[g].id != s.books[h].id)
  }

  ghost predicate TagsValid(s: Store)
  {
    && (forall n | n in s.tags :: s.tags[n] < s.nextTag)
    && (forall n, m | n in s.tags && m in s.tags && n != m :: s.tags[n] != s.tags[m])
    && (forall l | l in s.bookTags :: l.0 in BookIds(s) && l.1 in s.tags.Values)
  }

  ghost predicate RatingsValid(s: Store)
  {
    forall k | k in s.ratings ::
      && 1 <= s.ratings[k].value <= 5
      && k.1 in BookIds(s)
      && s.ratings[k].createdAt < s.now
  }

  ghost predicate CommentsValid(s: Store)
  {
    forall c | c in s.comments ::
      && c < s.nextComment
      && s.comments[c].bookId in BookIds(s)
      && s.comments[c].createdAt <= s.comments[c].updatedAt < s.now
  }

  /** What the schema's keys and constraints, together with the handlers,
      keep true of every reachable database: ids below their sequence,
      unique emails, unique local book ids and tag ids, links, ratings and
      comments that refer to stored books, ratings in [1,5], and timestamps
      from the past. */
  ghost predicate Valid(s: Store)
  {
    && UsersValid(s)
    && BooksValid(s)
    && TagsValid(s)
    && RatingsValid(s)
    && CommentsValid(s)
  }

  /** Some user row carries this email. */
  predicate EmailTaken(s: Store, email: string)
  {
    exists u | u in s.users :: s.users[u].email == email
  }

  /** The lowest user id in `[from, to)` whose row carries `email`: the row a
      `SELECT ... WHERE email = $1` finds, since emails are unique. */
  function FindByEmail(users: map<Id, User>, email: string, from: Id, to: Id): (r: Option<Id>)
    decreases to - from
    ensures r.Some? ==> from <= r.value < to && r.value in users && users[r.value].email == email
    ensures r.None? ==> forall u | from <= u < to && u in users :: users[u].email != email
  {
    if from >= to then None
    else if from in users && users[from].email == email then Some(from)
    else FindByEmail(users, email, from + 1, to)
  }

  /** The user a lookup by email finds. */
  function UserByEmail(s: Store, email: string): Option<Id>
  {
    FindByEmail(s.users, email, 0, s.nextUser)
  }

  /** In a valid store the lookup by email finds a row exactly when one
      exists, and that row is the only one with the email. */
  lemma UserByEmailExact(s: Store, email: string)
    requires Valid(s)
    ensures UserByEmail(s, email).Some? <==> EmailTaken(s, email)
    ensures UserByEmail(s, email).Some? ==>
      forall u | u in s.users && s.users[u].email == email :: u == UserByEmail(s, email).value
  {
    if EmailTaken(s, email) {
      var u :| u in s.users && s.users[u].email == email;
      assert u < s.nextUser;
    }
  }
}

module StoreFacts {
  import opened Store

  /** A new `google_book_id` adds exactly its row's local id. */
  lemma InsertBookIds(s: Store, g: string, b: Book)
    requires g !in s.books
    ensures BookIds(s.(books := s.books[g := b], nextBook := s.nextBook + 1)) == BookIds(s) + {b.id}
  {
    var t := s.(books := s.books[g := b], nextBook := s.nextBook + 1);
    forall i | i in BookIds(t) ensures i in BookIds(s) + {b.id} {
      var h :| h in t.books && t.books[h].id == i;
      if h != g { assert s.books[h].id == i; }
    }
    forall i | i in BookIds(s) + {b.id} ensures i in BookIds(t) {
      if i == b.id { assert t.books[g].id == i; }
      else { var h :| h in s.books && s.books[h].id == i; assert t.books[h].id == i; }
    }
  }

  /** Inserting a book under a new `google_book_id` with the next local id
      keeps the database valid. */
  lemma InsertBookValid(s: Store, g: string, b: Book)
    requires g !in s.books && b.id == s.nextBook
    ensures Valid(s) ==> Valid(s.(books := s.books[g := b], nextBook := s.nextBook + 1))
    ensures BookIds(s.(books := s.books[g := b], nextBook := s.nextBook + 1)) == BookIds(s) + {b.id}
  {
    InsertBookIds(s, g, b);
  }

  /** Rewriting a row without changing its local id keeps the set of ids. */
  lemma UpdateBookIds(s: Store, g: string, b: Book)
    requires g in s.books && b.id == s.books[g].id
    ensures BookIds(s.(books := s.books[g := b])) == BookIds(s)
  {
    var t := s.(books := s.books[g := b]);
    forall i | i in BookIds(t) ensures i in BookIds(s) {
      var h :| h in t.books && t.books[h].id == i;
      assert s.books[h].id == i;
    }
    forall i | i in BookIds(s) ensures i in BookIds(t) {
      var h :| h in s.books && s.books[h].id == i;
      assert t.books[h].id == i;
    }
  }

  /** Rewriting a stored book's row without touching its local id keeps the
      database valid. */
  lemma UpdateBookValid(s: Store, g: string, b: Book)
    requires g in s.books && b.id == s.books[g].id
    ensures Valid(s) ==> Valid(s.(books := s.books[g := b]))
    ensures BookIds(s.(books := s.books[g := b])) == BookIds(s)
  {
    UpdateBookIds(s, g, b);
  }

  /** Upserting a rating in [1, 5] of a stored book, stamped before the
      clock advances, keeps the database valid. */
  lemma RatingUpsertValid(t: Store, key: (Id, Id), row: Rating)
    requires Valid(t)
    requires key.1 in BookIds(t) && 1 <= row.value <= 5 && row.createdAt <= t.now
    ensures Valid(t.(ratings := t.ratings[key := row], now := t.now + 1))
  {
  }

  /** Adding a comment on a stored book under the next comment id, stamped
      before the clock advances, keeps the database valid. */
  lemma CommentInsertValid(t: Store, row: Comment)
    requires Valid(t)
    requires row.bookId in BookIds(t) && row.createdAt <= row.updatedAt <= t.now
    ensures Valid(t.(comments := t.comments[t.nextComment := row], nextComment := t.nextComment + 1, now := t.now + 1))
  {
  }

  /** Rewriting a stored comment, keeping its book and creation time and
      stamping it before the clock advances, keeps the database valid. */
  lemma CommentUpdateValid(t: Store, c: Id, row: Comment)
    requires Valid(t) && c in t.comments
    requires row.bookId == t.comments[c].bookId && row.createdAt == t.comments[c].createdAt && row.updatedAt == t.now
    ensures Valid(t.(comments := t.comments[c := row], now := t.now + 1))
  {
  }

  /** Removing a comment keeps the database valid. */
  lemma CommentDeleteValid(t: Store, c: Id)
    requires Valid(t)
    ensures Valid(t.(comments := t.comments - {c}))
  {
  }

  /** Adding a user with an unused email under the next user id keeps the
      database valid. */
  lemma UserInsertValid(t: Store, u: User)
    requires Valid(t) && !EmailTaken(t, u.email)
    ensures Valid(t.(users := t.users[t.nextUser := u], nextUser := t.nextUser + 1))
  {
  }

  /** Creating a tag under the next tag id keeps the database valid, and the
      tag ids in use grow by exactly that id. */
  lemma TagInsertValid(t: Store, name: string)
    requires Valid(t) && name !in t.tags
    ensures Valid(t.(tags := t.tags[name := t.nextTag], nextTag := t.nextTag + 1))
  {
    var u := t.(tags := t.tags[name := t.nextTag], nextTag := t.nextTag + 1);
    forall i | i in t.tags.Values ensures i in u.tags.Values {
      var n :| n in t.tags && t.tags[n] == i;
      assert u.tags[n] == i;
    }
  }

  /** Linking a stored book to a stored tag keeps the database valid. */
  lemma LinkValid(t: Store, link: (Id, Id))
    requires Valid(t) && link.0 in BookIds(t) && link.1 in t.tags.Values
    ensures Valid(t.(bookTags := t.bookTags + {link}))
  {
  }
}
