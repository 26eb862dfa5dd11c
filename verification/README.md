# Book-club backend in Dafny

This project models the Express request handlers of a small book-rating backend.
The four routers are:

- `/api/books`: the featured and tag listings, the catalog search cache, and the admin-only featuring and tagging; also the book upsert.
- `/api/ratings`: submitting a rating, listing a book's ratings, and their average.
- `/api/comments`: adding, listing, editing and deleting comments.
- `/api/users`: validation, registration and login.

The handlers that may change the database are pure functions from a database (`Store.Store`) and a request to a `Reply`. A `Reply` holds the database after the request and the HTTP status with its JSON body. The read-only GET routes for ratings and comments are methods returning a `Response`, together with the listing order for the two listings. Login never writes, so it returns a `Response` only. The database has one map per table, with keys matching the tables' primary and unique keys:

- `users`
- `books`, keyed by `google_book_id`
- `tags`, keyed by name
- `book_tags`
- `ratings`, keyed by `(user_id, book_id)`
- `comments`

It also holds the next value of each id sequence and a clock standing for `CURRENT_TIMESTAMP`. The handlers rely on column defaults they do not set; the model assumes: `featured` is FALSE, `role` is an ordinary member, `is_edited` is FALSE, and `created_at` and `updated_at` are `CURRENT_TIMESTAMP`. SQL upserts become map updates:

- `ON CONFLICT DO UPDATE` overwrites the entry;
- `ON CONFLICT DO NOTHING` inserts only when the key is absent;
- a `rowCount` of 0 means the key is absent.

`Store.Valid` states what the schema and the handlers keep true:

- ids are below their sequences;
- emails are unique;
- local book ids and tag ids are unique;
- links, ratings and comments refer to stored books;
- ratings lie in [1, 5];
- timestamps are in the past.

Every mutating handler is proved to preserve `Valid`.

Several things are modelled abstractly:

- **Tokens.** JSON Web Tokens are modelled by a `Keyring`, the map from the tokens `jwt.verify` accepts to their payloads.
- **Passwords.** bcrypt is modelled by `Store.Hash` and `Store.Compare`: a digest matches exactly the password it was made from.
- **Truthiness.** JavaScript truthiness of an optional string field is `Optional.Falsy`: the field is missing, or it is `""`.
- **Path parameters.** The ratings and comments GET routes and the comments PUT and DELETE routes hand raw path parameters to PostgreSQL as integers. `Decimal.ParseInt4` models that conversion. A parameter that is not an int4 makes the query fail, which the handler's `catch` turns into its 500 message.
- **Ordering.** `ORDER BY created_at DESC` is `Ordering.SortNewestFirst`. It returns every matching key once, newest first. Ties are in no fixed order, as in SQL.
- **Average.** `AVG` is the exact rational mean `Ratings.Mean`.

## Model

| member | source | states |
|---|---|---|
| `Auth.BearerToken` | backendProject/src/routes/comments.js:10 | a token, when found, is non-empty and is the second field of the header split at spaces: the text after the first space, up to the next space or the end |
| `Auth.BearerTokenOfHeader` | backendProject/src/routes/comments.js:10 | a header `<scheme> <token>`, optionally followed by a space and anything, yields exactly `<token>`, whatever the scheme |
| `Auth.NoSpaceNoToken` | backendProject/src/routes/comments.js:10-12 | a header without a space carries no token, so the request is answered 401 |
| `Auth.VerifyToken` | backendProject/src/routes/comments.js:9-19 | the request proceeds iff its token verifies, carrying the token's payload; no token gives 401 "Unauthorized"; a token that does not verify gives 401 "Invalid token" |
| `Books.VerifyAdmin` | backendProject/src/routes/books.js:12-27 | admits exactly the verified callers whose stored role is admin; no token gives 401 "Unauthorized"; a stored non-admin gets 403 "Admin access required"; a token that does not verify, or a payload with no user row, gets 401 "Invalid token" |
| `Books.FeaturedListing` | backendProject/src/routes/books.js:34-45 | lists exactly the featured books, each with its stored row and all its tag names |
| `Books.TaggedListing` | backendProject/src/routes/books.js:47-59 | lists exactly the featured books linked to the tag; each entry's tag list is that tag alone |
| `Books.Isbn13` | backendProject/src/routes/books.js:72 | exactly the identifier of the first ISBN_13 entry when that identifier is non-empty; nothing when it is empty or when no entry is ISBN_13 |
| `Books.CacheVolumes` | backendProject/src/routes/books.js:67-78 | the search loop adds a row for every volume id not yet stored; it never alters a stored row, and it changes no other table |
| `Books.VolumeIdsCons` | backendProject/src/routes/books.js:68-69 | the ids of a volume list are the first volume's id together with the ids of the rest |
| `Books.CacheVolumeValid` | backendProject/src/routes/books.js:74-77 | caching one volume whose id is not yet stored keeps the database valid |
| `Books.CachedRowsFromFirstVolume` | backendProject/src/routes/books.js:68-77 | each row the loop added belongs to a volume id, and is unfeatured and built from the first volume with that id: its title or "Unknown Title", its authors or [], and its ISBN-13 |
| `Books.CacheVolumesValid` | backendProject/src/routes/books.js:68-77 | the search loop preserves database validity |
| `Books.Search` | backendProject/src/routes/books.js:30-85 | always 200; with neither `q` nor `tag`, exactly the featured books, each with its stored row and all its tag names; with `tag`, exactly the featured books carrying it, each with its stored row and that tag alone; otherwise the database after caching and the catalog answer passed through; validity preserved |
| `Books.TagTakesPrecedence` | backendProject/src/routes/books.js:34-59 | with a truthy `tag`, the answer and the database do not depend on `q` or the catalog |
| `Books.Feature` | backendProject/src/routes/books.js:88-106 | 404 iff an admin names an unknown book; 200 iff an admin names a stored book; on 200 only that row changes, to `featured = true`; refusals leave the database unchanged |
| `Books.FeatureIdempotent` | backendProject/src/routes/books.js:92-95 | featuring twice gives the same answer and the same database as featuring once |
| `Books.AddTag` | backendProject/src/routes/books.js:109-146 | 400 iff an admin gives no tag name; 404 iff the book is unknown; on 200 the tag exists and keeps its id if it had one, the link between book and tag is present and no other link is added, and the book carries the tag |
| `Books.EnsureTag` | backendProject/src/routes/books.js:129-133 | after the tag insert the name is a tag, an existing tag keeps its id, no other table changes, validity is kept, and in a valid database a newly created tag's id is used by no other tag |
| `Books.AddTagIdempotent` | backendProject/src/routes/books.js:129-139 | adding a tag twice gives the same answer and database as adding it once |
| `Books.RemoveTag` | backendProject/src/routes/books.js:149-185 | the 404s come in source order: book, then tag, then link; on 200 exactly that link is removed and the tag row stays |
| `Books.RemoveUndoesAdd` | backendProject/src/routes/books.js:109-185 | for an existing tag not yet on the book, adding then removing it gives back the original database |
| `Books.SaveBook` | backendProject/src/routes/books.js:188-231 | 400 iff the id or title is falsy, with nothing changed; otherwise 201 with the requested metadata stored; an update keeps the local id, the featured flag and the ISBN; an insert is unfeatured, has no ISBN and takes a fresh id |
| `Books.SaveBookIdempotent` | backendProject/src/routes/books.js:203-220 | repeating an upsert changes nothing further |
| `Books.SaveBookLastWins` | backendProject/src/routes/books.js:203-220 | two upserts of one book leave one row carrying the second call's metadata |
| `StoreFacts.InsertBookValid` | backendProject/src/routes/books.js:205-210 | inserting a row under the next local id keeps the database valid and adds exactly that id |
| `StoreFacts.UpdateBookValid` | backendProject/src/routes/books.js:213-219 | rewriting a row without changing its local id keeps the database valid |
| `StoreFacts.InsertBookIds` | backendProject/src/routes/books.js:205-210 | a new `google_book_id` adds exactly its row's local id to the set of local ids |
| `StoreFacts.UpdateBookIds` | backendProject/src/routes/books.js:213-219 | rewriting a row under the same local id leaves the set of local ids unchanged |
| `StoreFacts.TagInsertValid` | backendProject/src/routes/books.js:129-132 | creating a tag under the next tag id keeps the database valid |
| `StoreFacts.LinkValid` | backendProject/src/routes/books.js:136-139 | linking a stored book to a stored tag keeps the database valid |
| `StoreFacts.RatingUpsertValid` | backendProject/src/routes/ratings.js:23-26 | upserting a rating in [1, 5] of a stored book, stamped no later than now, keeps the database valid |
| `StoreFacts.CommentInsertValid` | backendProject/src/routes/comments.js:53-56 | adding a comment on a stored book under the next comment id keeps the database valid |
| `StoreFacts.CommentUpdateValid` | backendProject/src/routes/comments.js:112-115 | rewriting a comment's text, keeping its book and creation time and stamping it now, keeps the database valid |
| `StoreFacts.CommentDeleteValid` | backendProject/src/routes/comments.js:129-132 | removing any comment keeps the database valid |
| `StoreFacts.UserInsertValid` | backendProject/src/routes/users.js:41-44 | adding a user with an unused email under the next user id keeps the database valid, and with it email uniqueness |
| `Ratings.EnsureBook` | backendProject/src/routes/ratings.js:16-21 | an unseen `google_book_id` gets an unfeatured "Unknown Title" row under a fresh id, with no authors, description, image or ISBN; a stored one is left untouched |
| `Ratings.SubmitRating` | backendProject/src/routes/ratings.js:7-36 | 400 "Invalid input" iff user id, book id or rating is missing or the rating is outside 1..5, with nothing changed; otherwise only the placeholder book, the ratings and the clock change: the rating is upserted on `(user, book)`, a first rating is stamped with the current time, and a repeated rating keeps its creation time; every other rating is kept |
| `Ratings.SubmitRatingValid` | backendProject/src/routes/ratings.js:7-36 | submitting a rating, accepted or refused, keeps the database valid: the rating refers to a stored book and lies in [1, 5] |
| `Ratings.SecondRatingReplaces` | backendProject/src/routes/ratings.js:23-26 | a second rating by the same user of the same book adds no row: the value is replaced and no book's rating set changes |
| `Ratings.ListRatings` | backendProject/src/routes/ratings.js:39-57 | 500 for a non-integer id; otherwise every rating of that local book by a stored user appears exactly once, newest first |
| `Ratings.SumOfRemove` | backendProject/src/routes/ratings.js:65 | the sum of ratings does not depend on the order in which they are taken |
| `Ratings.Average` | backendProject/src/routes/ratings.js:60-77 | 500 for a non-integer id; otherwise the exact mean and the count of the book's ratings, both 0 when there are none |
| `Ratings.SumOfBounds` | backendProject/src/routes/ratings.js:65 | n ratings, each between 1 and 5, sum to between n and 5n |
| `Ratings.MeanBounds` | backendProject/src/routes/ratings.js:65-72 | in a valid database a rated book's mean lies in [1, 5] |
| `Ratings.MeanOfThreeAndFive` | backendProject/src/routes/ratings.js:65-72 | ratings 3 and 5 give count 2 and mean 4 |
| `Ratings.MeanOfOne` | backendProject/src/routes/ratings.js:65-72 | a single rating is its own mean, with count 1 |
| `Ordering.InsertKeepsNewestFirst` | backendProject/src/routes/ratings.js:48 | inserting a key keeps a listing ordered newest first |
| `Ordering.SortNewestFirst` | backendProject/src/routes/ratings.js:48 | the result lists every timestamped key exactly once, ordered newest first |
| `Ordering.ListedIffStamped` | backendProject/src/routes/comments.js:78 | a key is listed iff its row matched the query |
| `Decimal.ParseInt4` | backendProject/src/routes/ratings.js:43-49 | a parameter is accepted only if it is digits, or a `+` or `-` followed by digits; such a parameter reads as its signed value when that lies in the 32-bit range and is refused otherwise |
| `Decimal.ShowNat` | backendProject/src/routes/ratings.js:43-49 | the spelling of a number is a non-empty run of digits whose value is that number |
| `Decimal.ParseShowNat` | backendProject/src/routes/ratings.js:43-49 | every local id up to 2^31-1, written out, reads back as itself |
| `Comments.VerifyAdmin` | backendProject/src/routes/comments.js:22-32 | admits exactly the callers whose stored role is admin; a missing user row gives 500 "Server error"; a stored non-admin gets 403 |
| `Comments.AddComment` | backendProject/src/routes/comments.js:35-66 | 401, then 400 "Book ID and comment required", then 404 "Book not found"; on 201 exactly one comment is added, by the token's user on that book, unedited, stamped with the current time, under a fresh id; the clock advances and all other comments are kept |
| `Comments.CommentsAccumulate` | backendProject/src/routes/comments.js:53-56 | two comments by one user on one book are both kept, under different ids |
| `Comments.LaterCommentListedFirst` | backendProject/src/routes/comments.js:53-79 | of two comments added one after the other on the same book, every newest-first listing of that book shows the later one first |
| `Comments.ListComments` | backendProject/src/routes/comments.js:69-87 | 500 for a non-integer id; otherwise every comment on that local book by a stored user appears once, newest first, with its author's username |
| `Comments.EditComment` | backendProject/src/routes/comments.js:90-122 | 401, then 400, then 500 for a non-integer id, then 404, then 500 "Failed to edit comment" when the caller has no user row, then 403 iff the caller is neither author nor admin; every refusal leaves the database unchanged; on 200 only that comment changes: its new text, marked edited, with author, book and creation time kept |
| `Comments.EditKeepsAuthorship` | backendProject/src/routes/comments.js:112-115 | a successful edit keeps the set of comments, every other comment, and the edited comment's author, book and creation time; it sets the new text and the edited flag; users, books and ratings are unchanged |
| `Comments.ForbiddenEditChangesNothing` | backendProject/src/routes/comments.js:107-110 | an edit by a caller who is neither author nor admin changes nothing and is answered 403 |
| `Comments.DeleteComment` | backendProject/src/routes/comments.js:125-143 | for an admin, 500 "Failed to delete comment" for a non-integer id; 403 iff the caller is a stored non-admin; 404 "Comment not found" iff an admin names no stored comment; on 200 exactly that comment is removed, and no later listing contains it |
| `Email.EmailMatchesIffRegex` | backendProject/src/routes/users.js:11 | the scanner accepts a string iff the regular expression `^[^\s@]+@[^\s@]+\.[^\s@]+$` matches it |
| `Email.ScanImpliesRegex` | backendProject/src/routes/users.js:11 | every address the scanner accepts matches the regular expression |
| `Email.RegexImpliesScan` | backendProject/src/routes/users.js:11 | every split the regular expression accepts is found by the scanner |
| `Email.JoinedPartsMatch` | backendProject/src/routes/users.js:11 | any three non-empty parts free of spaces and `@`, joined as `local@host.tld`, are accepted |
| `Email.OnlyAtIsSplit` | backendProject/src/routes/users.js:11 | in a matching address the `@` the match splits at is the only one |
| `Email.AcceptsShortAddress` | backendProject/src/routes/users.js:11 | "a@b.c" is accepted |
| `Email.RejectsMissingDot` | backendProject/src/routes/users.js:11 | "a@b" is rejected |
| `Email.RejectsSecondAt` | backendProject/src/routes/users.js:11 | no accepted address contains a second `@` |
| `Users.ValidateInput` | backendProject/src/routes/users.js:10-22 | no message iff the username has 3 to 50 characters, the email matches the expression and the password has at least 4 characters; otherwise the first failing check's message, in the order username, email, password |
| `Users.PasswordLengthBoundary` | backendProject/src/routes/users.js:18-20 | password "abc" is refused and "abcd" accepted |
| `Users.Register` | backendProject/src/routes/users.js:25-52 | 400 with the validation message, or 400 "Email already exists", with nothing changed; 201 iff the input is valid and the email is new; on 201 exactly one member is added, whose digest matches only the given password; the reply carries id, username and email only; validity, and with it email uniqueness, is preserved |
| `Users.SecondRegistrationRefused` | backendProject/src/routes/users.js:35-38 | registering an email a second time is refused and adds nobody |
| `Users.Login` | backendProject/src/routes/users.js:55-91 | 400 "Email and password are required" when either is missing; an unknown email and a wrong password get the identical 400 "Invalid credentials"; in a valid database 200 iff some user has that email and password; on 200 the token claims and the profile are the stored user's id, email and role |
| `Users.LoginAfterRegister` | backendProject/src/routes/users.js:40-86 | a freshly registered user logs in with their password and gets member claims for the new id; any other password is refused |
| `Store.Hash` | backendProject/src/routes/users.js:40 | a digest matches exactly the password it was made from |
| `Store.UserByEmailExact` | backendProject/src/routes/users.js:64-65 | in a valid database the lookup by email finds a user iff one has that email, and that user is the only one |
| `Scenario.AshRatesTwice` | backendProject/src/routes/ratings.js:7-77 | register "ash", log in as user 1, rate "X" with 4 then 2: the average of local book 1 is 4 over one rating, then 2 over one rating |

## Left out

- The React front end (`src/`) and `hw2.js`, an in-memory prototype: neither handles requests against the database.
- `server.js`: route mounting, CORS and environment wiring only.
- The call to the Google Books API (books.js:62-64, 80): `Books.Search` takes the catalog's answer as its `volumes` parameter. A failed catalog request, which the source answers with 500 "Failed to fetch books" (books.js:81-84), is not modelled, so `Books.Search` always answers 200. With the placeholder API key at books.js:9, the catalog can be expected to refuse every `q` search.
- A volume without `volumeInfo`: in the source this throws a TypeError, which the handler reports as 500. Volumes here always carry optional title, authors and identifiers.
- bcrypt and JWT internals: salting, cost, signing, and the one-hour expiry. A token's validity at request time is the `Keyring` parameter.
- Connection and query failures of the pg pool, and the resulting `catch` → 500 branches. Those whose cause is visible in the model are kept: a non-integer path parameter, and a missing user row in the two admin checks and in the comment edit's role lookup.
- Foreign-key and other schema errors are not modelled: a rating or comment by a user id with no row, or a rating with a negative or non-integer value, is modelled as the handler's logic alone.
- `Ratings.SubmitRating`: the request fields are typed (`Id`, `int`), so JavaScript coercions of strings or fractions such as `"3"` or `2.5` in the comparisons are not modelled.
- Request fields of every handler are typed: strings are `Option<string>` and ids and ratings are integers. JavaScript lets any JSON value through. For example, a number username such as `12` passes `validateInput` (users.js:12), because `(12).length` is undefined and both length comparisons are false. The same holds for `tag_name`, `comment`, `title` and `email`. Such inputs are not modelled.
- `Users.ValidateInput`: a username or password given as a non-string JSON value is outside the model (see the previous line).
- `Store.Hash`: bcrypt compares only the first 72 bytes of the UTF-8 password. Two passwords sharing those 72 bytes match the same digest. The model's digest matches exactly one password, so `Users.LoginAfterRegister`'s "any other password is refused" holds for bcrypt only when the passwords differ within their first 72 bytes.
- `Ratings.Average`: `parseFloat`, `toFixed(2)` and the string form of the average are floating point and formatting; the model returns the exact mean.
- `Decimal.ParseInt4`: PostgreSQL's tolerance of surrounding whitespace, and of underscores and non-decimal prefixes in newer versions, is not modelled; such parameters are treated as failures.
- `Users.ValidateInput`: lengths count Unicode code points, while JavaScript's `length` counts UTF-16 code units, so usernames and passwords with characters outside the Basic Multilingual Plane are measured differently.
- `ARRAY_AGG` yields `[null]` for an untagged featured book; `Books.FeaturedListing` gives such a book the empty tag set.
- The sequence value PostgreSQL consumes on a conflicting `INSERT ... ON CONFLICT DO NOTHING`: the model takes a local id only when a row is created, so ids may be denser than in PostgreSQL.
- Concurrent requests: handlers run one at a time, so the check-then-insert races (books.js:197-210, users.js:35-44) do not arise.
- Message fields of successful replies ("Rating saved successfully" and the like): the bodies carry the returned rows only.

Behaviour a caller might not expect, which the model keeps as the code does it:

- The rating route trusts the `user_id` in the body and requires no token.
- Comment text is stored exactly as sent, surrounding whitespace included.
- The GET rating and comment routes take the local `book_id`, not the `google_book_id`.
- The two `verifyAdmin` copies disagree on a missing user row: 401 "Invalid token" in `books.js`, 500 "Server error" in `comments.js`; the edit route's inline role lookup answers 500 "Failed to edit comment".
- The comments routes verify tokens with a secret fixed in `comments.js`, while login signs them, and the books routes verify them, with the secret from `db.js`. A token issued by login is accepted by the comments routes only when the two secrets agree. Each handler takes its `Keyring` as a parameter, so the model allows either case.
