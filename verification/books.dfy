/** The `/api/books` routes: the featured and tag listings with the search
    result cache, marking a book featured, attaching and detaching tags, and
    the book upsert. */
module Books {
  import opened Optional
  import opened Store
  import opened StoreFacts
  import opened Http
  import opened Auth

  /** Title stored when a request or a catalog volume gives none. */
  const UnknownTitle := "Unknown Title"

  /** The user `id` is stored with the admin role. */
  predicate IsAdmin(s: Store, id: Id)
  {
    id in s.users && s.users[id].role == Admin
  }

  /** `verifyAdmin` of the books routes: it verifies the token itself and
      re-reads the caller's role from `users`. A missing user row makes the
      role lookup throw, which its `catch` reports as 401 "Invalid token". */
  function VerifyAdmin(s: Store, header: Option<string>, keyring: Keyring): (g: Gate)
    ensures g.Admit? <==> Authenticated(header, keyring) && IsAdmin(s, Session(header, keyring).id)
    ensures g.Admit? ==> g.claims == Session(header, keyring)
    ensures BearerToken(header).None? ==> g == Refuse(Fail(401, "Unauthorized"))
    ensures g.Refuse? && Authenticated(header, keyring) && Session(header, keyring).id in s.users ==>
      g == Refuse(Fail(403, "Admin access required"))
    ensures BearerToken(header).Some? && g.Refuse? && !(Authenticated(header, keyring) && Session(header, keyring).id in s.users) ==>
      g == Refuse(Fail(401, "Invalid token"))
  {
    match BearerToken(header)
    case None => Refuse(Fail(401, "Unauthorized"))
    case Some(token) =>
      if token !in keyring then Refuse(Fail(401, "Invalid token"))
      else
        var claims := keyring[token];
        if claims.id !in s.users then Refuse(Fail(401, "Invalid token"))
        else if s.users[claims.id].role != Admin then Refuse(Fail(403, "Admin access required"))
        else Admit(claims)
  }

  // ---------------------------------------------------------------- GET /

  /** Names of the tags linked to the book with local id `bookId`. */
  function TagNames(s: Store, bookId: Id): set<string>
  {
    set n | n in s.tags && (bookId, s.tags[n]) in s.bookTags
  }

  /** The stored book `g` carries the tag called `name`. */
  predicate Tagged(s: Store, g: string, name: string)
    requires g in s.books
  {
    name in s.tags && (s.books[g].id, s.tags[name]) in s.bookTags
  }

  /** The `google_book_id`s of the featured books. */
  function FeaturedIds(s: Store): set<string>
  {
    set g | g in s.books && s.books[g].featured
  }

  /** The `google_book_id`s a listing shows. */
  function ListedIds(items: set<Listed>): set<string>
  {
    set l | l in items :: l.googleBookId
  }

  /** Featured books, each with all its tag names. */
  function FeaturedListing(s: Store): (items: set<Listed>)
    ensures ListedIds(items) == FeaturedIds(s)
    ensures forall l | l in items ::
      l.googleBookId in s.books && l.row == s.books[l.googleBookId] && l.tags == TagNames(s, l.row.id)
  {
    var items := set g | g in s.books && s.books[g].featured :: Listed(g, s.books[g], TagNames(s, s.books[g].id));
    assert forall g | g in FeaturedIds(s) :: Listed(g, s.books[g], TagNames(s, s.books[g].id)) in items;
    items
  }

  /** Featured books carrying the tag `name`. The tag join keeps only the
      row of that tag, so each entry's aggregated tag list is just `name`. */
  function TaggedListing(s: Store, name: string): (items: set<Listed>)
    ensures ListedIds(items) == set g | g in s.books && s.books[g].featured && Tagged(s, g, name)
    ensures ListedIds(items) <= FeaturedIds(s)
    ensures forall l | l in items :: l.googleBookId in s.books && l.row == s.books[l.googleBookId] && l.tags == {name}
  {
    var items := set g | g in s.books && s.books[g].featured && Tagged(s, g, name) :: Listed(g, s.books[g], {name});
    assert forall g | g in s.books && s.books[g].featured && Tagged(s, g, name) :: Listed(g, s.books[g], {name}) in items;
    items
  }

  /** `volumeInfo.title || "Unknown Title"`. */
  function VolumeTitle(v: Volume): string
  {
    if Falsy(v.title) then UnknownTitle else v.title.value
  }

  /** `volumeInfo.authors || []`. */
  function VolumeAuthors(v: Volume): seq<string>
  {
    if v.authors.Some? then v.authors.value else []
  }

  /** `industryIdentifiers?.find(id => id.type === "ISBN_13")?.identifier || null`:
      the identifier of the first ISBN_13 entry, unless that one is empty. */
  function Isbn13(ids: seq<Identifier>): (r: Option<string>)
    ensures (forall i | 0 <= i < |ids| :: ids[i].kind != "ISBN_13") ==> r.None?
    ensures r.Some? ==>
      && r.value != ""
      && exists i | 0 <= i < |ids| ::
           ids[i].kind == "ISBN_13" && ids[i].identifier == r.value && forall j | 0 <= j < i :: ids[j].kind != "ISBN_13"
    ensures forall i | 0 <= i < |ids| && ids[i].kind == "ISBN_13" && (forall j | 0 <= j < i :: ids[j].kind != "ISBN_13") ::
      r == (if ids[i].identifier == "" then None else Some(ids[i].identifier))
  {
    if |ids| == 0 then None
    else if ids[0].kind == "ISBN_13" then (if ids[0].identifier == "" then None else Some(ids[0].identifier))
    else
      var r := Isbn13(ids[1..]);
      forall i | 0 <= i < |ids| && ids[i].kind == "ISBN_13" && (forall j | 0 <= j < i :: ids[j].kind != "ISBN_13")
        ensures r == (if ids[i].identifier == "" then None else Some(ids[i].identifier))
      {
        assert ids[1..][i - 1] == ids[i];
        forall j | 0 <= j < i - 1 ensures ids[1..][j].kind != "ISBN_13" {
          assert ids[1..][j] == ids[j + 1];
        }
      }
      if r.Some? then
        var i :| 0 <= i < |ids[1..]| && ids[1..][i].kind == "ISBN_13" && ids[1..][i].identifier == r.value &&
          forall j | 0 <= j < i :: ids[1..][j].kind != "ISBN_13";
        assert ids[i + 1].kind == "ISBN_13" && ids[i + 1].identifier == r.value;
        assert forall j | 0 <= j < i + 1 :: ids[j].kind != "ISBN_13" by {
          forall j | 0 <= j < i + 1 ensures ids[j].kind != "ISBN_13" {
            if j > 0 { assert ids[j] == ids[1..][j - 1]; }
          }
        }
        r
      else
        assert forall i | 0 <= i < |ids[1..]| :: ids[1..][i] == ids[i + 1];
        r
  }

  /** The row the search loop inserts for a volume not stored yet. */
  function CachedRow(v: Volume, id: Id): Book
  {
    Book(id, VolumeTitle(v), Some(VolumeAuthors(v)), None, None, Isbn13(v.identifiers), false)
  }

  /** The ids of the catalog's volumes. */
  function VolumeIds(vs: seq<Volume>): set<string>
  {
    set i | 0 <= i < |vs| :: vs[i].id
  }

  /** Position of the first volume with id `g`. */
  function FirstVolume(vs: seq<Volume>, g: string): (i: nat)
    requires g in VolumeIds(vs)
    ensures i < |vs| && vs[i].id == g
    ensures forall j | 0 <= j < i :: vs[j].id != g
  {
    if vs[0].id == g then 0
    else
      assert g in VolumeIds(vs[1..]) by {
        var k :| 0 <= k < |vs| && vs[k].id == g;
        assert vs[1..][k - 1] == vs[k];
      }
      1 + FirstVolume(vs[1..], g)
  }

  /** One step of the loop: `INSERT ... featured = FALSE ON CONFLICT (google_book_id) DO NOTHING`. */
  function CacheVolume(s: Store, v: Volume): Store
  {
    if v.id in s.books then s
    else s.(books := s.books[v.id := CachedRow(v, s.nextBook)], nextBook := s.nextBook + 1)
  }

  /** The search loop over the catalog's volumes: every unseen id gets a
      row, rows already stored are never modified, and nothing but `books`
      changes. */
  function CacheVolumes(s: Store, vs: seq<Volume>): (t: Store)
    decreases |vs|
    ensures t == s.(books := t.books, nextBook := t.nextBook)
    ensures t.books.Keys == s.books.Keys + VolumeIds(vs)
    ensures forall g | g in s.books :: t.books[g] == s.books[g]
  {
    if |vs| == 0 then s
    else
      VolumeIdsCons(vs);
      CacheVolumes(CacheVolume(s, vs[0]), vs[1..])
  }

  /** The ids of a non-empty answer: the first volume's and the rest's. */
  lemma VolumeIdsCons(vs: seq<Volume>)
    requires |vs| > 0
    ensures VolumeIds(vs) == {vs[0].id} + VolumeIds(vs[1..])
  {
    forall g | g in VolumeIds(vs) ensures g in {vs[0].id} + VolumeIds(vs[1..]) {
      var k :| 0 <= k < |vs| && vs[k].id == g;
      if k > 0 { assert vs[1..][k - 1] == vs[k]; }
    }
  }

  /** Each row the search loop adds is unfeatured and built from the first
      volume in the answer that carries its id; later duplicates change
      nothing. */
  lemma {:induction false} CachedRowsFromFirstVolume(s: Store, vs: seq<Volume>, g: string)
    requires g in CacheVolumes(s, vs).books && g !in s.books
    decreases |vs|
    ensures g in VolumeIds(vs)
    ensures CacheVolumes(s, vs).books[g] == CachedRow(vs[FirstVolume(vs, g)], CacheVolumes(s, vs).books[g].id)
    ensures !CacheVolumes(s, vs).books[g].featured
  {
    if |vs| == 0 {
      assert false;
    } else {
      var s1 := CacheVolume(s, vs[0]);
      assert CacheVolumes(s, vs) == CacheVolumes(s1, vs[1..]);
      if g == vs[0].id {
        assert FirstVolume(vs, g) == 0;
      } else {
        CachedRowsFromFirstVolume(s1, vs[1..], g);
        assert FirstVolume(vs, g) == 1 + FirstVolume(vs[1..], g);
      }
    }
  }

  /** One step of the search loop keeps the database valid. */
  lemma CacheVolumeValid(s: Store, v: Volume)
    ensures Valid(s) ==> Valid(CacheVolume(s, v))
  {
    if v.id !in s.books && Valid(s) {
      var b := CachedRow(v, s.nextBook);
      InsertBookValid(s, v.id, b);
      assert CacheVolume(s, v) == s.(books := s.books[v.id := b], nextBook := s.nextBook + 1);
    }
  }

  /** The search loop keeps the database valid: each new row takes the next
      local id. */
  lemma {:induction false} CacheVolumesValid(s: Store, vs: seq<Volume>)
    decreases |vs|
    ensures Valid(s) ==> Valid(CacheVolumes(s, vs))
  {
    if |vs| > 0 {
      var s1 := CacheVolume(s, vs[0]);
      assert CacheVolumes(s, vs) == CacheVolumes(s1, vs[1..]);
      CacheVolumeValid(s, vs[0]);
      CacheVolumesValid(s1, vs[1..]);
    }
  }

  /** GET /: with neither `q` nor `tag`, the featured books; with `tag`, the
      featured books carrying it (so `tag` wins over `q`); otherwise the
      catalog's volumes for `q`, passed through after caching them.
      `volumes` stands for the catalog's answer to the search. */
  function Search(s: Store, q: Option<string>, tag: Option<string>, volumes: seq<Volume>): (r: Reply)
    ensures r.response.status == 200
    ensures Falsy(q) && Falsy(tag) ==>
      && r.next == s
      && r.response.body.BookList?
      && ListedIds(r.response.body.items) == FeaturedIds(s)
      && forall l | l in r.response.body.items ::
           l.googleBookId in s.books && l.row == s.books[l.googleBookId] && l.tags == TagNames(s, l.row.id)
    ensures !Falsy(tag) ==>
      && r.next == s
      && r.response.body.BookList?
      && ListedIds(r.response.body.items) == set g | g in s.books && s.books[g].featured && Tagged(s, g, tag.value)
      && forall l | l in r.response.body.items ::
           l.googleBookId in s.books && l.row == s.books[l.googleBookId] && l.tags == {tag.value}
    ensures !Falsy(q) && Falsy(tag) ==>
      r.next == CacheVolumes(s, volumes) && r.response.body == CatalogItems(volumes)
    ensures Valid(s) ==> Valid(r.next)
  {
    if Falsy(q) && Falsy(tag) then Reply(s, Response(200, BookList(FeaturedListing(s))))
    else if !Falsy(tag) then Reply(s, Response(200, BookList(TaggedListing(s, tag.value))))
    else
      CacheVolumesValid(s, volumes);
      Reply(CacheVolumes(s, volumes), Response(200, CatalogItems(volumes)))
  }

  /** A truthy `tag` decides the answer alone: `q` and the catalog are not consulted. */
  lemma TagTakesPrecedence(s: Store, q1: Option<string>, q2: Option<string>, tag: Option<string>,
                           v1: seq<Volume>, v2: seq<Volume>)
    requires !Falsy(tag)
    ensures Search(s, q1, tag, v1) == Search(s, q2, tag, v2)
  {
  }

  // ----------------------------------------------- POST /:google_book_id/feature

  /** POST /:gid/feature: 404 for an unknown book, otherwise that one row gets
      `featured = TRUE`. */
  function Feature(s: Store, header: Option<string>, keyring: Keyring, gid: string): (r: Reply)
    ensures r.response.status == 200 || r.next == s
    ensures VerifyAdmin(s, header, keyring).Refuse? ==> r.response == VerifyAdmin(s, header, keyring).response
    ensures r.response.status == 404 <==> VerifyAdmin(s, header, keyring).Admit? && gid !in s.books
    ensures r.response.status == 404 ==> r.response == Fail(404, "Book not found")
    ensures r.response.status == 200 <==> VerifyAdmin(s, header, keyring).Admit? && gid in s.books
    ensures r.response.status == 200 ==>
      && r.next == s.(books := r.next.books)
      && r.next.books.Keys == s.books.Keys
      && r.next.books[gid] == s.books[gid].(featured := true)
      && (forall h | h in s.books && h != gid :: r.next.books[h] == s.books[h])
      && r.response.body == FeaturedBook(BookRecord(gid, r.next.books[gid]))
    ensures Valid(s) ==> Valid(r.next)
  {
    var gate := VerifyAdmin(s, header, keyring);
    if gate.Refuse? then Reply(s, gate.response)
    else if gid !in s.books then Reply(s, Fail(404, "Book not found"))
    else
      var b := s.books[gid].(featured := true);
      UpdateBookValid(s, gid, b);
      Reply(s.(books := s.books[gid := b]), Response(200, FeaturedBook(BookRecord(gid, b))))
  }

  /** Marking a book featured twice answers and leaves the same as once. */
  lemma FeatureIdempotent(s: Store, header: Option<string>, keyring: Keyring, gid: string)
    ensures Feature(Feature(s, header, keyring, gid).next, header, keyring, gid) == Feature(s, header, keyring, gid)
  {
  }

  // ------------------------------------------------- POST /:google_book_id/tags

  /** `INSERT INTO tags (name) ... ON CONFLICT (name) DO NOTHING`, then the
      tag's id: an existing tag keeps its id, a new one takes the next. */
  function EnsureTag(s: Store, name: string): (t: Store)
    ensures t == s.(tags := t.tags, nextTag := t.nextTag)
    ensures t.tags.Keys == s.tags.Keys + {name}
    ensures forall n | n in s.tags :: t.tags[n] == s.tags[n]
    ensures Valid(s) ==> Valid(t)
    ensures Valid(s) && name !in s.tags ==> t.tags[name] !in s.tags.Values
  {
    if name in s.tags then s
    else
      var t := s.(tags := s.tags[name := s.nextTag], nextTag := s.nextTag + 1);
      assert Valid(s) ==> Valid(t) by {
        if Valid(s) {
          TagInsertValid(s, name);
        }
      }
      t
  }

  /** POST /:gid/tags: 400 without a tag name, 404 for an unknown book;
      otherwise the tag is created unless it exists, and the link is added
      unless present. */
  function AddTag(s: Store, header: Option<string>, keyring: Keyring, gid: string, tagName: Option<string>): (r: Reply)
    ensures r.response.status == 200 || r.next == s
    ensures VerifyAdmin(s, header, keyring).Refuse? ==> r.response == VerifyAdmin(s, header, keyring).response
    ensures r.response.status == 400 <==> VerifyAdmin(s, header, keyring).Admit? && Falsy(tagName)
    ensures r.response.status == 400 ==> r.response == Fail(400, "Tag name required")
    ensures r.response.status == 404 <==> VerifyAdmin(s, header, keyring).Admit? && !Falsy(tagName) && gid !in s.books
    ensures r.response.status == 404 ==> r.response == Fail(404, "Book not found")
    ensures r.response.status == 200 <==> VerifyAdmin(s, header, keyring).Admit? && !Falsy(tagName) && gid in s.books
    ensures r.response.status == 200 ==>
      && r.response == Response(200, Message("Tag added to book"))
      && r.next == s.(tags := r.next.tags, nextTag := r.next.nextTag, bookTags := r.next.bookTags)
    ensures r.response.status == 200 ==>
      && r.next.tags.Keys == s.tags.Keys + {tagName.value}
      && (forall n | n in s.tags :: r.next.tags[n] == s.tags[n])
    ensures r.response.status == 200 ==>
      r.next.bookTags == s.bookTags + {(s.books[gid].id, r.next.tags[tagName.value])}
    ensures r.response.status == 200 ==> Tagged(r.next, gid, tagName.value)
    ensures Valid(s) ==> Valid(r.next)
  {
    var gate := VerifyAdmin(s, header, keyring);
    if gate.Refuse? then Reply(s, gate.response)
    else if Falsy(tagName) then Reply(s, Fail(400, "Tag name required"))
    else if gid !in s.books then Reply(s, Fail(404, "Book not found"))
    else
      var s1 := EnsureTag(s, tagName.value);
      var link := (s.books[gid].id, s1.tags[tagName.value]);
      var t := s1.(bookTags := s1.bookTags + {link});
      assert Valid(s) ==> Valid(t) by {
        if Valid(s) {
          LinkValid(s1, link);
        }
      }
      Reply(t, Response(200, Message("Tag added to book")))
  }

  /** Adding the same tag twice answers and leaves the same as adding it once. */
  lemma AddTagIdempotent(s: Store, header: Option<string>, keyring: Keyring, gid: string, tagName: Option<string>)
    ensures AddTag(AddTag(s, header, keyring, gid, tagName).next, header, keyring, gid, tagName)
         == AddTag(s, header, keyring, gid, tagName)
  {
  }

  // ------------------------------------------ DELETE /:google_book_id/tags/:tag

  /** DELETE /:gid/tags/:tag: 404 for an unknown book, then for an unknown
      tag, then for a missing link; otherwise only that link goes and the tag
      row stays. */
  function RemoveTag(s: Store, header: Option<string>, keyring: Keyring, gid: string, tagName: string): (r: Reply)
    ensures r.response.status == 200 || r.next == s
    ensures VerifyAdmin(s, header, keyring).Refuse? ==> r.response == VerifyAdmin(s, header, keyring).response
    ensures VerifyAdmin(s, header, keyring).Admit? && gid !in s.books ==>
      r.response == Fail(404, "Book not found")
    ensures VerifyAdmin(s, header, keyring).Admit? && gid in s.books && tagName !in s.tags ==>
      r.response == Fail(404, "Tag not found")
    ensures VerifyAdmin(s, header, keyring).Admit? && gid in s.books && tagName in s.tags && !Tagged(s, gid, tagName) ==>
      r.response == Fail(404, "Tag not associated with book")
    ensures r.response.status == 200 <==>
      VerifyAdmin(s, header, keyring).Admit? && gid in s.books && Tagged(s, gid, tagName)
    ensures r.response.status == 200 ==>
      && r.response == Response(200, Message("Tag removed from book"))
      && r.next == s.(bookTags := s.bookTags - {(s.books[gid].id, s.tags[tagName])})
      && !Tagged(r.next, gid, tagName)
      && tagName in r.next.tags
    ensures Valid(s) ==> Valid(r.next)
  {
    var gate := VerifyAdmin(s, header, keyring);
    if gate.Refuse? then Reply(s, gate.response)
    else if gid !in s.books then Reply(s, Fail(404, "Book not found"))
    else if tagName !in s.tags then Reply(s, Fail(404, "Tag not found"))
    else
      var link := (s.books[gid].id, s.tags[tagName]);
      if link !in s.bookTags then Reply(s, Fail(404, "Tag not associated with book"))
      else Reply(s.(bookTags := s.bookTags - {link}), Response(200, Message("Tag removed from book")))
  }

  /** Removing a tag undoes adding it: when the tag already existed and the
      link did not, add-then-remove gives back the original database. */
  lemma RemoveUndoesAdd(s: Store, header: Option<string>, keyring: Keyring, gid: string, tagName: string)
    requires VerifyAdmin(s, header, keyring).Admit? && gid in s.books && tagName != ""
    requires tagName in s.tags && !Tagged(s, gid, tagName)
    ensures RemoveTag(AddTag(s, header, keyring, gid, Some(tagName)).next, header, keyring, gid, tagName).next == s
  {
    var t := AddTag(s, header, keyring, gid, Some(tagName)).next;
    assert t.tags == s.tags;
    assert t.bookTags - {(s.books[gid].id, s.tags[tagName])} == s.bookTags;
  }

  // ---------------------------------------------------------------- POST /

  /** The body of POST /books. */
  datatype BookRequest = BookRequest(
    googleBookId: Option<string>,
    title: Option<string>,
    authors: Option<seq<string>>,
    description: Option<string>,
    imageUrl: Option<string>)

  /** POST /books: 400 without a book id or title; otherwise the row for that
      `google_book_id` is created (with a new local id, unfeatured) or its
      title, authors, description and image are overwritten, keeping its
      local id, `featured` flag and ISBN. Answers 201 with the row. */
  function SaveBook(s: Store, req: BookRequest): (r: Reply)
    ensures r.response.status == 400 <==> Falsy(req.googleBookId) || Falsy(req.title)
    ensures r.response.status == 400 ==> r == Reply(s, Fail(400, "Book ID and title are required"))
    ensures r.response.status != 400 ==>
      var gid := req.googleBookId.value;
      && r.response.status == 201
      && r.next == s.(books := r.next.books, nextBook := r.next.nextBook)
      && r.next.books.Keys == s.books.Keys + {gid}
      && (forall h | h in s.books && h != gid :: r.next.books[h] == s.books[h])
      && r.next.books[gid].title == req.title.value
      && r.next.books[gid].authors == req.authors
      && r.next.books[gid].description == req.description
      && r.next.books[gid].imageUrl == req.imageUrl
      && (gid in s.books ==>
            && r.next.books[gid].id == s.books[gid].id
            && r.next.books[gid].featured == s.books[gid].featured
            && r.next.books[gid].isbn == s.books[gid].isbn)
      && (gid !in s.books ==>
            && !r.next.books[gid].featured && r.next.books[gid].isbn.None?
            && (Valid(s) ==> r.next.books[gid].id !in BookIds(s)))
      && r.response.body == SavedBook(BookRecord(gid, r.next.books[gid]))
    ensures Valid(s) ==> Valid(r.next)
  {
    if Falsy(req.googleBookId) || Falsy(req.title) then Reply(s, Fail(400, "Book ID and title are required"))
    else
      var gid := req.googleBookId.value;
      if gid !in s.books then
        var b := Book(s.nextBook, req.title.value, req.authors, req.description, req.imageUrl, None, false);
        InsertBookValid(s, gid, b);
        Reply(s.(books := s.books[gid := b], nextBook := s.nextBook + 1), Response(201, SavedBook(BookRecord(gid, b))))
      else
        var b := s.books[gid].(title := req.title.value, authors := req.authors,
                               description := req.description, imageUrl := req.imageUrl);
        UpdateBookValid(s, gid, b);
        Reply(s.(books := s.books[gid := b]), Response(201, SavedBook(BookRecord(gid, b))))
  }

  /** Repeating an upsert answers and leaves the same as doing it once. */
  lemma SaveBookIdempotent(s: Store, req: BookRequest)
    ensures SaveBook(SaveBook(s, req).next, req) == SaveBook(s, req)
  {
  }

  /** Two upserts of the same book leave one row carrying the second call's
      metadata, with the local id and `featured` flag the first one left. */
  lemma SaveBookLastWins(s: Store, a: BookRequest, b: BookRequest)
    requires !Falsy(a.googleBookId) && !Falsy(a.title) && !Falsy(b.title)
    requires b.googleBookId == a.googleBookId
    ensures var t1 := SaveBook(s, a).next;
            var t2 := SaveBook(t1, b).next;
            var gid := a.googleBookId.value;
            && t2.books.Keys == t1.books.Keys
            && t2.books[gid] == t1.books[gid].(title := b.title.value, authors := b.authors,
                                               description := b.description, imageUrl := b.imageUrl)
  {
  }
}
