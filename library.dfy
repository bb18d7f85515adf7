/** LibraryService's mutation rules as pure transitions of the store.  Each
    function returns the store as persisted after the operation (what
    SaveChangesAsync wrote, or the old store when an exception came first)
    together with the response or the error. */
module Library {
  import opened Common
  import opened Entities
  import opened Requests
  import Text

  datatype Reply<T> = Reply(store: Store, result: Result<T>)

  /** The first id of `ids` that names no stored author, if any: the id on
      which `dbctx.Authors.First(a => a.Id == id)` throws. */
  function FirstMissingAuthor(authors: map<Id, Author>, ids: seq<Id>): (r: Option<Id>)
    ensures r.None? <==> forall i :: 0 <= i < |ids| ==> ids[i] in authors
    ensures r.Some? ==> exists k :: 0 <= k < |ids| && ids[k] == r.value && r.value !in authors
                                    && forall j :: 0 <= j < k ==> ids[j] in authors
  {
    if ids == [] then None
    else if ids[0] !in authors then Some(ids[0])
    else
      var r := FirstMissingAuthor(authors, ids[1..]);
      assert forall i :: 1 <= i < |ids| ==> ids[i] == ids[1..][i - 1];
      r
  }

  /** CreateBook: validate, then add one book with a fresh id, no authors and
      no genre. */
  function CreateBook(s: Store, dto: CreateBookRequest, freshId: Id, now: Timestamp): (r: Reply<BookDto>)
    requires freshId !in s.books
    ensures r.result.Ok? <==> ValidCreateBook(dto)
    ensures r.result.Err? ==> r == Reply(s, Err(ValidationFailed))
    // Exactly one book is added: new id, no authors, no genre.
    ensures r.result.Ok? ==>
      && r.store == s.(books := s.books[freshId := Book(freshId, dto.title.value, dto.pages, now, [], None)])
      && |r.store.books| == |s.books| + 1
      && r.result.value == BookDto(freshId, dto.title.value, dto.pages, now, [], None)
    ensures s.Valid() ==> r.store.Valid()
  {
    if !ValidCreateBook(dto) then Reply(s, Err(ValidationFailed))
    else
      var book := Book(freshId, dto.title.value, dto.pages, now, [], None);
      var s' := s.(books := s.books[freshId := book]);
      MapAddSize(s.books, freshId, book);
      Reply(s', Ok(s'.ProjectBook(book)))
  }

  /** UpdateBook: validate; find the book, then the genre (when one is given),
      then every listed author, in that order; only when all are found are
      title, pages, genre and the whole author list overwritten and saved. */
  function UpdateBook(s: Store, dto: UpdateBookRequest): (r: Reply<BookDto>)
    // Nothing is persisted unless every lookup succeeded.
    ensures r.result.Err? ==> r.store == s
    ensures r.result.Ok? <==>
      && ValidUpdateBook(dto)
      && dto.bookId.value in s.books
      && (dto.genreId.None? || dto.genreId.value in s.genres)
      && (forall i :: 0 <= i < |dto.authorsIds.value| ==> dto.authorsIds.value[i] in s.authors)
    ensures !ValidUpdateBook(dto) ==> r.result == Err(ValidationFailed)
    ensures ValidUpdateBook(dto) && dto.bookId.value !in s.books ==> r.result == Err(BookNotFound(dto.bookId.value))
    // Only the looked-up book changes: its id and creation time stay, title,
    // pages, authors and genre are those of the request.
    ensures r.result.Ok? ==>
      var id := dto.bookId.value;
      r.store == s.(books := s.books[id := Book(s.books[id].id, dto.newTitle.value, dto.newPageCount,
                                                s.books[id].createdAt, dto.authorsIds.value, dto.genreId)])
    // The response is the projection of the book as saved: its id and
    // creation time are the stored book's, the rest is the request's.
    ensures r.result.Ok? ==>
      var id := dto.bookId.value;
      var dtoOut := r.result.value;
      && dtoOut == r.store.ProjectBook(r.store.books[id])
      && dtoOut.id == s.books[id].id && dtoOut.createdAt == s.books[id].createdAt
      && (s.Valid() ==> dtoOut.id == id)
      && dtoOut.title == dto.newTitle.value && dtoOut.pages == dto.newPageCount
      && dtoOut.authorsIds == dto.authorsIds.value
      && (dto.genreId.None? ==> dtoOut.genre.None?)
      && (dto.genreId.Some? ==> dtoOut.genre == Some(GenreRef(dto.genreId.value, s.genres[dto.genreId.value].name)))
    ensures s.Valid() ==> r.store.Valid()
  {
    if !ValidUpdateBook(dto) then Reply(s, Err(ValidationFailed))
    else
      var id := dto.bookId.value;
      if id !in s.books then Reply(s, Err(BookNotFound(id)))
      else if dto.genreId.Some? && dto.genreId.value !in s.genres then Reply(s, Err(GenreNotFound(dto.genreId.value)))
      else match FirstMissingAuthor(s.authors, dto.authorsIds.value)
        case Some(missing) => Reply(s, Err(AuthorNotFound(missing)))
        case None =>
          var book := s.books[id].(title := dto.newTitle.value, pages := dto.newPageCount,
                                   genre := dto.genreId, authorIds := dto.authorsIds.value);
          var s' := s.(books := s.books[id := book]);
          Reply(s', Ok(s'.ProjectBook(book)))
  }

  /** DeleteBook: remove the book with that id and return what it was. */
  function DeleteBook(s: Store, bookId: Id): (r: Reply<BookDto>)
    ensures r.result.Ok? <==> bookId in s.books
    ensures r.result.Err? ==> r == Reply(s, Err(BookNotFound(bookId)))
    ensures r.result.Ok? ==>
      && r.store == s.(books := s.books - {bookId})
      && |r.store.books| == |s.books| - 1
      && r.result.value == s.ProjectBook(s.books[bookId])
    ensures s.Valid() ==> r.store.Valid()
  {
    if bookId !in s.books then Reply(s, Err(BookNotFound(bookId)))
    else
      MapRemoveSize(s.books, bookId);
      Reply(s.(books := s.books - {bookId}), Ok(s.ProjectBook(s.books[bookId])))
  }

  /** CreateAuthor: `valid` is the verdict of validating CreateAuthorDto,
      which is not part of this model; on success one author with a fresh id
      is added. */
  function CreateAuthor(s: Store, dto: CreateAuthorRequest, valid: bool, freshId: Id, now: Timestamp): (r: Reply<AuthorDto>)
    requires freshId !in s.authors
    ensures r.result.Ok? <==> valid
    ensures r.result.Err? ==> r == Reply(s, Err(ValidationFailed))
    ensures r.result.Ok? ==>
      && r.store == s.(authors := s.authors[freshId := Author(freshId, dto.name, now)])
      && |r.store.authors| == |s.authors| + 1
      && r.result.value == AuthorDto(freshId, dto.name, now)
    ensures s.Valid() ==> r.store.Valid()
  {
    if !valid then Reply(s, Err(ValidationFailed))
    else
      var author := Author(freshId, dto.name, now);
      MapAddSize(s.authors, freshId, author);
      Reply(s.(authors := s.authors[freshId := author]), Ok(ProjectAuthor(author)))
  }

  /** UpdateAuthor: validate, find the author, and rename it when the new name
      is not blank and differs ordinally from the current one.  The primary
      key is never touched. */
  function UpdateAuthor(s: Store, dto: UpdateAuthorRequest): (r: Reply<AuthorDto>)
    ensures r.result.Err? ==> r.store == s
    ensures r.result.Ok? <==> ValidUpdateAuthor(dto) && dto.authorId.value in s.authors
    ensures !ValidUpdateAuthor(dto) ==> r.result == Err(ValidationFailed)
    ensures ValidUpdateAuthor(dto) && dto.authorId.value !in s.authors ==> r.result == Err(AuthorNotFound(dto.authorId.value))
    ensures r.result.Ok? ==>
      var id := dto.authorId.value;
      && r.store == s.(authors := s.authors[id := s.authors[id].(name := dto.newName.value)])
      && r.result.value == AuthorDto(s.authors[id].id, dto.newName.value, s.authors[id].createdAt)
    ensures s.Valid() ==> r.store.Valid()
  {
    if !ValidUpdateAuthor(dto) then Reply(s, Err(ValidationFailed))
    else
      var id := dto.authorId.value;
      if id !in s.authors then Reply(s, Err(AuthorNotFound(id)))
      else
        var author := s.authors[id];
        var author' :=
          if !Text.IsNullOrWhiteSpace(dto.newName) && author.name != dto.newName.value
          then author.(name := dto.newName.value)
          else author;
        Reply(s.(authors := s.authors[id := author']), Ok(ProjectAuthor(author')))
  }

  /** DeleteAuthor: remove the author with that id and return what it was.
      Books keep the id in their author lists. */
  function DeleteAuthor(s: Store, authorId: Id): (r: Reply<AuthorDto>)
    ensures r.result.Ok? <==> authorId in s.authors
    ensures r.result.Err? ==> r == Reply(s, Err(AuthorNotFound(authorId)))
    ensures r.result.Ok? ==>
      && r.store == s.(authors := s.authors - {authorId})
      && |r.store.authors| == |s.authors| - 1
      && r.result.value == ProjectAuthor(s.authors[authorId])
    ensures s.Valid() ==> r.store.Valid()
  {
    if authorId !in s.authors then Reply(s, Err(AuthorNotFound(authorId)))
    else
      MapRemoveSize(s.authors, authorId);
      Reply(s.(authors := s.authors - {authorId}), Ok(ProjectAuthor(s.authors[authorId])))
  }

  // ---- Properties relating several calls ---------------------------------

  /** Lookups fail in source order: the book, then the genre, then the first
      unknown author in request order. */
  lemma UpdateBookErrorOrder(s: Store, dto: UpdateBookRequest)
    requires ValidUpdateBook(dto) && dto.bookId.value in s.books
    ensures dto.genreId.Some? && dto.genreId.value !in s.genres ==>
      UpdateBook(s, dto).result == Err(GenreNotFound(dto.genreId.value))
    ensures (dto.genreId.None? || dto.genreId.value in s.genres) ==>
      forall k :: 0 <= k < |dto.authorsIds.value| && dto.authorsIds.value[k] !in s.authors
                  && (forall j :: 0 <= j < k ==> dto.authorsIds.value[j] in s.authors) ==>
        UpdateBook(s, dto).result == Err(AuthorNotFound(dto.authorsIds.value[k]))
  {
    var ids := dto.authorsIds.value;
    if dto.genreId.None? || dto.genreId.value in s.genres {
      forall k | 0 <= k < |ids| && ids[k] !in s.authors && (forall j :: 0 <= j < k ==> ids[j] in s.authors)
        ensures UpdateBook(s, dto).result == Err(AuthorNotFound(ids[k]))
      {
        var m := FirstMissingAuthor(s.authors, ids);
        assert m.Some?;
        var k' :| 0 <= k' < |ids| && ids[k'] == m.value && m.value !in s.authors
                  && forall j :: 0 <= j < k' ==> ids[j] in s.authors;
        assert !(k < k') && !(k' < k);
      }
    }
  }

  /** Two identical calls leave the same state and give the same response. */
  lemma UpdateBookIdempotent(s: Store, dto: UpdateBookRequest)
    ensures UpdateBook(UpdateBook(s, dto).store, dto) == UpdateBook(s, dto)
  {
    var r1 := UpdateBook(s, dto);
    if r1.result.Ok? {
      var id := dto.bookId.value;
      var r2 := UpdateBook(r1.store, dto);
      assert r2.result.Ok?;
      assert r2.store.books == r1.store.books;
    }
  }

  /** Full replacement: once an update of a book has succeeded, a second
      update of the same book behaves as if the first had never happened;
      in particular the author list ends up as exactly the second request's. */
  lemma UpdateBookLastWriteWins(s: Store, d1: UpdateBookRequest, d2: UpdateBookRequest)
    requires UpdateBook(s, d1).result.Ok?
    requires d2.bookId == d1.bookId
    ensures UpdateBook(UpdateBook(s, d1).store, d2).result == UpdateBook(s, d2).result
    ensures UpdateBook(s, d2).result.Ok? ==>
      UpdateBook(UpdateBook(s, d1).store, d2).store == UpdateBook(s, d2).store
  {
    var s1 := UpdateBook(s, d1).store;
    var id := d1.bookId.value;
    assert s1.books.Keys == s.books.Keys && s1.authors == s.authors && s1.genres == s.genres;
    if UpdateBook(s, d2).result.Ok? {
      assert UpdateBook(s1, d2).result.Ok?;
      assert UpdateBook(s1, d2).store.books == UpdateBook(s, d2).store.books;
    }
  }

  /** An author already on the book survives an update only if re-listed. */
  lemma UpdateBookAuthorSurvivesOnlyIfRelisted(s: Store, dto: UpdateBookRequest, a: Id)
    requires UpdateBook(s, dto).result.Ok?
    requires a in s.books[dto.bookId.value].authorIds
    ensures a in UpdateBook(s, dto).store.books[dto.bookId.value].authorIds <==> a in dto.authorsIds.value
  {
  }

  /** [Required] on NewName already rejects blank names, so for any request
      that reaches the lookup the service's own blank check passes and a
      successful update always leaves the requested name. */
  lemma UpdateAuthorBlankGuardRedundant(dto: UpdateAuthorRequest)
    requires ValidUpdateAuthor(dto)
    ensures !Text.IsNullOrWhiteSpace(dto.newName)
  {
  }

  /** The stored author changes exactly when the requested name differs. */
  lemma UpdateAuthorChangesIffNameDiffers(s: Store, dto: UpdateAuthorRequest)
    requires UpdateAuthor(s, dto).result.Ok?
    ensures UpdateAuthor(s, dto).store != s <==> s.authors[dto.authorId.value].name != dto.newName.value
  {
    var id := dto.authorId.value;
    var s' := UpdateAuthor(s, dto).store;
    if s.authors[id].name != dto.newName.value {
      assert s'.authors[id] != s.authors[id];
    } else {
      assert s'.authors == s.authors;
    }
  }

  /** A repeated rename is a no-op. */
  lemma UpdateAuthorIdempotent(s: Store, dto: UpdateAuthorRequest)
    ensures UpdateAuthor(UpdateAuthor(s, dto).store, dto) == UpdateAuthor(s, dto)
  {
    var r1 := UpdateAuthor(s, dto);
    if r1.result.Ok? {
      assert UpdateAuthor(r1.store, dto).store.authors == r1.store.authors;
    }
  }

  /** The client's create flow on the server: create the book, then update it
      with the created title and pages, the selected authors and a genre.
      When every reference resolves, the store gains exactly that book. */
  lemma CreateThenAttach(s: Store, title: string, pages: int32, authorsIds: seq<Id>, genreId: Option<Id>,
                         freshId: Id, now: Timestamp)
    requires freshId !in s.books
    requires !Text.IsNullOrWhiteSpace(Some(freshId))   // a Guid string
    requires ValidCreateBook(CreateBookRequest(pages, Some(title)))
    requires forall i :: 0 <= i < |authorsIds| ==> authorsIds[i] in s.authors
    requires genreId.None? || genreId.value in s.genres
    ensures var c := CreateBook(s, CreateBookRequest(pages, Some(title)), freshId, now);
            && c.result.Ok?
            && var created := c.result.value;
               var u := UpdateBook(c.store, UpdateBookRequest(Some(created.id), created.pages, Some(created.title),
                                                             Some(authorsIds), genreId));
               && u.result.Ok?
               && u.store == s.(books := s.books[freshId := Book(freshId, title, pages, now, authorsIds, genreId)])
  {
    var c := CreateBook(s, CreateBookRequest(pages, Some(title)), freshId, now);
    var created := c.result.value;
    var dto := UpdateBookRequest(Some(created.id), created.pages, Some(created.title), Some(authorsIds), genreId);
    ValidCreateBookIff(CreateBookRequest(pages, Some(title)));
    ValidUpdateBookIff(dto);
    var u := UpdateBook(c.store, dto);
    assert u.result.Ok?;
    assert u.store.books == s.books[freshId := Book(freshId, title, pages, now, authorsIds, genreId)];
  }

  /** The end-to-end scenario: author "1" Bob and genre "g1" Fantasy are
      stored; book "T" of 10 pages is created and then updated to "T2", 20
      pages, authors ["1"], genre "g1". */
  lemma EndToEndScenario(freshId: Id, now: Timestamp)
    requires !Text.IsNullOrWhiteSpace(Some(freshId))
    ensures
      var s := Store(map[], map["1" := Author("1", "Bob", 0)], map["g1" := Genre("g1", "Fantasy", 0)]);
      var c := CreateBook(s, CreateBookRequest(10, Some("T")), freshId, now);
      && c.result.Ok?
      && var u := UpdateBook(c.store, UpdateBookRequest(Some(c.result.value.id), 20, Some("T2"), Some(["1"]), Some("g1")));
         u.result == Ok(BookDto(freshId, "T2", 20, now, ["1"], Some(GenreRef("g1", "Fantasy"))))
  {
    var s := Store(map[], map["1" := Author("1", "Bob", 0)], map["g1" := Genre("g1", "Fantasy", 0)]);
    assert "T"[0] == 'T';
    assert "T2"[0] == 'T';
    ValidCreateBookIff(CreateBookRequest(10, Some("T")));
    var c := CreateBook(s, CreateBookRequest(10, Some("T")), freshId, now);
    var dto := UpdateBookRequest(Some(freshId), 20, Some("T2"), Some(["1"]), Some("g1"));
    ValidUpdateBookIff(dto);
  }
}
