/** LibraryService over an in-memory database context: three tables that the
    methods update in place.  Each mutating method works on a tracked copy
    of the entity and writes it back at the single SaveChangesAsync, so an
    exception thrown before that point persists nothing. */
module Service {
  import opened Common
  import opened Entities
  import opened Requests
  import Text
  import Library

  class LibraryService {
    var books: map<Id, Book>
    var authors: map<Id, Author>
    var genres: map<Id, Genre>

    /** The persisted state of the database. */
    function State(): Store
      reads this
    {
      Store(books, authors, genres)
    }

    ghost predicate Valid()
      reads this
    {
      State().Valid()
    }

    /** A service over an already-populated database. */
    constructor (initial: Store)
      requires initial.Valid()
      ensures Valid() && State() == initial
    {
      books, authors, genres := initial.books, initial.authors, initial.genres;
    }

    /** GetBooks: the projection of every stored book.  The query's row
        order is not modelled, so the listing is a set; ids are unique in it. */
    function GetBooks(): (r: set<BookDto>)
      reads this
      requires Valid()
      ensures forall dto :: dto in r <==> dto.id in books && dto == State().ProjectBook(books[dto.id])
      ensures forall d1, d2 :: d1 in r && d2 in r && d1.id == d2.id ==> d1 == d2
    {
      set b | b in books.Values :: State().ProjectBook(b)
    }

    method CreateBook(dto: CreateBookRequest, freshId: Id, now: Timestamp) returns (r: Result<BookDto>)
      requires Valid()
      requires freshId !in books
      modifies this
      ensures Valid()
      ensures var reply := Library.CreateBook(old(State()), dto, freshId, now);
              State() == reply.store && r == reply.result
    {
      if !ValidCreateBook(dto) {
        return Err(ValidationFailed);
      }
      var book := Book(freshId, dto.title.value, dto.pages, now, [], None);
      books := books[freshId := book];           // Books.Add + SaveChangesAsync
      r := Ok(State().ProjectBook(book));
      assert State() == Library.CreateBook(old(State()), dto, freshId, now).store;
    }

    method UpdateBook(dto: UpdateBookRequest) returns (r: Result<BookDto>)
      requires Valid()
      modifies this
      ensures Valid()
      ensures var reply := Library.UpdateBook(old(State()), dto);
              State() == reply.store && r == reply.result
    {
      if !ValidUpdateBook(dto) {
        return Err(ValidationFailed);
      }
      var id := dto.bookId.value;
      if id !in books {
        return Err(BookNotFound(id));
      }
      var book := books[id];                     // the tracked entity
      book := book.(pages := dto.newPageCount, title := dto.newTitle.value);
      if dto.genreId.Some? {
        if dto.genreId.value !in genres {
          return Err(GenreNotFound(dto.genreId.value));
        }
        assert genres[dto.genreId.value].id == dto.genreId.value;
        book := book.(genre := Some(genres[dto.genreId.value].id));
      } else {
        book := book.(genre := None);
      }
      book := book.(authorIds := []);            // Authors.Clear()
      var ids := dto.authorsIds.value;
      ghost var cleared := book;
      var i := 0;
      while i < |ids|
        invariant 0 <= i <= |ids|
        invariant book == cleared.(authorIds := ids[..i])
        invariant Library.FirstMissingAuthor(authors, ids) == Library.FirstMissingAuthor(authors, ids[i..])
      {
        if ids[i] !in authors {
          return Err(AuthorNotFound(ids[i]));
        }
        assert ids[i..][1..] == ids[i + 1..];
        book := book.(authorIds := book.authorIds + [authors[ids[i]].id]);
        assert ids[..i + 1] == ids[..i] + [ids[i]];
        i := i + 1;
      }
      assert ids[..i] == ids && ids[i..] == [];
      assert book == old(books)[id].(title := dto.newTitle.value, pages := dto.newPageCount,
                                     genre := dto.genreId, authorIds := ids);
      books := books[id := book];                // SaveChangesAsync
      r := Ok(State().ProjectBook(book));
    }

    method DeleteBook(bookId: Id) returns (r: Result<BookDto>)
      requires Valid()
      modifies this
      ensures Valid()
      ensures var reply := Library.DeleteBook(old(State()), bookId);
              State() == reply.store && r == reply.result
    {
      if bookId !in books {
        return Err(BookNotFound(bookId));
      }
      var book := books[bookId];
      r := Ok(State().ProjectBook(book));
      books := books - {bookId};
    }

    /** `valid` is the verdict of validating CreateAuthorDto, which is not part of this model. */
    method CreateAuthor(dto: CreateAuthorRequest, valid: bool, freshId: Id, now: Timestamp) returns (r: Result<AuthorDto>)
      requires Valid()
      requires freshId !in authors
      modifies this
      ensures Valid()
      ensures var reply := Library.CreateAuthor(old(State()), dto, valid, freshId, now);
              State() == reply.store && r == reply.result
    {
      if !valid {
        return Err(ValidationFailed);
      }
      var author := Author(freshId, dto.name, now);
      authors := authors[freshId := author];
      r := Ok(ProjectAuthor(author));
    }

    method UpdateAuthor(dto: UpdateAuthorRequest) returns (r: Result<AuthorDto>)
      requires Valid()
      modifies this
      ensures Valid()
      ensures var reply := Library.UpdateAuthor(old(State()), dto);
              State() == reply.store && r == reply.result
    {
      if !ValidUpdateAuthor(dto) {
        return Err(ValidationFailed);
      }
      var id := dto.authorId.value;
      if id !in authors {
        return Err(AuthorNotFound(id));
      }
      var author := authors[id];
      if !Text.IsNullOrWhiteSpace(dto.newName) && author.name != dto.newName.value {
        author := author.(name := dto.newName.value);
      }
      authors := authors[id := author];          // SaveChangesAsync
      r := Ok(ProjectAuthor(author));
    }

    method DeleteAuthor(authorId: Id) returns (r: Result<AuthorDto>)
      requires Valid()
      modifies this
      ensures Valid()
      ensures var reply := Library.DeleteAuthor(old(State()), authorId);
              State() == reply.store && r == reply.result
    {
      if authorId !in authors {
        return Err(AuthorNotFound(authorId));
      }
      var author := authors[authorId];
      authors := authors - {authorId};
      r := Ok(ProjectAuthor(author));
    }
  }
}
