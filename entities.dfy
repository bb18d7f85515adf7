/** The stored entities (Book, Author, Genre), the in-memory store that
    stands for the database context, and the response projections. */
module Entities {
  import opened Common

  /** A stored book.  `authorIds` is the Book–Author association in the order
      it was last written; `genre` is the optional Genre reference. */
  datatype Book = Book(
    id: Id,
    title: string,
    pages: int32,
    createdAt: Timestamp,
    authorIds: seq<Id>,
    genre: Option<Id>)

  datatype Author = Author(id: Id, name: string, createdAt: Timestamp)

  datatype Genre = Genre(id: Id, name: string, createdAt: Timestamp)

  /** The nested genre object of a book response. */
  datatype GenreRef = GenreRef(id: Id, name: string)

  /** Response shapes: {id, title, pages, createdAt, authorsIds, genre?} and
      {id, name, createdAt}. */
  datatype BookDto = BookDto(
    id: Id,
    title: string,
    pages: int32,
    createdAt: Timestamp,
    authorsIds: seq<Id>,
    genre: Option<GenreRef>)

  datatype AuthorDto = AuthorDto(id: Id, name: string, createdAt: Timestamp)

  /** The three tables, each keyed by the primary key of its rows. */
  datatype Store = Store(
    books: map<Id, Book>,
    authors: map<Id, Author>,
    genres: map<Id, Genre>)
  {
    /** Every row sits under its own id, and a book's genre reference (a
        foreign key of the Books table) names a stored genre.  Author
        references are not constrained: deleting an author leaves them. */
    predicate Valid() {
      && (forall id :: id in books ==> books[id].id == id)
      && (forall id :: id in authors ==> authors[id].id == id)
      && (forall id :: id in genres ==> genres[id].id == id)
      && (forall id :: id in books && books[id].genre.Some? ==> books[id].genre.value in genres)
    }

    /** The book response: the genre reference is resolved to {id, name}. */
    function ProjectBook(b: Book): (dto: BookDto)
      ensures dto.genre.Some? <==> b.genre.Some? && b.genre.value in genres
    {
      BookDto(b.id, b.title, b.pages, b.createdAt, b.authorIds,
        if b.genre.Some? && b.genre.value in genres
        then Some(GenreRef(b.genre.value, genres[b.genre.value].name))
        else None)
    }
  }

  function ProjectAuthor(a: Author): AuthorDto {
    AuthorDto(a.id, a.name, a.createdAt)
  }
}
