/** The state of the books page and of its edit dialog, and the handlers
    that replace it step by step.  The generated API client is outside the
    model: each handler returns the calls it makes, in order, and takes the
    outcome of each call as a parameter. */
module BooksPage {
  import opened Common
  import opened Entities
  import Text
  import BookLists

  /** What an awaited API call produced: its value, or the exception it threw
      (with the exception's message, when it has one). */
  datatype ApiReply<T> = Succeeded(value: T) | Threw(message: Option<string>)

  /** The requests the page sends, in the client's own terms. */
  datatype ApiCall =
    | CreateBookCall(title: string, pages: int)
    | UpdateBookCall(bookId: Id, newPageCount: int, newTitle: string, authorsIds: seq<Id>, genreId: Option<Id>)
    | DeleteBookCall(bookId: Id)

  const DEFAULT_TITLE: string := "Book Title"
  const CREATE_FAILED: string := "Create failed"

  class Page {
    var books: seq<BookDto>              // allBooksAtom
    var authors: seq<AuthorDto>          // allAuthorsAtom, read only here
    var formTitle: string                // createBookForm.title
    var formPages: int                   // createBookForm.pages
    var selectedAuthorIds: seq<Id>
    var selectedGenreIds: seq<Id>
    var error: Option<string>
    var editing: Option<BookDto>

    constructor (books0: seq<BookDto>, authors0: seq<AuthorDto>)
      ensures books == books0 && authors == authors0
      ensures formTitle == DEFAULT_TITLE && formPages == 1
      ensures selectedAuthorIds == [] && selectedGenreIds == []
      ensures error == None && editing == None
    {
      books, authors := books0, authors0;
      formTitle, formPages := DEFAULT_TITLE, 1;
      selectedAuthorIds, selectedGenreIds := [], [];
      error, editing := None, None;
    }

    /** The author label the row of `book` shows. */
    function RowAuthorLabel(book: BookDto): string
      reads this
    {
      BookLists.AuthorLabel(authors, book.authorsIds)
    }

    method ToggleSelectedAuthor(id: Id)
      modifies this`selectedAuthorIds
      ensures selectedAuthorIds == BookLists.Toggle(old(selectedAuthorIds), id)
    {
      selectedAuthorIds := BookLists.Toggle(selectedAuthorIds, id);
    }

    method ToggleSelectedGenre(id: Id)
      modifies this`selectedGenreIds
      ensures selectedGenreIds == BookLists.Toggle(old(selectedGenreIds), id)
    {
      selectedGenreIds := BookLists.Toggle(selectedGenreIds, id);
    }

    /** Removing a chip drops that id from the selection. */
    method RemoveAuthorChip(id: Id)
      modifies this`selectedAuthorIds
      ensures selectedAuthorIds == BookLists.Without(old(selectedAuthorIds), id)
    {
      selectedAuthorIds := BookLists.Without(selectedAuthorIds, id);
    }

    method RemoveGenreChip(id: Id)
      modifies this`selectedGenreIds
      ensures selectedGenreIds == BookLists.Without(old(selectedGenreIds), id)
    {
      selectedGenreIds := BookLists.Without(selectedGenreIds, id);
    }

    /** onCreateBook: nothing at all for a title that trims to "" (one made
        only of JavaScript whitespace); otherwise create the
        book, then attach the selected authors and the first selected genre,
        then append the result and reset the form. */
    method OnCreateBook(created: ApiReply<BookDto>, updated: ApiReply<BookDto>) returns (calls: seq<ApiCall>)
      modifies this
      ensures authors == old(authors) && editing == old(editing) && formPages == old(formPages)
      ensures Text.IsJsBlank(old(formTitle)) ==>
        && calls == []
        && books == old(books) && formTitle == old(formTitle) && error == old(error)
        && selectedAuthorIds == old(selectedAuthorIds) && selectedGenreIds == old(selectedGenreIds)
      ensures !Text.IsJsBlank(old(formTitle)) ==>
        && |calls| >= 1
        && calls[0] == CreateBookCall(old(formTitle), old(formPages))
        && (created.Threw? ==> |calls| == 1)
        && (created.Succeeded? ==>
              calls == [CreateBookCall(old(formTitle), old(formPages)),
                        UpdateBookCall(created.value.id, created.value.pages as int, created.value.title,
                                       old(selectedAuthorIds), BookLists.FirstSelected(old(selectedGenreIds)))])
      // A failed call records its message and changes nothing else.
      ensures !Text.IsJsBlank(old(formTitle)) && (created.Threw? || updated.Threw?) ==>
        && error == Some((if created.Threw? then created.message else updated.message).GetOr(CREATE_FAILED))
        && books == old(books) && formTitle == old(formTitle)
        && selectedAuthorIds == old(selectedAuthorIds) && selectedGenreIds == old(selectedGenreIds)
      ensures !Text.IsJsBlank(old(formTitle)) && created.Succeeded? && updated.Succeeded? ==>
        && books == old(books) + [updated.value]
        && formTitle == "" && selectedAuthorIds == [] && selectedGenreIds == []
        && error == None
    {
      Text.TrimEmptyIffBlank(formTitle);
      if Text.Trim(formTitle) == "" {
        return [];
      }
      error := None;
      calls := [CreateBookCall(formTitle, formPages)];
      match created
      case Threw(message) =>
        error := Some(message.GetOr(CREATE_FAILED));
      case Succeeded(book) =>
        calls := calls + [UpdateBookCall(book.id, book.pages as int, book.title,
                                         selectedAuthorIds, BookLists.FirstSelected(selectedGenreIds))];
        match updated
        case Threw(message) =>
          error := Some(message.GetOr(CREATE_FAILED));
        case Succeeded(result) =>
          books := books + [result];
          formTitle := "";
          selectedAuthorIds := [];
          selectedGenreIds := [];
    }

    /** The edit button of a row opens the dialog on that book. */
    method StartEdit(book: BookDto)
      modifies this`editing
      ensures editing == Some(book)
    {
      editing := Some(book);
    }

    method CloseEdit()
      modifies this`editing
      ensures editing == None
    {
      editing := None;
    }

    /** onSaveEdit: without an open dialog nothing happens; otherwise update
        the edited book and, on success, replace its entries and close. */
    method OnSaveEdit(title: string, pages: int, authorsIds: seq<Id>, genreId: Option<Id>,
                      updated: ApiReply<BookDto>) returns (calls: seq<ApiCall>)
      modifies this`books, this`editing
      ensures old(editing).None? ==> calls == [] && books == old(books) && editing == old(editing)
      ensures old(editing).Some? ==>
        calls == [UpdateBookCall(old(editing).value.id, pages, title, authorsIds, genreId)]
      ensures old(editing).Some? && updated.Succeeded? ==>
        books == BookLists.ReplaceById(old(books), old(editing).value.id, updated.value) && editing == None
      ensures old(editing).Some? && updated.Threw? ==> books == old(books) && editing == old(editing)
    {
      if editing.None? {
        return [];
      }
      var id := editing.value.id;
      calls := [UpdateBookCall(id, pages, title, authorsIds, genreId)];
      if updated.Succeeded? {
        books := BookLists.ReplaceById(books, id, updated.value);
        editing := None;
      }
    }

    /** onDelete: delete the book and, on success, drop it from the list. */
    method OnDelete(book: BookDto, deleted: ApiReply<BookDto>) returns (calls: seq<ApiCall>)
      modifies this`books
      ensures calls == [DeleteBookCall(book.id)]
      ensures deleted.Succeeded? ==> books == BookLists.RemoveById(old(books), book.id)
      ensures deleted.Threw? ==> books == old(books)
    {
      calls := [DeleteBookCall(book.id)];
      if deleted.Succeeded? {
        books := BookLists.RemoveById(books, book.id);
      }
    }
  }

  /** What the edit dialog hands to onSaveEdit. */
  datatype EditSubmission = EditSubmission(title: string, pages: int, authorsIds: seq<Id>, genreId: Option<Id>)

  /** The edit dialog's own state, initialised from the edited book. */
  class EditDialog {
    var title: string
    var pages: int
    var authorsIds: seq<Id>
    var genreIds: seq<Id>

    /** `initial.genre?.id ? [initial.genre.id] : []`: an empty genre id is
        falsy and starts the dialog with no genre selected. */
    constructor (initial: BookDto)
      ensures title == initial.title && pages == initial.pages as int
      ensures authorsIds == initial.authorsIds
      ensures genreIds == if initial.genre.Some? && initial.genre.value.id != "" then [initial.genre.value.id] else []
    {
      title, pages, authorsIds := initial.title, initial.pages as int, initial.authorsIds;
      genreIds := if initial.genre.Some? && initial.genre.value.id != "" then [initial.genre.value.id] else [];
    }

    method ToggleAuthor(id: Id)
      modifies this`authorsIds
      ensures authorsIds == BookLists.Toggle(old(authorsIds), id)
    {
      authorsIds := BookLists.Toggle(authorsIds, id);
    }

    method ToggleGenre(id: Id)
      modifies this`genreIds
      ensures genreIds == BookLists.Toggle(old(genreIds), id)
    {
      genreIds := BookLists.Toggle(genreIds, id);
    }

    method RemoveAuthorChip(id: Id)
      modifies this`authorsIds
      ensures authorsIds == BookLists.Without(old(authorsIds), id)
    {
      authorsIds := BookLists.Without(authorsIds, id);
    }

    method RemoveGenreChip(id: Id)
      modifies this`genreIds
      ensures genreIds == BookLists.Without(old(genreIds), id)
    {
      genreIds := BookLists.Without(genreIds, id);
    }

    /** The Save button: only the first selected genre is passed on. */
    method Save() returns (s: EditSubmission)
      ensures s.title == title && s.pages == pages && s.authorsIds == authorsIds
      ensures s.genreId.None? <==> genreIds == []
      ensures s.genreId.Some? ==> s.genreId.value == genreIds[0]
    {
      s := EditSubmission(title, pages, authorsIds, BookLists.FirstSelected(genreIds));
    }
  }
}
