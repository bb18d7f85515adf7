# Library administration: a verified model of the store rules and the books page

This project models two parts of a small library-administration tool.

The first part is the server's `LibraryService`, which creates, updates and deletes books and authors. It works over a database of three tables: books, authors and genres. Here the database is an in-memory store of three maps keyed by id:

- `Entities.Store` is the store as a value.
- `Library` gives each service operation as a pure transition from the old store to the persisted store plus the response or the error.
- `Service.LibraryService` is the imperative version. It is a class whose fields are the three maps, and its methods update them in place. Each method is proved to produce exactly the state and the response of its `Library` transition.

Each operation runs the data-annotation checks of its request DTO before it touches the store. `Requests` models those checks.

The second part is the client-side books page. `BookLists` holds its list transformations as functions on sequences: the checkbox toggle, the "first selected genre" choice, replacing or removing a book after an edit or a delete, and the author label of a row. `BooksPage.Page` and `BooksPage.EditDialog` hold the page's state and the state of its edit dialog, together with the handlers that replace that state. The API client is outside the model. Each handler therefore takes the outcome of every call it awaits as a parameter and returns the calls it makes, in order.

Modules: `Common` (ids, `int32`, Option/Result, errors), `Text` (.NET and JavaScript whitespace, `trim`, `join`), `Seqs` (`filter`, `map`), `Requests`, `Entities`, `Library`, `Service`, `BookLists`, `BooksPage`.

## How the source is read

- **`[Required]` rejects blank strings.** `[Required]` on a string keeps its default `AllowEmptyStrings = false`. With that default, .NET's `RequiredAttribute` rejects null and also every string for which `string.IsNullOrWhiteSpace` holds. So a whitespace-only title, name or id fails validation, and `[MinLength(1)]` adds nothing to it (`Requests.RequiredImpliesNonEmpty`). `[MinLength]` accepts null.
- **The service's blank-name check never fires.** `UpdateAuthor` checks `IsNullOrWhiteSpace(dto.NewName)`. Because validation comes first, that check always passes for a request that reaches it (`Library.UpdateAuthorBlankGuardRedundant`). A successful `UpdateAuthor` therefore always leaves the requested name.
- **Lookups are modelled as map membership.** `First(x => x.Id == id)` finds the row stored under `id`, because `Store.Valid()` keeps every row under its own id. When `First` finds nothing it throws. The model turns that into `BookNotFound`, `GenreNotFound` or `AuthorNotFound`, according to the table searched.
- **The null check after a lookup is dead.** The `author is null` branch of `UpdateAuthor` (LibraryService.cs:82-83) can never run, because `First` throws first. The model has no such branch.
- **`UpdateBook` persists nothing on failure.** It changes a tracked copy of the book. That change only reaches the store at the single `SaveChangesAsync`, so a lookup that throws leaves the persisted store unchanged. `Service.LibraryService.UpdateBook` mirrors this: it edits a local copy, clears the author list and refills it in a loop, and writes the book back only at the end.
- **A book's authors are an ordered list.** `UpdateBook` clears the book's author collection and adds the requested authors in request order (LibraryService.cs:49-50), so the model keeps an ordered list, exactly as requested.
- **Entities and API replies.** .NET `int` is `Common.int32`. Creation timestamps and fresh ids are parameters; the caller guarantees that a fresh id is not already in use. `ApiReply.Threw` carries the exception's message when there is one.
- **Whitespace differs between client and server.** JavaScript `trim` and .NET `IsWhiteSpace` use different whitespace sets. A title made only of U+0085 passes the client's blank check but fails server validation. U+FEFF is the other way round (`Text.WhiteSpaceSetsDiffer`).

## Model

| member | source | states |
|---|---|---|
| `Requests.RequiredString` | server/api/DTOs/Requests/CreateBookDto.cs:8 | `[Required]` on a string: null fails, and so does every string that `string.IsNullOrWhiteSpace` calls blank (AllowEmptyStrings is false by default); its meaning is stated by `Requests.RequiredStringIff` |
| `Requests.RequiredRef` | server/api/DTOs/Requests/UpdateBookDto.cs:11 | `[Required]` on the AuthorsIds list: only null fails, and an empty list passes |
| `Requests.MinLength` | server/api/DTOs/Requests/UpdateAuthorDto.cs:7-8 | `[MinLength(n)]`: null passes, and a present value passes iff it has at least n elements |
| `Requests.InRange` | server/api/DTOs/Requests/UpdateBookDto.cs:9 | `[Range(lo, hi)]` on an int: inclusive at both ends |
| `Requests.RequiredImpliesNonEmpty` | server/api/DTOs/Requests/CreateBookDto.cs:8 | a string that passes `[Required]` has length at least 1, so `[MinLength(1)]` never rejects anything `[Required]` accepts |
| `Requests.RequiredStringIff` | server/api/DTOs/Requests/UpdateBookDto.cs:10 | a present string passes `[Required]` exactly when it has a character that is not .NET whitespace |
| `Requests.ValidCreateBookIff` | server/api/DTOs/Requests/CreateBookDto.cs:7-8 | a create-book request is valid iff pages is at least 1 and the title is present and not blank |
| `Requests.ValidUpdateBookIff` | server/api/DTOs/Requests/UpdateBookDto.cs:8-12 | an update-book request is valid iff the lookup id and the title are present and not blank, the page count is at least 1 and the author list is present; the genre id is unconstrained |
| `Requests.UpdateBookEdgeCases` | server/api/DTOs/Requests/UpdateBookDto.cs:8-12 | 0 or -1 pages, a blank title, a missing author list or a missing id are rejected; an empty author list, Int32.MaxValue pages, a missing genre id and an empty-string genre id are accepted |
| `Requests.ValidUpdateAuthorIff` | server/api/DTOs/Requests/UpdateAuthorDto.cs:7-8 | an update-author request is valid iff the lookup id and the new name are both present and not blank |
| `Requests.ValidCreateBook` | server/api/DTOs/Requests/CreateBookDto.cs:7-8 | the attribute checks of CreateBookDto: `[Range(1, int.MaxValue)]` on Pages, and `[Required]` with `[MinLength(1)]` on Title |
| `Requests.ValidUpdateBook` | server/api/DTOs/Requests/UpdateBookDto.cs:8-12 | the attribute checks of UpdateBookDto: `[Required]` with `[MinLength(1)]` on the lookup id and on NewTitle, `[Range(1, Int32.MaxValue)]` on NewPageCout, `[Required]` on AuthorsIds, nothing on GenreId |
| `Requests.ValidUpdateAuthor` | server/api/DTOs/Requests/UpdateAuthorDto.cs:7-8 | the attribute checks of UpdateAuthorDto: `[Required]` with `[MinLength(1)]` on the lookup id and on NewName |
| `Entities.ProjectAuthor` | server/api/Services/LibraryService.cs:74 | the author response `new AuthorDto(author)`, as {id, name, createdAt} |
| `Entities.Store.ProjectBook` | client/src/Components/Books.tsx:141-149 | the response carries a genre object exactly when the book references a stored genre |
| `Library.FirstMissingAuthor` | server/api/Services/LibraryService.cs:50 | returns nothing iff every listed author id is stored; otherwise returns the first id in list order that is not stored, with all earlier ids stored |
| `Library.CreateBook` | server/api/Services/LibraryService.cs:23-36 | succeeds iff the request is valid; if not, the store is unchanged; on success exactly one book is added under the fresh id with the given title and pages, no authors and no genre, the book count grows by one, the response is its projection, and validity is preserved |
| `Library.UpdateBook` | server/api/Services/LibraryService.cs:38-53 | on any failure the store is unchanged; succeeds iff the request is valid and the book, the genre (when given) and every listed author exist; an invalid request or an unknown book id gives the matching error; on success only that book changes: id and creation time stay, title and pages are the request's, the genre is the requested one or cleared, and the author list is exactly the requested list in order; the response is the projection of the saved book: the stored book's id and creation time, with the id equal to the requested one in a valid store, the request's title, pages and author list, and the requested genre with its stored name; validity is preserved |
| `Library.UpdateBookErrorOrder` | server/api/Services/LibraryService.cs:42-50 | with a valid request for a stored book, an unknown genre fails with GenreNotFound; otherwise the first unknown author id in request order is the one reported |
| `Library.UpdateBookIdempotent` | server/api/Services/LibraryService.cs:45-52 | applying the same update twice gives the same store and the same response as applying it once |
| `Library.UpdateBookLastWriteWins` | server/api/Services/LibraryService.cs:45-50 | after a successful update, a second update of the same book gives the same response as it would have on the original store, and when it succeeds the same store: full replacement, not a merge |
| `Library.UpdateBookAuthorSurvivesOnlyIfRelisted` | server/api/Services/LibraryService.cs:49-50 | an author already on the book remains on it after a successful update iff the request lists it |
| `Library.DeleteBook` | server/api/Services/LibraryService.cs:55-61 | fails with BookNotFound and no change iff the id is unknown; otherwise exactly that book is removed, the count drops by one, and the response is its pre-deletion projection |
| `Library.CreateAuthor` | server/api/Services/LibraryService.cs:63-74 | succeeds iff the request validates; if not, the store is unchanged; on success exactly one author with the fresh id and the given name is added and returned |
| `Library.UpdateAuthor` | server/api/Services/LibraryService.cs:77-90 | on failure the store is unchanged; succeeds iff the request is valid and the author exists; an invalid request gives ValidationFailed, whatever its id; a valid request with an unknown id gives AuthorNotFound; on success only that author's name changes, to the requested name, and its id and creation time stay |
| `Library.UpdateAuthorBlankGuardRedundant` | server/api/Services/LibraryService.cs:86 | for every request that passes validation, the service's own blank-name check passes |
| `Library.UpdateAuthorChangesIffNameDiffers` | server/api/Services/LibraryService.cs:86-87 | a successful update changes the store iff the requested name differs ordinally from the stored one |
| `Library.UpdateAuthorIdempotent` | server/api/Services/LibraryService.cs:81-90 | a repeated update-author call gives the same store and response as a single one |
| `Library.DeleteAuthor` | server/api/Services/LibraryService.cs:92-98 | fails with AuthorNotFound and no change iff the id is unknown; otherwise exactly that author is removed and returned as it was; books are untouched, because no cascade is assumed (see Left out) |
| `Library.CreateThenAttach` | client/src/Components/Books.tsx:298-307 | creating a book and then updating it with the created title and pages, stored authors and a stored genre adds exactly that book, with that author list and genre, to the store |
| `Library.EndToEndScenario` | server/api/Services/LibraryService.cs:23-53 | with author "1" Bob and genre "g1" Fantasy stored, creating "T" of 10 pages and updating it to "T2", 20 pages, authors ["1"], genre "g1" returns exactly that book with genre {g1, Fantasy} |
| `Service.LibraryService.constructor` | server/api/Services/LibraryService.cs:9 | the service starts over a valid, already-populated database |
| `Service.LibraryService.GetBooks` | server/api/Services/LibraryService.cs:15-18 | the listing holds exactly the projections of the stored books, one per id |
| `Service.LibraryService.CreateBook` | server/api/Services/LibraryService.cs:23-37 | the new persisted state and the response are those of `Library.CreateBook`, and the store stays valid |
| `Service.LibraryService.UpdateBook` | server/api/Services/LibraryService.cs:38-54 | the tracked-copy update, its author loop and the single save leave the persisted state and response of `Library.UpdateBook`, and the store stays valid |
| `Service.LibraryService.DeleteBook` | server/api/Services/LibraryService.cs:55-61 | state and response are those of `Library.DeleteBook` |
| `Service.LibraryService.CreateAuthor` | server/api/Services/LibraryService.cs:63-75 | state and response are those of `Library.CreateAuthor` |
| `Service.LibraryService.UpdateAuthor` | server/api/Services/LibraryService.cs:77-91 | state and response are those of `Library.UpdateAuthor` |
| `Service.LibraryService.DeleteAuthor` | server/api/Services/LibraryService.cs:92-98 | state and response are those of `Library.DeleteAuthor` |
| `Text.IsNullOrWhiteSpace` | server/api/Services/LibraryService.cs:86 | `string.IsNullOrWhiteSpace`: true for null and for a string of .NET whitespace only, the empty string included |
| `Text.IsDotNetWhiteSpace` | server/api/Services/LibraryService.cs:86 | the characters .NET's `char.IsWhiteSpace` accepts, which `string.IsNullOrWhiteSpace` and `[Required]` test |
| `Text.IsJsWhiteSpace` | client/src/Components/Books.tsx:292 | the whitespace and line-terminator characters JavaScript's `trim` removes |
| `Text.DropLeading` | client/src/Components/Books.tsx:292 | the leading part of `trim`: what remains does not start with whitespace |
| `Text.DropTrailing` | client/src/Components/Books.tsx:292 | the trailing part of `trim`: what remains does not end with whitespace |
| `Text.Trim` | client/src/Components/Books.tsx:292 | `title.trim()`; its meaning for the blank check is stated by `Text.TrimEmptyIffBlank` |
| `Text.Join` | client/src/Components/Books.tsx:141 | `Array.prototype.join(", ")`; its meaning is stated by `Text.JoinAppend` and `Text.JoinEmpty` |
| `Text.TrimEmptyIffBlank` | client/src/Components/Books.tsx:292 | `title.trim()` is empty iff every character of the title is JavaScript whitespace |
| `Text.DropLeadingEmptyIffAll` | client/src/Components/Books.tsx:292 | stripping leading whitespace leaves nothing iff every character is whitespace |
| `Text.DropTrailingEmptyIffAll` | client/src/Components/Books.tsx:292 | stripping trailing whitespace leaves nothing iff every character is whitespace |
| `Text.JoinAppend` | client/src/Components/Books.tsx:141 | `join` of two non-empty lists is the two joins with one separator between them |
| `Text.JoinEmpty` | client/src/Components/Books.tsx:141 | with a non-empty separator, `join` is "" iff the list is empty or is a single empty string |
| `Seqs.Filter` | client/src/Components/Books.tsx:186 | `filter` keeps only elements of the input that pass the test, and keeps every element that passes |
| `Seqs.FilterAppend` | client/src/Components/Books.tsx:345 | `filter` distributes over concatenation, so the order is kept |
| `Seqs.FilterKeepsAll` | client/src/Components/Books.tsx:186 | when every element passes, `filter` returns the input |
| `Seqs.FilterCount` | client/src/Components/Books.tsx:345 | each passing element keeps its multiplicity and each failing one disappears |
| `Seqs.FilterNoDuplicates` | client/src/Components/Books.tsx:186 | `filter` of a duplicate-free list is duplicate-free |
| `Seqs.Map` | client/src/Components/Books.tsx:333 | `map` keeps the length and applies the function at every position |
| `Seqs.MapAppend` | client/src/Components/Books.tsx:141 | `map` distributes over concatenation |
| `Text.WhiteSpaceSetsDiffer` | client/src/Components/Books.tsx:292 | U+0085 survives the client's trim but is blank for the server's `[Required]`; U+FEFF is the reverse |
| `BookLists.Without` | client/src/Components/Books.tsx:186 | the id is no longer present, and every other id is present afterwards iff it was before |
| `BookLists.WithoutKeepsOthers` | client/src/Components/Books.tsx:186 | removing an id keeps every other id with its multiplicity and drops all occurrences of the removed one |
| `BookLists.WithoutAbsent` | client/src/Components/Books.tsx:186 | removing an id that is absent returns the list unchanged |
| `BookLists.Toggle` | client/src/Components/Books.tsx:185-187 | `ids.includes(id) ? ids.filter((x) => x !== id) : [...ids, id]`; its meaning is stated by the Toggle lemmas below |
| `BookLists.ToggleRemovesOrAppends` | client/src/Components/Books.tsx:185-187 | toggling a present id removes every occurrence; toggling an absent id appends it at the end |
| `BookLists.ToggleMembership` | client/src/Components/Books.tsx:287-289 | after a toggle the toggled id is present iff it was absent before, and every other id is present iff it was before |
| `BookLists.ToggleNoDuplicates` | client/src/Components/Books.tsx:185-187 | toggling keeps a duplicate-free list duplicate-free |
| `BookLists.ToggleTwiceAbsent` | client/src/Components/Books.tsx:185-187 | toggling an absent id twice returns the original list |
| `BookLists.ToggleTwicePresent` | client/src/Components/Books.tsx:185-187 | toggling a present id twice removes it and re-appends it once at the end |
| `BookLists.FirstSelected` | client/src/Components/Books.tsx:306 | the genre sent is the first selected one, or undefined iff none is selected |
| `BookLists.ReplaceById` | client/src/Components/Books.tsx:333 | same length; every entry with the edited id becomes the updated book and every other entry stays in place |
| `BookLists.ReplaceByIdKeepsOthers` | client/src/Components/Books.tsx:333 | entries with other ids are untouched, and when the updated book keeps its id the ids of all entries are unchanged |
| `BookLists.RemoveById` | client/src/Components/Books.tsx:345 | no remaining book has the deleted id, and every book with another id remains |
| `BookLists.RemoveByIdOrder` | client/src/Components/Books.tsx:345 | removal distributes over concatenation and drops exactly the matching singletons, so the rest keep their order |
| `BookLists.RemoveByIdCount` | client/src/Components/Books.tsx:345 | every book with another id keeps its multiplicity and the deleted id's books are all gone |
| `BookLists.AuthorNameById` | client/src/Components/Books.tsx:351 | returns a name iff some author has that id, and then the name of the first such author |
| `BookLists.AuthorPart` | client/src/Components/Books.tsx:141 | ``authorNameById(id) ?? `#${id}` ``; its cases are stated by `BookLists.AuthorPartCases` |
| `BookLists.AuthorNames` | client/src/Components/Books.tsx:141 | the row's parts joined with ", "; stated by `BookLists.AuthorNamesAppend` and `BookLists.AuthorLabelDash` |
| `BookLists.AuthorLabel` | client/src/Components/Books.tsx:148 | the label is never an empty string |
| `BookLists.AuthorPartCases` | client/src/Components/Books.tsx:141 | an unknown author id shows as `#id`, a known one as the name of an author with that id |
| `BookLists.AuthorNamesAppend` | client/src/Components/Books.tsx:141 | the names of a concatenation are the names of the two halves joined with ", " |
| `BookLists.AuthorLabelDash` | client/src/Components/Books.tsx:141-148 | an empty author list shows "—"; otherwise the dash shows iff there is a single author whose part is "" or "—" |
| `BooksPage.Page.constructor` | client/src/Components/Books.tsx:274-281 | the form starts as "Book Title" with 1 page, no selection, no error and no open dialog |
| `BooksPage.Page.RowAuthorLabel` | client/src/Components/Books.tsx:141-148 | the `By {authorNames \|\| "—"}` label of a book row, over the page's authors; its meaning is stated by `BookLists.AuthorLabel` and its lemmas |
| `BooksPage.Page.ToggleSelectedAuthor` | client/src/Components/Books.tsx:380 | the author selection becomes its toggle by that id |
| `BooksPage.Page.ToggleSelectedGenre` | client/src/Components/Books.tsx:387 | the genre selection becomes its toggle by that id |
| `BooksPage.Page.RemoveAuthorChip` | client/src/Components/Books.tsx:398 | the author selection loses every occurrence of that id |
| `BooksPage.Page.RemoveGenreChip` | client/src/Components/Books.tsx:403 | the genre selection loses every occurrence of that id |
| `BooksPage.Page.OnCreateBook` | client/src/Components/Books.tsx:291-320 | a title that trims to "" makes no call and changes nothing; otherwise it creates, then updates with the created id, pages and title, the selected authors and the first selected genre; a failure records the message or "Create failed" and changes nothing else; success appends the updated book at the end and clears the title and both selections |
| `BooksPage.Page.StartEdit` | client/src/Components/Books.tsx:423 | the dialog opens on that book |
| `BooksPage.Page.CloseEdit` | client/src/Components/Books.tsx:435 | the dialog closes |
| `BooksPage.Page.OnSaveEdit` | client/src/Components/Books.tsx:322-340 | without an open dialog there is no call and no change; otherwise one update call for the edited id; on success its entries are replaced and the dialog closes; on failure nothing changes |
| `BooksPage.Page.OnDelete` | client/src/Components/Books.tsx:342-349 | one delete call; on success exactly the books with that id are removed; on failure nothing changes |
| `BooksPage.EditDialog.constructor` | client/src/Components/Books.tsx:180-183 | the dialog starts from the book's title, pages and authors, and with its genre selected only when the genre id is non-empty |
| `BooksPage.EditDialog.ToggleAuthor` | client/src/Components/Books.tsx:219 | the dialog's author selection becomes its toggle by that id |
| `BooksPage.EditDialog.ToggleGenre` | client/src/Components/Books.tsx:226 | the dialog's genre selection becomes its toggle by that id |
| `BooksPage.EditDialog.RemoveAuthorChip` | client/src/Components/Books.tsx:233 | the dialog's author selection loses that id |
| `BooksPage.EditDialog.RemoveGenreChip` | client/src/Components/Books.tsx:238 | the dialog's genre selection loses that id |
| `BooksPage.EditDialog.Save` | client/src/Components/Books.tsx:253 | the dialog hands on its title, pages and authors, and only the first selected genre, or none iff none is selected |

## Left out

- GetAuthors and GetGenres (LibraryService.cs:11-14, 19-22) are not modelled. They are the same projection as GetBooks over the other two tables.
- GetBooks returns a set: the row order of the query and of `ToListAsync` is not modelled.
- The response classes BookDto, AuthorDto and GenreDto are not part of this model. The projection is modelled as {id, title, pages, createdAt, authorsIds, genre?}, as the client reads it. Neither `First` in DeleteBook nor the `Select(b => new BookDto(b))` query in GetBooks loads a book's navigations. Whether the returned DTOs then show authors and genre depends on those classes and on the context configuration, which are not part of this model. `Library.DeleteBook` and `Service.LibraryService.GetBooks` return the full projection, authors and genre included.
- CreateAuthorDto is not part of this model. Whether it validates is a parameter of CreateAuthor.
- EF Core change tracking, `Collection(...).Load()` and the Book–Author join table are not modelled. An author id listed twice in a request appears twice in the modelled list; what the join table would store then is not part of this model.
- `Library.DeleteAuthor` assumes that deleting an author does not cascade: the books' author lists keep the deleted author's id. The join-table configuration that decides this is not part of this model. With a cascading foreign key, the id would instead leave every book's list. With a restricting foreign key, `SaveChangesAsync` would fail for an author that is still on a book. The model captures neither outcome.
- A null element inside `AuthorsIds` is not modelled: elements are strings.
- `Guid.NewGuid` and `DateTime.UtcNow` are parameters. The caller guarantees that the id is fresh.
- Persistence errors are not modelled: an unreachable database, or a constraint violation raised by `SaveChangesAsync`. The field-level detail of a ValidationException is not modelled either; it is a single `ValidationFailed`. The automatic model validation that ASP.NET runs before the controller is not modelled.
- async/await, the `saving` flags, `console.error` and concurrent requests are not modelled: every handler is one sequential step.
- The client's NaN page count, which `parseInt` can produce, is not modelled: client page counts are integers.
- The JSX layout, icons, dropdown open and close, and the text inputs' `onChange` setters are not modelled.
- `BookLists.AuthorLabel`'s own contract only says the label is never empty. Its meaning is stated by `AuthorPartCases`, `AuthorNamesAppend` and `AuthorLabelDash`.
