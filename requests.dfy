/** The request DTOs and the data-annotation checks that
    `Validator.ValidateObject(dto, context, validateAllProperties: true)`
    performs on them.  A reference-typed property that JSON left out is `None`. */
module Requests {
  import opened Common
  import Text

  // ---- The data-annotation attributes ----------------------------------

  /** [Required] on a string: null fails, and so does every string for which
      `string.IsNullOrWhiteSpace` holds (AllowEmptyStrings defaults to false). */
  predicate RequiredString(v: Option<string>) {
    v.Some? && !Text.IsNullOrWhiteSpace(v)
  }

  /** [Required] on a reference that is not a string: only null fails. */
  predicate RequiredRef<T>(v: Option<T>) {
    v.Some?
  }

  /** [MinLength(n)]: null passes (that is [Required]'s business). */
  predicate MinLength<T>(v: Option<seq<T>>, n: nat) {
    v.None? || |v.value| >= n
  }

  /** [Range(lo, hi)] on an int: inclusive at both ends. */
  predicate InRange(v: int32, lo: int, hi: int) {
    lo <= v as int <= hi
  }

  // ---- CreateBookDto -----------------------------------------------------

  /** `[Required] int Pages` (always present: an int is never null) and
      `[Required] string Title`. */
  datatype CreateBookRequest = CreateBookRequest(pages: int32, title: Option<string>)

  predicate ValidCreateBook(dto: CreateBookRequest) {
    && InRange(dto.pages, 1, INT32_MAX)
    && RequiredString(dto.title) && MinLength(dto.title, 1)
  }

  // ---- UpdateBookDto -----------------------------------------------------

  datatype UpdateBookRequest = UpdateBookRequest(
    bookId: Option<Id>,             // BookIdForLookupReference
    newPageCount: int32,            // NewPageCout
    newTitle: Option<string>,
    authorsIds: Option<seq<Id>>,
    genreId: Option<Id>)            // string?, no attribute

  predicate ValidUpdateBook(dto: UpdateBookRequest) {
    && RequiredString(dto.bookId) && MinLength(dto.bookId, 1)
    && InRange(dto.newPageCount, 1, INT32_MAX)
    && RequiredString(dto.newTitle) && MinLength(dto.newTitle, 1)
    && RequiredRef(dto.authorsIds)
  }

  // ---- UpdateAuthorDto ---------------------------------------------------

  datatype UpdateAuthorRequest = UpdateAuthorRequest(
    authorId: Option<Id>,           // AuthorIdForLookupReference
    newName: Option<string>)

  predicate ValidUpdateAuthor(dto: UpdateAuthorRequest) {
    && RequiredString(dto.authorId) && MinLength(dto.authorId, 1)
    && RequiredString(dto.newName) && MinLength(dto.newName, 1)
  }

  // ---- CreateAuthorDto ---------------------------------------------------

  /** CreateAuthorDto's declaration is not part of this model: only its
      `Name` is read, and whether it validates is supplied by the caller. */
  datatype CreateAuthorRequest = CreateAuthorRequest(name: string)

  // ---- What the checks amount to -----------------------------------------

  /** [MinLength(1)] adds nothing to [Required] on a string. */
  lemma RequiredImpliesNonEmpty(v: Option<string>)
    requires RequiredString(v)
    ensures MinLength(v, 1)
  {
    assert |v.value| == 0 ==> Text.All(v.value, Text.IsDotNetWhiteSpace);
  }

  /** A present string passes [Required] exactly when some character of it
      is not .NET whitespace. */
  lemma RequiredStringIff(s: string)
    ensures RequiredString(Some(s)) <==> exists i :: 0 <= i < |s| && !Text.IsDotNetWhiteSpace(s[i])
  {
  }

  /** An update-book request is valid exactly when the lookup id and the
      title are present and not blank, the page count is positive and the
      author list is present; the genre id is unconstrained. */
  lemma ValidUpdateBookIff(dto: UpdateBookRequest)
    ensures ValidUpdateBook(dto) <==>
      && dto.bookId.Some? && !Text.IsNullOrWhiteSpace(dto.bookId)
      && dto.newPageCount >= 1
      && dto.newTitle.Some? && !Text.IsNullOrWhiteSpace(dto.newTitle)
      && dto.authorsIds.Some?
  {
    if dto.bookId.Some? && !Text.IsNullOrWhiteSpace(dto.bookId) { RequiredImpliesNonEmpty(dto.bookId); }
    if dto.newTitle.Some? && !Text.IsNullOrWhiteSpace(dto.newTitle) { RequiredImpliesNonEmpty(dto.newTitle); }
  }

  lemma ValidCreateBookIff(dto: CreateBookRequest)
    ensures ValidCreateBook(dto) <==>
      dto.pages >= 1 && dto.title.Some? && !Text.IsNullOrWhiteSpace(dto.title)
  {
    if dto.title.Some? && !Text.IsNullOrWhiteSpace(dto.title) { RequiredImpliesNonEmpty(dto.title); }
  }

  lemma ValidUpdateAuthorIff(dto: UpdateAuthorRequest)
    ensures ValidUpdateAuthor(dto) <==>
      && dto.authorId.Some? && !Text.IsNullOrWhiteSpace(dto.authorId)
      && dto.newName.Some? && !Text.IsNullOrWhiteSpace(dto.newName)
  {
    if dto.authorId.Some? && !Text.IsNullOrWhiteSpace(dto.authorId) { RequiredImpliesNonEmpty(dto.authorId); }
    if dto.newName.Some? && !Text.IsNullOrWhiteSpace(dto.newName) { RequiredImpliesNonEmpty(dto.newName); }
  }

  /** Edge cases: zero pages, a missing or blank title are rejected; an empty
      author list and a missing genre are accepted. */
  lemma UpdateBookEdgeCases()
    ensures !ValidUpdateBook(UpdateBookRequest(Some("b"), 0, Some("T"), Some([]), None))
    ensures !ValidUpdateBook(UpdateBookRequest(Some("b"), -1, Some("T"), Some([]), None))
    ensures !ValidUpdateBook(UpdateBookRequest(Some("b"), 1, Some("  "), Some([]), None))
    ensures !ValidUpdateBook(UpdateBookRequest(Some("b"), 1, Some("T"), None, None))
    ensures !ValidUpdateBook(UpdateBookRequest(None, 1, Some("T"), Some([]), None))
    ensures ValidUpdateBook(UpdateBookRequest(Some("b"), 1, Some("T"), Some([]), None))
    ensures ValidUpdateBook(UpdateBookRequest(Some("b"), 0x7FFF_FFFF, Some("T"), Some([]), Some("")))
  {
    assert "  "[0] == ' ' && "  "[1] == ' ';
    assert "T"[0] == 'T' && "b"[0] == 'b';
  }
}
