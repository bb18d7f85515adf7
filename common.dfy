/** Shared vocabulary: identifiers, the 32-bit integer of the C# DTOs, and the
    Option/Result wrappers that stand for C#'s nullable values and exceptions. */
module Common {

  /** Entity identifiers are strings (the server fills them from Guid.NewGuid). */
  type Id = string

  /** An abstract creation timestamp (DateTime.UtcNow is supplied by the caller). */
  type Timestamp = nat

  /** C#'s `int` (System.Int32). */
  newtype int32 = x: int | -0x8000_0000 <= x < 0x8000_0000

  const INT32_MAX: int := 0x7FFF_FFFF

  datatype Option<T> = None | Some(value: T) {
    function GetOr(default: T): T {
      match this
      case Some(v) => v
      case None => default
    }
  }

  /** What the service throws.  `Validator.ValidateObject` throws a
      ValidationException; `First` on an empty match throws an
      InvalidOperationException, told apart here by the set it searched. */
  datatype Error =
    | ValidationFailed
    | BookNotFound(bookId: Id)
    | GenreNotFound(genreId: Id)
    | AuthorNotFound(authorId: Id)

  datatype Result<T> = Ok(value: T) | Err(error: Error)

  /** Adding a new key grows a map by one entry. */
  lemma MapAddSize<K, V>(m: map<K, V>, k: K, v: V)
    requires k !in m
    ensures |m[k := v]| == |m| + 1
  {
    assert m[k := v].Keys == m.Keys + {k};
  }

  /** Removing a present key shrinks a map by one entry. */
  lemma MapRemoveSize<K, V>(m: map<K, V>, k: K)
    requires k in m
    ensures |m - {k}| == |m| - 1
  {
    assert (m - {k}).Keys == m.Keys - {k};
  }
}
