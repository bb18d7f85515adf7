/** The list transformations of the books page: the checkbox toggle, the
    first-selected-genre choice, the list updates after an edit or a delete,
    and the author label of a book row. */
module BookLists {
  import opened Common
  import opened Entities
  import Text
  import Seqs

  // ---- Selection -----------------------------------------------------------

  /** `ids.filter((x) => x !== id)`. */
  function Without(ids: seq<Id>, id: Id): (r: seq<Id>)
    ensures id !in r
    ensures forall x :: x != id ==> (x in r <==> x in ids)
  {
    Seqs.Filter(ids, x => x != id)
  }

  /** `ids.includes(id) ? ids.filter((x) => x !== id) : [...ids, id]`. */
  function Toggle(ids: seq<Id>, id: Id): seq<Id> {
    if id in ids then Without(ids, id) else ids + [id]
  }

  /** A present id is removed, every occurrence of it; an absent one is
      appended at the end. */
  lemma ToggleRemovesOrAppends(ids: seq<Id>, id: Id)
    ensures id in ids ==> id !in Toggle(ids, id) && Toggle(ids, id) == Seqs.Filter(ids, x => x != id)
    ensures id !in ids ==> Toggle(ids, id) == ids + [id]
  {
  }

  /** Membership after a toggle: the toggled id flips, every other id stays. */
  lemma ToggleMembership(ids: seq<Id>, id: Id, x: Id)
    ensures x in Toggle(ids, id) <==> (if x == id then id !in ids else x in ids)
  {
  }

  /** Removing an id keeps every other id, with its multiplicity, in order. */
  lemma WithoutKeepsOthers(ids: seq<Id>, id: Id, x: Id)
    ensures multiset(Without(ids, id))[x] == if x == id then 0 else multiset(ids)[x]
  {
    Seqs.FilterCount(ids, x => x != id, x);
  }

  lemma {:induction false} WithoutAbsent(ids: seq<Id>, id: Id)
    requires id !in ids
    ensures Without(ids, id) == ids
  {
    Seqs.FilterKeepsAll(ids, x => x != id);
  }

  /** Toggling keeps a duplicate-free selection duplicate-free. */
  lemma ToggleNoDuplicates(ids: seq<Id>, id: Id)
    requires Seqs.NoDuplicates(ids)
    ensures Seqs.NoDuplicates(Toggle(ids, id))
  {
    if id in ids {
      Seqs.FilterNoDuplicates(ids, x => x != id);
    }
  }

  /** Toggling an absent id twice gives the selection back. */
  lemma ToggleTwiceAbsent(ids: seq<Id>, id: Id)
    requires id !in ids
    ensures Toggle(Toggle(ids, id), id) == ids
  {
    Seqs.FilterAppend(ids, [id], x => x != id);
    WithoutAbsent(ids, id);
  }

  /** Toggling a present id twice moves it to the end. */
  lemma ToggleTwicePresent(ids: seq<Id>, id: Id)
    requires id in ids
    ensures Toggle(Toggle(ids, id), id) == Without(ids, id) + [id]
  {
  }

  /** `genreIds[0]`: the first selected genre, or undefined for none. */
  function FirstSelected(ids: seq<Id>): (r: Option<Id>)
    ensures r.None? <==> ids == []
    ensures r.Some? ==> r.value == ids[0] && r.value in ids
  {
    if |ids| > 0 then Some(ids[0]) else None
  }

  // ---- The book list ---------------------------------------------------------

  /** `prev.map((b) => (b.id === id ? updated : b))`. */
  function ReplaceById(books: seq<BookDto>, id: Id, updated: BookDto): (r: seq<BookDto>)
    ensures |r| == |books|
    ensures forall i :: 0 <= i < |books| ==> r[i] == (if books[i].id == id then updated else books[i])
  {
    Seqs.Map(books, (b: BookDto) => if b.id == id then updated else b)
  }

  /** Entries with another id stay where they were. */
  lemma ReplaceByIdKeepsOthers(books: seq<BookDto>, id: Id, updated: BookDto)
    ensures |ReplaceById(books, id, updated)| == |books|
    ensures forall i :: 0 <= i < |books| && books[i].id != id ==> ReplaceById(books, id, updated)[i] == books[i]
    ensures updated.id == id ==> forall i :: 0 <= i < |books| ==>
      ReplaceById(books, id, updated)[i].id == books[i].id
  {
  }

  /** `prev.filter((b) => b.id !== id)`. */
  function RemoveById(books: seq<BookDto>, id: Id): (r: seq<BookDto>)
    ensures forall i :: 0 <= i < |r| ==> r[i].id != id && r[i] in books
    ensures forall i :: 0 <= i < |books| && books[i].id != id ==> books[i] in r
  {
    Seqs.Filter(books, (b: BookDto) => b.id != id)
  }

  /** Removal keeps the other books in their order: it distributes over
      concatenation and drops exactly the matching entries. */
  lemma RemoveByIdOrder(a: seq<BookDto>, b: seq<BookDto>, id: Id)
    ensures RemoveById(a + b, id) == RemoveById(a, id) + RemoveById(b, id)
    ensures forall x: BookDto :: RemoveById([x], id) == (if x.id == id then [] else [x])
  {
    Seqs.FilterAppend(a, b, (x: BookDto) => x.id != id);
  }

  lemma RemoveByIdCount(books: seq<BookDto>, id: Id, b: BookDto)
    ensures multiset(RemoveById(books, id))[b] == if b.id == id then 0 else multiset(books)[b]
  {
    Seqs.FilterCount(books, (x: BookDto) => x.id != id, b);
  }

  // ---- The author label --------------------------------------------------------

  /** `authors.find((a) => a.id === id)?.name`: the name of the first author
      with that id. */
  function AuthorNameById(authors: seq<AuthorDto>, id: Id): (r: Option<string>)
    ensures r.None? <==> forall i :: 0 <= i < |authors| ==> authors[i].id != id
    ensures r.Some? ==> exists k :: 0 <= k < |authors| && authors[k].id == id && authors[k].name == r.value
                                    && forall j :: 0 <= j < k ==> authors[j].id != id
  {
    if authors == [] then None
    else if authors[0].id == id then Some(authors[0].name)
    else
      var r := AuthorNameById(authors[1..], id);
      assert forall i :: 1 <= i < |authors| ==> authors[i] == authors[1..][i - 1];
      r
  }

  /** `authorNameById(id) ?? `#${id}``. */
  function AuthorPart(authors: seq<AuthorDto>, id: Id): string {
    AuthorNameById(authors, id).GetOr("#" + id)
  }

  /** The parts joined with ", ". */
  function AuthorNames(authors: seq<AuthorDto>, ids: seq<Id>): string {
    Text.Join(Seqs.Map(ids, id => AuthorPart(authors, id)), ", ")
  }

  /** `authorNames || "—"`: an empty join shows a dash. */
  function AuthorLabel(authors: seq<AuthorDto>, ids: seq<Id>): (shown: string)
    ensures shown != ""
  {
    var names := AuthorNames(authors, ids);
    if names == "" then "—" else names
  }

  /** An unknown id shows as "#id", a known one as its name. */
  lemma AuthorPartCases(authors: seq<AuthorDto>, id: Id)
    ensures (forall i :: 0 <= i < |authors| ==> authors[i].id != id) ==> AuthorPart(authors, id) == "#" + id
    ensures (exists i :: 0 <= i < |authors| && authors[i].id == id) ==>
      exists k :: 0 <= k < |authors| && authors[k].id == id && AuthorPart(authors, id) == authors[k].name
  {
  }

  /** The names of a concatenation are the names of its halves joined by ", ". */
  lemma AuthorNamesAppend(authors: seq<AuthorDto>, a: seq<Id>, b: seq<Id>)
    requires a != [] && b != []
    ensures AuthorNames(authors, a + b) == AuthorNames(authors, a) + ", " + AuthorNames(authors, b)
  {
    var f := id => AuthorPart(authors, id);
    Seqs.MapAppend(a, b, f);
    Text.JoinAppend(Seqs.Map(a, f), Seqs.Map(b, f), ", ");
  }

  /** The dash appears for a book without authors, and otherwise only when the
      joined names are empty or themselves a dash: a single author whose name
      is empty shows the dash too. */
  lemma AuthorLabelDash(authors: seq<AuthorDto>, ids: seq<Id>)
    ensures ids == [] ==> AuthorLabel(authors, ids) == "—"
    ensures AuthorLabel(authors, ids) == "—" <==>
      ids == [] || (|ids| == 1 && AuthorPart(authors, ids[0]) in {"", "—"})
  {
    var parts := Seqs.Map(ids, id => AuthorPart(authors, id));
    Text.JoinEmpty(parts, ", ");
    if |ids| >= 2 {
      Text.JoinAppend([parts[0]], parts[1..], ", ");
      assert [parts[0]] + parts[1..] == parts;
      assert |Text.Join(parts, ", ")| >= 2;
    }
  }
}
