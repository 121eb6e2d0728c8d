/** The handlers of Backend/Controllers/BooksController.cs. The caller's
    id is the one `User.GetUserId()` yields; the table is `_context.Books`. */
module Books {
  import opened Common
  import opened Models
  import opened OwnedTable

  /** The editable fields a BookDto carries; its Id is ignored. */
  function FieldsOf(dto: BookDto): BookFields
  {
    BookFields(dto.title, dto.author, dto.publicationDate)
  }

  /** The projection of GetBooks: the owner id is dropped. */
  function ToDto(b: Book): BookDto
  {
    BookDto(Some(b.id), b.fields.title, b.fields.author, b.fields.publicationDate)
  }

  /** GetBooks: the caller's books, one transfer record per owned row. */
  function GetBooks(rows: seq<Book>, caller: int32): seq<BookDto>
  {
    ListOwned(rows, caller, ToDto)
  }

  /** CreateBook: a new row owned by the caller whatever the payload says,
      under a fresh key that is written back into the returned DTO. */
  method CreateBook(books: Table<BookFields>, caller: int32, dto: BookDto) returns (r: ActionResult<BookDto>)
    requires books.Valid()
    modifies books
    ensures books.Valid()
    ensures r.CreatedAtAction? || r.InternalServerError?
    ensures r.CreatedAtAction? ==>
      && r.value.id.Some? && r.value == dto.(id := r.value.id)
      && books.rows == old(books.rows) + [Row(r.value.id.value, FieldsOf(dto), caller)]
      && (forall j :: 0 <= j < |old(books.rows)| ==> old(books.rows)[j].id != r.value.id.value)
      && r.value in GetBooks(books.rows, caller)
    ensures r.InternalServerError? <==> old(books.lastId) == MaxInt32
    ensures r.InternalServerError? ==> books.rows == old(books.rows)
    ensures forall u :: u != caller ==> GetBooks(books.rows, u) == GetBooks(old(books.rows), u)
  {
    var id := books.Insert(FieldsOf(dto), caller);
    if id.None? {
      r := InternalServerError("the key generator has run out of 32-bit keys");
      return;
    }
    r := CreatedAtAction(dto.(id := id));
    assert ToDto(books.rows[|books.rows| - 1]) == r.value;
  }

  /** UpdateBook: NotFound unless the caller owns the row keyed `id`;
      otherwise that row's Title, Author and PublicationDate take the
      DTO's values and nothing else changes. */
  method UpdateBook(books: Table<BookFields>, caller: int32, id: int32, dto: BookDto) returns (r: ActionResult<BookDto>)
    requires books.Valid()
    modifies books
    ensures books.Valid() && books.lastId == old(books.lastId)
    ensures r == NoContentResult || r == NotFoundResult
    ensures r == NotFoundResult <==> !Owns(old(books.rows), id, caller)
    ensures r == NotFoundResult ==> books.rows == old(books.rows)
    ensures |books.rows| == |old(books.rows)|
    ensures forall j :: 0 <= j < |books.rows| ==> books.rows[j] == Edited(old(books.rows)[j], id, caller, FieldsOf(dto))
    ensures forall u :: u != caller ==> GetBooks(books.rows, u) == GetBooks(old(books.rows), u)
  {
    var found := books.UpdateOwned(id, caller, FieldsOf(dto));
    r := if found then NoContentResult else NotFoundResult;
  }

  /** DeleteBook: NotFound unless the caller owns the row keyed `id`;
      otherwise exactly that row is removed. */
  method DeleteBook(books: Table<BookFields>, caller: int32, id: int32) returns (r: ActionResult<BookDto>)
    requires books.Valid()
    modifies books
    ensures books.Valid() && books.lastId == old(books.lastId)
    ensures r == NoContentResult || r == NotFoundResult
    ensures r == NotFoundResult <==> !Owns(old(books.rows), id, caller)
    ensures r == NotFoundResult ==> books.rows == old(books.rows)
    ensures r == NoContentResult ==> exists k :: 0 <= k < |old(books.rows)| && IsMatch(old(books.rows)[k], id, caller)
                                                && books.rows == old(books.rows)[..k] + old(books.rows)[k + 1..]
    ensures forall x :: x in books.rows <==> x in old(books.rows) && !IsMatch(x, id, caller)
    ensures forall d :: d in GetBooks(books.rows, caller) ==> d.id != Some(id)
    ensures forall u :: u != caller ==> GetBooks(books.rows, u) == GetBooks(old(books.rows), u)
  {
    var found := books.RemoveOwned(id, caller);
    r := if found then NoContentResult else NotFoundResult;
  }
}
