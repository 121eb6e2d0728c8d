/** The handlers of Backend/Controllers/QuotesController.cs: the shape of
    the Books handlers over quotes, whose Author may be null. The caller's
    id is the one `User.GetUserId()` yields; the table is `_context.Quotes`. */
module Quotes {
  import opened Common
  import opened Models
  import opened OwnedTable

  /** The editable fields a QuoteDto carries; its Id is ignored. */
  function FieldsOf(dto: QuoteDto): QuoteFields
  {
    QuoteFields(dto.text, dto.author)
  }

  /** The projection of GetQuotes: the owner id is dropped. */
  function ToDto(q: Quote): QuoteDto
  {
    QuoteDto(Some(q.id), q.fields.text, q.fields.author)
  }

  /** GetQuotes: the caller's quotes, one transfer record per owned row. */
  function GetQuotes(rows: seq<Quote>, caller: int32): seq<QuoteDto>
  {
    ListOwned(rows, caller, ToDto)
  }

  /** CreateQuote: a new row owned by the caller whatever the payload says,
      under a fresh key that is written back into the returned DTO. */
  method CreateQuote(quotes: Table<QuoteFields>, caller: int32, dto: QuoteDto) returns (r: ActionResult<QuoteDto>)
    requires quotes.Valid()
    modifies quotes
    ensures quotes.Valid()
    ensures r.CreatedAtAction? || r.InternalServerError?
    ensures r.CreatedAtAction? ==>
      && r.value.id.Some? && r.value == dto.(id := r.value.id)
      && quotes.rows == old(quotes.rows) + [Row(r.value.id.value, FieldsOf(dto), caller)]
      && (forall j :: 0 <= j < |old(quotes.rows)| ==> old(quotes.rows)[j].id != r.value.id.value)
      && r.value in GetQuotes(quotes.rows, caller)
    ensures r.InternalServerError? <==> old(quotes.lastId) == MaxInt32
    ensures r.InternalServerError? ==> quotes.rows == old(quotes.rows)
    ensures forall u :: u != caller ==> GetQuotes(quotes.rows, u) == GetQuotes(old(quotes.rows), u)
  {
    var id := quotes.Insert(FieldsOf(dto), caller);
    if id.None? {
      r := InternalServerError("the key generator has run out of 32-bit keys");
      return;
    }
    r := CreatedAtAction(dto.(id := id));
    assert ToDto(quotes.rows[|quotes.rows| - 1]) == r.value;
  }

  /** UpdateQuote: NotFound unless the caller owns the row keyed `id`;
      otherwise that row's Text and Author (possibly null) take the
      DTO's values and nothing else changes. */
  method UpdateQuote(quotes: Table<QuoteFields>, caller: int32, id: int32, dto: QuoteDto) returns (r: ActionResult<QuoteDto>)
    requires quotes.Valid()
    modifies quotes
    ensures quotes.Valid() && quotes.lastId == old(quotes.lastId)
    ensures r == NoContentResult || r == NotFoundResult
    ensures r == NotFoundResult <==> !Owns(old(quotes.rows), id, caller)
    ensures r == NotFoundResult ==> quotes.rows == old(quotes.rows)
    ensures |quotes.rows| == |old(quotes.rows)|
    ensures forall j :: 0 <= j < |quotes.rows| ==> quotes.rows[j] == Edited(old(quotes.rows)[j], id, caller, FieldsOf(dto))
    ensures forall u :: u != caller ==> GetQuotes(quotes.rows, u) == GetQuotes(old(quotes.rows), u)
  {
    var found := quotes.UpdateOwned(id, caller, FieldsOf(dto));
    r := if found then NoContentResult else NotFoundResult;
  }

  /** DeleteQuote: NotFound unless the caller owns the row keyed `id`;
      otherwise exactly that row is removed. */
  method DeleteQuote(quotes: Table<QuoteFields>, caller: int32, id: int32) returns (r: ActionResult<QuoteDto>)
    requires quotes.Valid()
    modifies quotes
    ensures quotes.Valid() && quotes.lastId == old(quotes.lastId)
    ensures r == NoContentResult || r == NotFoundResult
    ensures r == NotFoundResult <==> !Owns(old(quotes.rows), id, caller)
    ensures r == NotFoundResult ==> quotes.rows == old(quotes.rows)
    ensures r == NoContentResult ==> exists k :: 0 <= k < |old(quotes.rows)| && IsMatch(old(quotes.rows)[k], id, caller)
                                                && quotes.rows == old(quotes.rows)[..k] + old(quotes.rows)[k + 1..]
    ensures forall x :: x in quotes.rows <==> x in old(quotes.rows) && !IsMatch(x, id, caller)
    ensures forall d :: d in GetQuotes(quotes.rows, caller) ==> d.id != Some(id)
    ensures forall u :: u != caller ==> GetQuotes(quotes.rows, u) == GetQuotes(old(quotes.rows), u)
  {
    var found := quotes.RemoveOwned(id, caller);
    r := if found then NoContentResult else NotFoundResult;
  }
}
