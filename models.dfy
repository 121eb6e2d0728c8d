/** The entities of Backend/Models and the transfer shapes of
    Backend/DTOs. Books and quotes are rows owned by a user: the key, the
    fields a client may edit, and the owner's id. */
module Models {
  import opened Common

  /** A user row: the name is stored lower-cased; the hash is the keyed
      hash of the password under the salt. */
  datatype User = User(id: int32, userName: string, passwordHash: Bytes, passwordSalt: Bytes)

  /** A row of a per-user table: its key, its editable fields, its owner. */
  datatype Row<F> = Row(id: int32, fields: F, userId: int32)

  datatype BookFields = BookFields(title: string, author: string, publicationDate: DateTime)

  /** A quote's author is optional (`string?`). */
  datatype QuoteFields = QuoteFields(text: string, author: Option<string>)

  type Book = Row<BookFields>

  type Quote = Row<QuoteFields>

  /** BookDto and QuoteDto: no owner; the id is absent when creating. */
  datatype BookDto = BookDto(id: Option<int32>, title: string, author: string, publicationDate: DateTime)

  datatype QuoteDto = QuoteDto(id: Option<int32>, text: string, author: Option<string>)

  datatype RegisterDto = RegisterDto(userName: string, password: string)

  datatype LoginDto = LoginDto(userName: string, password: string)
}
