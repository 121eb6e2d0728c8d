# Book & quote backend: ownership and credentials, in Dafny

This project models the logic of the book-quotes-app backend, an ASP.NET
Core Web API. Each user keeps books and quotes, and registers and logs in
with a name and password. The model covers five parts:

- **Owned-row tables**: `BooksController` and `QuotesController`
  (`books.dfy`, `quotes.dfy`), over a per-user table class (`owned_table.dfy`).
  - List filters the table on the caller's id and drops the owner.
  - Create stamps the caller as owner and hands out a fresh key.
  - Update and Delete look a row up by key AND owner. They answer NotFound
    when there is no such row, and otherwise change exactly that row.
  - The contracts state the isolation: no other user's listing ever
    changes, and no listed row belongs to someone else.
- **Credential store**: `AuthController` (`auth.dfy`).
  - Register lower-cases the name and refuses a name already present. It
    stores the keyed hash of the password under a random salt, and keeps
    the stored names lower case and pairwise distinct.
  - Login lower-cases the name, finds the single user and compares hashes.
    It answers an unknown name and a wrong password with the same message.
  - After a Register, a Login with any casing of the name and the same
    password yields a token for the new user.
- **Token issuer**: `TokenService` (`tokens.dfy`). The token is a record:
  - the two identity claims;
  - the issuer and audience, as in sections 4.1.1 and 4.1.3 of RFC 7519;
  - the expiry, `now` plus the configured minutes (the `exp` claim of
    section 4.1.4 of RFC 7519);
  - the signing key and the algorithm.
- **Caller identity**: `UserExtensions.GetUserId` (`claims.dfy`). It reads
  the first NameIdentifier claim with `int.Parse`. `FindFirst` compares
  claim types ignoring case. `int.Parse` is stated against an explicit
  grammar: white space, an optional sign, digits, white space. The model proves that
  reading a token's own claims gives back the user's id.
- **Decimal text**: .NET's `int.ToString()` and `int.Parse`
  (`decimal_text.dfy`), which the identity round trip rests on.

Foreign code becomes parameters:
- HMAC-SHA512 of the password's UTF-8 bytes is the function parameter `hmac`.
- The random key drawn by `new HMACSHA512()` is the parameter `salt`.
- `DateTime.UtcNow` is the parameter `now`, in 100-ns ticks.
- The caller's id, which the handlers get from `User.GetUserId()`, is the
  parameter `caller`.

The database's key generation is modelled as a counter in each table
class. C#'s `int` is the subset type `int32`.

The read-only handlers never modify a table: `GetBooks`, `GetQuotes` and
`Login` are functions of the rows, so they cannot change them. The
handlers that write are methods whose `modifies` clause names their one
table.

Two behaviours of the code worth knowing:
- A duplicate name on Register gets 400 BadRequest.
- A non-numeric NameIdentifier claim makes `GetUserId` throw, which
  surfaces as a server error.

## Model

| member | source | states |
|---|---|---|
| `DecimalText.ParseInt32` | Backend/Extensions/UserExtensions.cs:9 | `int.Parse`: text of white space only (the empty text included) is a FormatException; the rest of its meaning is stated against the grammar by `ParseInt32Grammar` and `ParseNumeralAt` |
| `DecimalText.ParseNumeralAt` | Backend/Extensions/UserExtensions.cs:9 | a text that splits as white space, an optional `+` or `-`, one or more digits, white space gives the signed value of the digits when it is in the Int32 range, and an OverflowException otherwise |
| `DecimalText.ParseNumeralExists` | Backend/Extensions/UserExtensions.cs:9 | any text that `int.Parse` does not reject with a FormatException has such a split |
| `DecimalText.ParseInt32Grammar` | Backend/Extensions/UserExtensions.cs:9 | `int.Parse` throws a FormatException exactly when the text has no such split |
| `DecimalText.ParsedHasDigit` | Backend/Extensions/UserExtensions.cs:9 | every text `int.Parse` accepts holds at least one decimal digit |
| `DecimalText.FormatInt` | Backend/Services/TokenService.cs:23 | `Id.ToString()` is non-empty and starts with a minus sign exactly when the id is negative |
| `DecimalText.FormatIntCanonical` | Backend/Services/TokenService.cs:23 | `Id.ToString()` is a minus sign exactly for a negative id, then a non-empty run of digits with no leading zero unless the number is 0: no `+`, no padding |
| `DecimalText.ParseFormat` | Backend/Extensions/UserExtensions.cs:9 | `int.Parse` of the text of any integer gives that integer when it fits in 32 bits, and an OverflowException otherwise |
| `DecimalText.ParseFormatInt32` | Backend/Extensions/UserExtensions.cs:9 | round trip: `int.Parse(n.ToString()) == n` for every 32-bit n |
| `DecimalText.FormatInjective` | Backend/Services/TokenService.cs:23 | distinct user ids produce distinct NameIdentifier texts |
| `DecimalText.ParseRejectsForeignChar` | Backend/Extensions/UserExtensions.cs:9 | a character that is not a digit, a sign or white space, anywhere in the text, makes `int.Parse` throw a FormatException |
| `Claims.FindFirst` | Backend/Extensions/UserExtensions.cs:9 | `FindFirst` compares claim types ignoring case; it returns None exactly when no claim has the type, and otherwise the first claim that has it |
| `Claims.GetUserId` | Backend/Extensions/UserExtensions.cs:7-10 | fails with the null dereference exactly when no claim's type equals NameIdentifier, ignoring case; otherwise it succeeds exactly when `int.Parse` accepts the FIRST NameIdentifier claim's text, with that value, and fails with the parse exception otherwise |
| `Claims.GetUserIdReadsFirstClaim` | Backend/Extensions/UserExtensions.cs:9 | for any text in the first NameIdentifier claim, whatever the case of its type, `GetUserId` succeeds exactly when `int.Parse` accepts it, with its value, whatever claims follow |
| `Claims.GetUserIdOfFirstClaim` | Backend/Extensions/UserExtensions.cs:9 | when the first NameIdentifier claim is `id.ToString()`, the result is `id`, whatever other claims follow |
| `Claims.GetUserIdRejectsOutOfRange` | Backend/Extensions/UserExtensions.cs:9 | a first NameIdentifier claim holding an integer outside the 32-bit range makes `GetUserId` fail with an overflow |
| `Claims.GetUserIdRejectsNonNumeric` | Backend/Extensions/UserExtensions.cs:9 | a first NameIdentifier claim with a non-numeric character makes `GetUserId` fail with a format error |
| `Claims.GetUserIdRejectsMalformed` | Backend/Extensions/UserExtensions.cs:9 | `GetUserId` fails with a format error exactly when the first NameIdentifier claim's text does not follow the `int.Parse` grammar |
| `Tokens.CreateToken` | Backend/Services/TokenService.cs:19-42 | an issued token has subject exactly [NameIdentifier = id text, Name = user name], issuer and audience equal to the configured ones, the configured key and HS256, and expires after `now`; a missing key fails |
| `Tokens.Sign` | Backend/Services/TokenService.cs:30-40 | the descriptor with `Expires = now.AddMinutes(minutes)` yields a token exactly when the minutes are positive and now + minutes is still a DateTime, and it then expires at exactly now + minutes; AddMinutes leaving the DateTime range is ExpiryOutOfRange; the token carries the claims, the configured issuer, audience and key, and HS256 |
| `Tokens.TokenExpiresAsConfigured` | Backend/Services/TokenService.cs:33 | every issued token implies that `Jwt:ExpiresMinutes` is present and parses to a positive m, and the token expires at exactly now + m minutes |
| `Tokens.Expires` | Backend/Services/TokenService.cs:33 | a positive number of minutes whose end is still a DateTime always yields a token, expiring at exactly `now` plus those minutes |
| `Tokens.IdentityClaimsRoundTrip` | Backend/Services/TokenService.cs:21-25 | `GetUserId` on the subject claims gives the user's id, and the Name claim is the user's name |
| `Tokens.TokenIdentifiesUser` | Backend/Services/TokenService.cs:23-24 | for every token `CreateToken` issues, `GetUserId` on its claims is `user.Id` and its Name claim is `user.UserName` |
| `Tokens.IssuedWhenParsed` | Backend/Services/TokenService.cs:27-33 | when the key is present and non-empty and `Jwt:ExpiresMinutes` reads as a positive m, a token is issued whenever now + m minutes is a DateTime, and it expires at that instant (signing-time key checks of the handler aside) |
| `Tokens.NoTokenWithoutLifetime` | Backend/Services/TokenService.cs:33-40 | a lifetime of zero or fewer minutes never yields a token: AddMinutes leaves the range, or the handler refuses an expiry that is not after the not-before time |
| `Tokens.TokenExpiry` | Backend/Services/TokenService.cs:33 | with a key and `Jwt:ExpiresMinutes` = m.ToString() for a positive m, a token is issued whenever the expiry is in the DateTime range, and it expires at exactly now + m minutes (signing-time key checks of the handler aside) |
| `OwnedTable.Owned` | Backend/Controllers/BooksController.cs:29 | the `UserId == caller` filter keeps exactly the caller's rows |
| `OwnedTable.FindOwned` | Backend/Controllers/BooksController.cs:67 | the `Id == id && UserId == caller` lookup finds the first matching row, and finds none exactly when no row matches |
| `OwnedTable.OwnedSplice` | Backend/Controllers/BooksController.cs:47-88 | replacing, adding or removing rows that the caller owns leaves every other user's filtered rows unchanged |
| `OwnedTable.Table.Insert` | Backend/Controllers/BooksController.cs:55-56 | `Add` + `SaveChanges` appends one row under a key that no existing row has, and leaves other users' rows unchanged |
| `OwnedTable.Table.UpdateOwned` | Backend/Controllers/BooksController.cs:67-74 | found exactly when the caller owns the key; only that row's editable fields change; keys and owners stay |
| `OwnedTable.Table.RemoveOwned` | Backend/Controllers/BooksController.cs:83-87 | found exactly when the caller owns the key; exactly that row is removed, order kept; otherwise no change |
| `OwnedTable.ListOwned` | Backend/Controllers/BooksController.cs:28-37 | the listing of GetBooks (and of GetQuotes, QuotesController.cs:28-36, with its own projection): a record is listed exactly when a row owned by the caller projects to it; one per owned row |
| `OwnedTable.ListOwnedIsolated` | Backend/Controllers/BooksController.cs:29 | with unique keys and a projection that keeps the key, the row behind every listed id belongs to the caller and projects to the listed record (Books and Quotes alike) |
| `Books.CreateBook` | Backend/Controllers/BooksController.cs:43-60 | InternalServerError exactly when the key space is used up, and then no change; otherwise Created with the DTO whose Id is the new fresh key; exactly one row is added, owned by the caller, with the DTO's fields; the created DTO is in the caller's listing; other users' listings are unchanged |
| `Books.UpdateBook` | Backend/Controllers/BooksController.cs:63-76 | NotFound exactly when the caller owns no book with that id, and then the table is unchanged; otherwise NoContent, and only that row's Title, Author and PublicationDate change |
| `Books.DeleteBook` | Backend/Controllers/BooksController.cs:79-89 | NotFound with no change exactly when the caller owns no book with that id; otherwise NoContent, exactly that row is gone and no longer listed; other users' listings are unchanged |
| `Quotes.CreateQuote` | Backend/Controllers/QuotesController.cs:42-58 | InternalServerError exactly when the key space is used up, and then no change; otherwise Created with the DTO whose Id is the new fresh key; one row is added, owned by the caller, with the DTO's Text and optional Author; other listings are unchanged |
| `Quotes.UpdateQuote` | Backend/Controllers/QuotesController.cs:61-73 | NotFound exactly when the caller owns no quote with that id, and then no change; otherwise only that row's Text and Author change |
| `Quotes.DeleteQuote` | Backend/Controllers/QuotesController.cs:76-86 | NotFound with no change exactly when the caller owns no such quote; otherwise exactly that row is removed |
| `Auth.ToLower` | Backend/Controllers/AuthController.cs:28 | the result has the same length, no upper-case letter, and differs from the input only by lowering letters |
| `Auth.NameTaken` | Backend/Controllers/AuthController.cs:30 | the `AnyAsync` check of Register is true exactly when the lookup of Login finds someone under that name |
| `Auth.UsersNamed` | Backend/Controllers/AuthController.cs:53 | the lookup by name keeps exactly the users with that name |
| `Auth.UserTable.Insert` | Backend/Controllers/AuthController.cs:42-43 | appends one user under a key that no existing user has |
| `Auth.Register` | Backend/Controllers/AuthController.cs:26-46 | BadRequest "Username is taken" exactly when the lower-cased name is present, and then no change; InternalServerError exactly when the name is free but the key space is used up, and then no change; otherwise Ok: exactly one user is added, with the lower-cased name, PasswordSalt = salt and PasswordHash = hmac(salt, password), under a fresh key; names stay lower case and distinct |
| `Auth.Login` | Backend/Controllers/AuthController.cs:49-64 | a token is returned only for a stored user with the lower-cased name whose stored hash matches, and it is that user's token; an unknown name gets "Invalid username or password" |
| `Auth.UsersNamedUnique` | Backend/Controllers/AuthController.cs:53 | under the name invariant the lookup finds exactly the one user with that name |
| `Auth.LoginLookupUnambiguous` | Backend/Controllers/AuthController.cs:53 | under the name invariant `SingleOrDefault` never meets two users, so it never throws |
| `Auth.LoginRejectsWrongPassword` | Backend/Controllers/AuthController.cs:56-60 | a stored user with a hash mismatch gets the same "Invalid username or password" as an unknown name |
| `Auth.LoginAcceptsRightPassword` | Backend/Controllers/AuthController.cs:53-63 | a stored user with a matching hash, in any casing of the name, gets the token issued for that user, and its caller id is the user's id |
| `Auth.RegisterThenLogin` | Backend/Controllers/AuthController.cs:28-63 | after the row a successful Register appends, Login with any casing of the name and the same password returns a token whose caller id is the new user's key |

## Left out

- Host setup is configuration and I/O, and is not modelled. This covers
  Backend/Program.cs (connection string, CORS, Swagger, schema creation)
  and Backend/Data/AppDbContextFactory.cs.
- The bearer-token validation middleware is framework code, and is not
  modelled. It always checks the signature and the expiry (with
  zero clock skew). It checks the issuer and the audience only when
  `Jwt:Issuer` and `Jwt:Audience` are configured and not blank. The handlers take the caller's id as an input.
  `Claims.GetUserId` models how that id is read.
- Cryptography is foreign library code. HMAC-SHA512 with UTF-8 encoding
  is a parameter. So is the random 128-byte key of `new HMACSHA512()`.
  HS256 signing and the compact serialisation of the token are not
  modelled. Login returns the token record, not the token string.
- Checks made by the token handler at signing time are library behaviour.
  The minimum key length for HS256 is not modelled. The refusal of an
  expiry not after the not-before time is modelled, with the handler's
  clock reading taken to be the same `now` as the expiry's.
- EF Core is reduced to sequential operations. Async execution, query
  translation and concurrent requests are not modelled. If the store has
  no unique index on UserName, two simultaneous registrations of one name
  could both pass the check. The model cannot show this.
- Key generation is a counter in each table class: the next key is the
  last key plus one. The exact scheme of the database is not modelled.
  When the counter would leave the 32-bit range, the insert reports an
  InternalServerError. That stands for the exception the store would
  raise.
- The foreign key from a book or quote to its user is not checked. A
  caller's id comes from a token that Login issued, and users are never
  deleted.
- Request validation by `[ApiController]` is framework behaviour: a null
  Title, Text, UserName or Password is refused before the handler runs.
  Strings are never null in the model. Only a quote's Author is optional.
- The order of `GetBooks` and `GetQuotes` results is left open. The query
  has no ORDER BY. The model lists rows in table order, and its contracts
  speak only of membership and count.
- The `User.Books` and `User.Quotes` navigation collections are not
  modelled.
- Auth.ToLower: folds only the ASCII letters A to Z. `ToLower()` follows
  the current culture's full case mapping, which is not modelled.
- Claims.FindFirst: ignores the case of ASCII letters only.
  OrdinalIgnoreCase also folds other letters by the invariant upper-case
  mapping, which is not modelled.
- DecimalText.ParseInt32: does not model the trailing NUL characters that
  .NET also accepts, or a culture-specific sign symbol.
- DecimalText.FormatInt: writes the minus sign as `-`. `ToString()` uses the
  current culture's negative sign, which is not modelled.
- Tokens.CreateToken: expiry is modelled in ticks. The JWT `exp` claim
  rounds down to whole seconds, which is not modelled.
- The Angular frontend is UI, HTTP and browser storage, and is not
  modelled.
