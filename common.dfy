/** Shared vocabulary of the backend model: optional values, results,
    the 32-bit integer range of C#'s `int`, bytes, UTC date-times as
    ticks, and the ASP.NET action results the controllers return. */
module Common {

  datatype Option<+T> = None | Some(value: T)

  datatype Result<+T, +E> = Ok(value: T) | Err(error: E)

  /** Range of C#'s `int` (System.Int32). */
  const MinInt32: int := -0x8000_0000
  const MaxInt32: int := 0x7fff_ffff

  type int32 = x: int | MinInt32 <= x <= MaxInt32

  newtype byte = x: int | 0 <= x < 256

  type Bytes = seq<byte>

  predicate IsUpper(c: char) { 'A' <= c <= 'Z' }

  /** The lower case of an ASCII capital letter; any other character is
      left as it is. */
  function LowerChar(c: char): char
  {
    if IsUpper(c) then (c as int + 32) as char else c
  }

  /** A System.DateTime as a count of 100-nanosecond ticks since
      0001-01-01; DateTime.MaxValue is MaxTicks. */
  const MaxTicks: int := 3_155_378_975_999_999_999
  const TicksPerMinute: int := 600_000_000

  type DateTime = t: int | 0 <= t <= MaxTicks

  /** The controller results used by the backend (OkResult, OkObjectResult,
      CreatedAtActionResult, NoContentResult, NotFoundResult,
      BadRequestObjectResult, UnauthorizedObjectResult); an exception that
      escapes a handler becomes InternalServerError. */
  datatype ActionResult<+T> =
    | OkResult
    | OkObject(value: T)
    | CreatedAtAction(value: T)
    | NoContentResult
    | NotFoundResult
    | BadRequestObject(message: string)
    | UnauthorizedObject(message: string)
    | InternalServerError(exception: string)
}
