/** Identity claims and the `GetUserId` extension of
    Backend/Extensions/UserExtensions.cs: the caller's id is the first
    claim of the principal whose type is NameIdentifier, compared ignoring
    case, read with `int.Parse`. */
module Claims {
  import opened Common
  import opened DecimalText

  /** ClaimTypes.NameIdentifier and ClaimTypes.Name: a claim's type is
      the text of a URI. */
  const NameIdentifierType: string := "http://schemas.xmlsoap.org/ws/2005/05/identity/claims/nameidentifier"
  const NameType: string := "http://schemas.xmlsoap.org/ws/2005/05/identity/claims/name"

  datatype Claim = Claim(kind: string, value: string)

  /** A ClaimsPrincipal, seen as its claims in the order FindFirst visits them. */
  type Principal = seq<Claim>

  /** StringComparison.OrdinalIgnoreCase, on the ASCII letters. */
  predicate SameIgnoringCase(a: string, b: string)
  {
    |a| == |b| && forall i :: 0 <= i < |a| ==> LowerChar(a[i]) == LowerChar(b[i])
  }

  /** `principal.FindFirst(kind)`: the first claim whose type equals
      `kind` ignoring case, if any. */
  function FindFirst(principal: Principal, kind: string): (r: Option<Claim>)
    ensures r.None? <==> forall c :: c in principal ==> !SameIgnoringCase(c.kind, kind)
    ensures r.Some? ==> r.value in principal && SameIgnoringCase(r.value.kind, kind)
    ensures r.Some? ==> exists i :: 0 <= i < |principal| && principal[i] == r.value
                                    && forall j :: 0 <= j < i ==> !SameIgnoringCase(principal[j].kind, kind)
    decreases |principal|
  {
    if principal == [] then None
    else if SameIgnoringCase(principal[0].kind, kind) then Some(principal[0])
    else FindFirst(principal[1..], kind)
  }

  /** How `GetUserId` fails: the `!` on a missing claim dereferences null,
      and `int.Parse` throws on a malformed or out-of-range value. */
  datatype UserIdError = MissingNameIdentifier | Unparsable(cause: ParseError)

  /** `User.GetUserId()`. */
  function GetUserId(principal: Principal): (r: Result<int32, UserIdError>)
    ensures r == Err(MissingNameIdentifier) <==> forall c :: c in principal ==> !SameIgnoringCase(c.kind, NameIdentifierType)
    ensures r.Ok? ==> exists c :: c in principal && SameIgnoringCase(c.kind, NameIdentifierType) && ParseInt32(c.value) == Ok(r.value)
    ensures FindFirst(principal, NameIdentifierType).Some? ==>
      var text := FindFirst(principal, NameIdentifierType).value.value;
      && (r.Ok? <==> ParseInt32(text).Ok?)
      && (r.Ok? ==> ParseInt32(text) == Ok(r.value))
      && (r.Err? ==> r.error == Unparsable(ParseInt32(text).error))
  {
    match FindFirst(principal, NameIdentifierType)
    case None => Err(MissingNameIdentifier)
    case Some(c) =>
      match ParseInt32(c.value)
      case Ok(id) => Ok(id)
      case Err(e) => Err(Unparsable(e))
  }

  /** No claim of the principal has the NameIdentifier type, in any case. */
  predicate NoNameIdentifier(principal: Principal)
  {
    forall c :: c in principal ==> !SameIgnoringCase(c.kind, NameIdentifierType)
  }

  /** FindFirst stops at the first claim of the type, ignoring the rest. */
  lemma {:induction false} FindFirstAfter(before: Principal, c: Claim, after: Principal, kind: string)
    requires forall b :: b in before ==> !SameIgnoringCase(b.kind, kind)
    requires SameIgnoringCase(c.kind, kind)
    ensures FindFirst(before + [c] + after, kind) == Some(c)
    decreases |before|
  {
    if before != [] {
      assert (before + [c] + after)[1..] == before[1..] + [c] + after;
      FindFirstAfter(before[1..], c, after, kind);
    }
  }

  /** Whatever text the first NameIdentifier claim carries, and whatever
      the case of its type, `GetUserId` succeeds exactly when `int.Parse`
      accepts that text, with its value, and fails with its exception
      otherwise; later claims play no part. */
  lemma GetUserIdReadsFirstClaim(before: Principal, kind: string, text: string, after: Principal)
    requires NoNameIdentifier(before) && SameIgnoringCase(kind, NameIdentifierType)
    ensures var r := GetUserId(before + [Claim(kind, text)] + after);
      && (r.Ok? <==> ParseInt32(text).Ok?)
      && (r.Ok? ==> r.value == ParseInt32(text).value)
      && (r.Err? ==> r.error == Unparsable(ParseInt32(text).error))
  {
    FindFirstAfter(before, Claim(kind, text), after, NameIdentifierType);
  }

  /** A principal whose first NameIdentifier claim carries `id.ToString()`
      identifies `id`, whatever claims follow it. */
  lemma GetUserIdOfFirstClaim(before: Principal, id: int32, after: Principal)
    requires NoNameIdentifier(before)
    ensures GetUserId(before + [Claim(NameIdentifierType, FormatInt(id))] + after) == Ok(id)
  {
    FindFirstAfter(before, Claim(NameIdentifierType, FormatInt(id)), after, NameIdentifierType);
    ParseFormatInt32(id);
  }

  /** A NameIdentifier claim carrying the text of an integer outside the
      Int32 range makes `GetUserId` fail with an overflow. */
  lemma GetUserIdRejectsOutOfRange(before: Principal, n: int, after: Principal)
    requires NoNameIdentifier(before)
    requires !(MinInt32 <= n <= MaxInt32)
    ensures GetUserId(before + [Claim(NameIdentifierType, FormatInt(n))] + after) == Err(Unparsable(OverflowError))
  {
    FindFirstAfter(before, Claim(NameIdentifierType, FormatInt(n)), after, NameIdentifierType);
    ParseFormat(n);
  }

  /** A NameIdentifier claim whose text holds a character that is not a
      digit, a sign or white space makes `GetUserId` fail with a format
      error. */
  lemma GetUserIdRejectsNonNumeric(before: Principal, text: string, i: nat, after: Principal)
    requires NoNameIdentifier(before)
    requires i < |text| && !IsDigit(text[i]) && !IsWhite(text[i]) && text[i] != '-' && text[i] != '+'
    ensures GetUserId(before + [Claim(NameIdentifierType, text)] + after) == Err(Unparsable(FormatError))
  {
    FindFirstAfter(before, Claim(NameIdentifierType, text), after, NameIdentifierType);
    ParseRejectsForeignChar(text, i);
  }

  /** `GetUserId` fails with a format error exactly when the text of the
      first NameIdentifier claim does not follow the NumberStyles.Integer
      grammar. */
  lemma GetUserIdRejectsMalformed(before: Principal, kind: string, text: string, after: Principal)
    requires NoNameIdentifier(before) && SameIgnoringCase(kind, NameIdentifierType)
    ensures GetUserId(before + [Claim(kind, text)] + after) == Err(Unparsable(FormatError))
            <==> forall i, j, k :: !NumeralAt(text, i, j, k)
  {
    FindFirstAfter(before, Claim(kind, text), after, NameIdentifierType);
    ParseInt32Grammar(text);
  }
}
