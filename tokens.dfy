/** The token issuer of Backend/Services/TokenService.cs. The token is
    kept as the record the handler signs: the subject's claims, issuer and
    audience (RFC 7519, sections 4.1.1 and 4.1.3), the expiry (the `exp`
    claim, section 4.1.4) and the signing key and algorithm. Signing and
    the compact serialisation are not modelled. */
module Tokens {
  import opened Common
  import opened DecimalText
  import opened Claims
  import opened Models

  /** The `Jwt` configuration section; every entry may be absent. */
  datatype JwtConfig = JwtConfig(
    key: Option<string>,
    issuer: Option<string>,
    audience: Option<string>,
    expiresMinutes: Option<string>)

  /** SecurityAlgorithms.HmacSha256. */
  const HmacSha256: string := "HS256"

  datatype SecurityToken = SecurityToken(
    subject: Principal,
    issuer: Option<string>,
    audience: Option<string>,
    expires: DateTime,
    signingKey: string,
    algorithm: string)

  /** The exceptions `CreateToken` can raise: a null key (`!` on a missing
      entry), a zero-length key, a missing or unparsable expiry, an expiry
      that leaves the DateTime range, and the token handler's refusal of
      an expiry that is not after the not-before time, which it sets to
      the current instant. */
  datatype TokenError =
    | KeyMissing
    | KeyEmpty
    | ExpiryMissing
    | ExpiryUnparsable(cause: ParseError)
    | ExpiryOutOfRange
    | ExpiryNotAfterNotBefore

  /** The two identity claims of the subject. */
  function IdentityClaims(user: User): Principal
  {
    [Claim(NameIdentifierType, FormatInt(user.id)), Claim(NameType, user.userName)]
  }

  /** `CreateToken(user)` at the instant `now` (DateTime.UtcNow). */
  function CreateToken(config: JwtConfig, user: User, now: DateTime): (r: Result<SecurityToken, TokenError>)
    ensures r.Ok? ==> r.value.issuer == config.issuer && r.value.audience == config.audience
    ensures r.Ok? ==> config.key == Some(r.value.signingKey) && r.value.algorithm == HmacSha256
    ensures r.Ok? ==> r.value.subject == IdentityClaims(user)
    ensures r.Ok? ==> now < r.value.expires
    ensures config.key.None? ==> r == Err(KeyMissing)
  {
    var claims := IdentityClaims(user);
    if config.key.None? then Err(KeyMissing)
    else if config.key.value == "" then Err(KeyEmpty)
    else if config.expiresMinutes.None? then Err(ExpiryMissing)
    else
      match ParseInt32(config.expiresMinutes.value)
      case Err(e) => Err(ExpiryUnparsable(e))
      case Ok(minutes) => Sign(config, claims, now, minutes)
  }

  /** The token descriptor's `Expires = now.AddMinutes(minutes)` and the
      handler's check that the expiry falls after the not-before time. */
  function Sign(config: JwtConfig, claims: Principal, now: DateTime, minutes: int32): (r: Result<SecurityToken, TokenError>)
    requires config.key.Some?
    ensures r.Ok? <==> minutes > 0 && now + minutes * TicksPerMinute <= MaxTicks
    ensures r == Err(ExpiryOutOfRange) <==> !(0 <= now + minutes * TicksPerMinute <= MaxTicks)
    ensures r.Ok? ==> now < r.value.expires && r.value.expires == now + minutes * TicksPerMinute
    ensures r.Ok? ==> r.value == SecurityToken(claims, config.issuer, config.audience, r.value.expires, config.key.value, HmacSha256)
  {
    var expires := now + minutes * TicksPerMinute;
    if !(0 <= expires <= MaxTicks) then Err(ExpiryOutOfRange)
    else if expires <= now then Err(ExpiryNotAfterNotBefore)
    else Ok(SecurityToken(claims, config.issuer, config.audience, expires, config.key.value, HmacSha256))
  }

  /** A positive lifetime whose end is a DateTime yields a token that
      expires at that end. */
  lemma Expires(config: JwtConfig, claims: Principal, now: DateTime, minutes: int32)
    requires config.key.Some? && minutes > 0 && 0 <= now + minutes * TicksPerMinute <= MaxTicks
    ensures Sign(config, claims, now, minutes).Ok?
    ensures Sign(config, claims, now, minutes).value.expires == now + minutes * TicksPerMinute
  {
    assert minutes * TicksPerMinute > 0;
  }

  /** A configuration under which tokens can be issued for `minutes`. */
  predicate Issues(config: JwtConfig, minutes: int32)
  {
    config.key.Some? && config.key.value != "" && config.expiresMinutes == Some(FormatInt(minutes)) && minutes > 0
  }

  /** The subject's claims name the user: reading the caller id back
      gives the user's id, and the Name claim is the user's name. */
  lemma IdentityClaimsRoundTrip(user: User)
    ensures GetUserId(IdentityClaims(user)) == Ok(user.id)
    ensures FindFirst(IdentityClaims(user), NameType) == Some(Claim(NameType, user.userName))
  {
    var claims := IdentityClaims(user);
    assert |NameIdentifierType| != |NameType|;
    assert FindFirst(claims, NameIdentifierType) == Some(claims[0]);
    assert claims[1..] == [claims[1]];
    assert FindFirst(claims, NameType) == Some(claims[1]);
    ParseFormatInt32(user.id);
  }

  /** The identity round trip of an issued token: `GetUserId` on the
      token's subject is the id of the user it was issued for. */
  lemma TokenIdentifiesUser(config: JwtConfig, user: User, now: DateTime)
    requires CreateToken(config, user, now).Ok?
    ensures var t := CreateToken(config, user, now).value;
      && GetUserId(t.subject) == Ok(user.id)
      && FindFirst(t.subject, NameType) == Some(Claim(NameType, user.userName))
  {
    IdentityClaimsRoundTrip(user);
  }

  /** With a key and a positive expiry that reads as `minutes`, the token
      expires `minutes` after `now` whenever that instant is a DateTime. */
  lemma IssuedWhenParsed(config: JwtConfig, user: User, now: DateTime, minutes: int32)
    requires config.key.Some? && config.key.value != "" && config.expiresMinutes.Some?
    requires ParseInt32(config.expiresMinutes.value) == Ok(minutes) && minutes > 0
    requires 0 <= now + minutes * TicksPerMinute <= MaxTicks
    ensures CreateToken(config, user, now).Ok?
    ensures CreateToken(config, user, now).value.expires == now + minutes * TicksPerMinute
  {
    Expires(config, IdentityClaims(user), now, minutes);
  }

  /** Every issued token reads its lifetime from `Jwt:ExpiresMinutes`:
      the setting is present, `int.Parse` accepts it, and the token
      expires exactly that many minutes after `now`. */
  lemma TokenExpiresAsConfigured(config: JwtConfig, user: User, now: DateTime)
    requires CreateToken(config, user, now).Ok?
    ensures config.expiresMinutes.Some? && ParseInt32(config.expiresMinutes.value).Ok?
    ensures ParseInt32(config.expiresMinutes.value).value > 0
    ensures CreateToken(config, user, now).value.expires
            == now + ParseInt32(config.expiresMinutes.value).value * TicksPerMinute
  {
  }

  /** A lifetime of zero or fewer minutes never yields a token: the
      expiry is either outside the DateTime range or not after `now`. */
  lemma NoTokenWithoutLifetime(config: JwtConfig, user: User, now: DateTime, minutes: int32)
    requires config.key.Some? && config.key.value != "" && config.expiresMinutes.Some?
    requires ParseInt32(config.expiresMinutes.value) == Ok(minutes) && minutes <= 0
    ensures CreateToken(config, user, now) == Err(ExpiryOutOfRange)
         || CreateToken(config, user, now) == Err(ExpiryNotAfterNotBefore)
  {
  }

  /** With a usable configuration, a token is issued whenever its expiry
      stays in range, and it expires exactly the configured number of
      minutes after `now`. */
  lemma TokenExpiry(config: JwtConfig, user: User, now: DateTime, minutes: int32)
    requires Issues(config, minutes)
    requires now + minutes * TicksPerMinute <= MaxTicks && now + minutes * TicksPerMinute >= 0
    ensures CreateToken(config, user, now).Ok?
    ensures CreateToken(config, user, now).value.expires == now + minutes * TicksPerMinute
  {
    ParseFormatInt32(minutes);
    IssuedWhenParsed(config, user, now, minutes);
  }
}
