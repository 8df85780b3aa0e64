/** The bearer-token cache: expiry, the token response, and the cache's own operations. */
module Auth {
  import opened Wrappers
  import opened Numerals

  /** Nanoseconds. */
  type Instant = int

  const SECOND: int := 1_000_000_000
  const REFRESH_MARGIN: int := 300 * SECOND
  const DEFAULT_TTL_SECONDS: int := 86_400

  datatype TokenData = TokenData(accessToken: string, expiresAt: Instant)

  predicate ExpiringSoon(token: TokenData, now: Instant) {
    now + REFRESH_MARGIN >= token.expiresAt
  }

  /** The cached token, unless it is absent or about to expire. */
  function Usable(cache: Option<TokenData>, now: Instant): Option<string> {
    match cache
    case Some(token) => if ExpiringSoon(token, now) then None else Some(token.accessToken)
    case None => None
  }

  // ----- The token endpoint -----

  datatype AuthError = HttpFailure | ApiFailure(code: string) | DecodeFailure | InvalidTtl

  /** What one fetch brought back. */
  datatype TokenReply =
    | NoResponse
    | BadStatus
    | Enveloped(code: Option<string>, body: Option<TokenBody>)

  /** `expireIn` is a number or a numeric string, seen as text. */
  datatype TokenBody = TokenBody(accessToken: string, expireIn: Option<string>)

  predicate EnvelopeOk(code: Option<string>) {
    code.None? || code.value in {"", "0000", "00000"}
  }

  /** Lifetime in seconds; absent means a day, and anything not positive fails. */
  function Lifetime(expireIn: Option<string>): (r: Result<int, AuthError>)
    ensures r.Ok? ==> r.value > 0
    ensures r.Ok? <==> expireIn.None? || (ParseI64(expireIn.value).Some? && ParseI64(expireIn.value).value > 0)
  {
    match expireIn
    case None => Ok(DEFAULT_TTL_SECONDS)
    case Some(text) =>
      match ParseI64(text)
      case None => Err(InvalidTtl)
      case Some(seconds) => if seconds <= 0 then Err(InvalidTtl) else Ok(seconds)
  }

  /** A reply that brings a token with a usable lifetime. */
  predicate Brings(reply: TokenReply) {
    && reply.Enveloped? && (reply.code.None? || reply.code.value in {"", "0000", "00000"}) && reply.body.Some?
    && (reply.body.value.expireIn.Some? ==>
          ParseI64(reply.body.value.expireIn.value).Some? && ParseI64(reply.body.value.expireIn.value).value > 0)
  }

  /** A token exactly from such a reply, expiring in the future: after a day where the reply
      names no lifetime, and otherwise after the seconds it names. */
  function FetchOutcome(reply: TokenReply, now: Instant): (r: Result<TokenData, AuthError>)
    ensures r.Ok? <==> Brings(reply)
    ensures r.Ok? ==> r.value.accessToken == reply.body.value.accessToken && r.value.expiresAt > now
    ensures r.Ok? ==>
              match reply.body.value.expireIn
              case None => r.value.expiresAt == now + 24 * 60 * 60 * 1_000_000_000
              case Some(text) => r.value.expiresAt == now + ParseI64(text).value * 1_000_000_000
    ensures r.Err? && r.error.ApiFailure? <==> reply.Enveloped? && !EnvelopeOk(reply.code)
  {
    match reply
    case NoResponse => Err(HttpFailure)
    case BadStatus => Err(HttpFailure)
    case Enveloped(code, body) =>
      if !EnvelopeOk(code) then Err(ApiFailure(code.value))
      else if body.None? then Err(DecodeFailure)
      else
        match Lifetime(body.value.expireIn)
        case Err(error) => Err(error)
        case Ok(seconds) => Ok(TokenData(body.value.accessToken, now + seconds * SECOND))
  }

  // ----- The manager -----

  /** One caller's view, with no other caller running; `AuthProtocol` has any number of them. */
  class TokenManager {
    var token: Option<TokenData>

    constructor ()
      ensures token == None
    {
      token := None;
    }

    /** The part of `get_or_refresh` under the read lock. */
    method FastPath(now: Instant) returns (usable: Option<string>)
      ensures usable == Usable(token, now)
      ensures usable.Some? ==>
          token.Some? && usable.value == token.value.accessToken && now + REFRESH_MARGIN < token.value.expiresAt
    {
      match token
      case Some(data) => return if !ExpiringSoon(data, now) then Some(data.accessToken) else None;
      case None => return None;
    }

    /** The part under the write lock: checks again, and fetches if still needed. */
    method SlowPath(now: Instant, received: Instant, reply: TokenReply)
      returns (r: Result<string, AuthError>, fetched: bool)
      requires now <= received
      modifies this
      ensures fetched <==> Usable(old(token), now).None?
      ensures !fetched ==> token == old(token) && r == Ok(old(token).value.accessToken)
      ensures fetched && FetchOutcome(reply, received).Ok? ==>
                token == Some(FetchOutcome(reply, received).value) && r == Ok(token.value.accessToken)
      ensures fetched && FetchOutcome(reply, received).Err? ==>
                token == old(token) && r == Err(FetchOutcome(reply, received).error)
    {
      var usable := FastPath(now);
      if usable.Some? {
        return Ok(usable.value), false;
      }
      var outcome := FetchOutcome(reply, received);
      if outcome.Err? {
        return Err(outcome.error), true;
      }
      token := Some(outcome.value);
      return Ok(outcome.value.accessToken), true;
    }

    method Clear()
      modifies this
      ensures token == None
    {
      token := None;
    }

    method SeedToken(data: TokenData)
      modifies this
      ensures token == Some(data)
    {
      token := Some(data);
    }

    method SnapshotToken() returns (r: Option<string>)
      ensures r == match token case Some(data) => Some(data.accessToken) case None => None
    {
      match token
      case Some(data) => return Some(data.accessToken);
      case None => return None;
    }
  }
}
