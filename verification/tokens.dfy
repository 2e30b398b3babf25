/**
  The access credential issued by the identity provider and the local
  bookkeeping the client adds to it (`Token` in src/utils/token-manager.ts).
 */
module Tokens {

  /** Lifetimes are reported in seconds; the clock is read in milliseconds. */
  const MillisPerSecond: int := 1000

  /** The body of a successful token response (section 5.1 of RFC 6749). */
  datatype Issued = Issued(
    accessToken: string,       // access_token
    idToken: string,           // id_token
    expiresIn: int,            // expires_in, seconds
    refreshExpiresIn: int,     // refresh_expires_in, seconds
    refreshToken: string,      // refresh_token
    tokenType: string          // token_type
  )

  /** An issued token plus the two fields the client stamps on it. */
  datatype Token = Token(
    accessToken: string,
    idToken: string,
    expiresIn: int,
    refreshExpiresIn: int,
    refreshToken: string,
    tokenType: string,
    savedToDisk: bool,         // whether the token file was written
    timestampMs: int           // clock reading taken just before the request was sent
  )

  /** End of the access window: the token may be used strictly before this instant. */
  function ExpiresAtMs(t: Token): int {
    t.timestampMs + t.expiresIn * MillisPerSecond
  }

  /** End of the refresh window: the refresh token may be used strictly before this instant. */
  function RefreshExpiresAtMs(t: Token): int {
    t.timestampMs + t.refreshExpiresIn * MillisPerSecond
  }

  /** What a stored token is good for at a given instant. */
  datatype Tier = Valid | Refreshable | Dead

  /**
    The decision taken on a token read from file: usable as is, usable only
    to obtain a new one, or useless.
   */
  function Classify(t: Token, nowMs: int): (tier: Tier)
    ensures tier == Valid <==> nowMs < ExpiresAtMs(t)
    ensures tier == Refreshable <==> ExpiresAtMs(t) <= nowMs < RefreshExpiresAtMs(t)
    ensures tier == Dead <==> ExpiresAtMs(t) <= nowMs && RefreshExpiresAtMs(t) <= nowMs
  {
    if nowMs < ExpiresAtMs(t) then Valid
    else if nowMs < RefreshExpiresAtMs(t) then Refreshable
    else Dead
  }

  /** Orders the tiers from most to least useful. */
  function Rank(tier: Tier): nat {
    match tier
    case Valid => 0
    case Refreshable => 1
    case Dead => 2
  }

  /**
    Time only degrades a stored token: whatever the two lifetimes are, a token
    never moves back to a more useful tier as the clock advances.
   */
  lemma ClassifyMonotone(t: Token, earlierMs: int, laterMs: int)
    requires earlierMs <= laterMs
    ensures Rank(Classify(t, earlierMs)) <= Rank(Classify(t, laterMs))
  {
  }

  /** The response body of a token, without the client's bookkeeping. */
  function Body(t: Token): (i: Issued)
    ensures i.accessToken == t.accessToken && i.refreshToken == t.refreshToken
    ensures i.expiresIn == t.expiresIn && i.refreshExpiresIn == t.refreshExpiresIn
  {
    Issued(t.accessToken, t.idToken, t.expiresIn, t.refreshExpiresIn, t.refreshToken, t.tokenType)
  }

  /**
    Stamps a server response with the clock reading taken before the request
    and with the outcome of saving it.
   */
  function Stamp(i: Issued, sentAtMs: int, saved: bool): (t: Token)
    ensures Body(t) == i
    ensures t.timestampMs == sentAtMs && t.savedToDisk == saved
    ensures ExpiresAtMs(t) == sentAtMs + i.expiresIn * 1000
    ensures RefreshExpiresAtMs(t) == sentAtMs + i.refreshExpiresIn * 1000
  {
    Token(i.accessToken, i.idToken, i.expiresIn, i.refreshExpiresIn, i.refreshToken, i.tokenType,
          saved, sentAtMs)
  }

  /** Stamping and stripping are inverse: a token is its body plus its bookkeeping. */
  lemma StampBody(t: Token)
    ensures Stamp(Body(t), t.timestampMs, t.savedToDisk) == t
  {
  }
}
