/**
  The form body of a token request (`TokenRequest` in
  src/utils/token-manager.ts) and the two OAuth 2.0 grants it is used for:
  the resource owner password credentials grant (section 4.3.2 of RFC 6749)
  and the refresh grant (section 6 of RFC 6749).
 */
module Grants {
  import opened Wrappers

  const Scope: string := "openid"
  const PasswordGrantType: string := "password"
  const RefreshGrantType: string := "refresh_token"

  /** What the user types at the login prompt. */
  datatype Credentials = Credentials(username: string, password: string)

  /**
    The request fields; `None` is a field the request leaves unset, which the
    form encoding then omits.
   */
  datatype TokenRequest = TokenRequest(
    scope: string,                    // scope
    grantType: string,                // grant_type
    clientId: string,                 // client_id
    username: Option<string>,         // username
    password: Option<string>,         // password
    refreshToken: Option<string>      // refresh_token
  )

  /** Section 4.3.2 of RFC 6749: grant type `password` with a username and a password. */
  predicate IsPasswordGrant(req: TokenRequest) {
    && req.grantType == PasswordGrantType
    && req.scope == Scope
    && req.username.Some? && req.password.Some?
    && req.refreshToken.None?
  }

  /** Section 6 of RFC 6749: grant type `refresh_token` with the refresh token. */
  predicate IsRefreshGrant(req: TokenRequest) {
    && req.grantType == RefreshGrantType
    && req.scope == Scope
    && req.refreshToken.Some?
    && req.username.None? && req.password.None?
  }

  /** The credentials a password-grant request carries, if it is one. */
  function CredentialsOf(req: TokenRequest): (c: Option<Credentials>)
    ensures c.Some? <==> IsPasswordGrant(req)
  {
    if IsPasswordGrant(req) then Some(Credentials(req.username.value, req.password.value)) else None
  }

  /** The refresh token a refresh-grant request carries, if it is one. */
  function RefreshTokenOf(req: TokenRequest): (rt: Option<string>)
    ensures rt.Some? <==> IsRefreshGrant(req)
  {
    if IsRefreshGrant(req) then req.refreshToken else None
  }

  /**
    The password-grant request built from prompted credentials: a well-formed
    password grant for the configured client that carries exactly those
    credentials.
   */
  function PasswordRequest(clientId: string, c: Credentials): (req: TokenRequest)
    ensures IsPasswordGrant(req) && req.clientId == clientId
    ensures CredentialsOf(req) == Some(c)
  {
    TokenRequest(Scope, PasswordGrantType, clientId, Some(c.username), Some(c.password), None)
  }

  /**
    The refresh-grant request built from a stored token: a well-formed
    refresh grant for the configured client that carries exactly that
    refresh token.
   */
  function RefreshRequest(clientId: string, refreshToken: string): (req: TokenRequest)
    ensures IsRefreshGrant(req) && req.clientId == clientId
    ensures RefreshTokenOf(req) == Some(refreshToken)
  {
    TokenRequest(Scope, RefreshGrantType, clientId, None, None, Some(refreshToken))
  }
}
