# Token lifecycle of the portal command-line client

This project models the token manager of the panosc-portal API service
client (`TokenManager` in `src/utils/token-manager.ts`). Every authenticated
command asks the manager for an access token. A call of `getToken` does one of
four things:

- returns the token cached in memory;
- adopts a token read from `token.json` while its access window is open;
- refreshes that token with the OAuth 2.0 refresh grant (section 6 of
  RFC 6749) while only its refresh window is open;
- prompts for a username and password and asks for a new token with the
  resource owner password credentials grant (section 4.3.2 of RFC 6749).

A token obtained from the identity provider is stamped with the clock reading
taken before the request. It is then saved to `token.json`, and the outcome of
that save is recorded in `savedToDisk`.

Files and modules:

- `wrappers.dfy` (`Wrappers`): `Option` and `Result`.
- `tokens.dfy` (`Tokens`): the token record, its two validity windows
  (`timestampMs + expires_in*1000` and `timestampMs + refresh_expires_in*1000`),
  the three-way classification, and stamping.
- `token_store.dfy` (`TokenStore`): reading and saving the token file.
- `configuration.dfy` (`Configuration`): the `config.json` document, the lazy
  `config` getter and the `config.idp` dereference.
- `grants.dfy` (`Grants`): the `TokenRequest` form fields and the two grant
  shapes.
- `token_manager.dfy` (`TokenManager`): `_getTokenFromServer` as
  `FromServer`, and the decision procedure in two forms. `Resolve` is a
  reference function, written tier by tier. `GetToken` (with `RefreshStep` and
  `PasswordStep`) is an imperative method that follows the source's control
  flow. `GetToken` is proved to produce exactly what `Resolve` produces.
- `lifecycle.dfy` (`Lifecycle`): what one call does in each case.
- `sessions.dfy` (`Sessions`): repeated calls in one process, and a restart
  over the files a first process left behind.

The manager's private fields `_currentToken` and `_config` become the
immutable record `Manager(current, config)`. The two files become
`Disk(tokenFile, configFile)`. File contents are abstracted to what reading
them yields: no file, an unreadable file, or a parsed record. Everything else
a call gets from outside is an `Env` passed in:

- the clock reading taken when a token was found on file;
- the clock reading taken before each of the two possible requests;
- the prompt outcome (credentials, or an aborted prompt);
- the identity provider's reply to each grant;
- whether writing the token file succeeds.

Each call returns the effects it performed, in order: `ReadTokenFile`,
`ReadConfigFile`, `PromptUser`, `Request(url, request)` and
`WriteTokenFile(record)`. Properties such as "no network call" are stated over
this trace.

What the code does, and what the model follows:

- The token file is `token.json`. The configuration is `config.json` with an
  `idp` section (`host`, `endpoint`, `url`, `clientId`). Requests go to
  `idp.url`, and the model does not build the endpoint from the host and realm.
- The `config.idp.clientId` dereference used to build the refresh request is
  outside the `try` block. So when a refresh is due and the configuration or
  its `idp` section is missing, `getToken` raises at once
  (`ConfigUnavailable`). It sends no request and does not prompt.
- `getToken` raises in three cases: the password grant is rejected
  (`GrantFailed`, with the message `Error getting token from IDP: ` plus the
  upstream detail), the prompt is aborted (`PromptCancelled`), or the
  configuration is unavailable (`ConfigUnavailable`). A rejected refresh never
  surfaces.
- A failed call caches nothing, so the next call reads the token file again.
  A session reads the token file at most once more than the number of its
  failed calls (`Sessions.ColdCallsBounded`).
- `_saveToken` runs before `savedToDisk` is assigned. The record on file
  therefore lacks that field, and it reads back as falsy. The model writes the
  record with `savedToDisk = false`.
- Nothing checks that a refreshed token differs from the stale one. The model
  returns whatever the provider granted.

## Model

| member | source | states |
|---|---|---|
| Tokens.Classify | src/utils/token-manager.ts:92-115 | A stored token is Valid exactly while now is before the end of its access window. It is Refreshable exactly when the access window has elapsed and now is before the end of its refresh window. It is Dead exactly when both windows have elapsed. |
| Tokens.ClassifyMonotone | src/utils/token-manager.ts:92-115 | As the clock advances, a stored token never moves back to a more useful tier, whatever its two lifetimes are. |
| Tokens.Stamp | src/utils/token-manager.ts:149-161 | A server token keeps the response body unchanged. `timestampMs` is the clock reading taken before the request, and `savedToDisk` is the flag given. Its access window ends `expires_in*1000` ms after that reading, and its refresh window `refresh_expires_in*1000` ms after it. |
| Tokens.StampBody | src/utils/token-manager.ts:159-160 | Stamping inverts stripping: a token is its response body plus its two bookkeeping fields. |
| TokenStore.ReadToken | src/utils/token-manager.ts:186-200 | A missing or unreadable token file yields no token and never an error. A parsed file yields exactly the record it holds. |
| TokenStore.SaveToken | src/utils/token-manager.ts:202-213 | Saving returns true exactly when the write succeeds, and never raises. After a success, reading the file back yields the saved token. After a failure, the file is unchanged. |
| Configuration.ReadConfig | src/utils/token-manager.ts:65-82 | A configuration is yielded exactly when the file parses to one. A missing or unreadable file yields nothing and never raises. |
| Configuration.AccessConfig | src/utils/token-manager.ts:57-63 | The getter reads the file exactly when nothing is cached, and caches whatever that read yields. A cached configuration is returned untouched. |
| Configuration.AccessConfigSettles | src/utils/token-manager.ts:57-63 | Once the getter has cached a configuration, later accesses read nothing and change nothing, whatever the file holds by then. |
| Configuration.IdpOf | src/utils/token-manager.ts:99 | The `config.idp` dereference succeeds exactly when a configuration with an `idp` section is cached. |
| Grants.PasswordRequest | src/utils/token-manager.ts:123-129 | The password request is a well-formed grant under section 4.3.2 of RFC 6749: grant type `password`, scope `openid`, the configured client id and no refresh token. It carries exactly the prompted credentials, which can be read back from it. |
| Grants.RefreshRequest | src/utils/token-manager.ts:98-103 | The refresh request is a well-formed grant under section 6 of RFC 6749: grant type `refresh_token`, scope `openid`, the configured client id and no username or password. It carries exactly the given refresh token. |
| TokenManager.FromServer | src/utils/token-manager.ts:145-168 | Exactly one request goes to `idp.url`. It succeeds exactly when the provider grants. A granted token is stamped with the pre-request clock reading. The stamped response is saved with `savedToDisk` unset, and the returned `savedToDisk` equals what saving reported. A rejection leaves the file alone and raises the prefixed upstream detail. |
| TokenManager.RefreshTier | src/utils/token-manager.ts:95-111 | The refresh attempt never prompts and never reads the token file. It sends only refresh grants. It succeeds exactly when a configuration with an `idp` section is available and the refresh is granted, and a token is cached exactly then. Whatever the config getter yielded is left cached, and a cached configuration is never re-read. |
| TokenManager.PasswordTier | src/utils/token-manager.ts:118-139 | The password tier prompts first and exactly once, and never reads the token file. It sends only password grants. It succeeds exactly when the prompt is answered, a configuration with an `idp` section is available and the grant is given, and a token is cached exactly then. After an answered prompt, whatever the config getter yielded is left cached, and a cached configuration is never re-read. |
| TokenManager.Resolve | src/utils/token-manager.ts:84-143 | On the warm path, the cached token is returned with no effects and no state change. A call succeeds exactly when a token is cached afterwards, and it returns that token. A cached configuration is never re-read or replaced. The configuration file is never written. Every request sent is one of the two grants. |
| TokenManager.RefreshStep | src/utils/token-manager.ts:95-111 | The imperative refresh branch does exactly what `RefreshTier` states. |
| TokenManager.PasswordStep | src/utils/token-manager.ts:118-139 | The imperative password branch does exactly what `PasswordTier` states. |
| TokenManager.GetToken | src/utils/token-manager.ts:84-143 | `getToken`, following the source's nested checks and its second null check, produces the same state, files, result and effect trace as the tier-by-tier reference `Resolve`. |
| Lifecycle.ValidStoredTokenAdopted | src/utils/token-manager.ts:88-93 | A stored token inside its access window becomes the current token and is returned. The only effect is reading the file: no request and no prompt. |
| Lifecycle.RefreshableStoredTokenRefreshed | src/utils/token-manager.ts:95-107 | A stored token inside only its refresh window leads to exactly one request. It is a refresh grant with scope openid, the configured client id and the stored refresh token. When granted, the stamped response is saved and returned, and the user is never prompted. |
| Lifecycle.RefreshFailureSwallowed | src/utils/token-manager.ts:105-132 | A rejected refresh does not raise, and the configuration read for it stays cached. The call goes on to exactly one prompt. If the prompt is aborted, the call raises `PromptCancelled`. Otherwise one password grant with the prompted credentials is sent, and the call ends as that grant does. On rejection no token is cached. |
| Lifecycle.RefreshWithoutConfigRaises | src/utils/token-manager.ts:98-103 | When a refresh is due but no configuration with an `idp` section is available, the call raises `ConfigUnavailable`. Its only effects are the file and config reads: no request and no prompt. |
| Lifecycle.DeadOrAbsentTokenPrompts | src/utils/token-manager.ts:86-133 | With no file, an unreadable file, or a token past both windows, no refresh is attempted and the prompt comes right after the file read. An aborted prompt raises `PromptCancelled`. After an answered prompt without a usable configuration, the call raises `ConfigUnavailable` and sends nothing. Otherwise exactly one password grant with the prompted credentials is sent. When granted, the stamped token is cached, written and returned. When rejected, the call raises the prefixed detail and caches nothing. |
| Lifecycle.FailureCauses | src/utils/token-manager.ts:118-139 | A call fails only from a cold start. On failure it caches no token, leaves the token file unchanged and writes nothing. It is a rejected password grant (after the prompt, with the prefixed detail), an aborted prompt, or a missing configuration before any request. |
| Lifecycle.ServerTokenPersisted | src/utils/token-manager.ts:159-161 | A written record is the returned token with `savedToDisk` unset. The returned token's `savedToDisk` is true exactly when the write succeeds. Only a successful write changes the file. The write is the call's last effect. |
| Lifecycle.ServerTokenWritten | src/utils/token-manager.ts:159-163 | Every successful call that sent a request ends by writing the returned token, with `savedToDisk` unset, to the token file. |
| Lifecycle.ConfigCachedAfterRead | src/utils/token-manager.ts:57-63 | A call that reads the configuration file reads it exactly once, and afterwards caches exactly what the getter yielded, whether the call succeeds or fails. |
| Lifecycle.FirstLoginScenario | src/utils/token-manager.ts:118-133 | On first login with `alice`/`secret1` and a 300-second token, the call reads the file, prompts, reads the config and sends the exact password-grant fields. It saves the token, and the returned token expires 300000 ms after the request was sent. |
| Sessions.WarmSessionIsSilent | src/utils/token-manager.ts:84-143 | Once a token is cached, any number of calls return it with no effects and no state change. |
| Sessions.RepeatedCallsReturnSameToken | src/utils/token-manager.ts:84-143 | After a successful call, every later call returns the same token, and the session's effects are those of the first call only. |
| Sessions.ConfigNeverReread | src/utils/token-manager.ts:57-63 | From a manager with a cached configuration, no call reads the configuration file again and the cached value never changes. |
| Sessions.OneReadPerCall | src/utils/token-manager.ts:84-143 | A call reads the token file exactly once when no token is cached and never otherwise. It prompts at most once. |
| Sessions.ColdCallsBounded | src/utils/token-manager.ts:84-143 | In any session, the token file is read, and the user prompted, at most once more than the number of failed calls. A manager with a cached token never reads the file. |
| Sessions.RestartAdoptsPersistedToken | src/utils/token-manager.ts:186-213 | If a token was obtained and saved, a new process over the files left behind gets it back while it is inside its access window. The only effect is the file read, and the record differs only in `savedToDisk`. |

## Left out

- File-system calls, JSON parsing and printing, the `inquirer` prompt, `axios` HTTP and `querystring` form encoding: each is an outcome in `Env`, `Disk` or the effect trace.
- Console logging: it has no effect on state.
- `async`/`await`: calls are sequential; the source has no concurrency and no single-flight guard.
- The `configFilename` setter: it only changes which path is read; the model has one configuration file.
- Token record fields that are not JSON numbers: the model's token fields are always integers. In the source, a missing field or a non-numeric string makes that window's end `NaN`, so that window's test is false. A bad `timestampMs` therefore falls to "expired". A bad `expires_in` skips to the refresh test. A bad `refresh_expires_in` disables only the refresh tier. `null`, booleans and numeric strings are coerced to numbers, and a string `timestampMs` is concatenated with the product rather than added to it.
- JavaScript number semantics: `timestampMs`, `expires_in` and `refresh_expires_in` are unbounded integers, with no floating-point rounding.
- A configuration file whose JSON is `null`: it behaves like an unreadable file, except for logging.
- A failed write is modelled as leaving the token file unchanged. A write that fails after truncating the file is not modelled.
- Extra or non-object data in the provider's response body is not modelled.
- `src/utils/base-command.ts`, `src/commands/**`, `src/views/**` and `src/models/**`: HTTP plumbing, prompt-and-print commands, table formatting and plain data classes that only consume `getToken`.
