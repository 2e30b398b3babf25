/**
  What one call of `getToken` does, case by case, stated over the reference
  decision procedure `TokenManager.Resolve` (which `TokenManager.GetToken`
  is proved to follow).
 */
module Lifecycle {
  import opened Wrappers
  import opened Tokens
  import opened TokenStore
  import opened Configuration
  import opened Grants
  import opened TokenManager

  /** The identity-provider section a cold call would use, if any. */
  function IdpFor(m: Manager, disk: Disk): Option<IdpConfig> {
    IdpOf(AccessConfig(m.config, disk.configFile).cache)
  }

  /** The manager after the configuration getter ran once. */
  function WithConfig(m: Manager, disk: Disk): Manager {
    m.(config := AccessConfig(m.config, disk.configFile).cache)
  }

  /**
    A stored token still inside its access window is adopted and returned:
    the file is read and nothing else happens, no request and no prompt.
   */
  lemma ValidStoredTokenAdopted(m: Manager, disk: Disk, env: Env, t: Token)
    requires m.current.None? && disk.tokenFile == TokenRecord(t)
    requires env.nowMs < t.timestampMs + t.expiresIn * 1000
    ensures Resolve(m, disk, env) == Outcome(m.(current := Some(t)), disk, Success(t), [ReadTokenFile])
  {
  }

  /**
    A stored token past its access window but inside its refresh window is
    refreshed with exactly one refresh-grant request for the configured
    client carrying the stored refresh token; when granted, the stamped
    response is saved and returned and the user is never prompted.
   */
  lemma RefreshableStoredTokenRefreshed(m: Manager, disk: Disk, env: Env, t: Token, idp: IdpConfig)
    requires m.current.None? && disk.tokenFile == TokenRecord(t)
    requires t.timestampMs + t.expiresIn * 1000 <= env.nowMs < t.timestampMs + t.refreshExpiresIn * 1000
    requires IdpFor(m, disk) == Some(idp)
    requires env.refreshReply.Granted?
    ensures var o := Resolve(m, disk, env);
            var issued := env.refreshReply.issued;
            var loads := ConfigReads(AccessConfig(m.config, disk.configFile));
            && o.result == Success(Stamp(issued, env.refreshSentAtMs, env.write == WriteSucceeds))
            && o.trace == [ReadTokenFile] + loads
                          + [Request(idp.url, RefreshRequest(idp.clientId, t.refreshToken)),
                             WriteTokenFile(Stamp(issued, env.refreshSentAtMs, false))]
            && PromptUser !in o.trace
  {
    assert Classify(t, env.nowMs) == Refreshable;
  }

  /**
    A rejected refresh does not escape: no token is cached by it and the
    call goes on to exactly one prompt and one password-grant request with
    the prompted credentials; the call then ends as that request does.
   */
  lemma RefreshFailureSwallowed(m: Manager, disk: Disk, env: Env, t: Token, idp: IdpConfig)
    requires m.current.None? && disk.tokenFile == TokenRecord(t)
    requires t.timestampMs + t.expiresIn * 1000 <= env.nowMs < t.timestampMs + t.refreshExpiresIn * 1000
    requires IdpFor(m, disk) == Some(idp)
    requires env.refreshReply.Rejected?
    ensures var o := Resolve(m, disk, env);
            var loads := ConfigReads(AccessConfig(m.config, disk.configFile));
            var refreshed := [ReadTokenFile] + loads
                             + [Request(idp.url, RefreshRequest(idp.clientId, t.refreshToken)), PromptUser];
            && o.manager.config == WithConfig(m, disk).config
            && match env.prompt
               case Aborted =>
                 o == Outcome(WithConfig(m, disk), disk, Failure(PromptCancelled), refreshed)
               case Entered(creds) =>
                 var attempts := refreshed + [Request(idp.url, PasswordRequest(idp.clientId, creds))];
                 match env.passwordReply
                 case Granted(issued) =>
                   && o.result == Success(Stamp(issued, env.passwordSentAtMs, env.write == WriteSucceeds))
                   && o.trace == attempts + [WriteTokenFile(Stamp(issued, env.passwordSentAtMs, false))]
                 case Rejected(detail) =>
                   && o.result == Failure(GrantFailed(ExchangeErrorPrefix + detail))
                   && o.manager.current.None?
                   && o.trace == attempts
  {
    assert Classify(t, env.nowMs) == Refreshable;
  }

  /**
    When a refresh is due but the configuration (or its `idp` section) is
    missing, the call raises while building the refresh request: no request
    is sent and the user is not prompted.
   */
  lemma RefreshWithoutConfigRaises(m: Manager, disk: Disk, env: Env, t: Token)
    requires m.current.None? && disk.tokenFile == TokenRecord(t)
    requires t.timestampMs + t.expiresIn * 1000 <= env.nowMs < t.timestampMs + t.refreshExpiresIn * 1000
    requires IdpFor(m, disk).None?
    ensures Resolve(m, disk, env)
            == Outcome(WithConfig(m, disk), disk, Failure(ConfigUnavailable),
                       [ReadTokenFile] + ConfigReads(AccessConfig(m.config, disk.configFile)))
  {
    assert Classify(t, env.nowMs) == Refreshable;
  }

  /**
    With no usable stored token (no file, an unreadable file, or a token past
    both windows) no refresh is attempted: the call prompts right after
    reading the file, and the only request it can send is a password grant
    for the configured client carrying the prompted credentials.
   */
  lemma DeadOrAbsentTokenPrompts(m: Manager, disk: Disk, env: Env)
    requires m.current.None?
    requires disk.tokenFile.TokenRecord? ==>
      var t := disk.tokenFile.token;
      t.timestampMs + t.expiresIn * 1000 <= env.nowMs && t.timestampMs + t.refreshExpiresIn * 1000 <= env.nowMs
    ensures var o := Resolve(m, disk, env);
            && o == After([ReadTokenFile], PasswordTier(m, disk, env))
            && |o.trace| >= 2 && o.trace[..2] == [ReadTokenFile, PromptUser]
            && (forall e | e in o.trace && e.Request? ::
                  && IsPasswordGrant(e.request)
                  && env.prompt.Entered? && IdpFor(m, disk).Some?
                  && e == Request(IdpFor(m, disk).value.url,
                                  PasswordRequest(IdpFor(m, disk).value.clientId, env.prompt.credentials)))
    ensures var o := Resolve(m, disk, env);
            var loads := ConfigReads(AccessConfig(m.config, disk.configFile));
            match env.prompt
            case Aborted =>
              o == Outcome(m, disk, Failure(PromptCancelled), [ReadTokenFile, PromptUser])
            case Entered(creds) =>
              match IdpFor(m, disk)
              case None =>
                o == Outcome(WithConfig(m, disk), disk, Failure(ConfigUnavailable),
                             [ReadTokenFile, PromptUser] + loads)
              case Some(idp) =>
                var sent := [ReadTokenFile, PromptUser] + loads
                            + [Request(idp.url, PasswordRequest(idp.clientId, creds))];
                match env.passwordReply
                case Granted(issued) =>
                  var record := Stamp(issued, env.passwordSentAtMs, false);
                  var t := Stamp(issued, env.passwordSentAtMs, env.write == WriteSucceeds);
                  && o.result == Success(t)
                  && o.manager == WithConfig(m, disk).(current := Some(t))
                  && o.disk == disk.(tokenFile := SaveToken(disk.tokenFile, record, env.write).file)
                  && o.trace == sent + [WriteTokenFile(record)]
                case Rejected(detail) =>
                  o == Outcome(WithConfig(m, disk), disk, Failure(GrantFailed(ExchangeErrorPrefix + detail)), sent)
  {
    if disk.tokenFile.TokenRecord? {
      assert Classify(disk.tokenFile.token, env.nowMs) == Dead;
    }
  }

  /** The failure condition of `FailureCauses`, for an outcome of a cold call. */
  ghost predicate FailsAsSourceDoes(m: Manager, disk: Disk, env: Env, o: Outcome)
    requires o.result.Failure?
  {
    && o.manager.current.None?
    && o.disk.tokenFile == disk.tokenFile
    && (forall e | e in o.trace :: !e.WriteTokenFile?)
    && match o.result.error
       case GrantFailed(msg) =>
         && env.passwordReply.Rejected?
         && msg == ExchangeErrorPrefix + env.passwordReply.detail
         && PromptUser in o.trace
         && |o.trace| > 0
         && o.trace[|o.trace| - 1].Request?
         && IsPasswordGrant(o.trace[|o.trace| - 1].request)
       case PromptCancelled =>
         env.prompt.Aborted? && |o.trace| > 0 && o.trace[|o.trace| - 1] == PromptUser
       case ConfigUnavailable =>
         && IdpOf(o.manager.config).None?
         && (forall e | e in o.trace :: !e.Request?)
  }

  /** How the password tier fails, when it does. */
  lemma PasswordTierFailure(m: Manager, disk: Disk, env: Env)
    requires m.current.None?
    ensures var o := PasswordTier(m, disk, env);
            && |o.trace| > 0 && o.trace[0] == PromptUser
            && (o.result.Failure? ==> FailsAsSourceDoes(m, disk, env, o))
  {
  }

  /** How the refresh tier fails, when it does. */
  lemma RefreshTierFailure(m: Manager, disk: Disk, env: Env, stored: Token)
    requires m.current.None?
    ensures var r := RefreshTier(m, disk, env, stored);
            r.result.Failure? ==>
              && r.manager.current.None?
              && r.disk == disk
              && (forall e | e in r.trace :: !e.WriteTokenFile? && !e.PromptUser?)
              && (r.result.error == ConfigUnavailable ==> FailsAsSourceDoes(m, disk, env, r))
  {
  }

  /**
    The ways a call can fail, and what a failure leaves behind. A call fails
    only from a cold start; it then caches no token and leaves the token
    file as it was. A grant failure comes from the password request, after
    the prompt (a rejected refresh never surfaces); a cancellation comes from
    the prompt; a configuration failure happens before any request.
   */
  lemma FailureCauses(m: Manager, disk: Disk, env: Env)
    ensures var o := Resolve(m, disk, env);
            o.result.Failure? ==> m.current.None? && FailsAsSourceDoes(m, disk, env, o)
  {
    if m.current.None? {
      match ReadToken(disk.tokenFile)
      case None =>
        PasswordTierFailure(m, disk, env);
      case Some(stored) =>
        match Classify(stored, env.nowMs)
        case Valid =>
        case Dead =>
          PasswordTierFailure(m, disk, env);
        case Refreshable =>
          var r := RefreshTier(m, disk, env, stored);
          RefreshTierFailure(m, disk, env, stored);
          if r.result.Failure? && r.result.error != ConfigUnavailable {
            PasswordTierFailure(r.manager, r.disk, env);
          }
    }
  }

  /** The persistence condition of `ServerTokenPersisted`, for the outcome of a call. */
  ghost predicate PersistedAsSourceDoes(disk: Disk, env: Env, o: Outcome, record: Token) {
    && o.result.Success?
    && record == o.result.value.(savedToDisk := false)
    && (o.result.value.savedToDisk <==> env.write == WriteSucceeds)
    && o.disk.tokenFile == (if env.write == WriteSucceeds then TokenRecord(record) else disk.tokenFile)
    && |o.trace| > 0 && o.trace[|o.trace| - 1] == WriteTokenFile(record)
  }

  /** A write in the password tier's trace is its persisted token. */
  lemma PasswordTierWrite(m: Manager, disk: Disk, env: Env, record: Token)
    requires WriteTokenFile(record) in PasswordTier(m, disk, env).trace
    ensures PersistedAsSourceDoes(disk, env, PasswordTier(m, disk, env), record)
  {
  }

  /** A write in the refresh tier's trace is its persisted token. */
  lemma RefreshTierWrite(m: Manager, disk: Disk, env: Env, stored: Token, record: Token)
    requires WriteTokenFile(record) in RefreshTier(m, disk, env, stored).trace
    ensures PersistedAsSourceDoes(disk, env, RefreshTier(m, disk, env, stored), record)
  {
  }

  /**
    A token obtained from the identity provider is written to the token file
    once, as the stamped response with `savedToDisk` unset; the returned
    token says whether that write succeeded, and only a successful write
    changes the file. The write is the last thing the call does.
   */
  lemma ServerTokenPersisted(m: Manager, disk: Disk, env: Env, record: Token)
    requires WriteTokenFile(record) in Resolve(m, disk, env).trace
    ensures PersistedAsSourceDoes(disk, env, Resolve(m, disk, env), record)
  {
    assert m.current.None?;
    match ReadToken(disk.tokenFile)
    case None =>
      PasswordTierWrite(m, disk, env, record);
    case Some(stored) =>
      match Classify(stored, env.nowMs)
      case Valid =>
      case Dead =>
        PasswordTierWrite(m, disk, env, record);
      case Refreshable =>
        var r := RefreshTier(m, disk, env, stored);
        if r.result.Success? || r.result.error == ConfigUnavailable {
          RefreshTierWrite(m, disk, env, stored, record);
        } else {
          RefreshTierFailure(m, disk, env, stored);
          assert WriteTokenFile(record) !in r.trace;
          PasswordTierWrite(r.manager, r.disk, env, record);
        }
  }

  /**
    First login on an empty token store: the user types `alice`/`secret1`,
    the provider grants a token valid for 300 seconds, and the token file is
    written. The request is a password grant for client `cli` with the openid
    scope, and the returned token expires 300000 ms after the request was sent.
   */
  lemma FirstLoginScenario(sentAtMs: int, issued: Issued)
    requires issued.expiresIn == 300
    ensures var idp := IdpConfig("idp.example.com", "acme",
                                 "https://idp.example.com/realms/acme/protocol/openid-connect/token", "cli");
            var disk := Disk(NoTokenFile, ConfigRecord(Config(Some(idp))));
            var env := Env(0, 0, sentAtMs, Entered(Credentials("alice", "secret1")),
                           Rejected(""), Granted(issued), WriteSucceeds);
            var o := Resolve(Fresh, disk, env);
            var record := Stamp(issued, sentAtMs, false);
            && o.result.Success?
            && ExpiresAtMs(o.result.value) == sentAtMs + 300000
            && o.result.value.savedToDisk
            && o.disk.tokenFile == TokenRecord(record)
            && o.trace == [ReadTokenFile, PromptUser, ReadConfigFile,
                           Request(idp.url, TokenRequest("openid", "password", "cli",
                                                         Some("alice"), Some("secret1"), None)),
                           WriteTokenFile(record)]
  {
  }

  /**
    Conversely, every token a call obtains from the identity provider is
    written: a successful call that sent a request ends by writing the
    returned token with `savedToDisk` unset.
   */
  lemma ServerTokenWritten(m: Manager, disk: Disk, env: Env)
    ensures var o := Resolve(m, disk, env);
            (o.result.Success? && exists e :: e in o.trace && e.Request?) ==>
              |o.trace| > 0 && o.trace[|o.trace| - 1] == WriteTokenFile(o.result.value.(savedToDisk := false))
  {
    if m.current.None? {
      match ReadToken(disk.tokenFile)
      case None =>
      case Some(stored) =>
        match Classify(stored, env.nowMs)
        case Valid =>
        case Dead =>
        case Refreshable =>
          var r := RefreshTier(m, disk, env, stored);
          if !(r.result.Success? || r.result.error == ConfigUnavailable) {
            PasswordTierFailure(r.manager, r.disk, env);
          }
    }
  }

  /**
    A call that reads the configuration file reads it once and keeps what it
    read: the manager afterwards caches exactly the getter's result, so a
    configuration read once is never read again by later calls.
   */
  lemma ConfigCachedAfterRead(m: Manager, disk: Disk, env: Env)
    ensures var o := Resolve(m, disk, env);
            ReadConfigFile in o.trace ==>
              && o.manager.config == AccessConfig(m.config, disk.configFile).cache
              && multiset(o.trace)[ReadConfigFile] == 1
  {
    if m.current.None? {
      match ReadToken(disk.tokenFile)
      case None =>
      case Some(stored) =>
        match Classify(stored, env.nowMs)
        case Valid =>
        case Refreshable =>
          var r := RefreshTier(m, disk, env, stored);
          RefreshTierConfigReads(m, disk, env, stored);
          if !(r.result.Success? || r.result.error == ConfigUnavailable) {
            PasswordTierConfigReads(r.manager, r.disk, env);
          }
        case Dead =>
    }
  }

  /** The refresh tier reads the configuration file once when none is cached, and never otherwise. */
  lemma RefreshTierConfigReads(m: Manager, disk: Disk, env: Env, stored: Token)
    ensures multiset(RefreshTier(m, disk, env, stored).trace)[ReadConfigFile]
            == if m.config.None? then 1 else 0
  {
  }

  /** The password tier reads the configuration file once when none is cached and the prompt was answered. */
  lemma PasswordTierConfigReads(m: Manager, disk: Disk, env: Env)
    ensures multiset(PasswordTier(m, disk, env).trace)[ReadConfigFile]
            == if env.prompt.Entered? && m.config.None? then 1 else 0
  {
  }
}
