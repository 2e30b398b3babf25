/**
  `TokenManager.getToken` and `_getTokenFromServer` of
  src/utils/token-manager.ts.

  The manager's two private fields become an explicit `Manager` record; the
  token and configuration files become a `Disk` threaded through calls; and
  everything the source obtains from the outside world during one call (the
  clock, the login prompt, the identity provider's answers, whether writing
  the token file succeeds) is an `Env` given to the call. Each call returns
  the effects it performed, in order, as a trace.
 */
module TokenManager {
  import opened Wrappers
  import opened Tokens
  import opened TokenStore
  import opened Configuration
  import opened Grants

  /** The manager's state: `_currentToken` and `_config`. */
  datatype Manager = Manager(current: Option<Token>, config: Option<Config>)

  /** A manager as constructed at process start. */
  const Fresh: Manager := Manager(None, None)

  /** The files the manager reads and writes. */
  datatype Disk = Disk(tokenFile: TokenFile, configFile: ConfigFile)

  /** The login prompt either yields credentials or is aborted (its promise rejects). */
  datatype PromptOutcome = Entered(credentials: Credentials) | Aborted

  /** The identity provider's answer to a token request. */
  datatype Reply = Granted(issued: Issued) | Rejected(detail: string)

  /** What the outside world answers during one call of `getToken`. */
  datatype Env = Env(
    nowMs: int,               // clock read when a token was found on file
    refreshSentAtMs: int,     // clock read just before the refresh request
    passwordSentAtMs: int,    // clock read just before the password request
    prompt: PromptOutcome,
    refreshReply: Reply,
    passwordReply: Reply,
    write: WriteOutcome       // at most one token is saved per call
  )

  /** The observable effects of a call. */
  datatype Effect =
    | ReadTokenFile
    | ReadConfigFile
    | PromptUser
    | Request(url: string, request: TokenRequest)
    | WriteTokenFile(record: Token)

  /** Why `getToken` raises. */
  datatype AuthError =
    | ConfigUnavailable          // TypeError: `config` or `config.idp` is missing
    | PromptCancelled            // the prompt's promise rejected
    | GrantFailed(message: string)

  /** The message `_getTokenFromServer` prefixes to the upstream error. */
  const ExchangeErrorPrefix: string := "Error getting token from IDP: "

  /** One exchange with the identity provider. */
  datatype Exchange = Exchange(result: Result<Token, string>, tokenFile: TokenFile, trace: seq<Effect>)

  /**
    `_getTokenFromServer`: exactly one request to the configured endpoint. A
    granted response is stamped with the clock reading taken before the
    request, saved to the token file (before `savedToDisk` is set, so the
    record on file carries `false` there), and returned with `savedToDisk`
    equal to what saving reported. A rejection leaves the token file alone and
    is raised with the upstream detail behind a fixed prefix.
   */
  function FromServer(idp: IdpConfig, req: TokenRequest, reply: Reply, sentAtMs: int,
                      f: TokenFile, w: WriteOutcome): (x: Exchange)
    ensures x.result.Success? <==> reply.Granted?
    ensures |x.trace| >= 1 && x.trace[0] == Request(idp.url, req)
    ensures reply.Granted? ==>
      var record := Stamp(reply.issued, sentAtMs, false);
      var saved := SaveToken(f, record, w);
      && x.result.value.timestampMs == sentAtMs
      && Body(x.result.value) == reply.issued
      && x.result.value.savedToDisk == saved.ok
      && x.result.value == record.(savedToDisk := saved.ok)
      && x.tokenFile == saved.file
      && x.trace == [Request(idp.url, req), WriteTokenFile(record)]
    ensures reply.Rejected? ==>
      && x.result.error == ExchangeErrorPrefix + reply.detail
      && x.tokenFile == f
      && x.trace == [Request(idp.url, req)]
  {
    match reply
    case Granted(issued) =>
      var record := Stamp(issued, sentAtMs, false);
      var saved := SaveToken(f, record, w);
      Exchange(Success(Stamp(issued, sentAtMs, saved.ok)), saved.file,
               [Request(idp.url, req), WriteTokenFile(record)])
    case Rejected(detail) =>
      Exchange(Failure(ExchangeErrorPrefix + detail), f, [Request(idp.url, req)])
  }

  /** Everything a call leaves behind. */
  datatype Outcome = Outcome(manager: Manager, disk: Disk, result: Result<Token, AuthError>, trace: seq<Effect>)

  /** The read-config effect, when the getter touched the file. */
  function ConfigReads(a: ConfigAccess): seq<Effect> {
    if a.read then [ReadConfigFile] else []
  }

  /**
    The refresh tier: build a refresh request from the stored token and send
    it. A missing configuration raises before any request is made; a rejected
    refresh is reported as `GrantFailed` for the caller to swallow.
   */
  function RefreshTier(m: Manager, disk: Disk, env: Env, stored: Token): (o: Outcome)
    ensures PromptUser !in o.trace && ReadTokenFile !in o.trace
    ensures o.result.Success? <==>
              IdpOf(AccessConfig(m.config, disk.configFile).cache).Some? && env.refreshReply.Granted?
    ensures o.manager.config == AccessConfig(m.config, disk.configFile).cache
    ensures o.result.Success? ==> o.manager.current == Some(o.result.value)
    ensures o.result.Failure? ==> o.manager.current == m.current
    ensures m.config.Some? ==> o.manager.config == m.config && ReadConfigFile !in o.trace
    ensures o.disk.configFile == disk.configFile
    ensures forall e | e in o.trace && e.Request? :: IsRefreshGrant(e.request)
  {
    var access := AccessConfig(m.config, disk.configFile);
    var m1 := m.(config := access.cache);
    match IdpOf(access.cache)
    case None => Outcome(m1, disk, Failure(ConfigUnavailable), ConfigReads(access))
    case Some(idp) =>
      var x := FromServer(idp, RefreshRequest(idp.clientId, stored.refreshToken),
                          env.refreshReply, env.refreshSentAtMs, disk.tokenFile, env.write);
      var d1 := disk.(tokenFile := x.tokenFile);
      match x.result
      case Success(t) => Outcome(m1.(current := Some(t)), d1, Success(t), ConfigReads(access) + x.trace)
      case Failure(msg) => Outcome(m1, d1, Failure(GrantFailed(msg)), ConfigReads(access) + x.trace)
  }

  /**
    The password tier: prompt, then build a password request from the
    credentials and send it. Every failure here is terminal.
   */
  function PasswordTier(m: Manager, disk: Disk, env: Env): (o: Outcome)
    ensures |o.trace| > 0 && o.trace[0] == PromptUser
    ensures PromptUser !in o.trace[1..] && ReadTokenFile !in o.trace
    ensures o.result.Success? <==>
              env.prompt.Entered? && IdpOf(AccessConfig(m.config, disk.configFile).cache).Some?
              && env.passwordReply.Granted?
    ensures env.prompt.Entered? ==> o.manager.config == AccessConfig(m.config, disk.configFile).cache
    ensures o.result.Success? ==> o.manager.current == Some(o.result.value)
    ensures o.result.Failure? ==> o.manager.current == m.current
    ensures m.config.Some? ==> o.manager.config == m.config && ReadConfigFile !in o.trace
    ensures o.disk.configFile == disk.configFile
    ensures forall e | e in o.trace && e.Request? :: IsPasswordGrant(e.request)
  {
    match env.prompt
    case Aborted => Outcome(m, disk, Failure(PromptCancelled), [PromptUser])
    case Entered(creds) =>
      var access := AccessConfig(m.config, disk.configFile);
      var m1 := m.(config := access.cache);
      match IdpOf(access.cache)
      case None => Outcome(m1, disk, Failure(ConfigUnavailable), [PromptUser] + ConfigReads(access))
      case Some(idp) =>
        var x := FromServer(idp, PasswordRequest(idp.clientId, creds),
                            env.passwordReply, env.passwordSentAtMs, disk.tokenFile, env.write);
        var d1 := disk.(tokenFile := x.tokenFile);
        match x.result
        case Success(t) => Outcome(m1.(current := Some(t)), d1, Success(t), [PromptUser] + ConfigReads(access) + x.trace)
        case Failure(msg) => Outcome(m1, d1, Failure(GrantFailed(msg)), [PromptUser] + ConfigReads(access) + x.trace)
  }

  /** Prefixes effects performed before a tier ran. */
  function After(pre: seq<Effect>, o: Outcome): Outcome {
    o.(trace := pre + o.trace)
  }

  /**
    The decision procedure of `getToken`, stated tier by tier: a cached token
    is returned untouched; otherwise the token file decides between adopting
    the stored token, refreshing it (falling back to the password tier when
    the refresh is rejected) and going straight to the password tier.

    Its contract holds the invariants every call keeps: the warm path has no
    effects; a token is returned exactly when one is cached afterwards, and it
    is the cached one; a cached configuration is never read again or
    replaced; the configuration file is never written; and every request sent
    is one of the two grants, with the openid scope.
   */
  function Resolve(m: Manager, disk: Disk, env: Env): (o: Outcome)
    ensures m.current.Some? ==> o == Outcome(m, disk, Success(m.current.value), [])
    ensures o.result.Success? <==> o.manager.current.Some?
    ensures o.result.Success? ==> o.manager.current == Some(o.result.value)
    ensures m.config.Some? ==> o.manager.config == m.config && ReadConfigFile !in o.trace
    ensures o.disk.configFile == disk.configFile
    ensures forall e | e in o.trace && e.Request? :: IsPasswordGrant(e.request) || IsRefreshGrant(e.request)
  {
    if m.current.Some? then
      Outcome(m, disk, Success(m.current.value), [])
    else
      match ReadToken(disk.tokenFile)
      case None => After([ReadTokenFile], PasswordTier(m, disk, env))
      case Some(stored) =>
        match Classify(stored, env.nowMs)
        case Valid => Outcome(m.(current := Some(stored)), disk, Success(stored), [ReadTokenFile])
        case Dead => After([ReadTokenFile], PasswordTier(m, disk, env))
        case Refreshable =>
          var r := RefreshTier(m, disk, env, stored);
          if r.result.Success? || r.result.error == ConfigUnavailable then
            After([ReadTokenFile], r)
          else
            After([ReadTokenFile] + r.trace, PasswordTier(r.manager, r.disk, env))
  }

  /**
    The refresh tier as the source runs it: dereference the configuration
    (outside the try block), send the refresh grant, and cache the token
    when it is granted.
   */
  method RefreshStep(m: Manager, disk: Disk, env: Env, stored: Token)
    returns (m': Manager, disk': Disk, r: Result<Token, AuthError>, trace: seq<Effect>)
    ensures Outcome(m', disk', r, trace) == RefreshTier(m, disk, env, stored)
  {
    m', disk' := m, disk;
    var access := AccessConfig(m'.config, disk'.configFile);
    m' := m'.(config := access.cache);
    trace := ConfigReads(access);
    if access.cache.None? || access.cache.value.idp.None? {
      r := Failure(ConfigUnavailable);
      return;
    }
    var idp := access.cache.value.idp.value;
    var x := FromServer(idp, RefreshRequest(idp.clientId, stored.refreshToken),
                        env.refreshReply, env.refreshSentAtMs, disk'.tokenFile, env.write);
    disk' := disk'.(tokenFile := x.tokenFile);
    trace := trace + x.trace;
    if x.result.Failure? {
      r := Failure(GrantFailed(x.result.error));
      return;
    }
    m' := m'.(current := Some(x.result.value));
    r := Success(x.result.value);
  }

  /**
    The password tier as the source runs it: prompt, dereference the
    configuration, send the password grant, and rethrow its failure.
   */
  method PasswordStep(m: Manager, disk: Disk, env: Env)
    returns (m': Manager, disk': Disk, r: Result<Token, AuthError>, trace: seq<Effect>)
    ensures Outcome(m', disk', r, trace) == PasswordTier(m, disk, env)
  {
    m', disk', trace := m, disk, [PromptUser];
    if env.prompt.Aborted? {
      r := Failure(PromptCancelled);
      return;
    }
    var creds := env.prompt.credentials;
    var access := AccessConfig(m'.config, disk'.configFile);
    m' := m'.(config := access.cache);
    trace := trace + ConfigReads(access);
    if access.cache.None? || access.cache.value.idp.None? {
      r := Failure(ConfigUnavailable);
      return;
    }
    var idp := access.cache.value.idp.value;
    var x := FromServer(idp, PasswordRequest(idp.clientId, creds),
                        env.passwordReply, env.passwordSentAtMs, disk'.tokenFile, env.write);
    disk' := disk'.(tokenFile := x.tokenFile);
    trace := trace + x.trace;
    if x.result.Failure? {
      r := Failure(GrantFailed(x.result.error));
      return;
    }
    m' := m'.(current := Some(x.result.value));
    r := Success(x.result.value);
  }

  /**
    `getToken`, written as the source runs it: one nullable current token,
    the nested checks of the stored token, and the second null check that
    sends both the swallowed refresh failure and the dead or absent token to
    the password tier. It does exactly what the tier-by-tier `Resolve` states.
   */
  method GetToken(m: Manager, disk: Disk, env: Env)
    returns (m': Manager, disk': Disk, r: Result<Token, AuthError>, trace: seq<Effect>)
    ensures Outcome(m', disk', r, trace) == Resolve(m, disk, env)
  {
    m', disk', trace := m, disk, [];
    if m'.current.Some? {
      r := Success(m'.current.value);
      return;
    }
    var fromFile := ReadToken(disk'.tokenFile);
    trace := trace + [ReadTokenFile];
    if fromFile.Some? {
      var stored := fromFile.value;
      if env.nowMs < stored.timestampMs + stored.expiresIn * MillisPerSecond {
        m' := m'.(current := Some(stored));
      } else if env.nowMs < stored.timestampMs + stored.refreshExpiresIn * MillisPerSecond {
        var refreshed, tail;
        m', disk', refreshed, tail := RefreshStep(m', disk', env, stored);
        trace := trace + tail;
        if refreshed == Failure(ConfigUnavailable) {
          r := refreshed;
          return;
        }
        // a rejected refresh is swallowed: the current token stays unset
      }
    }
    if m'.current.None? {
      var tail;
      m', disk', r, tail := PasswordStep(m', disk', env);
      trace := trace + tail;
      return;
    }
    r := Success(m'.current.value);
  }
}
