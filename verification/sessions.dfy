/**
  Repeated calls of `getToken` within one process, and a second process
  started over the files the first one left behind.
 */
module Sessions {
  import opened Wrappers
  import opened Tokens
  import opened TokenStore
  import opened TokenManager
  import opened Lifecycle

  /** The state, the results and the effects of a sequence of calls on one manager. */
  datatype Session = Session(manager: Manager, disk: Disk, results: seq<Result<Token, AuthError>>, trace: seq<Effect>)

  /** Calls `getToken` once per environment, in order, threading the state. */
  function Run(m: Manager, disk: Disk, envs: seq<Env>): (s: Session)
    ensures |s.results| == |envs|
    decreases |envs|
  {
    if |envs| == 0 then Session(m, disk, [], [])
    else
      var o := Resolve(m, disk, envs[0]);
      var rest := Run(o.manager, o.disk, envs[1..]);
      Session(rest.manager, rest.disk, [o.result] + rest.results, o.trace + rest.trace)
  }

  /** How many of the results are failures. */
  function Failures(results: seq<Result<Token, AuthError>>): (n: nat)
    ensures n <= |results|
  {
    if |results| == 0 then 0
    else (if results[0].Failure? then 1 else 0) + Failures(results[1..])
  }

  /**
    Once a token is cached, every later call returns that same token and does
    nothing else: no file, prompt or network effect, and no state change.
   */
  lemma {:induction false} WarmSessionIsSilent(m: Manager, disk: Disk, envs: seq<Env>)
    requires m.current.Some?
    ensures var s := Run(m, disk, envs);
            && s.manager == m && s.disk == disk && s.trace == []
            && forall i | 0 <= i < |envs| :: s.results[i] == Success(m.current.value)
    decreases |envs|
  {
    if |envs| > 0 {
      WarmSessionIsSilent(m, disk, envs[1..]);
    }
  }

  /**
    After a call succeeds, calling again any number of times returns the
    same token with no further effects.
   */
  lemma RepeatedCallsReturnSameToken(m: Manager, disk: Disk, first: Env, later: seq<Env>)
    requires Resolve(m, disk, first).result.Success?
    ensures var o := Resolve(m, disk, first);
            var s := Run(m, disk, [first] + later);
            && s.trace == o.trace
            && forall i | 0 <= i < |s.results| :: s.results[i] == o.result
  {
    var o := Resolve(m, disk, first);
    assert ([first] + later)[1..] == later;
    WarmSessionIsSilent(o.manager, o.disk, later);
  }

  /**
    The configuration file is read only while no configuration is cached:
    from a manager that holds one, no call of the session reads the file and
    the cached configuration never changes.
   */
  lemma {:induction false} ConfigNeverReread(m: Manager, disk: Disk, envs: seq<Env>)
    requires m.config.Some?
    ensures var s := Run(m, disk, envs);
            ReadConfigFile !in s.trace && s.manager.config == m.config
    decreases |envs|
  {
    if |envs| > 0 {
      var o := Resolve(m, disk, envs[0]);
      ConfigNeverReread(o.manager, o.disk, envs[1..]);
    }
  }

  /**
    The token file is read once per call made while no token is cached, so
    a session reads it at most once more than the number of calls that
    failed; and the user is prompted no more often.
   */
  lemma {:induction false} ColdCallsBounded(m: Manager, disk: Disk, envs: seq<Env>)
    ensures var s := Run(m, disk, envs);
            && multiset(s.trace)[ReadTokenFile] <= Failures(s.results) + 1
            && multiset(s.trace)[PromptUser] <= Failures(s.results) + 1
            && (m.current.Some? ==> multiset(s.trace)[ReadTokenFile] == 0)
    decreases |envs|
  {
    if |envs| > 0 {
      var o := Resolve(m, disk, envs[0]);
      var rest := Run(o.manager, o.disk, envs[1..]);
      var s := Run(m, disk, envs);
      assert s.results[1..] == rest.results;
      OneReadPerCall(m, disk, envs[0]);
      if o.result.Success? {
        WarmSessionIsSilent(o.manager, o.disk, envs[1..]);
      } else {
        ColdCallsBounded(o.manager, o.disk, envs[1..]);
      }
    }
  }

  /** A single call reads the token file at most once and prompts at most once. */
  lemma OneReadPerCall(m: Manager, disk: Disk, env: Env)
    ensures var o := Resolve(m, disk, env);
            && multiset(o.trace)[ReadTokenFile] == (if m.current.None? then 1 else 0)
            && multiset(o.trace)[PromptUser] <= 1
  {
    var o := Resolve(m, disk, env);
    if m.current.None? {
      match ReadToken(disk.tokenFile)
      case None =>
        PasswordTierCounts(m, disk, env);
      case Some(stored) =>
        match Classify(stored, env.nowMs)
        case Valid =>
        case Dead =>
          PasswordTierCounts(m, disk, env);
        case Refreshable =>
          var r := RefreshTier(m, disk, env, stored);
          if !(r.result.Success? || r.result.error == ConfigUnavailable) {
            PasswordTierCounts(r.manager, r.disk, env);
          }
    }
  }

  /** The password tier prompts exactly once and never reads the token file. */
  lemma PasswordTierCounts(m: Manager, disk: Disk, env: Env)
    ensures var p := PasswordTier(m, disk, env);
            multiset(p.trace)[PromptUser] == 1 && multiset(p.trace)[ReadTokenFile] == 0
  {
  }

  /**
    A token obtained and saved by one process survives a restart: a new
    process over the files left behind, asked while the token is still
    inside its access window, returns the saved token without a prompt or a
    request. The record on file lacks only the `savedToDisk` flag.
   */
  lemma RestartAdoptsPersistedToken(m: Manager, disk: Disk, env: Env, later: Env)
    requires var o := Resolve(m, disk, env);
             && o.result.Success? && o.result.value.savedToDisk
             && WriteTokenFile(o.result.value.(savedToDisk := false)) in o.trace
    requires later.nowMs < ExpiresAtMs(Resolve(m, disk, env).result.value)
    ensures var o := Resolve(m, disk, env);
            var t := o.result.value.(savedToDisk := false);
            Resolve(Fresh, o.disk, later) == Outcome(Manager(Some(t), None), o.disk, Success(t), [ReadTokenFile])
  {
    var o := Resolve(m, disk, env);
    var t := o.result.value.(savedToDisk := false);
    ServerTokenPersisted(m, disk, env, t);
    ValidStoredTokenAdopted(Fresh, o.disk, later, t);
  }
}
