/**
  The identity-provider configuration (`config.json`) and the lazy `config`
  getter of src/utils/token-manager.ts.
 */
module Configuration {
  import opened Wrappers

  /** The `idp` section of the configuration file. */
  datatype IdpConfig = IdpConfig(host: string, endpoint: string, url: string, clientId: string)

  /** The configuration document; the `idp` section may be missing from the JSON. */
  datatype Config = Config(idp: Option<IdpConfig>)

  /** The state of the configuration file as far as reading it is concerned. */
  datatype ConfigFile =
    | NoConfigFile                    // the file does not exist (a warning is logged)
    | UnreadableConfigFile            // it exists but cannot be read or parsed (an error is logged)
    | ConfigRecord(config: Config)    // it parses to a configuration document

  /** `readConfig`: a configuration only when the file holds one, never an error. */
  function ReadConfig(f: ConfigFile): (c: Option<Config>)
    ensures c.Some? <==> f.ConfigRecord?
    ensures c.Some? ==> c.value == f.config
  {
    match f
    case ConfigRecord(c) => Some(c)
    case _ => None
  }

  /** The cache after one access to the getter, and whether the file was read. */
  datatype ConfigAccess = ConfigAccess(cache: Option<Config>, read: bool)

  /**
    One access to the `config` getter: the file is read exactly when nothing
    is cached, and the cache is filled with whatever the read yields, which
    may again be nothing.
   */
  function AccessConfig(cache: Option<Config>, f: ConfigFile): (a: ConfigAccess)
    ensures a.read <==> cache.None?
    ensures cache.Some? ==> a.cache == cache
    ensures cache.None? ==> a.cache == ReadConfig(f)
  {
    if cache.None? then ConfigAccess(ReadConfig(f), true) else ConfigAccess(cache, false)
  }

  /**
    Once a configuration is cached, no later access reads a file again or
    changes what is cached, whatever the file then holds.
   */
  lemma AccessConfigSettles(cache: Option<Config>, f: ConfigFile, later: ConfigFile)
    requires AccessConfig(cache, f).cache.Some?
    ensures var a := AccessConfig(cache, f);
            AccessConfig(a.cache, later) == ConfigAccess(a.cache, false)
  {
  }

  /**
    The `config.idp` dereference made before building a token request: the
    `idp` section, or nothing where the source raises a TypeError because the
    configuration or its `idp` section is missing.
   */
  function IdpOf(cache: Option<Config>): (idp: Option<IdpConfig>)
    ensures idp.Some? <==> cache.Some? && cache.value.idp.Some?
    ensures idp.Some? ==> idp == cache.value.idp
  {
    if cache.Some? then cache.value.idp else None
  }
}
