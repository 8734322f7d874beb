/**
 * The bearer-token authenticator: a lazily filled cache of the discovered
 * OpenID Connect configuration, and the authenticate operation that composes
 * validation parameters, normalises the token and hands both to the token
 * library's validator.
 *
 * The discovery fetch goes through an opaque configuration manager; here it
 * is an oracle whose n-th fetch yields `respond(n)` and which counts its
 * fetches. The validator is an opaque function of the token and the
 * parameters. Calls are sequential: the source's cache is a plain null
 * check, so nothing here is an exactly-once primitive.
 */
module Authenticator {
  import opened Wrappers
  import opened IdentityModel
  import BearerToken
  import ValidationParameters

  /** What one discovery fetch yields: a configuration, null, or a thrown exception's message. */
  datatype FetchResult =
    | Fetched(config: OpenIdConnectConfiguration)
    | FetchedNull
    | FetchFailed(message: string)

  /** What loading the configuration yields: the cache field's value, or the exception that escapes. */
  datatype LoadResult = Loaded(config: Option<OpenIdConnectConfiguration>) | LoadFailed(message: string)

  /** The outcome of obtaining the parameters: the parameters, or an escaping exception. */
  datatype ParametersResult = Parameters(parameters: TokenValidationParameters) | Thrown(message: string)

  /** The cache field together with the number of fetches made so far. */
  datatype CacheState = CacheState(cached: Option<OpenIdConnectConfiguration>, fetches: nat)

  /**
   * One call of the configuration loader on an explicit state: with a
   * filled cache it returns the cached value and fetches nothing; with an
   * empty one it fetches once, stores what came back (null leaves the
   * cache empty) and returns it, or lets the fetch's exception escape
   * without storing anything.
   */
  function Load(s: CacheState, respond: nat -> FetchResult): (r: (CacheState, LoadResult))
    ensures r.0.fetches == if s.cached.Some? then s.fetches else s.fetches + 1
    ensures s.cached.Some? ==> r.0.cached == s.cached && r.1 == Loaded(s.cached)
    ensures r.1.Loaded? ==> r.1.config == r.0.cached
    ensures r.1.LoadFailed? <==> s.cached.None? && respond(s.fetches).FetchFailed?
    ensures r.1.LoadFailed? ==> r.0.cached.None? && r.1.message == respond(s.fetches).message
    ensures s.cached.None? && respond(s.fetches).Fetched? ==> r.0.cached == Some(respond(s.fetches).config)
    ensures s.cached.None? && !respond(s.fetches).Fetched? ==> r.0.cached.None?
  {
    if s.cached.Some? then (s, Loaded(s.cached))
    else
      match respond(s.fetches)
      case Fetched(config) => (CacheState(Some(config), s.fetches + 1), Loaded(Some(config)))
      case FetchedNull => (CacheState(None, s.fetches + 1), Loaded(None))
      case FetchFailed(message) => (CacheState(None, s.fetches + 1), LoadFailed(message))
  }

  /** A run of `calls` consecutive loads: the final state and each call's result in order. */
  function Run(s: CacheState, respond: nat -> FetchResult, calls: nat): (r: (CacheState, seq<LoadResult>))
    ensures |r.1| == calls
    ensures s.fetches <= r.0.fetches <= s.fetches + calls
    decreases calls
  {
    if calls == 0 then (s, [])
    else
      var (next, result) := Load(s, respond);
      var (last, results) := Run(next, respond, calls - 1);
      (last, [result] + results)
  }

  /** Once the cache holds a configuration, no call fetches or overwrites it, and every call returns it. */
  lemma {:induction false} FilledCacheIsStable(s: CacheState, respond: nat -> FetchResult, calls: nat)
    requires s.cached.Some?
    ensures Run(s, respond, calls).0 == s
    ensures forall i :: 0 <= i < calls ==> Run(s, respond, calls).1[i] == Loaded(s.cached)
    decreases calls
  {
    if calls > 0 {
      FilledCacheIsStable(s, respond, calls - 1);
    }
  }

  /**
   * Starting from an empty cache, every call fetches until a fetch yields a
   * configuration; that configuration is stored and fetching stops. A null
   * or failed fetch leaves the cache empty, so the next call fetches again.
   */
  lemma {:induction false} FetchesOnlyWhileEmpty(s: CacheState, respond: nat -> FetchResult, calls: nat)
    requires s.cached.None?
    ensures var last := Run(s, respond, calls).0;
      && s.fetches <= last.fetches <= s.fetches + calls
      && (last.cached.None? ==>
            last.fetches == s.fetches + calls &&
            forall j :: s.fetches <= j < last.fetches ==> !respond(j).Fetched?)
      && (last.cached.Some? ==>
            s.fetches < last.fetches &&
            respond(last.fetches - 1) == Fetched(last.cached.value) &&
            forall j :: s.fetches <= j < last.fetches - 1 ==> !respond(j).Fetched?)
    decreases calls
  {
    if calls > 0 {
      var next := Load(s, respond).0;
      if next.cached.Some? {
        FilledCacheIsStable(next, respond, calls - 1);
      } else {
        FetchesOnlyWhileEmpty(next, respond, calls - 1);
      }
    }
  }

  /** After a call returns a configuration, every later call of the run returns that same one. */
  lemma {:induction false} LaterResultsAgree(s: CacheState, respond: nat -> FetchResult, calls: nat, i: nat, j: nat)
    requires i < j < calls
    requires Run(s, respond, calls).1[i].Loaded? && Run(s, respond, calls).1[i].config.Some?
    ensures Run(s, respond, calls).1[j] == Run(s, respond, calls).1[i]
    decreases calls
  {
    var next := Load(s, respond).0;
    if i == 0 {
      FilledCacheIsStable(next, respond, calls - 1);
    } else {
      LaterResultsAgree(next, respond, calls - 1, i - 1, j - 1);
    }
  }

  /**
   * One authentication after the loader has run: a load failure escapes
   * whatever the token; otherwise the validator gets the normalised token
   * and the parameters composed from the baseline and the loaded value.
   */
  function AuthenticateOutcome(
    load: LoadResult,
    token: Option<string>,
    baseline: TokenValidationParameters,
    validate: (Option<string>, TokenValidationParameters) -> AuthOutcome)
    : AuthOutcome
  {
    match load
    case LoadFailed(message) => AuthFailed(message)
    case Loaded(config) =>
      validate(BearerToken.NormalizeToken(token), ValidationParameters.Compose(baseline, config))
  }

  /** The discovery oracle: the n-th fetch yields `respond(n)`; fetches are counted. */
  class ConfigurationManager {
    const respond: nat -> FetchResult
    var fetchCount: nat

    constructor (respond: nat -> FetchResult)
      ensures this.respond == respond && fetchCount == 0
    {
      this.respond := respond;
      fetchCount := 0;
    }

    method GetConfiguration() returns (r: FetchResult)
      modifies this
      ensures fetchCount == old(fetchCount) + 1
      ensures r == respond(old(fetchCount))
    {
      r := respond(fetchCount);
      fetchCount := fetchCount + 1;
    }
  }

  class JwtAuthenticator {
    /** The static baseline parameters (read-only). */
    const options: TokenValidationParameters
    /** The configuration manager the options carry (read-only reference). */
    const manager: ConfigurationManager
    /** The token library's validator: a principal, or the exception's message. */
    const validate: (Option<string>, TokenValidationParameters) -> AuthOutcome
    /** The lazily filled discovery cache; `None` is null. */
    var openIdConnectConfiguration: Option<OpenIdConnectConfiguration>

    function State(): CacheState
      reads this, manager
    {
      CacheState(openIdConnectConfiguration, manager.fetchCount)
    }

    constructor (
      options: TokenValidationParameters,
      manager: ConfigurationManager,
      validate: (Option<string>, TokenValidationParameters) -> AuthOutcome)
      ensures this.options == options && this.manager == manager && this.validate == validate
      ensures openIdConnectConfiguration.None?
    {
      this.options := options;
      this.manager := manager;
      this.validate := validate;
      openIdConnectConfiguration := None;
    }

    /** The lazy cache: fetch only while the field is null, store what the fetch yields. */
    method LoadOpenIdConfiguration() returns (r: LoadResult)
      modifies this, manager
      ensures (State(), r) == Load(old(State()), manager.respond)
    {
      if openIdConnectConfiguration == None {
        var fetched := manager.GetConfiguration();
        match fetched
        case Fetched(config) =>
          openIdConnectConfiguration := Some(config);
        case FetchedNull =>
          openIdConnectConfiguration := None;
        case FetchFailed(message) =>
          return LoadFailed(message);
      }
      r := Loaded(openIdConnectConfiguration);
    }

    /** The effective parameters: baseline merged with whatever the loader yields. */
    method GetValidationParameters() returns (r: ParametersResult)
      modifies this, manager
      ensures var (s, load) := Load(old(State()), manager.respond);
        && State() == s
        && (load.LoadFailed? ==> r == Thrown(load.message))
        && (load.Loaded? ==> r == Parameters(ValidationParameters.Compose(options, load.config)))
    {
      var load := LoadOpenIdConfiguration();
      match load
      case LoadFailed(message) =>
        r := Thrown(message);
      case Loaded(config) =>
        r := Parameters(ValidationParameters.Compose(options, config));
    }

    /**
     * Parameters (and so a possible fetch) come first, even for a null
     * token; only then is the token normalised and validated.
     */
    method Authenticate(token: Option<string>) returns (r: AuthOutcome)
      modifies this, manager
      ensures var (s, load) := Load(old(State()), manager.respond);
        State() == s && r == AuthenticateOutcome(load, token, options, validate)
      ensures old(openIdConnectConfiguration).None? ==> manager.fetchCount == old(manager.fetchCount) + 1
      ensures old(openIdConnectConfiguration).Some? ==>
        openIdConnectConfiguration == old(openIdConnectConfiguration) && manager.fetchCount == old(manager.fetchCount)
    {
      var parameters := GetValidationParameters();
      match parameters
      case Thrown(message) =>
        r := AuthFailed(message);
      case Parameters(p) =>
        var tokenToValidate := BearerToken.NormalizeToken(token);
        r := validate(tokenToValidate, p);
    }
  }
}
