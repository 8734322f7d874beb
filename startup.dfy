/**
 * The application's startup wiring that carries logic: the static
 * validation baseline the bearer options are configured with, and the
 * WebSocket connection interceptor that authenticates a connection once,
 * from the handshake's property bag, and accepts or rejects it.
 */
module Startup {
  import opened Wrappers
  import opened IdentityModel
  import ValidationParameters
  import Authenticator

  /** The property-bag key of the token: the name of the Authorization header. */
  const AuthorizationHeader: string := "Authorization"

  /**
   * The static baseline: all four checks are on, one issuer and one
   * audience are allowed, and no signing key is configured, so keys can
   * only come from discovery.
   */
  function StaticBaseline(): (p: TokenValidationParameters)
    ensures p.validateIssuer && p.validateAudience && p.validateLifetime && p.validateIssuerSigningKey
    ensures p.validIssuers.Some? && |p.validIssuers.value| == 1
    ensures p.validAudiences.Some? && |p.validAudiences.value| == 1
    ensures p.issuerSigningKeys.None?
  {
    TokenValidationParameters(
      validateIssuer := true,
      validateAudience := true,
      validateLifetime := true,
      validateIssuerSigningKey := true,
      validIssuers := Some(["valid issuer here"]),
      validAudiences := Some(["audience here"]),
      issuerSigningKeys := None)
  }

  /**
   * Over the baseline, discovery yields exactly two accepted issuers (the
   * static one first) and exactly the discovered keys; without discovery
   * there is no signing key at all.
   */
  lemma BaselineComposition(config: OpenIdConnectConfiguration)
    ensures ValidationParameters.Compose(StaticBaseline(), Some(config)).validIssuers
         == Some(["valid issuer here", config.issuer])
    ensures ValidationParameters.Compose(StaticBaseline(), Some(config)).issuerSigningKeys
         == Some(config.signingKeys)
    ensures ValidationParameters.Compose(StaticBaseline(), None).issuerSigningKeys.None?
  {
    var issuers := ValidationParameters.Append(StaticBaseline().validIssuers, [config.issuer]);
    assert issuers == ["valid issuer here"] + [config.issuer];
    assert ["valid issuer here"] + [config.issuer] == ["valid issuer here", config.issuer];
  }

  /** A value in the handshake's property bag. */
  datatype PropertyValue = StringValue(text: string) | NullValue | OtherValue(typeName: string)

  /** The interceptor's decision; a rejection may carry a reason. */
  datatype ConnectionStatus = Accept | Reject(reason: Option<string>)

  /** The connection's request context; only its user is modelled. */
  class HttpContext {
    var user: ClaimsPrincipal

    constructor (user: ClaimsPrincipal)
      ensures this.user == user
    {
      this.user := user;
    }
  }

  /**
   * The token the interceptor reads: the Authorization entry when it is
   * present and a string; a missing entry, null or any other type gives none.
   */
  function ReadToken(props: map<string, PropertyValue>): (r: Option<string>)
    ensures r.Some? <==> AuthorizationHeader in props && props[AuthorizationHeader].StringValue?
    ensures r.Some? ==> props[AuthorizationHeader] == StringValue(r.value)
  {
    var tokenValue := if AuthorizationHeader in props then props[AuthorizationHeader] else NullValue;
    match tokenValue
    case StringValue(token) => Some(token)
    case _ => None
  }

  /**
   * The decision once the authenticator has been called: accept exactly on
   * success, otherwise reject with the failure's message. A rejection here
   * always has a reason; only a missing token is rejected without one.
   */
  function StatusFor(outcome: AuthOutcome): (s: ConnectionStatus)
    ensures s.Accept? <==> outcome.Authenticated?
    ensures s.Reject? ==> s.reason == Some(outcome.message)
    ensures s != Reject(None)
  {
    match outcome
    case Authenticated(_) => Accept
    case AuthFailed(message) => Reject(Some(message))
  }

  /**
   * The connection interceptor. Without a string token it rejects without a
   * reason and touches nothing (no authentication, so no fetch). Otherwise
   * it authenticates; on success the user is set and the connection is
   * accepted, on any failure, a discovery failure included, the user is
   * kept and the connection is rejected with the failure's message.
   */
  method InterceptConnection(
    ctx: HttpContext,
    props: map<string, PropertyValue>,
    authenticator: Authenticator.JwtAuthenticator)
    returns (status: ConnectionStatus)
    modifies ctx, authenticator, authenticator.manager
    ensures ReadToken(props).None? ==>
      && status == Reject(None)
      && ctx.user == old(ctx.user)
      && unchanged(authenticator, authenticator.manager)
    ensures ReadToken(props).Some? ==>
      var (s, load) := Authenticator.Load(old(authenticator.State()), authenticator.manager.respond);
      var outcome := Authenticator.AuthenticateOutcome(load, ReadToken(props), authenticator.options, authenticator.validate);
      && authenticator.State() == s
      && status == StatusFor(outcome)
      && ctx.user == (if outcome.Authenticated? then outcome.principal else old(ctx.user))
  {
    var tokenValue := ReadToken(props);
    if tokenValue.None? {
      return Reject(None);
    }
    var outcome := authenticator.Authenticate(tokenValue);
    match outcome
    case Authenticated(principal) =>
      ctx.user := principal;
      status := Accept;
    case AuthFailed(message) =>
      status := Reject(Some(message));
  }

  /**
   * Two connections presenting tokens share the authenticator: only the
   * first fetches the discovery document, and a connection without a token
   * fetches nothing.
   */
  method SequentialConnections(config: OpenIdConnectConfiguration, token: string, anonymous: ClaimsPrincipal)
    returns (fetches: nat)
    ensures fetches == 1
  {
    var manager := new Authenticator.ConfigurationManager(n => Authenticator.Fetched(config));
    var authenticator := new Authenticator.JwtAuthenticator(
      StaticBaseline(), manager, (t, p) => AuthFailed("rejected"));
    var ctx := new HttpContext(anonymous);
    var status := InterceptConnection(ctx, map[], authenticator);
    assert status == Reject(None) && manager.fetchCount == 0;
    var props := map[AuthorizationHeader := StringValue(token)];
    status := InterceptConnection(ctx, props, authenticator);
    assert manager.fetchCount == 1;
    status := InterceptConnection(ctx, props, authenticator);
    fetches := manager.fetchCount;
  }
}
