/**
 * The library value types the authenticator works with. Their contents are
 * produced and consumed by the token library, so only the parts the
 * authenticator reads or writes are modelled.
 */
module IdentityModel {
  import opened Wrappers

  /** Public key material; the authenticator only copies keys around. */
  datatype SecurityKey = SecurityKey(keyId: string)

  /** The discovered OpenID Connect metadata: the issuer and its signing keys. */
  datatype OpenIdConnectConfiguration =
    OpenIdConnectConfiguration(issuer: string, signingKeys: seq<SecurityKey>)

  /**
   * Validation parameters: the four check toggles and the three allow-lists.
   * A list that was never assigned is `None` (a null property).
   */
  datatype TokenValidationParameters = TokenValidationParameters(
    validateIssuer: bool,
    validateAudience: bool,
    validateLifetime: bool,
    validateIssuerSigningKey: bool,
    validIssuers: Option<seq<string>>,
    validAudiences: Option<seq<string>>,
    issuerSigningKeys: Option<seq<SecurityKey>>)

  /** The identity a validated token yields; its claims are opaque here. */
  datatype ClaimsPrincipal = ClaimsPrincipal(claims: seq<(string, string)>)

  /** What a validation step yields: a principal, or the message of the exception it throws. */
  datatype AuthOutcome = Authenticated(principal: ClaimsPrincipal) | AuthFailed(message: string)
}
