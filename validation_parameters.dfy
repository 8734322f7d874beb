/**
 * Validation-parameter composition: the authenticator's merge of the static
 * baseline with the discovered issuer and signing keys. The baseline is a
 * value, so the clone the source takes is the baseline itself and it can
 * never be changed by the merge.
 */
module ValidationParameters {
  import opened Wrappers
  import opened IdentityModel

  /**
   * A list property with discovered items appended: the static entries
   * followed by the discovered ones, or the discovered ones alone when the
   * static property is null. Nothing is removed or deduplicated.
   */
  function Append<T(!new)>(fixed: Option<seq<T>>, discovered: seq<T>): (r: seq<T>)
    ensures |r| == |fixed.GetOr([])| + |discovered|
    ensures r[..|fixed.GetOr([])|] == fixed.GetOr([])
    ensures r[|fixed.GetOr([])|..] == discovered
    ensures forall x :: x in r <==> x in fixed.GetOr([]) || x in discovered
  {
    match fixed
    case Some(s) => s + discovered
    case None => discovered
  }

  /**
   * The effective parameters for one validation call. Without a discovered
   * configuration they are the baseline; with one, the issuer allow-list
   * gains the discovered issuer and the key list gains the discovered keys,
   * each after the static entries. The toggles and audiences are copied.
   */
  function Compose(baseline: TokenValidationParameters, discovered: Option<OpenIdConnectConfiguration>)
    : (r: TokenValidationParameters)
    ensures discovered.None? ==> r == baseline
    ensures r.validateIssuer == baseline.validateIssuer
    ensures r.validateAudience == baseline.validateAudience
    ensures r.validateLifetime == baseline.validateLifetime
    ensures r.validateIssuerSigningKey == baseline.validateIssuerSigningKey
    ensures r.validAudiences == baseline.validAudiences
    ensures discovered.Some? ==>
      var issuers := baseline.validIssuers.GetOr([]);
      && r.validIssuers.Some?
      && |r.validIssuers.value| == |issuers| + 1
      && r.validIssuers.value[..|issuers|] == issuers
      && r.validIssuers.value[|issuers|] == discovered.value.issuer
    ensures discovered.Some? ==>
      var keys := baseline.issuerSigningKeys.GetOr([]);
      && r.issuerSigningKeys.Some?
      && |r.issuerSigningKeys.value| == |keys| + |discovered.value.signingKeys|
      && r.issuerSigningKeys.value[..|keys|] == keys
      && r.issuerSigningKeys.value[|keys|..] == discovered.value.signingKeys
  {
    match discovered
    case None => baseline
    case Some(config) =>
      baseline.(
        validIssuers := Some(Append(baseline.validIssuers, [config.issuer])),
        issuerSigningKeys := Some(Append(baseline.issuerSigningKeys, config.signingKeys)))
  }

  /**
   * What the verification engine's membership test sees: an issuer is
   * accepted by the composed list exactly when the static list or the
   * discovery document names it.
   */
  lemma ComposedIssuerMembership(
    baseline: TokenValidationParameters, config: OpenIdConnectConfiguration, issuer: string)
    ensures var r := Compose(baseline, Some(config));
      issuer in r.validIssuers.value <==> issuer in baseline.validIssuers.GetOr([]) || issuer == config.issuer
  {
    var r := Compose(baseline, Some(config));
    var issuers := baseline.validIssuers.GetOr([]);
    assert r.validIssuers.value == issuers + [config.issuer];
  }

  /** Likewise a key is offered for signature checking exactly when either source lists it. */
  lemma ComposedKeyMembership(
    baseline: TokenValidationParameters, config: OpenIdConnectConfiguration, key: SecurityKey)
    ensures var r := Compose(baseline, Some(config));
      key in r.issuerSigningKeys.value <==>
        key in baseline.issuerSigningKeys.GetOr([]) || key in config.signingKeys
  {
    var r := Compose(baseline, Some(config));
    var keys := baseline.issuerSigningKeys.GetOr([]);
    assert r.issuerSigningKeys.value == keys + config.signingKeys;
  }

  /**
   * No deduplication: a discovered issuer already in the static list is
   * listed a second time.
   */
  lemma DuplicateIssuerKept(baseline: TokenValidationParameters, config: OpenIdConnectConfiguration)
    requires baseline.validIssuers == Some([config.issuer])
    ensures Compose(baseline, Some(config)).validIssuers == Some([config.issuer, config.issuer])
  {
    assert Append(baseline.validIssuers, [config.issuer]) == [config.issuer] + [config.issuer];
    assert [config.issuer] + [config.issuer] == [config.issuer, config.issuer];
  }

  /** A null static list and an empty one compose to the same parameters, up to that list. */
  lemma NullAndEmptyIssuersAgree(baseline: TokenValidationParameters, config: OpenIdConnectConfiguration)
    requires baseline.validIssuers.None?
    ensures Compose(baseline, Some(config)).validIssuers
         == Compose(baseline.(validIssuers := Some([])), Some(config)).validIssuers
         == Some([config.issuer])
  {
    assert [] + [config.issuer] == [config.issuer];
  }
}
