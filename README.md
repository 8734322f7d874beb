# Bearer-token authentication of the StarWars GraphQL sample

This project models the one piece of non-framework logic in the
HotChocolate "PureCodeFirst" StarWars sample: the bearer-token path that
authenticates WebSocket subscription connections.

- `JwtAuthenticator` keeps a lazily filled cache of the identity provider's
  OpenID Connect configuration (issuer and signing keys). It composes the
  static validation parameters with that configuration on every call. It
  strips `"Bearer "` from the raw token and hands both to the token
  library's validator.
- `Startup` configures the static validation baseline. It also registers
  a WebSocket connection interceptor. The interceptor reads the token from
  the handshake's property bag, authenticates it, sets the connection's
  user and accepts the connection, or rejects it.

Modules, one per concern:

- `Wrappers`: `Option`, the model of a nullable reference.
- `IdentityModel`: the library value types (keys, discovered configuration,
  validation parameters, principal, validation outcome).
- `BearerToken`: the case-insensitive replace of `"Bearer "` (ASCII folding)
  and its properties.
- `ValidationParameters`: the composition of baseline and discovery.
- `Authenticator`: the configuration-manager oracle, the `JwtAuthenticator`
  class with its cache field, and a pure specification of one load
  (`Load`) and of a run of sequential loads (`Run`) with lemmas about them.
- `Startup`: the static baseline, the interceptor's token reading and
  decision, and the interceptor itself over a `HttpContext` whose user it sets.

External collaborators are parameters:

- The configuration manager is a `ConfigurationManager` object whose n-th
  fetch yields `respond(n)`: a configuration, null, or an exception's message.
  It counts its fetches.
- The token library's validator is a function from the normalised token and
  the effective parameters to a principal or a failure message.

Three points of the code's behaviour are easy to misread; the model follows
the code:

- The token is cleaned by a replace. It removes every case-insensitive
  occurrence of `"Bearer "`, left to right and non-overlapping. It does not
  strip only a leading prefix. `BearerToken.PrefixedSpacelessToken` shows
  that the two agree when a scheme prefix in any letter case is followed by
  a token without spaces, as compact JWTs are.
  `BearerToken.NotIdempotent` shows that the replace is not idempotent.
- A failed discovery fetch is not turned into validation against the static
  parameters only. The exception escapes `Authenticate`, and the interceptor
  rejects the connection with its message.
- The cache is a plain null check, not an exactly-once initialisation. A
  fetch that returns null leaves the cache empty, so the next call fetches
  again.

## Model

| member | source | states |
|---|---|---|
| `BearerToken.Replace` | PureCodeFirst/JwtAuthenticator.cs:29 | the output is the input shortened by seven characters per occurrence removed |
| `BearerToken.NormalizeToken` | PureCodeFirst/JwtAuthenticator.cs:29 | a null token stays null; any other token loses seven characters per removed occurrence |
| `BearerToken.NoOccurrenceUnchanged` | PureCodeFirst/JwtAuthenticator.cs:29 | a token with no case-insensitive occurrence of "Bearer " is returned unchanged |
| `BearerToken.ReplaceAtFirstOccurrence` | PureCodeFirst/JwtAuthenticator.cs:29 | text before the first occurrence is kept, that occurrence is dropped, and the scan resumes after it (left to right, non-overlapping) |
| `BearerToken.ReplaceWhenIndexOfFails` | PureCodeFirst/JwtAuthenticator.cs:29 | when an index-of search finds no occurrence, the token is returned unchanged |
| `BearerToken.ReplaceAtIndexOf` | PureCodeFirst/JwtAuthenticator.cs:29 | when an index-of search finds the first occurrence at i, the result is the text before i followed by the replace of the text after that occurrence |
| `BearerToken.ReplaceIgnoresCase` | PureCodeFirst/JwtAuthenticator.cs:29 | folding case before or after the replace gives the same text and the same number of removals |
| `BearerToken.SpacelessTokenUnchanged` | PureCodeFirst/JwtAuthenticator.cs:29 | a token without a space is never altered |
| `BearerToken.PrefixedSpacelessToken` | PureCodeFirst/JwtAuthenticator.cs:29 | "Bearer " in any letter case followed by a spaceless token yields exactly that token |
| `BearerToken.NotIdempotent` | PureCodeFirst/JwtAuthenticator.cs:29 | one pass can leave a new occurrence formed by joining its neighbours |
| `ValidationParameters.Append` | PureCodeFirst/JwtAuthenticator.cs:40-43 | static entries form the prefix in order, discovered ones follow, a null static list counts as empty, nothing is deduplicated |
| `ValidationParameters.Compose` | PureCodeFirst/JwtAuthenticator.cs:35-46 | without discovery the result is the baseline; with it the issuers are the static ones plus the discovered issuer and the keys the static ones plus the discovered keys; toggles and audiences are copied |
| `ValidationParameters.ComposedIssuerMembership` | PureCodeFirst/JwtAuthenticator.cs:39-40 | an issuer is allowed exactly when the static list or the discovery names it |
| `ValidationParameters.ComposedKeyMembership` | PureCodeFirst/JwtAuthenticator.cs:41-43 | a key is offered exactly when the static keys or the discovered keys hold it |
| `ValidationParameters.DuplicateIssuerKept` | PureCodeFirst/JwtAuthenticator.cs:40 | a discovered issuer already listed statically appears twice |
| `ValidationParameters.NullAndEmptyIssuersAgree` | PureCodeFirst/JwtAuthenticator.cs:40 | a null and an empty static issuer list both give just the discovered issuer |
| `Authenticator.Load` | PureCodeFirst/JwtAuthenticator.cs:49-57 | a filled cache is returned and nothing is fetched; an empty one is fetched once, a configuration is stored and returned, null stays empty, an exception escapes and stores nothing |
| `Authenticator.FilledCacheIsStable` | PureCodeFirst/JwtAuthenticator.cs:51-56 | once filled, the cache is never overwritten or refetched and every later call returns the same configuration |
| `Authenticator.FetchesOnlyWhileEmpty` | PureCodeFirst/JwtAuthenticator.cs:51-53 | from an empty cache every call fetches until a fetch yields a configuration; that one is stored and fetching stops |
| `Authenticator.LaterResultsAgree` | PureCodeFirst/JwtAuthenticator.cs:51-56 | after a call returns a configuration, every later call returns the same |
| `Authenticator.ConfigurationManager.GetConfiguration` | PureCodeFirst/JwtAuthenticator.cs:53 | each fetch yields the oracle's next answer and is counted |
| `Authenticator.JwtAuthenticator.constructor` | PureCodeFirst/JwtAuthenticator.cs:20-24 | a new authenticator starts with an empty cache |
| `Authenticator.JwtAuthenticator.LoadOpenIdConfiguration` | PureCodeFirst/JwtAuthenticator.cs:49-57 | the cache field and the fetch count change exactly as `Load` says |
| `Authenticator.JwtAuthenticator.GetValidationParameters` | PureCodeFirst/JwtAuthenticator.cs:33-47 | a load failure escapes; otherwise the result is the baseline composed with the loaded configuration |
| `Authenticator.JwtAuthenticator.Authenticate` | PureCodeFirst/JwtAuthenticator.cs:26-31 | parameters (and a fetch when the cache is empty) come first, even for a null token; then the normalised token is validated against them |
| `Startup.StaticBaseline` | PureCodeFirst/Startup.cs:55-70 | all four checks are on, exactly one issuer and one audience, no static signing key |
| `Startup.BaselineComposition` | PureCodeFirst/Startup.cs:62-69 | over the baseline, discovery gives the static issuer then the discovered one, and only the discovered keys; without discovery there is no key |
| `Startup.ReadToken` | PureCodeFirst/Startup.cs:33-34 | a token is read exactly when the Authorization entry is present and a string |
| `Startup.StatusFor` | PureCodeFirst/Startup.cs:39-47 | accept exactly on success; on failure reject carrying the failure's message |
| `Startup.InterceptConnection` | PureCodeFirst/Startup.cs:31-49 | no string token: reject without reason and no authentication or fetch; otherwise accept and set the user on success, or reject with the message and keep the user |
| `Startup.SequentialConnections` | PureCodeFirst/Startup.cs:31-49 | of three sequential connections (one without a token), exactly one discovery fetch happens |

## Left out

- The token library's validation (signature, issuer, audience and lifetime checks) is an opaque validator function; its failure kinds are collapsed into a message.
- Authenticator.JwtAuthenticator.Authenticate: the validator it calls is one fixed function for the authenticator's lifetime, so a token expiring between two connections (the clock) is not expressed; it takes a possibly null token, so the model does not promise that a null token is rejected, as the library's validator always does by throwing.
- The configuration manager's network fetch and document parsing are an oracle that yields a configuration, null or an exception message.
- Concurrency and cancellation: calls are sequential, and the cancellation token and the asynchronous plumbing carry no logic and are dropped.
- BearerToken.Replace: case folding is ASCII only; culture-aware matching is not modelled, so ignorable characters (including ASCII control characters such as U+0001 and DEL, which the invariant culture skips, letting "Bea\u0001rer " match) and non-ASCII case mappings can make the source remove text the model keeps.
- A null discovered issuer is not modelled: the issuer is always a string.
- Validation-parameter properties the authenticator never touches are not modelled; copying them in the clone is trivially faithful.
- The HTTP path is handled by the framework's bearer middleware, not by this authenticator, and is not part of this model.
- Service registration, the GraphQL schema, the middleware pipeline, the playground, the subscription provider and the repositories are framework wiring.
- The principal's claims are opaque.
