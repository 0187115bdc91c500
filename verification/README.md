# BFF request gate — a Dafny model

This project models the request gate of the Duende BFF (Backend-For-Frontend)
gateway: the static helper class `HttpContextExtensions`. For each proxied
request, the gateway uses it to decide four things:

- **CheckForBffMiddleware** — did the BFF middleware run earlier in the
  pipeline? It looks for the middleware's marker in `HttpContext.Items`. A
  missing marker raises an `InvalidOperationException` when
  `EnforceBffMiddleware` is on.
- **CheckAntiForgeryHeader** — does the request carry the configured
  anti-forgery (CSRF) header with the configured value? Only the first
  value counts, and it is compared ordinally.
- **GetManagedAccessToken** — which access token goes to the downstream API?
  The token type picks the user token, the client-credentials token, or the
  user token with the client token as a fallback.
- **IsAjaxRequest** — was the request issued by script rather than by a
  top-level navigation? It is true when `Sec-Fetch-Mode` is `cors` or
  `X-Requested-With` is `XMLHttpRequest`, in the query string or in a header.

The request is an immutable `HttpContext` record holding:

- headers and query, each a map from a case-folded name to `StringValues`
  (`seq<string>`);
- the item bag, a map from `ItemKey` to `ItemValue`.

The two token-acquisition calls come from Duende.AccessTokenManagement.
They are function-typed fields of a `TokenService` value. Each call returns a
`Result`:

- `Success` holds a nullable token (`Option<string>`);
- `Failure` holds an `AcquisitionError`, the model of a thrown exception.

`GetManagedAccessToken` returns a `Resolution`. It holds the token (or the
propagated error) and a log of the collaborator calls made. With the log,
"the client acquisition is never invoked" can be stated as a property.

Files:

- `wrappers.dfy`: `Option`, `Result` and `Outcome`.
- `text.dfy`: ordinal and ordinal-ignore-case string comparison, using ASCII
  case folding.
- `http.dfy`: `StringValues`, with `FirstOrDefault` and `ToString` (the comma
  join). Also the case-insensitive dictionaries, the item bag and
  `HttpContext`.
- `bff.dfy`: `BffOptions` and `TokenType`.
- `access_token_management.dfy`: the collaborator interface and the call log.
- `http_context_extensions.dfy`: the four operations and their properties.

Two details of the anti-forgery check are easy to miss:

- An empty first value passes when the configured value is also empty
  (`AntiForgeryFirstValueDecides` with `first == ""`).
- Only the first value of a multi-valued header is read. Later values have
  no effect, whatever they are.

`StringValues` comes from Microsoft.Extensions.Primitives, which is not part
of this model. Its `ToString()` is modelled on that library's behaviour:

- one value is returned as it is, even when it is empty;
- with two or more values, the empty ones are skipped and the rest are
  joined with commas.

So `["XMLHttpRequest", ""]` renders as `"XMLHttpRequest"`.

## Model

| member | source | states |
|---|---|---|
| HttpContextExtensions.CheckForBffMiddleware | src/Duende.Bff/Extensions/HttpContextExtensions.cs:15-26 | Fails with the missing-middleware error exactly when enforcement is on and the marker key is not in the item bag; passes otherwise. |
| HttpContextExtensions.MiddlewareCheckOffAlwaysPasses | src/Duende.Bff/Extensions/HttpContextExtensions.cs:17-25 | With enforcement off, every request passes, marker or not. |
| HttpContextExtensions.MiddlewareMarkerValueIgnored | src/Duende.Bff/Extensions/HttpContextExtensions.cs:19-20 | Any value stored under the marker key (null included) makes the check pass: the value is discarded. |
| HttpContextExtensions.MiddlewareCheckDependsOnlyOnMarker | src/Duende.Bff/Extensions/HttpContextExtensions.cs:15-26 | Two requests that agree on whether the marker is present get the same verdict, whatever their headers, query and other items. |
| HttpContextExtensions.CheckAntiForgeryHeader | src/Duende.Bff/Extensions/HttpContextExtensions.cs:28-32 | True exactly when the named header has a value and its first value equals the configured value; an absent header gives false. |
| HttpContextExtensions.AntiForgeryFirstValueDecides | src/Duende.Bff/Extensions/HttpContextExtensions.cs:30-31 | With the header set to `[first] + rest`, the result is `first == AntiForgeryHeaderValue` for every `rest`. Later values never matter, a case-only difference fails, and empty matches empty. |
| HttpContextExtensions.AntiForgeryHeaderNameIgnoresCase | src/Duende.Bff/Extensions/HttpContextExtensions.cs:30 | Configuring the header name in another letter case gives the same result for every request. |
| HttpContextExtensions.GetManagedAccessToken | src/Duende.Bff/Extensions/HttpContextExtensions.cs:34-57 | The user token is requested first (with the caller's parameters) unless the type is Client. Each collaborator is called at most once. The client token is requested for Client, or for UserOrClient when the user call returned a null or empty token. Two calls are made exactly in that fallback case. The result is the last answer, unchanged. |
| HttpContextExtensions.UserTokenNeverCallsClient | src/Duende.Bff/Extensions/HttpContextExtensions.cs:38-41 | For User, the user acquisition's answer (null, empty or an error) is returned as is, and the client acquisition is never called. |
| HttpContextExtensions.ClientTokenIgnoresUser | src/Duende.Bff/Extensions/HttpContextExtensions.cs:42-45 | For Client, the client answer is returned, the user acquisition is never called, and the whole resolution is the same for any user parameters. |
| HttpContextExtensions.FallbackKeepsUsableUserToken | src/Duende.Bff/Extensions/HttpContextExtensions.cs:46-54 | For UserOrClient, a non-null, non-empty user token is returned and the client acquisition is never called. |
| HttpContextExtensions.FallbackReturnsClientAnswer | src/Duende.Bff/Extensions/HttpContextExtensions.cs:48-53 | For UserOrClient, when the user call returns a null or empty token, the client answer is returned verbatim (even a null, empty or failed one), after exactly one user call and one client call. |
| HttpContextExtensions.UserAcquisitionErrorPropagates | src/Duende.Bff/Extensions/HttpContextExtensions.cs:38-54 | For User and UserOrClient, an error raised by the user acquisition propagates unchanged and does not trigger the fallback. |
| HttpContextExtensions.UserOrClientIsUserThenClient | src/Duende.Bff/Extensions/HttpContextExtensions.cs:38-54 | UserOrClient returns the Client type's token when it falls back, and the User type's token otherwise. |
| HttpContextExtensions.UserOrClientUsableToken | src/Duende.Bff/Extensions/HttpContextExtensions.cs:46-54 | UserOrClient yields a usable token exactly when the user token is usable, or the user call returned none and the client token is usable. |
| HttpContextExtensions.FallbackScenario | src/Duende.Bff/Extensions/HttpContextExtensions.cs:48-53 | An empty user token and the client token "ct-123" resolve to "ct-123". |
| HttpContextExtensions.IsAjaxRequestIsAnySignal | src/Duende.Bff/Extensions/HttpContextExtensions.cs:59-68 | The classifier is true exactly when one of the three signals holds: Sec-Fetch-Mode header = "cors", X-Requested-With query = "XMLHttpRequest", or X-Requested-With header = "XMLHttpRequest", each compared ignoring case. |
| HttpContextExtensions.FirstMatchWinsIsAny | src/Duende.Bff/Extensions/HttpContextExtensions.cs:61-67 | A scan that returns true at the first matching test answers whether any test in its list matches. |
| HttpContextExtensions.AjaxTestOrderIrrelevant | src/Duende.Bff/Extensions/HttpContextExtensions.cs:59-68 | Any reordering of the three tests classifies every request the same way. |
| HttpContextExtensions.SeveralValuesNeverShow | src/Duende.Bff/Extensions/HttpContextExtensions.cs:61-65 | An entry with two or more non-empty values never matches: the joined text contains a comma and no expected value does. |
| HttpContextExtensions.NoSignalEntriesNotAjax | src/Duende.Bff/Extensions/HttpContextExtensions.cs:59-68 | A request with none of the three entries is not classified as Ajax. |
| HttpContextExtensions.CorsFetchIsAjax | src/Duende.Bff/Extensions/HttpContextExtensions.cs:61-62 | A `Sec-Fetch-Mode: CORS` header makes any request Ajax. |
| HttpContextExtensions.QueryXmlHttpRequestIsAjax | src/Duende.Bff/Extensions/HttpContextExtensions.cs:63-64 | An `X-Requested-With=XMLHttpRequest` query parameter makes any request Ajax. |
| HttpContextExtensions.HeaderXmlHttpRequestIsAjax | src/Duende.Bff/Extensions/HttpContextExtensions.cs:65-66 | An `X-Requested-With: xmlhttprequest` header makes any request Ajax. |
| Http.FirstOrDefault | src/Duende.Bff/Extensions/HttpContextExtensions.cs:30 | No value gives null; otherwise the result is the first value. |
| Http.ToString | src/Duende.Bff/Extensions/HttpContextExtensions.cs:61-65 | No value gives "". A single value is returned unchanged, even when empty. With two or more values, empty ones are skipped: none left gives "", exactly one left gives that value, and two or more left give text containing a comma. |
| Http.GetIgnoresNameCase | src/Duende.Bff/Extensions/HttpContextExtensions.cs:30 | Header and query lookup ignores the case of the name: names equal ignoring case return the same values. |
| Text.EqualsIgnoreCaseIsFoldedEquality | src/Duende.Bff/Extensions/HttpContextExtensions.cs:61-65 | The OrdinalIgnoreCase comparison holds exactly when the two case-folded strings are equal. |
| Text.EqualsIgnoreCaseIsEquivalence | src/Duende.Bff/Extensions/HttpContextExtensions.cs:61-65 | The OrdinalIgnoreCase comparison is reflexive, symmetric and transitive. |
| HttpContextExtensions.IsAjaxRequest | src/Duende.Bff/Extensions/HttpContextExtensions.cs:59-68 | True exactly when the Sec-Fetch-Mode header signal, the X-Requested-With query signal or the X-Requested-With header signal holds. |
| HttpContextExtensions.EmptyExtraValueKeepsSignal | src/Duende.Bff/Extensions/HttpContextExtensions.cs:63-64 | A query with `X-Requested-With` given twice, once as "XMLHttpRequest" and once empty, is still Ajax: the empty value is skipped when rendering. |
| Http.Get | src/Duende.Bff/Extensions/HttpContextExtensions.cs:30 | The indexer returns the values stored under the name, compared ignoring case, and no values when the name is absent. |
| Http.GetAfterSet | src/Duende.Bff/Extensions/HttpContextExtensions.cs:30 | After storing values under a name, a lookup under any name equal to it ignoring case returns those values; a lookup under any other name is unchanged. |
| Http.NonEmpty | src/Duende.Bff/Extensions/HttpContextExtensions.cs:61-65 | Keeps exactly the non-empty values, each as often as it occurs (the multiset of the input with "" removed); a list with no empty value is kept whole. |
| Http.ToStringRoundTrip | src/Duende.Bff/Extensions/HttpContextExtensions.cs:61-65 | When no value contains a comma, cutting the rendering of two or more values at the commas gives back exactly the non-empty values: the rendering loses nothing but the empty values. |
| Http.SplitJoinRoundTrip | src/Duende.Bff/Extensions/HttpContextExtensions.cs:61-65 | Cutting at commas undoes joining with commas for every non-empty list of comma-free parts. |
| Text.FoldChar | src/Duende.Bff/Extensions/HttpContextExtensions.cs:61-65 | Folding never yields an upper-case letter. It changes a character exactly when the character is an ASCII upper-case letter, which becomes the matching lower-case letter. |
| Text.EqualsIgnoreCase | src/Duende.Bff/Extensions/HttpContextExtensions.cs:61-65 | The OrdinalIgnoreCase comparison: equal strings compare equal, and strings that compare equal have the same length and the same folded form. |
| Http.NonEmptyAppend | src/Duende.Bff/Extensions/HttpContextExtensions.cs:61-65 | Filtering distributes over concatenation, so the kept values stay in their original order. |
| Http.JoinWithCommas | src/Duende.Bff/Extensions/HttpContextExtensions.cs:61-65 | No parts gives "", one part is returned unchanged, and two or more parts give text containing a comma; `SplitJoinRoundTrip` shows nothing else is lost. |
| AccessTokenManagement.IsNullOrEmpty | src/Duende.Bff/Extensions/HttpContextExtensions.cs:50 | A token is null-or-empty exactly when it is null or the empty string. |
| HttpContextExtensions.FallsBack | src/Duende.Bff/Extensions/HttpContextExtensions.cs:48-53 | The fallback fires exactly when the user call returned a null token or an empty one; a raised error never triggers it. |

## Left out

- Async and `Task`: the acquisition calls are plain function calls. Their suspension points are not modelled.
- Internals of the token-acquisition engine (`GetUserAccessTokenAsync`, `GetClientAccessTokenAsync`): they are uninterpreted function-typed fields of `TokenService`. Their exceptions are the `Failure` variant.
- Full Unicode `OrdinalIgnoreCase`: case folding covers the ASCII letters only.
- ASP.NET dictionary internals: header and query dictionaries store entries under case-folded names, and lookup folds the requested name. The model's `Dictionary` type admits maps with unfolded names, which have no ASP.NET counterpart. `Get` never finds such entries. The `Folded` predicate says when a map is well-formed, and `SetKeepsFolded` shows that `Set` keeps it so. The lemmas about lookups do not require `Folded`, so they also hold for the extra maps.
- Deterministic acquisitions: `GetUserAccessToken` and `GetClientAccessToken` are functions of the request and the parameters, so equal arguments give equal answers. The real calls also read a token cache and the clock. `ClientTokenIgnoresUser` and `UserOrClientIsUserThenClient` compare two separate resolutions, and they rely on this determinism.
- Null entries inside `StringValues`: every stored value is a non-null string. In the library a null entry is skipped like an empty one when two or more values are rendered.
- The exception message of `CheckForBffMiddleware`: the error is the single value `BffMiddlewareMissing`.
- The marker's text in `Constants`: Constants.cs is not part of this model, so the marker is a distinguished `ItemKey`.
- `TokenType` values outside the three named members: a C# enum can hold other integers, and those would take the fallback branch. The model's `TokenType` is closed.
- Default values of `BffOptions`: BffOptions.cs is not part of this model.
