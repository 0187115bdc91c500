/** The request gate of the BFF gateway: the four decisions of
    `HttpContextExtensions`, as total functions over an immutable request. */
module HttpContextExtensions {
  import opened Wrappers
  import Text
  import Http
  import opened Bff
  import opened AccessTokenManagement

  // ---------------------------------------------------------------------
  // Pipeline invariant: the BFF middleware must have run
  // ---------------------------------------------------------------------

  /** The `InvalidOperationException` raised when the BFF middleware did
      not run before the gate. */
  datatype ConfigurationError = BffMiddlewareMissing

  /** `CheckForBffMiddleware`: with enforcement on, the request must carry
      the marker the BFF middleware writes into the item bag. */
  function CheckForBffMiddleware(ctx: Http.HttpContext, options: BffOptions): (r: Outcome<ConfigurationError>)
    ensures r.Fail? <==> options.EnforceBffMiddleware && Http.BffMiddlewareMarker !in ctx.items
    ensures r.Fail? ==> r.error == BffMiddlewareMissing
  {
    if options.EnforceBffMiddleware then
      var found := Http.BffMiddlewareMarker in ctx.items;
      if !found then Fail(BffMiddlewareMissing) else Pass
    else
      Pass
  }

  /** With enforcement off the check passes for every request. */
  lemma MiddlewareCheckOffAlwaysPasses(ctx: Http.HttpContext, options: BffOptions)
    requires !options.EnforceBffMiddleware
    ensures CheckForBffMiddleware(ctx, options) == Pass
  {
  }

  /** Only the presence of the marker key matters: whatever value is stored
      under it, the check passes. */
  lemma MiddlewareMarkerValueIgnored(ctx: Http.HttpContext, options: BffOptions, v: Http.ItemValue)
    ensures CheckForBffMiddleware(ctx.(items := ctx.items[Http.BffMiddlewareMarker := v]), options) == Pass
  {
  }

  /** Two requests that agree on whether the marker is present get the same
      verdict, whatever else their headers, query and items hold. */
  lemma MiddlewareCheckDependsOnlyOnMarker(a: Http.HttpContext, b: Http.HttpContext, options: BffOptions)
    requires (Http.BffMiddlewareMarker in a.items) == (Http.BffMiddlewareMarker in b.items)
    ensures CheckForBffMiddleware(a, options) == CheckForBffMiddleware(b, options)
  {
  }

  // ---------------------------------------------------------------------
  // CSRF guard
  // ---------------------------------------------------------------------

  /** `CheckAntiForgeryHeader`: the first value of the configured header
      must equal the configured value, ordinally. */
  function CheckAntiForgeryHeader(ctx: Http.HttpContext, options: BffOptions): (r: bool)
    ensures var values := Http.Get(ctx.headers, options.AntiForgeryHeaderName);
      r <==> |values| > 0 && values[0] == options.AntiForgeryHeaderValue
    ensures Text.Fold(options.AntiForgeryHeaderName) !in ctx.headers ==> !r
  {
    var antiForgeryHeader := Http.FirstOrDefault(Http.Get(ctx.headers, options.AntiForgeryHeaderName));
    antiForgeryHeader.Some? && antiForgeryHeader.value == options.AntiForgeryHeaderValue
  }

  /** Only the first value counts: whatever values follow it, a header whose
      first value is `first` passes exactly when `first` is the configured
      value. Comparison is ordinal, so a value that differs only in case
      fails; an empty value passes when the configured value is empty. */
  lemma AntiForgeryFirstValueDecides(ctx: Http.HttpContext, options: BffOptions, first: string, rest: seq<string>)
    ensures CheckAntiForgeryHeader(ctx.(headers := Http.Set(ctx.headers, options.AntiForgeryHeaderName, [first] + rest)), options)
        <==> first == options.AntiForgeryHeaderValue
  {
  }

  /** The header name is looked up ignoring case; its value is not. */
  lemma AntiForgeryHeaderNameIgnoresCase(ctx: Http.HttpContext, options: BffOptions, name: string)
    requires Text.EqualsIgnoreCase(name, options.AntiForgeryHeaderName)
    ensures CheckAntiForgeryHeader(ctx, options.(AntiForgeryHeaderName := name)) == CheckAntiForgeryHeader(ctx, options)
  {
    Http.GetIgnoresNameCase(ctx.headers, name, options.AntiForgeryHeaderName);
  }

  // ---------------------------------------------------------------------
  // Token resolution
  // ---------------------------------------------------------------------

  /** The token a resolution yields (or the error it propagates), together
      with the log of collaborator calls made to obtain it, in order. */
  datatype Resolution = Resolution(token: TokenResponse, calls: seq<Call>)

  /** The user-token answer that makes `UserOrClient` fall back to the
      client: the call returned, but with a null or empty token. A raised
      error is not a fallback trigger. */
  predicate FallsBack(user: TokenResponse)
    ensures FallsBack(user) <==> user == Success(None) || user == Success(Some(""))
  {
    user.Success? && IsNullOrEmpty(user.value)
  }

  /** `GetManagedAccessToken`: dispatch on the token type, with fallback
      from the user token to the client token for `UserOrClient`. */
  function GetManagedAccessToken(
    ctx: Http.HttpContext,
    tokenType: TokenType,
    parameters: Option<UserTokenRequestParameters>,
    service: TokenService): (r: Resolution)
    // The user token is requested first, with the caller's parameters,
    // for every type except Client; each collaborator is called at most
    // once, and both only when UserOrClient falls back.
    ensures tokenType != Client <==> |r.calls| >= 1 && r.calls[0] == UserTokenCall(parameters)
    ensures 1 <= |r.calls| <= 2
    ensures |r.calls| == 2 <==> tokenType == UserOrClient && FallsBack(service.GetUserAccessToken(ctx, parameters))
    ensures forall i :: 0 <= i < |r.calls| ==> r.calls[i] == UserTokenCall(parameters) || r.calls[i] == ClientTokenCall
    ensures r.calls[|r.calls| - 1] == ClientTokenCall <==>
      tokenType == Client ||
      (tokenType == UserOrClient && FallsBack(service.GetUserAccessToken(ctx, parameters)))
    // The answer is that of the last collaborator called, unchanged.
    ensures r.token == (if r.calls[|r.calls| - 1] == ClientTokenCall
                        then service.GetClientAccessToken(ctx)
                        else service.GetUserAccessToken(ctx, parameters))
  {
    match tokenType
    case User =>
      Resolution(service.GetUserAccessToken(ctx, parameters), [UserTokenCall(parameters)])
    case Client =>
      Resolution(service.GetClientAccessToken(ctx), [ClientTokenCall])
    case UserOrClient =>
      var token := service.GetUserAccessToken(ctx, parameters);
      if FallsBack(token) then
        Resolution(service.GetClientAccessToken(ctx), [UserTokenCall(parameters), ClientTokenCall])
      else
        Resolution(token, [UserTokenCall(parameters)])
  }

  /** `User`: the user acquisition's answer, null, empty or raised, is
      returned unchanged and the client acquisition is never invoked. */
  lemma UserTokenNeverCallsClient(
    ctx: Http.HttpContext, parameters: Option<UserTokenRequestParameters>, service: TokenService)
    ensures var r := GetManagedAccessToken(ctx, User, parameters, service);
      r.token == service.GetUserAccessToken(ctx, parameters) && ClientTokenCall !in r.calls
  {
  }

  /** `Client`: the client acquisition's answer is returned unchanged, the
      user acquisition is never invoked, and the user parameters make no
      difference. */
  lemma ClientTokenIgnoresUser(
    ctx: Http.HttpContext, p: Option<UserTokenRequestParameters>, q: Option<UserTokenRequestParameters>,
    service: TokenService)
    ensures var r := GetManagedAccessToken(ctx, Client, p, service);
      && r.token == service.GetClientAccessToken(ctx)
      && (forall c :: c in r.calls ==> !c.UserTokenCall?)
      && r == GetManagedAccessToken(ctx, Client, q, service)
  {
  }

  /** `UserOrClient` when the user token is usable (non-null, non-empty):
      it is returned and the client acquisition is never invoked. */
  lemma FallbackKeepsUsableUserToken(
    ctx: Http.HttpContext, parameters: Option<UserTokenRequestParameters>, service: TokenService, token: string)
    requires service.GetUserAccessToken(ctx, parameters) == Success(Some(token))
    requires token != ""
    ensures var r := GetManagedAccessToken(ctx, UserOrClient, parameters, service);
      r.token == Success(Some(token)) && ClientTokenCall !in r.calls
  {
  }

  /** `UserOrClient` when the user acquisition returns a null or empty
      token: the client answer is returned verbatim, even when it is itself
      null, empty or an error. */
  lemma FallbackReturnsClientAnswer(
    ctx: Http.HttpContext, parameters: Option<UserTokenRequestParameters>, service: TokenService)
    requires FallsBack(service.GetUserAccessToken(ctx, parameters))
    ensures var r := GetManagedAccessToken(ctx, UserOrClient, parameters, service);
      r.token == service.GetClientAccessToken(ctx) && r.calls == [UserTokenCall(parameters), ClientTokenCall]
  {
  }

  /** An error raised by the user acquisition is not a fallback trigger:
      for `User` and `UserOrClient` it propagates unchanged and the client
      acquisition is never invoked. */
  lemma UserAcquisitionErrorPropagates(
    ctx: Http.HttpContext, tokenType: TokenType, parameters: Option<UserTokenRequestParameters>,
    service: TokenService, e: AcquisitionError)
    requires tokenType != Client
    requires service.GetUserAccessToken(ctx, parameters) == Failure(e)
    ensures var r := GetManagedAccessToken(ctx, tokenType, parameters, service);
      r.token == Failure(e) && r.calls == [UserTokenCall(parameters)]
  {
  }

  /** `UserOrClient` behaves as `Client` exactly when it falls back and as
      `User` otherwise, as far as the returned token goes. */
  lemma UserOrClientIsUserThenClient(
    ctx: Http.HttpContext, parameters: Option<UserTokenRequestParameters>, service: TokenService)
    ensures var both := GetManagedAccessToken(ctx, UserOrClient, parameters, service).token;
      && (FallsBack(service.GetUserAccessToken(ctx, parameters)) ==>
            both == GetManagedAccessToken(ctx, Client, parameters, service).token)
      && (!FallsBack(service.GetUserAccessToken(ctx, parameters)) ==>
            both == GetManagedAccessToken(ctx, User, parameters, service).token)
  {
  }

  /** `UserOrClient` yields a usable token exactly when the user token is
      usable, or the user call returned without one and the client token
      is usable. */
  lemma UserOrClientUsableToken(
    ctx: Http.HttpContext, parameters: Option<UserTokenRequestParameters>, service: TokenService)
    ensures var r := GetManagedAccessToken(ctx, UserOrClient, parameters, service);
      var user := service.GetUserAccessToken(ctx, parameters);
      var client := service.GetClientAccessToken(ctx);
      (r.token.Success? && !IsNullOrEmpty(r.token.value)) <==>
        (user.Success? && !IsNullOrEmpty(user.value)) ||
        (FallsBack(user) && client.Success? && !IsNullOrEmpty(client.value))
  {
  }

  /** The scenario of an empty user token and a client token "ct-123":
      `UserOrClient` resolves to "ct-123". */
  lemma FallbackScenario(ctx: Http.HttpContext, parameters: Option<UserTokenRequestParameters>, service: TokenService)
    requires service.GetUserAccessToken(ctx, parameters) == Success(Some(""))
    requires service.GetClientAccessToken(ctx) == Success(Some("ct-123"))
    ensures GetManagedAccessToken(ctx, UserOrClient, parameters, service).token == Success(Some("ct-123"))
  {
  }

  // ---------------------------------------------------------------------
  // Ajax / fetch classifier
  // ---------------------------------------------------------------------

  /** Where a signal is read from. */
  datatype Source = RequestHeaders | RequestQuery

  /** A request signal: the entry `name` of `source`, rendered with
      `StringValues.ToString()`, equals `expected` ignoring case. */
  datatype AjaxSignal = AjaxSignal(source: Source, name: string, expected: string)

  /** The three signals of a script-initiated request. */
  const AjaxSignals: seq<AjaxSignal> := [
    AjaxSignal(RequestHeaders, "Sec-Fetch-Mode", "cors"),
    AjaxSignal(RequestQuery, "X-Requested-With", "XMLHttpRequest"),
    AjaxSignal(RequestHeaders, "X-Requested-With", "XMLHttpRequest")
  ]

  function SignalValues(ctx: Http.HttpContext, s: AjaxSignal): Http.StringValues {
    match s.source
    case RequestHeaders => Http.Get(ctx.headers, s.name)
    case RequestQuery => Http.Get(ctx.query, s.name)
  }

  predicate Shows(ctx: Http.HttpContext, s: AjaxSignal) {
    Text.EqualsIgnoreCase(s.expected, Http.ToString(SignalValues(ctx, s)))
  }

  /** `IsAjaxRequest`: three independent tests, in the source's order, the
      first that holds answering true. */
  function IsAjaxRequest(ctx: Http.HttpContext): (r: bool)
    ensures r <==> Shows(ctx, AjaxSignals[0]) || Shows(ctx, AjaxSignals[1]) || Shows(ctx, AjaxSignals[2])
  {
    if Text.EqualsIgnoreCase("cors", Http.ToString(Http.Get(ctx.headers, "Sec-Fetch-Mode"))) then true
    else if Text.EqualsIgnoreCase("XMLHttpRequest", Http.ToString(Http.Get(ctx.query, "X-Requested-With"))) then true
    else if Text.EqualsIgnoreCase("XMLHttpRequest", Http.ToString(Http.Get(ctx.headers, "X-Requested-With"))) then true
    else false
  }

  /** The classifier answers true exactly when one of the three signals
      holds. */
  lemma IsAjaxRequestIsAnySignal(ctx: Http.HttpContext)
    ensures IsAjaxRequest(ctx) <==> exists s :: s in AjaxSignals && Shows(ctx, s)
  {
    if !IsAjaxRequest(ctx) {
      forall s | s in AjaxSignals
        ensures !Shows(ctx, s)
      {
        assert s == AjaxSignals[0] || s == AjaxSignals[1] || s == AjaxSignals[2];
      }
    } else if Shows(ctx, AjaxSignals[0]) {
      assert AjaxSignals[0] in AjaxSignals;
    } else if Shows(ctx, AjaxSignals[1]) {
      assert AjaxSignals[1] in AjaxSignals;
    } else {
      assert AjaxSignals[2] in AjaxSignals;
    }
  }

  /** Tests signals one after another and answers true at the first that
      holds. */
  function FirstMatchWins(ctx: Http.HttpContext, signals: seq<AjaxSignal>): bool
    decreases |signals|
  {
    if |signals| == 0 then false
    else if Shows(ctx, signals[0]) then true
    else FirstMatchWins(ctx, signals[1..])
  }

  /** A first-match scan answers whether any signal in the list holds. */
  lemma {:induction false} FirstMatchWinsIsAny(ctx: Http.HttpContext, signals: seq<AjaxSignal>)
    ensures FirstMatchWins(ctx, signals) <==> exists s :: s in signals && Shows(ctx, s)
    decreases |signals|
  {
    if |signals| > 0 {
      FirstMatchWinsIsAny(ctx, signals[1..]);
      assert forall s :: s in signals <==> s == signals[0] || s in signals[1..];
    }
  }

  /** The classification does not depend on the order of the tests: every
      reordering of the three signals gives the same answer. */
  lemma AjaxTestOrderIrrelevant(ctx: Http.HttpContext, order: seq<AjaxSignal>)
    requires multiset(order) == multiset(AjaxSignals)
    ensures FirstMatchWins(ctx, order) == IsAjaxRequest(ctx)
  {
    FirstMatchWinsIsAny(ctx, order);
    IsAjaxRequestIsAnySignal(ctx);
    assert forall s :: s in order <==> s in AjaxSignals by {
      forall s
        ensures s in order <==> s in AjaxSignals
      {
        assert s in order <==> s in multiset(order);
        assert s in AjaxSignals <==> s in multiset(AjaxSignals);
      }
    }
  }

  /** An entry with two or more non-empty values never shows a signal: its
      rendering contains a comma and no expected value does. */
  lemma SeveralValuesNeverShow(ctx: Http.HttpContext, s: AjaxSignal)
    requires s in AjaxSignals
    requires |Http.NonEmpty(SignalValues(ctx, s))| >= 2
    ensures !Shows(ctx, s)
  {
    Text.NonLetterSeparates(s.expected, Http.ToString(SignalValues(ctx, s)), ',');
  }

  /** Empty values beside a matching one do not hide the signal:
      `?X-Requested-With=XMLHttpRequest&X-Requested-With=` is Ajax. */
  lemma EmptyExtraValueKeepsSignal(ctx: Http.HttpContext)
    ensures IsAjaxRequest(ctx.(query := Http.Set(ctx.query, "X-Requested-With", ["XMLHttpRequest", ""])))
  {
  }

  /** A request carrying none of the three entries is not an Ajax request. */
  lemma NoSignalEntriesNotAjax(ctx: Http.HttpContext)
    requires Text.Fold("Sec-Fetch-Mode") !in ctx.headers
    requires Text.Fold("X-Requested-With") !in ctx.headers
    requires Text.Fold("X-Requested-With") !in ctx.query
    ensures !IsAjaxRequest(ctx)
  {
  }

  /** `Sec-Fetch-Mode: CORS` marks a request as Ajax whatever else it
      carries. */
  lemma CorsFetchIsAjax(ctx: Http.HttpContext)
    ensures IsAjaxRequest(ctx.(headers := Http.Set(ctx.headers, "Sec-Fetch-Mode", ["CORS"])))
  {
  }

  /** `X-Requested-With=XMLHttpRequest` in the query string marks a request
      as Ajax whatever else it carries. */
  lemma QueryXmlHttpRequestIsAjax(ctx: Http.HttpContext)
    ensures IsAjaxRequest(ctx.(query := Http.Set(ctx.query, "X-Requested-With", ["XMLHttpRequest"])))
  {
  }

  /** `X-Requested-With: xmlhttprequest` as a header marks a request as
      Ajax whatever else it carries. */
  lemma HeaderXmlHttpRequestIsAjax(ctx: Http.HttpContext)
    ensures IsAjaxRequest(ctx.(headers := Http.Set(ctx.headers, "X-Requested-With", ["xmlhttprequest"])))
  {
  }
}
