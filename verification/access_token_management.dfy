/** The token-acquisition collaborators the gate calls but does not
    implement. Acquisition, refresh and caching live outside this model;
    what remains is the shape of each call and of its answer. */
module AccessTokenManagement {
  import opened Wrappers
  import Http

  /** Per-request settings for user-token acquisition. The gate forwards
      them verbatim and never looks inside. */
  datatype UserTokenRequestParameters = UserTokenRequestParameters(settings: map<string, string>)

  /** An error raised by an acquisition call (an exception in the source). */
  datatype AcquisitionError = AcquisitionError(message: string)

  /** What an acquisition call yields: either it returns a token response
      whose `AccessToken` may be null, or it raises. */
  type TokenResponse = Result<Option<string>, AcquisitionError>

  /** The two acquisition calls, each a function of the request (and, for
      the user token, of the optional parameters). */
  datatype TokenService = TokenService(
    GetUserAccessToken: (Http.HttpContext, Option<UserTokenRequestParameters>) -> TokenResponse,
    GetClientAccessToken: Http.HttpContext -> TokenResponse)

  /** One invocation of a collaborator, as recorded in a call log. */
  datatype Call =
    | UserTokenCall(parameters: Option<UserTokenRequestParameters>)
    | ClientTokenCall

  /** `string.IsNullOrEmpty` on an access token. */
  predicate IsNullOrEmpty(token: Option<string>)
    ensures IsNullOrEmpty(token) <==> token == None || token == Some("")
  {
    token.None? || token.value == ""
  }
}
