/** Process-wide configuration of the gateway and the per-route choice of
    access token. */
module Bff {

  /** The options the request gate reads. Set once at startup and never
      changed per request. */
  datatype BffOptions = BffOptions(
    EnforceBffMiddleware: bool,
    AntiForgeryHeaderName: string,
    AntiForgeryHeaderValue: string)

  /** Which access token a proxied route forwards: the user's, the client's
      (client-credentials flow), or the user's with the client's as a
      fallback. */
  datatype TokenType = User | Client | UserOrClient
}
