/** The API server's CORS `origin` callback as a predicate on the request's
    `Origin` header, and the two rate-limiter configurations. */
module Cors {
  import opened Wrappers
  import opened Strings

  const LocalhostPrefix := "http://localhost:"

  /** The callback's answer: `callback(null, true)` or an error. */
  datatype Verdict = Allow | Reject(message: string)

  /** The `origin` callback.  `origin` is `None` when the request carries no
      `Origin` header; `frontendUrl` is `None` when `FRONTEND_URL` is unset. */
  function CheckOrigin(origin: Option<string>, frontendUrl: Option<string>): (v: Verdict)
    ensures v.Reject? ==> v.message == "Not allowed by CORS"
    ensures origin.None? || origin == Some([]) ==> v == Allow
    ensures origin.Some? && LocalhostPrefix <= origin.value ==> v == Allow
    ensures origin.Some? && origin == frontendUrl ==> v == Allow
    ensures v == Allow ==> origin.None? || origin.value == [] || LocalhostPrefix <= origin.value || origin == frontendUrl
  {
    if origin.None? || origin.value == [] then Allow
    else if LocalhostPrefix <= origin.value then Allow
    else if origin == frontendUrl then Allow
    else Reject("Not allowed by CORS")
  }

  /** Local origins are allowed on the plain-http scheme only: the same host
      over https is refused unless it is the configured frontend. */
  lemma HttpsLocalhostRejected(port: string, frontendUrl: Option<string>)
    requires frontendUrl != Some("https://localhost:" + port)
    ensures CheckOrigin(Some("https://localhost:" + port), frontendUrl).Reject?
  {
    var o := "https://localhost:" + port;
    assert o[4] == 's' && LocalhostPrefix[4] == ':';
  }

  /** Without a configured frontend, exactly the absent, empty and
      `http://localhost:` origins pass. */
  lemma WithoutFrontend(origin: string)
    ensures CheckOrigin(Some(origin), None) == Allow <==> origin == [] || LocalhostPrefix <= origin
  {
  }

  /** An express-rate-limit configuration. */
  datatype Limiter = Limiter(windowMs: nat, max: nat)

  const FifteenMinutesMs: nat := 15 * 60 * 1000
  const GlobalLimiter := Limiter(FifteenMinutesMs, 300)
  const AuthLimiter := Limiter(FifteenMinutesMs, 20)

  /** Both limiters count over the same window; the auth one allows fewer
      requests, so it is the binding one on the auth routes. */
  lemma AuthLimiterIsStricter()
    ensures AuthLimiter.windowMs == GlobalLimiter.windowMs == 900000
    ensures AuthLimiter.max < GlobalLimiter.max
  {
  }
}
