/** `POST /api/auth/login` (src/app/api/auth/login/route.ts): rate limit
    by client address, then the CSRF double-submit check, then the JSON
    body's password, then the password itself; only a request passing all
    four gets the session cookie. Any exception becomes a 500. */
module LoginRoute {
  import opened Wrappers
  import opened Env
  import Text
  import Cookies
  import Auth
  import Csrf

  type Headers = Csrf.Headers

  /** `request.headers.get(name)`. */
  function Header(headers: Headers, name: string): (r: Option<string>)
    ensures r.Some? <==> name in headers
    ensures r.Some? ==> r.value == headers[name]
  {
    if name in headers then Some(headers[name]) else None
  }

  /** `getClientIp(request)`: the first hop of a non-empty
      `x-forwarded-for`, trimmed; else a non-empty `x-real-ip`; else
      `"unknown"`. */
  function GetClientIp(headers: Headers): (r: string)
    ensures "x-forwarded-for" in headers && headers["x-forwarded-for"] != "" ==>
      r == Text.Trim(Text.UpTo(headers["x-forwarded-for"], ','))
    ensures ("x-forwarded-for" !in headers || headers["x-forwarded-for"] == "") ==>
      r == if "x-real-ip" in headers && headers["x-real-ip"] != "" then headers["x-real-ip"] else "unknown"
  {
    var forwardedFor := Header(headers, "x-forwarded-for");
    if forwardedFor.Some? && forwardedFor.value != "" then Text.Trim(Text.Split(forwardedFor.value, ',')[0])
    else
      var realIp := Header(headers, "x-real-ip");
      if realIp.Some? && realIp.value != "" then realIp.value else "unknown"
  }

  /** With a proxy chain `client, proxy1, ...` the client's own address is
      used, without the spaces around it. */
  lemma ClientIpIsFirstHop(headers: Headers, first: string, rest: string)
    requires ',' !in first && first != ""
    requires "x-forwarded-for" in headers && headers["x-forwarded-for"] == first + "," + rest
    ensures GetClientIp(headers) == Text.Trim(first)
  {
    assert first + "," + rest == first + [','] + rest;
    Text.SplitFirst(first, rest, ',');
  }

  /** What `checkRateLimit` reports. */
  datatype RateLimit = RateLimit(success: bool, remaining: int, reset: int)

  /** The rate limiter, by client address; `None` when it throws. */
  type Limiter = string -> Option<RateLimit>

  /** The JSON field `password` of the body. */
  datatype PasswordField = NotAString | Text(value: string)

  /** `await request.json()`: text that is not JSON throws, and so does
      destructuring a `null` body. */
  datatype Body = Malformed | Null | Parsed(password: PasswordField)

  datatype Response =
    | TooManyRequests(retryAfter: int, remaining: int)
    | Forbidden
    | BadRequest
    | Unauthorized
    | LoggedIn
    | ServerError

  /** The HTTP status of each answer; distinct answers have distinct
      statuses. */
  function Status(r: Response): (code: nat)
    ensures code == 429 <==> r.TooManyRequests?
    ensures code == 403 <==> r.Forbidden?
    ensures code == 400 <==> r.BadRequest?
    ensures code == 401 <==> r.Unauthorized?
    ensures code == 200 <==> r.LoggedIn?
    ensures code == 500 <==> r.ServerError?
  {
    match r
    case TooManyRequests(_, _) => 429
    case Forbidden => 403
    case BadRequest => 400
    case Unauthorized => 401
    case LoggedIn => 200
    case ServerError => 500
  }

  /** `Math.ceil(ms / 1000)` for a whole number of milliseconds. */
  function CeilSeconds(ms: int): (s: int)
    ensures (s - 1) * 1000 < ms <= s * 1000
  {
    -((-ms) / 1000)
  }

  /** The CSRF step: the `x-csrf-token` header against the `csrf-token`
      cookie of the request's `Cookie` header. It passes exactly when the
      header is non-empty, the cookie holds the same text and its
      signature verifies. */
  function CsrfCheck(cfg: Config, headers: Headers): (r: Result<bool, Fault>)
    ensures r == Ok(true) <==>
      && Csrf.CsrfHeader in headers && headers[Csrf.CsrfHeader] != ""
      && Csrf.GetCsrfCookieFromRequest(Header(headers, "cookie")) == Some(headers[Csrf.CsrfHeader])
      && Csrf.VerifySignedToken(cfg, headers[Csrf.CsrfHeader]) == Ok(true)
    ensures r.Err? ==> r.error == MissingAuthSecret && Secret(cfg).Err?
  {
    Csrf.ValidateCsrfTokenIff(cfg, Csrf.GetCsrfTokenFromRequest(headers), Csrf.GetCsrfCookieFromRequest(Header(headers, "cookie")));
    Csrf.ValidateCsrfToken(cfg, Csrf.GetCsrfTokenFromRequest(headers), Csrf.GetCsrfCookieFromRequest(Header(headers, "cookie")))
  }

  /** The steps after the CSRF check: the body, the password, the session.
      A body that cannot be read throws; a missing or empty password is a
      bad request; the configured password logs in when a secret is set;
      nothing here is a rate-limit or CSRF answer. */
  function PasswordStep(cfg: Config, body: Body): (r: Response)
    ensures body.Malformed? || body.Null? ==> r == ServerError
    ensures body == Parsed(NotAString) || body == Parsed(Text("")) ==> r == BadRequest
    ensures r == LoggedIn ==> Secret(cfg).Ok? && body.Parsed? && body.password.Text? && body.password.value != ""
    ensures cfg.appPassword.Some? && cfg.appPassword.value != "" && body == Parsed(Text(cfg.appPassword.value))
      ==> r == if Secret(cfg).Ok? then LoggedIn else ServerError
    ensures !r.TooManyRequests? && r != Forbidden
  {
    match body
    case Malformed => ServerError
    case Null => ServerError
    case Parsed(NotAString) => BadRequest
    case Parsed(Text(password)) =>
      if password == "" then BadRequest
      else
        match Auth.ValidatePassword(cfg, password)
        case Err(_) => ServerError
        case Ok(valid) =>
          if !valid then Unauthorized
          else if Secret(cfg).Err? then ServerError
          else LoggedIn
  }

  /** The response `POST` sends, given what the rate limiter reported
      (`None`: it threw) and the outcome of the CSRF check; checks in
      source order. */
  function LoginResponse(cfg: Config, now: int, limit: Option<RateLimit>, csrf: Result<bool, Fault>, body: Body): (r: Response)
    ensures limit.None? ==> r == ServerError
    ensures r.TooManyRequests? <==> limit.Some? && !limit.value.success
    ensures r == Forbidden <==> limit.Some? && limit.value.success && csrf == Ok(false)
    ensures r == LoggedIn ==> limit.Some? && limit.value.success && csrf == Ok(true) && Secret(cfg).Ok?
  {
    match limit
    case None => ServerError
    case Some(limit) =>
      if !limit.success then TooManyRequests(CeilSeconds(limit.reset - now), limit.remaining)
      else
        match csrf
        case Err(_) => ServerError
        case Ok(validCsrf) => if !validCsrf then Forbidden else PasswordStep(cfg, body)
  }

  /** `POST(request)` at time `now`. */
  method Post(jar: Cookies.CookieJar, cfg: Config, now: nat, headers: Headers, limiter: Limiter, body: Body)
    returns (response: Response)
    modifies jar
    ensures response == LoginResponse(cfg, now, limiter(GetClientIp(headers)), CsrfCheck(cfg, headers), body)
    ensures response == LoggedIn ==>
      jar.cookies == old(jar.cookies)[Auth.AuthCookie := Cookies.Cookie(Auth.CreateToken(cfg, now).value, Auth.SessionAttributes(cfg))]
    ensures response != LoggedIn ==> jar.cookies == old(jar.cookies)
  {
    var clientIp := GetClientIp(headers);
    var rateLimitResult := limiter(clientIp);
    if rateLimitResult.None? {
      return ServerError;
    }
    var limit := rateLimitResult.value;
    if !limit.success {
      return TooManyRequests(CeilSeconds(limit.reset - now), limit.remaining);
    }
    var csrfHeader := Csrf.GetCsrfTokenFromRequest(headers);
    var csrfCookie := Csrf.GetCsrfCookieFromRequest(Header(headers, "cookie"));
    var isValidCsrf := Csrf.ValidateCsrfToken(cfg, csrfHeader, csrfCookie);
    assert isValidCsrf == CsrfCheck(cfg, headers);
    if isValidCsrf.Err? {
      return ServerError;
    }
    if !isValidCsrf.value {
      return Forbidden;
    }
    ghost var expected := PasswordStep(cfg, body);
    assert LoginResponse(cfg, now, rateLimitResult, isValidCsrf, body) == expected;
    if !body.Parsed? {
      return ServerError;
    }
    if body.password.NotAString? || body.password.value == "" {
      return BadRequest;
    }
    var valid := Auth.ValidatePassword(cfg, body.password.value);
    if valid.Err? {
      return ServerError;
    }
    if !valid.value {
      return Unauthorized;
    }
    assert expected == (if Secret(cfg).Ok? then LoggedIn else ServerError);
    var stored := Auth.SetAuthCookie(jar, cfg, now);
    if stored.Fail? {
      return ServerError;
    }
    response := LoggedIn;
  }

  /** A rate-limit denial answers 429 before the CSRF token or the body is
      looked at. */
  lemma RateLimitFirst(cfg: Config, now: int, limit: RateLimit, csrf: Result<bool, Fault>, body: Body)
    requires !limit.success
    ensures LoginResponse(cfg, now, Some(limit), csrf, body) == TooManyRequests(CeilSeconds(limit.reset - now), limit.remaining)
  {
  }

  /** A failed CSRF check answers 403 before the body is examined. */
  lemma CsrfBeforeBody(cfg: Config, now: int, limit: RateLimit, body: Body)
    requires limit.success
    ensures LoginResponse(cfg, now, Some(limit), Ok(false), body) == Forbidden
  {
  }

  /** The double-submit values a client sends: the signed token in the
      header and the same token in the `csrf-token` cookie. */
  predicate CarriesCsrfToken(headers: Headers, signed: string) {
    && Csrf.CsrfHeader in headers && headers[Csrf.CsrfHeader] == signed
    && "cookie" in headers && headers["cookie"] == Csrf.CsrfCookie + "=" + signed
  }

  /** A request echoing a token signed with the configured secret passes
      the CSRF check. */
  lemma SignedTokenPassesCsrf(cfg: Config, headers: Headers, token: string)
    requires Secret(cfg).Ok? && token != "" && Cookies.SafeText(token) && '.' !in token
    requires CarriesCsrfToken(headers, Csrf.SignToken(cfg, token).value)
    ensures CsrfCheck(cfg, headers) == Ok(true)
  {
    Csrf.CookieCarriesSignedToken(cfg, token);
    Csrf.ValidateSignedToken(cfg, token);
  }

  /** A missing, empty or non-string password answers 400 once the CSRF
      check has passed; a wrong one answers 401. */
  lemma PasswordChecks(cfg: Config, now: int, limit: RateLimit, password: string)
    requires limit.success
    requires cfg.appPassword.Some? && cfg.appPassword.value != ""
    requires |password| < 0x4000_0000 && |cfg.appPassword.value| < 0x4000_0000
    ensures LoginResponse(cfg, now, Some(limit), Ok(true), Parsed(NotAString)) == BadRequest
    ensures LoginResponse(cfg, now, Some(limit), Ok(true), Parsed(Text(""))) == BadRequest
    ensures password != "" && password != cfg.appPassword.value ==>
      LoginResponse(cfg, now, Some(limit), Ok(true), Parsed(Text(password))) == Unauthorized
  {
  }

  /** Every exception of the steps answers 500: a failing rate limiter, a
      missing secret, a body that is not JSON, a missing password setting. */
  lemma FaultsAnswer500(cfg: Config, now: int, limit: RateLimit, body: Body, password: string)
    requires limit.success
    ensures LoginResponse(cfg, now, None, Ok(true), body) == ServerError
    ensures LoginResponse(cfg, now, Some(limit), Err(MissingAuthSecret), body) == ServerError
    ensures LoginResponse(cfg, now, Some(limit), Ok(true), Malformed) == ServerError
    ensures LoginResponse(cfg, now, Some(limit), Ok(true), Null) == ServerError
    ensures password != "" && (cfg.appPassword.None? || cfg.appPassword.value == "") ==>
      LoginResponse(cfg, now, Some(limit), Ok(true), Parsed(Text(password))) == ServerError
  {
  }

  /** A login succeeds exactly when every check passes: not rate limited,
      a valid CSRF token, the configured password, and a configured secret. */
  lemma LoggedInIff(cfg: Config, now: int, limit: Option<RateLimit>, csrf: Result<bool, Fault>, body: Body)
    requires cfg.appPassword.None? || |cfg.appPassword.value| < 0x4000_0000
    requires body.Parsed? && body.password.Text? ==> |body.password.value| < 0x4000_0000
    ensures LoginResponse(cfg, now, limit, csrf, body) == LoggedIn <==>
      && limit.Some? && limit.value.success && csrf == Ok(true)
      && cfg.appPassword.Some? && body == Parsed(Text(cfg.appPassword.value)) && cfg.appPassword.value != ""
      && Secret(cfg).Ok?
  {
  }

  /** The whole exchange: a client that is not rate limited, echoes a
      CSRF token signed with the configured secret and sends the right
      password is logged in. */
  lemma LoginRoundTrip(cfg: Config, now: nat, headers: Headers, limiter: Limiter, token: string)
    requires Secret(cfg).Ok? && cfg.appPassword.Some? && cfg.appPassword.value != ""
    requires token != "" && Cookies.SafeText(token) && '.' !in token
    requires CarriesCsrfToken(headers, Csrf.SignToken(cfg, token).value)
    requires limiter(GetClientIp(headers)).Some? && limiter(GetClientIp(headers)).value.success
    ensures LoginResponse(cfg, now, limiter(GetClientIp(headers)), CsrfCheck(cfg, headers), Parsed(Text(cfg.appPassword.value))) == LoggedIn
  {
    SignedTokenPassesCsrf(cfg, headers, token);
    AllChecksPass(cfg, now, limiter(GetClientIp(headers)).value);
  }

  /** The configured password passes once rate limit and CSRF checks have. */
  lemma AllChecksPass(cfg: Config, now: int, limit: RateLimit)
    requires Secret(cfg).Ok? && cfg.appPassword.Some? && cfg.appPassword.value != "" && limit.success
    ensures LoginResponse(cfg, now, Some(limit), Ok(true), Parsed(Text(cfg.appPassword.value))) == LoggedIn
  {
  }
}
