/** `GET /api/auth/csrf` (src/app/api/auth/csrf/route.ts): hand out the
    CSRF token of the cookie store, creating and storing one first when
    there is none. */
module CsrfRoute {
  import opened Wrappers
  import opened Env
  import Utf8
  import Hex
  import Cookies
  import Csrf

  /** `{ token }`, or the 500 answer when generation throws. */
  datatype CsrfResponse = Issued(token: string) | Failed

  /** `GET()`, with `random` the 32 bytes `crypto.getRandomValues` would
      draw should a token be generated. */
  method Get(jar: Cookies.CookieJar, cfg: Config, random: seq<Utf8.byte>) returns (response: CsrfResponse)
    requires |random| == Csrf.TokenLength
    modifies jar
    ensures old(Csrf.GetCsrfToken(jar)).Some? ==>
      response == Issued(old(Csrf.GetCsrfToken(jar)).value) && jar.cookies == old(jar.cookies)
    ensures old(Csrf.GetCsrfToken(jar)).None? && Secret(cfg).Err? ==>
      response == Failed && jar.cookies == old(jar.cookies)
    ensures old(Csrf.GetCsrfToken(jar)).None? && Secret(cfg).Ok? ==>
      && response == Issued(Csrf.SignToken(cfg, Hex.Encode(random)).value)
      && jar.cookies == old(jar.cookies)[Csrf.CsrfCookie := Cookies.Cookie(response.token, Csrf.CsrfAttributes(cfg))]
      && Csrf.ValidateCsrfToken(cfg, Some(response.token), Some(response.token)) == Ok(true)
    ensures response.Issued? ==> Csrf.GetCsrfToken(jar) == Some(response.token)
  {
    var token := Csrf.GetCsrfToken(jar);
    if token.None? {
      var generated := Csrf.GenerateCsrfToken(jar, cfg, random);
      if generated.Err? {
        return Failed;
      }
      token := Some(generated.value);
    }
    response := Issued(token.value);
  }
}
