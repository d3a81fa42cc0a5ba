/** The request gate (src/middleware.ts): public pages and the login/CSRF
    endpoints pass, static files and Next.js internals pass, every other
    path needs a valid session cookie or is redirected to `/login`. */
module Middleware {
  import opened Wrappers
  import opened Env
  import Text
  import Auth

  const PublicPaths: seq<string> := ["/login", "/api/auth/login", "/api/auth/csrf"]

  /** `publicPaths.some((path) => pathname.startsWith(path))`: the path
      starts with one of the three public prefixes. */
  predicate IsPublic(pathname: string): (r: bool)
    ensures r <==> (|| Text.StartsWith(pathname, "/login")
                    || Text.StartsWith(pathname, "/api/auth/login")
                    || Text.StartsWith(pathname, "/api/auth/csrf"))
  {
    assert PublicPaths[0] == "/login" && PublicPaths[1] == "/api/auth/login" && PublicPaths[2] == "/api/auth/csrf";
    exists i :: 0 <= i < |PublicPaths| && Text.StartsWith(pathname, PublicPaths[i])
  }

  /** The static-file heuristic: Next.js internals, the favicon, and
      anything containing a dot. The favicon test adds nothing, since its
      path holds a dot. */
  predicate IsStaticAsset(pathname: string): (r: bool)
    ensures r <==> Text.StartsWith(pathname, "/_next") || '.' in pathname
  {
    assert Text.StartsWith(pathname, "/favicon.ico") ==> pathname[8] == "/favicon.ico"[8] == '.';
    Text.StartsWith(pathname, "/_next") || Text.StartsWith(pathname, "/favicon.ico") || '.' in pathname
  }

  /** `NextResponse.next()` or a redirect to `/login`. */
  datatype Decision = Forward | RedirectToLogin

  /** `middleware(request)` for the request's path and `Cookie` header at
      time `now`; a missing secret surfaces as the thrown error. */
  function Middleware(cfg: Config, now: int, pathname: string, cookieHeader: Option<string>): (r: Result<Decision, Fault>)
    ensures r.Err? ==> r.error == MissingAuthSecret && Secret(cfg).Err?
  {
    if IsPublic(pathname) then Ok(Forward)
    else if IsStaticAsset(pathname) then Ok(Forward)
    else
      match Auth.VerifyAuthToken(cfg, now, Auth.GetAuthToken(cookieHeader))
      case Err(e) => Err(e)
      case Ok(isAuth) => if isAuth then Ok(Forward) else Ok(RedirectToLogin)
  }

  /** Public and static paths are forwarded whatever cookie comes with them
      (the cookie is not even read). */
  lemma ForwardedWithoutCookie(cfg: Config, now: int, pathname: string, cookieHeader: Option<string>)
    requires IsPublic(pathname) || IsStaticAsset(pathname)
    ensures Middleware(cfg, now, pathname, cookieHeader) == Ok(Forward)
    ensures Middleware(cfg, now, pathname, cookieHeader) == Middleware(cfg, now, pathname, None)
  {
  }

  /** Any other path is redirected exactly when the session check fails;
      with the secret configured the answer is always a forward or a
      redirect, never a fault. */
  lemma RedirectIffUnauthenticated(cfg: Config, now: int, pathname: string, cookieHeader: Option<string>)
    requires !IsPublic(pathname) && !IsStaticAsset(pathname)
    ensures Middleware(cfg, now, pathname, cookieHeader) == Ok(RedirectToLogin)
      <==> Auth.VerifyAuthToken(cfg, now, Auth.GetAuthToken(cookieHeader)) == Ok(false)
    ensures Secret(cfg).Ok? ==>
      Middleware(cfg, now, pathname, cookieHeader)
        == Ok(if Auth.VerifyAuthToken(cfg, now, Auth.GetAuthToken(cookieHeader)).value then Forward else RedirectToLogin)
  {
  }

  /** A request with an unexpired session cookie issued at `issued` is
      forwarded, whatever its path. */
  lemma SessionForwarded(cfg: Config, now: int, issued: nat, pathname: string)
    requires Secret(cfg).Ok? && now - issued <= Auth.TokenExpiry
    ensures Middleware(cfg, now, pathname, Some(Auth.AuthCookie + "=" + Auth.CreateToken(cfg, issued).value)) == Ok(Forward)
  {
    Auth.SessionCookieRoundTrip(cfg, issued, now);
  }

  /** A request without any cookie reaches a protected path only through a
      redirect. */
  lemma NoCookieRedirected(cfg: Config, now: int, pathname: string)
    requires !IsPublic(pathname) && !IsStaticAsset(pathname)
    ensures Middleware(cfg, now, pathname, None) == Ok(RedirectToLogin)
  {
  }

  /** The redirect target is public, so following a redirect never leads
      to another one. */
  lemma LoginIsPublic(cfg: Config, now: int, cookieHeader: Option<string>)
    ensures IsPublic("/login")
    ensures Middleware(cfg, now, "/login", cookieHeader) == Ok(Forward)
  {
    assert Text.StartsWith("/login", PublicPaths[0]);
  }

  /** The public check is a prefix test: `/login` followed by anything,
      such as `/loginfoo`, is public too. */
  lemma PublicByPrefix(suffix: string)
    ensures IsPublic("/login" + suffix)
    ensures IsPublic("/api/auth/login" + suffix) && IsPublic("/api/auth/csrf" + suffix)
  {
    assert Text.StartsWith("/login" + suffix, PublicPaths[0]);
    assert Text.StartsWith("/api/auth/login" + suffix, PublicPaths[1]);
    assert Text.StartsWith("/api/auth/csrf" + suffix, PublicPaths[2]);
  }

  /** As written, the dot heuristic also lets API requests through: the
      signed-URL endpoint for a video key such as `clip.mp4` is reached
      without any session. */
  lemma VideoUrlBypass(cfg: Config, now: int)
    ensures !IsPublic("/api/videos/clip.mp4/url")
    ensures Middleware(cfg, now, "/api/videos/clip.mp4/url", None) == Ok(Forward)
  {
    var p := "/api/videos/clip.mp4/url";
    assert p[16] == '.';
    assert !Text.StartsWith(p, PublicPaths[0]) by { assert p[1] != PublicPaths[0][1]; }
    assert !Text.StartsWith(p, PublicPaths[1]) by { assert p[5] != PublicPaths[1][5]; }
    assert !Text.StartsWith(p, PublicPaths[2]) by { assert p[5] != PublicPaths[2][5]; }
  }

  /** The static-file heuristic restricted to non-API paths. */
  predicate IsGuardedStaticAsset(pathname: string): (r: bool)
    ensures r ==> IsStaticAsset(pathname)
    ensures Text.StartsWith(pathname, "/api/") ==> !r
    ensures !Text.StartsWith(pathname, "/api/") ==> (r <==> IsStaticAsset(pathname))
  {
    IsStaticAsset(pathname) && !Text.StartsWith(pathname, "/api/")
  }

  /** The gate with API routes kept out of the static-file heuristic. */
  function GuardedMiddleware(cfg: Config, now: int, pathname: string, cookieHeader: Option<string>): (r: Result<Decision, Fault>)
    ensures r.Err? ==> r.error == MissingAuthSecret && Secret(cfg).Err?
  {
    if IsPublic(pathname) then Ok(Forward)
    else if IsGuardedStaticAsset(pathname) then Ok(Forward)
    else
      match Auth.VerifyAuthToken(cfg, now, Auth.GetAuthToken(cookieHeader))
      case Err(e) => Err(e)
      case Ok(isAuth) => if isAuth then Ok(Forward) else Ok(RedirectToLogin)
  }

  /** With the guard, a non-public API path is forwarded only with a valid
      session. */
  lemma GuardedApiNeedsSession(cfg: Config, now: int, pathname: string, cookieHeader: Option<string>)
    requires Text.StartsWith(pathname, "/api/") && !IsPublic(pathname)
    ensures GuardedMiddleware(cfg, now, pathname, cookieHeader) == Ok(Forward)
      <==> Auth.VerifyAuthToken(cfg, now, Auth.GetAuthToken(cookieHeader)) == Ok(true)
  {
  }

  /** The guarded gate closes the video-URL bypass and otherwise agrees with
      the original on every non-API path. */
  lemma GuardedAgrees(cfg: Config, now: int, pathname: string, cookieHeader: Option<string>)
    ensures !Text.StartsWith(pathname, "/api/") ==>
      GuardedMiddleware(cfg, now, pathname, cookieHeader) == Middleware(cfg, now, pathname, cookieHeader)
    ensures GuardedMiddleware(cfg, now, "/api/videos/clip.mp4/url", None) == Ok(RedirectToLogin)
  {
    var p := "/api/videos/clip.mp4/url";
    assert Text.StartsWith(p, "/api/") by { assert p[..5] == "/api/"; }
    VideoUrlBypass(cfg, now);
  }
}
