/** Sessions (src/lib/auth.ts): a session token is the decimal issue time
    in milliseconds, a dot, and the hex HMAC of that decimal text under
    `AUTH_SECRET`; it is valid for seven days. The token travels in the
    `auth-token` cookie. */
module Auth {
  import opened Wrappers
  import opened Env
  import Utf8
  import Text
  import JsNumber
  import Hex
  import Comparator
  import Cookies

  const AuthCookie: string := "auth-token"

  /** Seven days in milliseconds. */
  const TokenExpiry: nat := 7 * 24 * 60 * 60 * 1000

  /** `createSignature(data)`: the hex HMAC of `data`, 64 lower-case digits. */
  function CreateSignature(cfg: Config, data: string): (r: Result<string, Fault>)
    ensures r.Ok? <==> Secret(cfg).Ok?
    ensures r.Ok? ==> |r.value| == 2 * MacLength && Hex.IsLowerHex(r.value)
    ensures r.Ok? ==> Hex.Decode(r.value) == Sign(cfg, data).value
  {
    match Sign(cfg, data)
    case Err(e) => Err(e)
    case Ok(mac) =>
      Hex.DecodeEncode(mac);
      Ok(Hex.Encode(mac))
  }

  /** `createToken(timestamp)`. */
  function CreateToken(cfg: Config, timestamp: nat): (r: Result<string, Fault>)
    ensures r.Ok? <==> Secret(cfg).Ok?
  {
    var stamp := JsNumber.ToString(timestamp, 10);
    match CreateSignature(cfg, stamp)
    case Err(e) => Err(e)
    case Ok(signature) => Ok(stamp + "." + signature)
  }

  /** `verifyToken(token)` at time `now` (milliseconds): false unless the
      first two `.`-fields are present and non-empty, the first reads as
      an integer, the token is at most `TokenExpiry` old and the second
      field matches the signature recomputed over the first field's text. */
  function VerifyToken(cfg: Config, now: int, token: string): (r: Result<bool, Fault>)
    ensures r.Err? ==> r.error == MissingAuthSecret && Secret(cfg).Err?
  {
    var fields := Text.Split(token, '.');
    if fields[0] == "" || |fields| < 2 || fields[1] == "" then Ok(false)
    else
      match JsNumber.ParseInt(fields[0], 10)
      case None => Ok(false)
      case Some(timestamp) =>
        if now - timestamp > TokenExpiry then Ok(false)
        else
          match CreateSignature(cfg, fields[0])
          case Err(e) => Err(e)
          case Ok(expected) => Ok(Comparator.SafeEqual(fields[1], expected))
  }

  /** The fields of an issued token: the decimal time and the signature. */
  lemma CreateTokenFields(cfg: Config, timestamp: nat)
    requires Secret(cfg).Ok?
    ensures var stamp := JsNumber.ToString(timestamp, 10);
      Text.Split(CreateToken(cfg, timestamp).value, '.') == [stamp, CreateSignature(cfg, stamp).value]
  {
    var stamp := JsNumber.ToString(timestamp, 10);
    var signature := CreateSignature(cfg, stamp).value;
    assert '.' !in stamp by {
      assert forall i :: 0 <= i < |stamp| ==> JsNumber.IsDigit(stamp[i], 10);
    }
    assert '.' !in signature by {
      assert forall i :: 0 <= i < |signature| ==> Hex.IsLowerHexDigit(signature[i]);
    }
    Text.SplitPair(stamp, signature, '.');
  }

  /** Round trip: an issued token verifies exactly while it has not expired
      (a token exactly `TokenExpiry` old, or one dated in the future, still
      verifies). */
  lemma VerifyCreatedToken(cfg: Config, timestamp: nat, now: int)
    requires Secret(cfg).Ok?
    ensures VerifyToken(cfg, now, CreateToken(cfg, timestamp).value) == Ok(now - timestamp <= TokenExpiry)
  {
    var stamp := JsNumber.ToString(timestamp, 10);
    var signature := CreateSignature(cfg, stamp).value;
    assert Text.Split(CreateToken(cfg, timestamp).value, '.') == [stamp, signature] by {
      CreateTokenFields(cfg, timestamp);
    }
    assert JsNumber.ParseInt(stamp, 10) == Some(timestamp) by {
      JsNumber.DecimalRoundTrip(timestamp, "");
      assert stamp + "" == stamp;
    }
    assert stamp != "" && signature != "";
    assert Comparator.SafeEqual(signature, signature);
  }

  /** Only the first two fields are examined: anything after a second `.`
      is ignored. */
  lemma VerifyIgnoresTrailingFields(cfg: Config, now: int, stamp: string, signature: string, trailing: string)
    requires '.' !in stamp && '.' !in signature
    ensures VerifyToken(cfg, now, stamp + "." + signature + "." + trailing) == VerifyToken(cfg, now, stamp + "." + signature)
  {
    var token := stamp + "." + signature;
    assert token == stamp + ['.'] + signature;
    assert token + "." + trailing == stamp + ['.'] + (signature + ['.'] + trailing);
    Text.SplitFirst(stamp, signature + ['.'] + trailing, '.');
    Text.SplitFirst(signature, trailing, '.');
    Text.SplitPair(stamp, signature, '.');
  }

  /** A token whose first or second field is missing or empty is refused
      without consulting the secret. */
  lemma VerifyNeedsFields(cfg: Config, now: int, stamp: string, signature: string)
    requires '.' !in stamp && '.' !in signature
    ensures VerifyToken(cfg, now, stamp) == Ok(false)
    ensures VerifyToken(cfg, now, stamp + ".") == Ok(false)
    ensures VerifyToken(cfg, now, "." + signature) == Ok(false)
  {
    Text.SplitWithout(stamp, '.');
    assert stamp + "." == stamp + ['.'] + "";
    Text.SplitPair(stamp, "", '.');
    assert "." + signature == "" + ['.'] + signature;
    Text.SplitPair("", signature, '.');
  }

  /** An expired token is refused whatever its signature. */
  lemma VerifyRefusesExpired(cfg: Config, now: int, timestamp: nat, signature: string)
    requires '.' !in signature && signature != ""
    requires now - timestamp > TokenExpiry
    ensures VerifyToken(cfg, now, JsNumber.ToString(timestamp, 10) + "." + signature) == Ok(false)
  {
    var stamp := JsNumber.ToString(timestamp, 10);
    assert '.' !in stamp by {
      assert forall i :: 0 <= i < |stamp| ==> JsNumber.IsDigit(stamp[i], 10);
    }
    Text.SplitPair(stamp, signature, '.');
    JsNumber.DecimalRoundTrip(timestamp, "");
    assert stamp + "" == stamp;
  }

  /** With the secret configured, a two-field token is accepted exactly when
      the second field is the signature of the first and the first reads as
      a time at most `TokenExpiry` ago; every other token is refused with
      `false`, not a fault. */
  lemma VerifyTokenAccepts(cfg: Config, now: int, stamp: string, signature: string)
    requires Secret(cfg).Ok?
    requires '.' !in stamp && '.' !in signature && |signature| < 0x4000_0000
    ensures VerifyToken(cfg, now, stamp + "." + signature)
      == Ok(&& stamp != ""
            && JsNumber.ParseInt(stamp, 10).Some?
            && now - JsNumber.ParseInt(stamp, 10).value <= TokenExpiry
            && signature == CreateSignature(cfg, stamp).value)
  {
    Text.SplitPair(stamp, signature, '.');
    var expected := CreateSignature(cfg, stamp).value;
    assert |Utf8.Encode(expected)| <= 4 * |expected|;
  }

  /** `validatePassword(password)`: an unset or empty `APP_PASSWORD`
      throws; otherwise the timing-safe comparison, which accepts the
      configured password and, below 2^30 code points, only it. */
  function ValidatePassword(cfg: Config, password: string): (r: Result<bool, Fault>)
    ensures r.Err? <==> cfg.appPassword.None? || cfg.appPassword.value == ""
    ensures r.Err? ==> r.error == MissingAppPassword
    ensures r.Ok? ==> (password == cfg.appPassword.value ==> r.value)
    ensures r.Ok? && |password| < 0x4000_0000 && |cfg.appPassword.value| < 0x4000_0000
      ==> r == Ok(password == cfg.appPassword.value)
  {
    match cfg.appPassword
    case None => Err(MissingAppPassword)
    case Some(expected) =>
      if expected == "" then Err(MissingAppPassword) else Ok(Comparator.SafeEqual(password, expected))
  }

  /** The options `setAuthCookie` writes the session cookie with. */
  function SessionAttributes(cfg: Config): (r: Cookies.Attributes)
    ensures r.maxAge * 1000 == TokenExpiry
    ensures r.httpOnly && r.sameSite == Cookies.Lax && r.path == "/" && (r.secure <==> cfg.production)
  {
    Cookies.Attributes(httpOnly := true, secure := cfg.production, sameSite := Cookies.Lax,
                       maxAge := TokenExpiry / 1000, path := "/")
  }

  /** `setAuthCookie()` at time `now`: the token is created first, so a
      missing secret leaves the store untouched. */
  method SetAuthCookie(jar: Cookies.CookieJar, cfg: Config, now: nat) returns (r: Outcome<Fault>)
    modifies jar
    ensures r.Pass? <==> Secret(cfg).Ok?
    ensures r.Pass? ==> jar.cookies == old(jar.cookies)[AuthCookie := Cookies.Cookie(CreateToken(cfg, now).value, SessionAttributes(cfg))]
    ensures r.Fail? ==> jar.cookies == old(jar.cookies) && r.error == MissingAuthSecret
    ensures r.Pass? ==> forall later: int :: IsAuthenticated(jar, cfg, later) == Ok(later - now <= TokenExpiry)
  {
    var token := CreateToken(cfg, now);
    if token.Err? {
      return Fail(token.error);
    }
    jar.Set(AuthCookie, token.value, SessionAttributes(cfg));
    forall later: int ensures IsAuthenticated(jar, cfg, later) == Ok(later - now <= TokenExpiry) {
      VerifyCreatedToken(cfg, now, later);
    }
    r := Pass;
  }

  /** `clearAuthCookie()`. */
  method ClearAuthCookie(jar: Cookies.CookieJar)
    modifies jar
    ensures jar.cookies == old(jar.cookies) - {AuthCookie}
    ensures forall cfg: Config, now: int :: IsAuthenticated(jar, cfg, now) == Ok(false)
  {
    jar.Delete(AuthCookie);
  }

  /** `isAuthenticated()`: the session cookie of the store, verified. */
  function IsAuthenticated(jar: Cookies.CookieJar, cfg: Config, now: int): (r: Result<bool, Fault>)
    reads jar
    ensures AuthCookie !in jar.cookies ==> r == Ok(false)
    ensures AuthCookie in jar.cookies ==> r == VerifyAuthToken(cfg, now, Some(jar.cookies[AuthCookie].value))
  {
    match jar.Get(AuthCookie)
    case None => Ok(false)
    case Some(token) => if token == "" then Ok(false) else VerifyToken(cfg, now, token)
  }

  /** `getAuthToken(cookieHeader)`. */
  function GetAuthToken(cookieHeader: Option<string>): (r: Option<string>)
    ensures r.Some? ==> '=' !in r.value
  {
    Cookies.Lookup(cookieHeader, AuthCookie)
  }

  /** `verifyAuthToken(token)`: null and empty tokens are refused. */
  function VerifyAuthToken(cfg: Config, now: int, token: Option<string>): (r: Result<bool, Fault>)
    ensures token.None? || token.value == "" ==> r == Ok(false)
    ensures r.Err? ==> r.error == MissingAuthSecret && Secret(cfg).Err?
  {
    match token
    case None => Ok(false)
    case Some(t) => if t == "" then Ok(false) else VerifyToken(cfg, now, t)
  }

  /** A request carrying only the issued session cookie is authenticated
      while the session lasts. */
  lemma SessionCookieRoundTrip(cfg: Config, timestamp: nat, now: int)
    requires Secret(cfg).Ok?
    ensures var token := CreateToken(cfg, timestamp).value;
      VerifyAuthToken(cfg, now, GetAuthToken(Some(AuthCookie + "=" + token))) == Ok(now - timestamp <= TokenExpiry)
  {
    var token := CreateToken(cfg, timestamp).value;
    TokenIsCookieSafe(cfg, timestamp);
    Cookies.LookupFirst(AuthCookie, token, "");
    assert AuthCookie + "=" + token + "" == AuthCookie + "=" + token;
    VerifyCreatedToken(cfg, timestamp, now);
  }

  /** An issued token is plain cookie text: digits, one dot and hex digits,
      so no `;`, `=` or white space. */
  lemma TokenIsCookieSafe(cfg: Config, timestamp: nat)
    requires Secret(cfg).Ok?
    ensures Cookies.PlainPair(AuthCookie, CreateToken(cfg, timestamp).value)
  {
    var stamp := JsNumber.ToString(timestamp, 10);
    JsNumber.DecimalDigits(timestamp);
    StampDotSignatureIsSafe(stamp, CreateSignature(cfg, stamp).value);
  }

  /** Digits, a dot and lower-case hex digits make a plain cookie value. */
  lemma StampDotSignatureIsSafe(stamp: string, signature: string)
    requires forall i :: 0 <= i < |stamp| ==> '0' <= stamp[i] <= '9'
    requires Hex.IsLowerHex(signature)
    ensures Cookies.PlainPair(AuthCookie, stamp + "." + signature)
  {
    Cookies.SafeConcat(stamp, ".", signature);
    assert Cookies.SafeText(AuthCookie);
    Cookies.SafePlainPair(AuthCookie, stamp + "." + signature);
  }
}
