/** CSRF protection (src/lib/csrf.ts), double-submit style: a random
    token is signed into `<token>.<hex HMAC>`, stored in the `csrf-token`
    cookie and echoed by the client in the `x-csrf-token` header; a
    request is trusted when header and cookie agree and the signature
    verifies. */
module Csrf {
  import opened Wrappers
  import opened Env
  import opened Utf8
  import Text
  import Hex
  import Cookies

  const CsrfCookie: string := "csrf-token"
  const CsrfHeader: string := "x-csrf-token"
  const TokenLength: nat := 32

  /** The options `generateCsrfToken` writes the cookie with. */
  function CsrfAttributes(cfg: Config): (r: Cookies.Attributes)
    ensures r.maxAge == 3600
    ensures r.httpOnly && r.sameSite == Cookies.Strict && r.path == "/" && (r.secure <==> cfg.production)
  {
    Cookies.Attributes(httpOnly := true, secure := cfg.production, sameSite := Cookies.Strict,
                       maxAge := 60 * 60, path := "/")
  }

  /** `generateRandomToken()`: a 32-byte buffer filled by
      `crypto.getRandomValues` (here the bytes `random` it draws), written
      as hex. */
  method GenerateRandomToken(random: seq<byte>) returns (token: string)
    requires |random| == TokenLength
    ensures token == Hex.Encode(random)
    ensures |token| == 2 * TokenLength && Hex.IsLowerHex(token)
    ensures Hex.Decode(token) == random
  {
    var buffer := new byte[TokenLength](_ => 0);
    forall i | 0 <= i < TokenLength {
      buffer[i] := random[i];
    }
    assert buffer[..] == random;
    token := Hex.Encode(buffer[..]);
    Hex.DecodeEncode(buffer[..]);
  }

  /** `signToken(token)`: the token, a dot and the hex HMAC of the token. */
  function SignToken(cfg: Config, token: string): (r: Result<string, Fault>)
    ensures r.Ok? <==> Secret(cfg).Ok?
    ensures r.Err? ==> r.error == MissingAuthSecret
  {
    match Sign(cfg, token)
    case Err(e) => Err(e)
    case Ok(mac) => Ok(token + "." + Hex.Encode(mac))
  }

  /** `verifySignedToken(signedToken)`: false unless the first two
      `.`-fields are non-empty; then the secret is read (a missing secret
      throws out of the function) and the decoded second field is checked
      against the HMAC of the first. */
  function VerifySignedToken(cfg: Config, signedToken: string): (r: Result<bool, Fault>)
    ensures r.Err? ==> r.error == MissingAuthSecret && Secret(cfg).Err?
  {
    var fields := Text.Split(signedToken, '.');
    if fields[0] == "" || |fields| < 2 || fields[1] == "" then Ok(false)
    else
      match Sign(cfg, fields[0])
      case Err(e) => Err(e)
      case Ok(mac) => Ok(Hex.Decode(fields[1]) == mac)
  }

  /** `validateCsrfToken(headerToken, cookieToken)`. */
  function ValidateCsrfToken(cfg: Config, headerToken: Option<string>, cookieToken: Option<string>): (r: Result<bool, Fault>)
    ensures headerToken.None? || headerToken.value == "" || cookieToken.None? || cookieToken.value == "" ==> r == Ok(false)
    ensures headerToken != cookieToken ==> r == Ok(false)
    ensures r.Err? ==> r.error == MissingAuthSecret && Secret(cfg).Err?
  {
    if headerToken.None? || headerToken.value == "" || cookieToken.None? || cookieToken.value == "" then Ok(false)
    else if headerToken.value != cookieToken.value then Ok(false)
    else VerifySignedToken(cfg, cookieToken.value)
  }

  /** The hex form of a MAC is non-empty and holds no `.`. */
  lemma SignatureHasNoDot(mac: seq<byte>)
    requires |mac| == MacLength
    ensures var signature := Hex.Encode(mac); signature != "" && '.' !in signature
  {
    var signature := Hex.Encode(mac);
    assert forall i :: 0 <= i < |signature| ==> Hex.IsLowerHexDigit(signature[i]);
  }

  /** A signed `.`-free token splits at its one dot into the token and the
      hex HMAC of the token. */
  lemma SignTokenFields(cfg: Config, token: string)
    requires Secret(cfg).Ok? && '.' !in token
    ensures Text.Split(SignToken(cfg, token).value, '.') == [token, Hex.Encode(Sign(cfg, token).value)]
  {
    SignatureHasNoDot(Sign(cfg, token).value);
    Text.SplitPair(token, Hex.Encode(Sign(cfg, token).value), '.');
  }

  /** Text with fewer than two `.`-fields, or with an empty first or second
      field, is refused, and the secret is not read. */
  lemma VerifySignedNeedsFields(cfg: Config, token: string, signature: string)
    requires '.' !in token && '.' !in signature
    ensures VerifySignedToken(cfg, token) == Ok(false)
    ensures VerifySignedToken(cfg, token + ".") == Ok(false)
    ensures VerifySignedToken(cfg, "." + signature) == Ok(false)
  {
    Text.SplitWithout(token, '.');
    Text.SplitPair(token, "", '.');
    assert token + "." == token + ['.'] + "";
    Text.SplitPair("", signature, '.');
    assert "." + signature == "" + ['.'] + signature;
  }

  /** The verdict on text whose first two `.`-fields are `token` and
      `signature`, both non-empty. */
  lemma VerifyByFields(cfg: Config, signedToken: string, token: string, signature: string)
    requires token != "" && signature != ""
    requires |Text.Split(signedToken, '.')| >= 2
    requires Text.Split(signedToken, '.')[0] == token && Text.Split(signedToken, '.')[1] == signature
    ensures VerifySignedToken(cfg, signedToken)
      == if Secret(cfg).Ok? then Ok(Hex.Decode(signature) == Sign(cfg, token).value) else Err(MissingAuthSecret)
  {
  }

  /** Two non-empty `.`-free fields: the signature is accepted exactly
      when it decodes to the HMAC `signToken` computes for the first
      field; a missing secret throws. */
  lemma VerifySignedTokenAccepts(cfg: Config, token: string, signature: string)
    requires token != "" && signature != "" && '.' !in token && '.' !in signature
    ensures VerifySignedToken(cfg, token + "." + signature)
      == if Secret(cfg).Ok? then Ok(Hex.Decode(signature) == Sign(cfg, token).value) else Err(MissingAuthSecret)
  {
    Text.SplitPair(token, signature, '.');
    VerifyByFields(cfg, token + "." + signature, token, signature);
  }

  /** Anything after a second `.` is ignored. */
  lemma VerifySignedIgnoresRest(cfg: Config, token: string, signature: string, rest: string)
    requires '.' !in token && '.' !in signature
    ensures VerifySignedToken(cfg, token + "." + signature + "." + rest)
      == VerifySignedToken(cfg, token + "." + signature)
  {
    var long := token + "." + signature + "." + rest;
    assert long == token + ['.'] + (signature + ['.'] + rest);
    Text.SplitFirst(token, signature + ['.'] + rest, '.');
    Text.SplitFirst(signature, rest, '.');
    var short := token + "." + signature;
    assert short == token + ['.'] + signature;
    Text.SplitPair(token, signature, '.');
    assert Text.Split(long, '.')[..2] == Text.Split(short, '.');
  }

  /** A signed token verifies, whatever non-empty `.`-free text was signed. */
  lemma VerifySignToken(cfg: Config, token: string)
    requires Secret(cfg).Ok?
    requires token != "" && '.' !in token
    ensures VerifySignedToken(cfg, SignToken(cfg, token).value) == Ok(true)
  {
    SignTokenFields(cfg, token);
    Hex.DecodeEncode(Sign(cfg, token).value);
  }

  /** Round trip: the value a client echoes back from a freshly signed
      token passes the double-submit check. */
  lemma ValidateSignedToken(cfg: Config, token: string)
    requires Secret(cfg).Ok?
    requires token != "" && '.' !in token
    ensures var signed := SignToken(cfg, token).value;
      ValidateCsrfToken(cfg, Some(signed), Some(signed)) == Ok(true)
  {
    VerifySignToken(cfg, token);
  }

  /** The double-submit check accepts exactly equal, non-empty header and
      cookie values whose signature verifies. */
  lemma ValidateCsrfTokenIff(cfg: Config, headerToken: Option<string>, cookieToken: Option<string>)
    ensures ValidateCsrfToken(cfg, headerToken, cookieToken) == Ok(true)
      <==> && headerToken.Some? && headerToken == cookieToken && cookieToken.value != ""
           && VerifySignedToken(cfg, cookieToken.value) == Ok(true)
  {
  }

  /** An accepted signature written in canonical form (even length, lower
      case) is exactly the signature `signToken` writes: the token cannot
      be accepted with any other canonical signature. */
  lemma VerifiedSignatureIsCanonical(cfg: Config, token: string, signature: string)
    requires '.' !in token && '.' !in signature
    requires |signature| % 2 == 0 && Hex.IsLowerHex(signature)
    requires VerifySignedToken(cfg, token + "." + signature) == Ok(true)
    ensures Secret(cfg).Ok? && token + "." + signature == SignToken(cfg, token).value
  {
    Text.SplitPair(token, signature, '.');
    Hex.EncodeDecode(signature);
  }

  /** `generateCsrfToken()`: signs a fresh random token and stores it in the
      `csrf-token` cookie; no other cookie changes. A missing secret throws
      before the store is touched. */
  method GenerateCsrfToken(jar: Cookies.CookieJar, cfg: Config, random: seq<byte>) returns (r: Result<string, Fault>)
    requires |random| == TokenLength
    modifies jar
    ensures r.Ok? <==> Secret(cfg).Ok?
    ensures r.Ok? ==> r.value == SignToken(cfg, Hex.Encode(random)).value
    ensures r.Ok? ==> jar.cookies == old(jar.cookies)[CsrfCookie := Cookies.Cookie(r.value, CsrfAttributes(cfg))]
    ensures r.Err? ==> jar.cookies == old(jar.cookies) && r.error == MissingAuthSecret
    ensures r.Ok? ==> ValidateCsrfToken(cfg, Some(r.value), Some(r.value)) == Ok(true)
    ensures r.Ok? ==> GetCsrfToken(jar) == Some(r.value)
  {
    var token := GenerateRandomToken(random);
    assert token != "";
    assert '.' !in token by {
      assert forall i :: 0 <= i < |token| ==> Hex.IsLowerHexDigit(token[i]);
    }
    r := SignToken(cfg, token);
    if r.Ok? {
      ValidateSignedToken(cfg, token);
      jar.Set(CsrfCookie, r.value, CsrfAttributes(cfg));
    }
  }

  /** `getCsrfToken()`: the cookie's value, null when it is absent or empty. */
  function GetCsrfToken(jar: Cookies.CookieJar): (r: Option<string>)
    reads jar
    ensures r.Some? <==> CsrfCookie in jar.cookies && jar.cookies[CsrfCookie].value != ""
    ensures r.Some? ==> r.value == jar.cookies[CsrfCookie].value
  {
    match jar.Get(CsrfCookie)
    case None => None
    case Some(v) => if v == "" then None else Some(v)
  }

  /** Request headers by lower-case name, as `Headers.get` reads them. */
  type Headers = map<string, string>

  /** `getCsrfTokenFromRequest(request)`: the `x-csrf-token` header. */
  function GetCsrfTokenFromRequest(headers: Headers): (r: Option<string>)
    ensures r.Some? <==> CsrfHeader in headers
    ensures r.Some? ==> r.value == headers[CsrfHeader]
  {
    if CsrfHeader in headers then Some(headers[CsrfHeader]) else None
  }

  /** `getCsrfCookieFromRequest(cookieHeader)`. */
  function GetCsrfCookieFromRequest(cookieHeader: Option<string>): (r: Option<string>)
    ensures r.Some? ==> '=' !in r.value
  {
    Cookies.Lookup(cookieHeader, CsrfCookie)
  }

  /** A signed token made from cookie-safe text is a plain cookie value. */
  lemma SignedTokenIsCookieSafe(cfg: Config, token: string)
    requires Secret(cfg).Ok? && Cookies.SafeText(token)
    ensures Cookies.PlainPair(CsrfCookie, SignToken(cfg, token).value)
  {
    var signature := Hex.Encode(Sign(cfg, token).value);
    SafeSignature(token, signature);
  }

  lemma SafeSignature(token: string, signature: string)
    requires Cookies.SafeText(token) && Hex.IsLowerHex(signature)
    ensures Cookies.PlainPair(CsrfCookie, token + "." + signature)
  {
    Cookies.SafeConcat(token, ".", signature);
    assert Cookies.SafeText(CsrfCookie);
    Cookies.SafePlainPair(CsrfCookie, token + "." + signature);
  }

  /** The cookie a browser sends back holds the signed token unchanged. */
  lemma CookieCarriesSignedToken(cfg: Config, token: string)
    requires Secret(cfg).Ok? && Cookies.SafeText(token)
    ensures var signed := SignToken(cfg, token).value;
      GetCsrfCookieFromRequest(Some(CsrfCookie + "=" + signed)) == Some(signed)
  {
    var signed := SignToken(cfg, token).value;
    SignedTokenIsCookieSafe(cfg, token);
    Cookies.LookupFirst(CsrfCookie, signed, "");
    assert CsrfCookie + "=" + signed + "" == CsrfCookie + "=" + signed;
  }
}
