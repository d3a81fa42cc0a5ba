/** The process environment and the Web Crypto primitive the session and
    CSRF code depend on. `process.env` becomes a configuration record;
    HMAC-SHA256 (RFC 2104 over FIPS 180-4 SHA-256) is a deterministic
    function of key and message bytes with a 32-byte result, left
    uninterpreted. */
module Env {
  import opened Utf8
  import opened Wrappers

  const MacLength: nat := 32

  /** HMAC-SHA256 as `crypto.subtle.sign("HMAC", key, data)` computes it. */
  type Mac = f: (seq<byte>, seq<byte>) -> seq<byte> | forall k, m :: |f(k, m)| == MacLength
    witness (k: seq<byte>, m: seq<byte>) => seq(MacLength, _ => 0)

  /** `AUTH_SECRET`, `APP_PASSWORD` and `NODE_ENV === "production"`. */
  datatype Config = Config(authSecret: Option<string>, appPassword: Option<string>, production: bool, hmac: Mac)

  /** The exceptions the core throws when the environment is incomplete. */
  datatype Fault = MissingAuthSecret | MissingAppPassword

  /** `getSecret()` (identical in src/lib/auth.ts and src/lib/csrf.ts): an
      unset or empty `AUTH_SECRET` throws. */
  function Secret(cfg: Config): (r: Result<string, Fault>)
    ensures r.Ok? <==> cfg.authSecret.Some? && cfg.authSecret.value != ""
    ensures r.Ok? ==> r.value == cfg.authSecret.value
    ensures r.Err? ==> r.error == MissingAuthSecret
  {
    match cfg.authSecret
    case None => Err(MissingAuthSecret)
    case Some(s) => if s == "" then Err(MissingAuthSecret) else Ok(s)
  }

  /** Importing the UTF-8 bytes of the secret as a raw HMAC key and signing
      the UTF-8 bytes of `data`. */
  function Sign(cfg: Config, data: string): (r: Result<seq<byte>, Fault>)
    ensures r.Ok? <==> Secret(cfg).Ok?
    ensures r.Ok? ==> |r.value| == MacLength
    ensures r.Err? ==> r.error == MissingAuthSecret
  {
    match Secret(cfg)
    case Err(e) => Err(e)
    case Ok(secret) => Ok(cfg.hmac(Encode(secret), Encode(data)))
  }
}
