# Video share app: sessions, CSRF and the request gate, in Dafny

This project models the authentication layer of a small Next.js app that lists
and streams videos from an S3 bucket. One shared password unlocks the app.

- **Login.** `POST /api/auth/login` rate-limits the client address. It then
  checks a CSRF token in double-submit style: the token is echoed in the
  `x-csrf-token` header and also carried in the `csrf-token` cookie. Then it
  compares the password in timing-safe fashion. On success it sets a seven-day
  HMAC-signed session cookie `auth-token`.
- **CSRF tokens.** `GET /api/auth/csrf` hands out the CSRF token, creating one
  when there is none.
- **Request gate.** The middleware lets public and static paths through. Any
  other path needs a valid session, or the request is redirected to `/login`.
- **Video list.** The post-processing of the bucket listing filters, names and
  sorts the videos. The download file name uses the same naming rule.

Module by module:

- `Env`: the environment (`AUTH_SECRET`, `APP_PASSWORD`, `NODE_ENV`). HMAC-SHA256
  (RFC 2104 over SHA-256) is a field of the configuration: an uninterpreted
  function from key bytes and message bytes to 32 bytes.
- `Utf8`: `TextEncoder`, proved injective.
- `Text`: `trim`, `split` and `startsWith` with JavaScript semantics.
- `JsNumber`: `toString(radix)` and `parseInt`.
- `Hex`: the two hex helpers. They decode and encode back to the original.
- `Comparator`: `timingSafeEqual` as a loop over arrays. It is proved equal to
  string equality below 2^32 bytes, and to run exactly `max` iterations.
- `Cookies`:
  - the response cookie store, as a class over a map;
  - `Cookie` header parsing.
- `Auth`: session tokens and the session cookie.
- `Csrf`: signed CSRF tokens.
- `CsrfRoute`: the token endpoint.
- `LoginRoute`: the login handler. `Post` is a method that changes the cookie
  store. Its result is tied to the decision function `LoginResponse`, and
  lemmas prove the properties of that function.
- `Middleware`: the gate, together with the as-written and corrected versions
  of one finding.
- `Videos`: the `listVideos` pipeline. Its stable newest-first sort is proved
  sorted, a permutation, stable, and the unique such order.

Inputs the code reads from the outside world are parameters:

- `Date.now()` is `now`;
- the bytes `crypto.getRandomValues` draws are `random`;
- the rate limiter is `limiter`;
- the parsed JSON body is `body`;
- the request headers are a map keyed by lower-case name;
- the bucket listing is `listing`.

## Model

| member | source | states |
|---|---|---|
| Env.Secret | src/lib/auth.ts:6-12 | an unset or empty `AUTH_SECRET` is the thrown `MissingAuthSecret`; otherwise the secret itself (the copy in src/lib/csrf.ts:7-13 is identical) |
| Env.Sign | src/lib/auth.ts:58-71 | the HMAC is computed exactly when the secret is configured, is 32 bytes long, and the missing secret is the only failure |
| Utf8.Encode | src/lib/auth.ts:15-27 | an encoding has between one and four bytes per character |
| Utf8.EncodeCharDecodes | src/lib/auth.ts:25-27 | a character's lead byte announces its sequence length and the sequence decodes back to the character |
| Utf8.EncodeInjective | src/lib/auth.ts:38-39 | different strings have different UTF-8 bytes, so comparing the bytes compares the strings |
| Text.Trim | src/lib/auth.ts:144 | the trimmed text begins where the leading white space ends, neither starts nor ends with white space, only white space lies outside it, and text without white space is unchanged |
| Text.TrimStart | src/lib/auth.ts:87 | the text left after the leading white space is a suffix that does not start with white space, and only white space precedes it |
| Text.StartsWithIff | src/lib/auth.ts:145 | `startsWith` holds exactly when the text is the prefix followed by some text |
| Text.EndsWithIff | src/lib/s3.ts:38-42 | `endsWith` holds exactly when the text is some text followed by the suffix |
| Text.Split | src/lib/auth.ts:82 | a split has at least one piece and the first piece is the text before the first separator |
| Text.SplitJoin | src/lib/auth.ts:82 | joining the pieces with the separator gives the text back |
| Text.SplitPiecesFree | src/lib/auth.ts:82 | no piece holds the separator |
| Text.SplitPair | src/lib/auth.ts:82 | `a.b` with dot-free `a` and `b` splits into exactly `[a, b]` |
| Text.SplitFirst | src/lib/auth.ts:149 | the first piece ends at the first separator and the remaining pieces are those of the rest |
| Text.SplitLast | src/lib/s3.ts:66 | the last piece is a separator-free suffix preceded by a separator whenever it is shorter than the text |
| JsNumber.ToString | src/lib/auth.ts:77 | `toString(radix)` writes lower-case digits of the radix with no leading zero |
| JsNumber.ValueOfToString | src/lib/auth.ts:77 | the digits `toString` writes denote the number |
| JsNumber.ParseInt | src/lib/auth.ts:87 | text of white space alone is NaN |
| JsNumber.ParseIntSkipsSpace | src/lib/auth.ts:87 | leading white space is skipped: `parseInt` reads the text `trimStart` leaves |
| JsNumber.ParseSigned | src/lib/auth.ts:87 | after the white space, an empty text or one starting with neither a sign nor a digit is NaN; a leading `-` gives at most zero and anything else at least zero |
| JsNumber.ParseNumeral | src/lib/auth.ts:87 | `parseInt` reads a run of digits, whatever non-digit text follows it |
| JsNumber.DecimalRoundTrip | src/lib/auth.ts:77-87 | `parseInt(n.toString() + rest, 10) == n` for any `rest` not starting with a digit |
| Hex.Encode | src/lib/auth.ts:30-34 | two lower-case hex digits per byte |
| Hex.EncodeByte | src/lib/auth.ts:32 | `toString(16).padStart(2, "0")` is always two characters: the high digit and then the low digit |
| Hex.EncodeAt | src/lib/auth.ts:30-34 | character pair `i` of the encoding holds byte `i` |
| Hex.Decode | src/lib/csrf.ts:31-40 | one byte per complete pair of characters; an odd trailing character is dropped |
| Hex.DecodeAt | src/lib/csrf.ts:33-35 | byte `i` comes from character pair `i` |
| Hex.HexToBytes | src/lib/csrf.ts:31-40 | the loop fills the array with exactly the decoded bytes, ignoring the out-of-range write for an odd trailing character |
| Hex.PairValue | src/lib/csrf.ts:34 | `parseInt` of two hex digits stored in a byte is high times 16 plus low |
| Hex.PairValueOfNaN | src/lib/csrf.ts:34 | a pair that starts with no white space, sign or hex digit is NaN to `parseInt` and is stored as 0 |
| Hex.DecodeEncode | src/lib/csrf.ts:25-40 | decoding the hex encoding of bytes gives the bytes back |
| Hex.EncodeDecode | src/lib/csrf.ts:25-40 | encoding the decoding of canonical (even, lower-case) hex gives the text back |
| Comparator.Xor | src/lib/auth.ts:50 | an exclusive-or is zero exactly when its operands are equal |
| Comparator.Or | src/lib/auth.ts:52 | an inclusive-or is zero exactly when both operands are zero, and is no smaller than either operand |
| Comparator.Padded | src/lib/auth.ts:43-47 | the padded bytes have the longer length, start with the original bytes and are zero after them |
| Comparator.PaddedArray | src/lib/auth.ts:43-47 | the zero-filled array after `set(bytes)` holds exactly the padded bytes |
| Comparator.AccumulateZero | src/lib/auth.ts:51-53 | the accumulator ends at zero exactly when it starts at zero and every byte pair agrees |
| Comparator.Difference | src/lib/auth.ts:37-56 | as written, the accumulator ends at 0 exactly when the lengths agree modulo 2^32 and the zero-padded bytes agree |
| Comparator.DifferenceZeroIff | src/lib/auth.ts:37-56 | below 2^32 bytes the result is 0 exactly when the byte sequences are equal |
| Comparator.SafeEqual | src/lib/auth.ts:37-56 | `timingSafeEqual(a, b)` is `a == b` when both encodings are shorter than 2^32 bytes, and every string equals itself at any length |
| Comparator.TimingSafeEqual | src/lib/auth.ts:37-56 | the loop's answer is the comparison above, it is string equality below 2^32 bytes, and the loop runs exactly `max` iterations with no early exit |
| Cookies.CookieJar.constructor | src/lib/auth.ts:114 | the store starts with the given cookies |
| Cookies.CookieJar.Get | src/lib/auth.ts:132 | the value of the named cookie, absent exactly when there is no such cookie |
| Cookies.CookieJar.Set | src/lib/auth.ts:116-122 | that cookie is replaced and no other changes |
| Cookies.CookieJar.Delete | src/lib/auth.ts:127 | that cookie is removed and no other changes |
| Cookies.Segments | src/lib/auth.ts:144 | a `Cookie` header has at least one segment, the first being the trimmed text before the first `;` |
| Cookies.TrimAll | src/lib/auth.ts:144 | one segment per piece, segment `i` being piece `i` trimmed |
| Cookies.FindPrefixed | src/lib/auth.ts:145 | `find` stops at the first segment starting with the prefix, and every earlier segment does not |
| Cookies.ValueOf | src/lib/auth.ts:149 | `split("=")[1]` is the `=`-free text after the name and its `=`, cut at the next `=` |
| Cookies.Lookup | src/lib/auth.ts:141-150 | null exactly for a missing or empty header or when no trimmed segment starts with `name=` |
| Cookies.Find | src/lib/auth.ts:145-149 | null exactly when no segment starts with `name=` |
| Cookies.LookupFirst | src/lib/auth.ts:141-150 | a header whose first cookie is a plain `name=value` yields `value`, whatever cookies follow it |
| Cookies.LookupSkip | src/lib/auth.ts:144-145 | a leading cookie with another name is skipped |
| Cookies.SafePlainPair | src/lib/auth.ts:144-149 | text made of digits, lower-case letters, `.` and `-` never delimits or pads a cookie |
| Auth.CreateSignature | src/lib/auth.ts:58-74 | 64 lower-case hex digits, present exactly when the secret is configured, decoding to the HMAC of the data |
| Auth.CreateToken | src/lib/auth.ts:76-79 | a token is produced exactly when the secret is configured |
| Auth.CreateTokenFields | src/lib/auth.ts:76-79 | a token splits at its dot into the decimal time and that time's signature |
| Auth.VerifyToken | src/lib/auth.ts:81-101 | it fails only with the missing-secret fault and only when the secret is unset; with a secret every token gets `true` or `false`, and the lemmas below say which |
| Auth.VerifyCreatedToken | src/lib/auth.ts:76-101 | an issued token verifies exactly while it is at most seven days old |
| Auth.VerifyIgnoresTrailingFields | src/lib/auth.ts:82 | fields after a second dot are ignored |
| Auth.VerifyNeedsFields | src/lib/auth.ts:82-85 | a token with no second field, an empty second field or an empty first field is refused with `false` without consulting the secret |
| Auth.VerifyRefusesExpired | src/lib/auth.ts:93-95 | a token older than seven days is refused whatever its signature |
| Auth.VerifyTokenAccepts | src/lib/auth.ts:81-101 | with the secret configured, `stamp.signature` gives `true` exactly when the stamp parses, is not expired, and the signature is the HMAC of the stamp's own text, and `false` (never a fault) otherwise |
| Auth.ValidatePassword | src/lib/auth.ts:103-110 | an unset or empty `APP_PASSWORD` is exactly the thrown `MissingAppPassword`; otherwise the configured password is accepted and, below 2^30 characters, it alone |
| Auth.SessionAttributes | src/lib/auth.ts:116-122 | the session cookie lives exactly as long as the token (`maxAge` times 1000 is `TOKEN_EXPIRY`), is httpOnly, lax, for path `/`, and secure exactly in production |
| Auth.SetAuthCookie | src/lib/auth.ts:112-123 | with a secret, the session cookie is set with httpOnly, lax and 604800 s attributes, and the store then authenticates exactly while the token is unexpired; without one, the store is untouched |
| Auth.ClearAuthCookie | src/lib/auth.ts:125-128 | only the session cookie is removed, and the store no longer authenticates |
| Auth.IsAuthenticated | src/lib/auth.ts:130-139 | false without the cookie; otherwise the token check of its value |
| Auth.GetAuthToken | src/lib/auth.ts:141-150 | an extracted token never holds `=` |
| Auth.VerifyAuthToken | src/lib/auth.ts:152-155 | null and empty tokens are refused, and it fails only when the secret is unset |
| Auth.SessionCookieRoundTrip | src/lib/auth.ts:141-155 | a `Cookie` header carrying an issued token authenticates exactly while the token is unexpired |
| Auth.TokenIsCookieSafe | src/lib/auth.ts:76-79 | an issued token is plain cookie text with no `;`, `=` or white space |
| Csrf.GenerateRandomToken | src/lib/csrf.ts:43-49 | the token is the hex of the 32 random bytes: 64 lower-case hex digits that decode back to them |
| Csrf.SignToken | src/lib/csrf.ts:52-68 | the signed token exists exactly when the secret is configured |
| Csrf.SignTokenFields | src/lib/csrf.ts:52-68 | a signed `.`-free token splits at its one dot into the token and the hex HMAC of the token |
| Csrf.VerifySignedToken | src/lib/csrf.ts:71-95 | the only failure is the missing secret, and it arises only when the secret is unset, so a configured secret always gives a verdict |
| Csrf.VerifySignedNeedsFields | src/lib/csrf.ts:72-75 | text without a dot, with an empty second field or with an empty first field is refused without reading the secret |
| Csrf.VerifySignedTokenAccepts | src/lib/csrf.ts:71-91 | two non-empty fields `t.s` are accepted exactly when `s` decodes to the HMAC of `t`, and a missing secret throws |
| Csrf.VerifySignedIgnoresRest | src/lib/csrf.ts:72-75 | anything after a second dot is ignored, for every pair of dot-free first fields, empty ones included (so `.a.b` and `a..b` are refused as `.a` and `a.` are) |
| Csrf.VerifySignToken | src/lib/csrf.ts:52-95 | a token signed with the configured secret verifies |
| Csrf.VerifiedSignatureIsCanonical | src/lib/csrf.ts:71-95 | a token accepted with a canonical hex signature is exactly what `signToken` writes |
| Csrf.ValidateCsrfToken | src/lib/csrf.ts:121-136 | null, empty or differing header and cookie values are refused; the only failure is the missing secret, and only when it is unset |
| Csrf.ValidateCsrfTokenIff | src/lib/csrf.ts:121-136 | accepted exactly when header and cookie are equal, non-empty, and the signature verifies |
| Csrf.ValidateSignedToken | src/lib/csrf.ts:98-136 | a freshly signed token echoed in header and cookie passes |
| Csrf.CsrfAttributes | src/lib/csrf.ts:103-109 | the CSRF cookie lives 3600 seconds, is httpOnly, strict, for path `/`, and secure exactly in production |
| Csrf.GenerateCsrfToken | src/lib/csrf.ts:98-112 | with a secret, the result is `signToken` of the hex of the random bytes and only the `csrf-token` cookie is set to it, with strict and 3600 s attributes; the token passes validation and `getCsrfToken` then returns it; without one, nothing changes |
| Csrf.GetCsrfToken | src/lib/csrf.ts:115-118 | the cookie's value, null exactly when it is absent or empty |
| Csrf.GetCsrfTokenFromRequest | src/lib/csrf.ts:139-141 | the `x-csrf-token` header, null exactly when absent |
| Csrf.GetCsrfCookieFromRequest | src/lib/csrf.ts:144-155 | an extracted cookie value never holds `=` |
| Csrf.SignedTokenIsCookieSafe | src/lib/csrf.ts:52-68 | a signed token made of cookie-safe text is plain cookie text |
| Csrf.CookieCarriesSignedToken | src/lib/csrf.ts:144-155 | the `csrf-token` cookie a browser sends back yields the signed token unchanged |
| CsrfRoute.Get | src/app/api/auth/csrf/route.ts:4-20 | an existing cookie token is returned unchanged; otherwise, with a secret, the answer is the signed hex of the random bytes, stored in the cookie, and it passes validation; without one the answer is the 500 and nothing changes; every issued token is the stored one |
| Middleware.IsPublic | src/middleware.ts:5-11 | a path is public exactly when it starts with `/login`, `/api/auth/login` or `/api/auth/csrf` |
| Middleware.IsStaticAsset | src/middleware.ts:16-19 | a path counts as static exactly when it starts with `/_next` or contains a dot: the favicon test adds nothing |
| Middleware.Middleware | src/middleware.ts:7-34 | it fails only with the missing-secret fault and only when the secret is unset |
| Middleware.ForwardedWithoutCookie | src/middleware.ts:10-22 | public and static paths are forwarded whatever cookie comes with them |
| Middleware.RedirectIffUnauthenticated | src/middleware.ts:24-33 | any other path is redirected exactly when the session check fails; with the secret configured the answer is a forward or a redirect, never a fault |
| Middleware.SessionForwarded | src/middleware.ts:24-33 | a request with an unexpired issued session cookie is forwarded, whatever its path |
| Middleware.NoCookieRedirected | src/middleware.ts:24-31 | a protected path without any cookie is redirected |
| Middleware.LoginIsPublic | src/middleware.ts:5-13 | `/login`, the redirect target, is public, so a redirect never leads to another redirect |
| Middleware.PublicByPrefix | src/middleware.ts:11 | the public check is a prefix test, so `/login` followed by anything is public |
| Middleware.VideoUrlBypass | src/middleware.ts:16-22 | as written, `/api/videos/clip.mp4/url` is not public yet is forwarded without a cookie |
| Middleware.IsGuardedStaticAsset | src/middleware.ts:16-20 | the corrected static-file test: never true under `/api/`, and elsewhere exactly the as-written test |
| Middleware.GuardedMiddleware | src/middleware.ts:7-34 | the corrected gate: the only failure is the missing secret, and only when it is unset |
| Middleware.GuardedApiNeedsSession | src/middleware.ts:16-33 | with the correction, a non-public API path is forwarded exactly when the session is valid |
| Middleware.GuardedAgrees | src/middleware.ts:7-34 | the correction agrees with the original on all non-API paths and redirects the bypass request |
| LoginRoute.Header | src/app/api/auth/login/route.ts:12 | the header's value, null exactly when absent |
| LoginRoute.GetClientIp | src/app/api/auth/login/route.ts:10-25 | the trimmed first comma-separated hop of a non-empty `x-forwarded-for`; else a non-empty `x-real-ip`; else `unknown` |
| LoginRoute.ClientIpIsFirstHop | src/app/api/auth/login/route.ts:14 | with a proxy chain the client's own address is used |
| LoginRoute.Status | src/app/api/auth/login/route.ts:34-87 | 429, 403, 400, 401, 200 and 500 each belong to exactly one kind of answer |
| LoginRoute.CeilSeconds | src/app/api/auth/login/route.ts:40 | `Math.ceil(ms / 1000)`: the least whole number of seconds covering `ms` |
| LoginRoute.CsrfCheck | src/app/api/auth/login/route.ts:49-54 | the CSRF step passes exactly when the header is non-empty, the `csrf-token` cookie holds the same text and its signature verifies; the only failure is the missing secret, and only when it is unset, so a forged token with a configured secret answers 403 and never 500 |
| LoginRoute.PasswordStep | src/app/api/auth/login/route.ts:62-87 | an unreadable body answers 500, a missing or empty password 400, the configured password logs in when a secret is set, a login needs a secret and a non-empty password, and no answer here is 429 or 403 |
| LoginRoute.LoginResponse | src/app/api/auth/login/route.ts:27-87 | a throwing limiter answers 500; 429 exactly when rate limited; 403 exactly when the limit passes and the CSRF check fails; a login needs both checks and a secret |
| LoginRoute.Post | src/app/api/auth/login/route.ts:27-88 | the response is the decision over the four checks in source order; the session cookie is set exactly when the answer is a login, and the store is unchanged on every other answer |
| LoginRoute.RateLimitFirst | src/app/api/auth/login/route.ts:33-46 | a rate-limit denial answers 429 with the retry seconds and remaining count, before CSRF or body |
| LoginRoute.CsrfBeforeBody | src/app/api/auth/login/route.ts:55-60 | a failed CSRF check answers 403 whatever the body |
| LoginRoute.SignedTokenPassesCsrf | src/app/api/auth/login/route.ts:49-54 | a request echoing a token signed with the configured secret in header and cookie passes the CSRF step |
| LoginRoute.PasswordChecks | src/app/api/auth/login/route.ts:62-77 | a missing, empty or non-string password answers 400 and a wrong one 401 |
| LoginRoute.FaultsAnswer500 | src/app/api/auth/login/route.ts:82-87 | a failing rate limiter, a missing secret, a body that does not destructure and a missing password setting all answer 500 |
| LoginRoute.LoggedInIff | src/app/api/auth/login/route.ts:27-81 | the answer is a login exactly when the client is not rate limited, the CSRF check passes, the body's password is the configured one and the secret is configured |
| LoginRoute.AllChecksPass | src/app/api/auth/login/route.ts:72-81 | the configured password logs in once the earlier checks have passed |
| LoginRoute.LoginRoundTrip | src/app/api/auth/login/route.ts:27-81 | a client that is not rate limited, echoes a signed CSRF token and sends the right password is logged in |
| Videos.LowerChar | src/lib/s3.ts:36 | A-Z lower-cased, other characters except the Kelvin sign kept |
| Videos.LowerCase | src/lib/s3.ts:36 | the lower case of a key, character by character |
| Videos.HasVideoExtension | src/lib/s3.ts:37-43 | a lower-cased key passes exactly when it ends with `.mp4`, `.webm`, `.mov`, `.avi` or `.mkv` |
| Videos.IsVideo | src/lib/s3.ts:36-50 | a kept object has a key of at least four characters, so the empty-key fallbacks of the `map` step never apply to it |
| Videos.LowerCaseConcat | src/lib/s3.ts:36 | lower-casing works character by character, so it distributes over concatenation |
| Videos.UpperCaseKept | src/lib/s3.ts:36-43 | a key ending in any of the five extensions, written in any case, is kept, whatever precedes the extension and whatever the other fields hold |
| Videos.OthersDropped | src/lib/s3.ts:36-43 | an object without a key is dropped, and so is every key whose lower-cased last character is not one the five extensions end in |
| Videos.LastPiece | src/lib/s3.ts:66 | `split("/").pop()` is a `/`-free suffix of the key, preceded by a `/` whenever it is shorter than the key |
| Videos.FileName | src/lib/s3.ts:66 | the file name is empty only for the empty key and is always a suffix of the key |
| Videos.FileNameIsLastSegment | src/lib/s3.ts:66 | the whole key when it has no `/` or ends with one, else the non-empty `/`-free text after its last `/` |
| Videos.ToVideo | src/lib/s3.ts:45-50 | the key, its file name, the size or 0, and the time or the current time |
| Videos.KeepVideos | src/lib/s3.ts:34-44 | every kept entry is a video, and there are no more of them than listed |
| Videos.KeepVideosConcat | src/lib/s3.ts:34-44 | the filter keeps listing order and multiplicity: filtering a concatenation filters each part |
| Videos.KeepVideosIff | src/lib/s3.ts:34-44 | an entry is kept exactly when it is listed and its lower-cased key has a video extension |
| Videos.ToVideos | src/lib/s3.ts:45-50 | one video per kept entry, in order |
| Videos.Insert | src/lib/s3.ts:51 | inserting adds exactly the one entry |
| Videos.SortByNewest | src/lib/s3.ts:51 | the sort is a permutation |
| Videos.InsertNewestFirst | src/lib/s3.ts:51 | inserting into a newest-first list keeps it newest first |
| Videos.SortNewestFirst | src/lib/s3.ts:51 | the sorted list has non-increasing `lastModified` |
| Videos.InsertStamped | src/lib/s3.ts:51 | an inserted entry precedes every entry with the same time stamp |
| Videos.SortStable | src/lib/s3.ts:51 | entries with equal time stamps keep their listing order |
| Videos.StableSortUnique | src/lib/s3.ts:51 | two newest-first lists with the same entries per time stamp are equal, so the stable sort's result is fully determined |
| Videos.ListVideos | src/lib/s3.ts:34-51 | the result is newest first, a permutation of the mapped video entries, and no longer than the listing |
| Videos.ListVideosCorrect | src/lib/s3.ts:34-51 | the result is newest first, stable, a permutation of the mapped video entries, has at most as many entries as the listing, and each of its entries comes from a listed video |

## Left out

- The cryptography itself. HMAC-SHA256 is an uninterpreted function of key and message bytes with a 32-byte result. `crypto.subtle.verify` is equality with the recomputed MAC. `crypto.getRandomValues` is the input `random`.
- Asynchrony. Every `await` is a plain call, and no two requests interleave.
- `Date.now()` is the input `now`. `LoginRoute.Post` uses one `now` both for the retry delay and for the session's issue time; the code reads the clock twice. Likewise `Videos.ToVideos` gives every listed object without `LastModified` the same `now`, where src/lib/s3.ts:49 calls `new Date()` once per such object.
- Strings are sequences of Unicode scalar values. JavaScript's UTF-16 code units, lone surrogates and `TextEncoder`'s replacement of them are not represented.
- Numbers are exact integers. `parseInt`'s floating-point rounding beyond 2^53 and its `-0` are not modelled, and neither are invalid `Date`s, whose time is `NaN`.
- The rate limiter (src/lib/rate-limit.ts) is not part of this model. It is the input `limiter`, and a throw is `None`.
- The JSON body is the input `body`. A body that is not JSON, or JSON `null`, is a throw. Any other non-object yields no `password` string.
- Response bodies, messages and headers other than `Retry-After` and `X-RateLimit-Remaining` are left out. So are the redirect URL's construction from `request.url` and the cookie wire format of `Set-Cookie`.
- Header names are compared as given. The map is keyed by the lower-case names the code asks for, and `Headers.get`'s case folding is not modelled.
- The `config.matcher` of src/middleware.ts is left out. Next.js applies it before the middleware runs, and the model takes the middleware as called.
- `getVideoStreamUrl`, the signing half of `getVideoDownloadUrl`, and the `ListObjectsV2` call in src/lib/s3.ts are SDK calls. Pagination is not modelled: one listing is the input `listing`.
- `formatFileSize` (src/lib/s3.ts:79-87) is floating point and is left out. So are the UI components and the video routes, which only map over it.
- Videos.LowerChar: only ASCII letters and the Kelvin sign are lower-cased. Those are the only characters whose lower case can complete one of the five extensions, so the kept/dropped decision is exact, but the lowered text is not full `toLowerCase`.
- Comparator.TimingSafeEqual: its equivalence with string equality is stated only below 2^32 bytes, where JavaScript's 32-bit `^` of the lengths cannot wrap. `Comparator.Difference` states the as-written result at every length.
- Comparator.SafeEqual: equality is stated below 2^32 bytes of encoding, for the same reason.
- Auth.VerifyTokenAccepts: stated for signatures shorter than 2^30 characters, so that their UTF-8 encoding stays below the 2^32 bytes the comparator's iff needs.
- Auth.ValidatePassword: the "only the configured password" half is stated for passwords shorter than 2^30 characters, for the same reason.
- LoginRoute.LoggedInIff: stated for passwords shorter than 2^30 characters, for the same reason.
- LoginRoute.PasswordChecks: stated for passwords shorter than 2^30 characters, for the same reason.
- Csrf.VerifySignedToken: the `catch` around `crypto.subtle.verify` is not modelled. Verifying with the decoded bytes cannot throw in the model, which treats a signature of the wrong length as a mismatch.

## Findings

| source | as written | input that shows it | evidently intended | confidence | as-written member | corrected member |
|---|---|---|---|---|---|---|
| src/middleware.ts:19 | any path containing a `.` is treated as a static asset and forwarded without a session check | `GET /api/videos/clip.mp4/url` with no cookie is forwarded; that route (src/app/api/videos/[key]/url/route.ts) only accepts keys ending in a video extension, so every request it serves has a dot and none needs a session | the static-file exemption should not cover API routes, so a pre-signed video URL needs a valid session | high; not executed | Middleware.VideoUrlBypass | Middleware.GuardedMiddleware |
