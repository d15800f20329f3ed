# ReactMap HTTP engine — a verified model of its decision rules

`ReactMapHttpEngine` is the object through which the ReactMap Android app
talks to its server. Most of it is platform and coroutine plumbing. This
project models the four decision rules at its centre:

- **Transport choice** (`isCronet`, `openConnection`). The platform
  `HttpEngine` is used from SDK 34, or from SDK 31 (S) when the S extension
  is at version 7 or later. Otherwise the baseline `URL.openConnection` is used.
- **Compressed request bodies** (`writeCompressed`). The stored `http.brotli`
  preference is true unless it was stored as false. It picks
  `Content-Encoding: br` (Brotli, text mode, quality 5) or `deflate`
  (best compression). The body is compressed into an in-memory buffer. The
  connection is set to fixed-length streaming with the buffered byte count,
  and exactly those bytes are written.
- **Error redirects** (`detectBrotliError`). A `Location` starting with
  `/error/` yields the percent-decoded rest as a server error message. Any
  other location is returned raw. One case turns Brotli off for good: the
  message `unsupported content encoding "br"` from the active server's host.
- **Cookie source** (`connectWithCookie`, `updateCookie`). While the user is
  unlocked, a request reads and writes the shared `CookieManager` store.
  While locked, it attaches the one fallback cookie kept in preferences.
  `updateCookie` copies the shared store's cookie for the API URL into that
  fallback slot and flushes.

Modules, one per concern:

- `Wrappers`: `Option` and `Result`.
- `Http`: the slice of `HttpURLConnection` that is used, including a
  fixed-length output stream that refuses surplus bytes and a short close.
- `Transport`: `isCronet` and `openConnection`.
- `Preferences`: the two preference entries.
- `PercentCodec`: percent-decoding in the sense of section 2.1 of RFC 3986,
  plus a reference encoder.
- `Compression`: `writeCompressed` and its byte buffer.
- `ErrorRedirect`: `detectBrotliError`.
- `Cookies`: the cookie rules, as an event trace over an immutable state.

Some pieces are parameters rather than modelled code:

- the UTF-8 encoder and the Brotli/Deflate encoders (the `Codecs` record);
- `CookieManager`'s rule for folding a `Set-Cookie` line into a stored
  cookie (`Merge`);
- the caller's `setup` callback (`Conn -> SetupOutcome`);
- the hosts of the connection URL and of `app.activeUrl`;
- the API URL.

Three behaviours of the code are easy to misread:

- `detectBrotliError` reads the `Location` header without a null check, so a
  response without one throws. Presence is therefore a precondition of
  `DetectBrotliError`.
- While the user is locked, `connectWithCookie` only reads the fallback
  cookie. It writes the response's `Set-Cookie` values nowhere. Only
  `updateCookie` writes the fallback.
- On cancellation, `connectCancellable` can call `disconnect` twice: once
  in the worker's `finally` and once in the cancellation handler. That
  function is left out.

The caller's `setup` is a pure function from the connection to its outcome.
So what the contracts say about the stores after `connectWithCookie` covers
that function's own effects, not anything the caller's callback may do.

## Model

| member | source | states |
|---|---|---|
| Transport.IsCronet | app/src/main/java/be/mygod/reactmap/webkit/ReactMapHttpEngine.kt:34-35 | HttpEngine is never chosen below SDK 31 whatever the extension reports. Between 31 and 33 it is chosen exactly when the S extension is at least 7. From 34 it is always chosen. |
| Transport.IsCronetMonotone | app/src/main/java/be/mygod/reactmap/webkit/ReactMapHttpEngine.kt:34-35 | A higher SDK level or extension version never turns HttpEngine off. |
| Transport.OpenConnection | app/src/main/java/be/mygod/reactmap/webkit/ReactMapHttpEngine.kt:57-59 | Opening succeeds exactly for a well-formed http or https URL. Text that is no URL fails as malformed, and another protocol fails the cast to an HTTP connection. An opened connection goes through HttpEngine exactly when isCronet holds. It is fresh: no headers, nothing sent, redirects followed. |
| Transport.OpenIndependentOfPlatform | app/src/main/java/be/mygod/reactmap/webkit/ReactMapHttpEngine.kt:57-59 | Whether a URL opens, and the connection apart from its backend, are the same on every platform; the platform only picks the backend. |
| Http.SetRequestProperty | app/src/main/java/be/mygod/reactmap/webkit/ReactMapHttpEngine.kt:104 | The named header then holds the one given value. Every other header and field is unchanged. |
| Http.AddRequestProperty | app/src/main/java/be/mygod/reactmap/webkit/ReactMapHttpEngine.kt:82 | The value is appended after the header's existing values. Nothing else changes. |
| Http.HeaderField | app/src/main/java/be/mygod/reactmap/webkit/ReactMapHttpEngine.kt:123 | A response header is present exactly when it has a value. The value returned is the last of that header's values. |
| Http.WriteByte | app/src/main/java/be/mygod/reactmap/webkit/ReactMapHttpEngine.kt:119 | A one-byte write succeeds exactly when the declared fixed length has room for it, and then appends that byte to what was sent. |
| Http.WriteRange | app/src/main/java/be/mygod/reactmap/webkit/ReactMapHttpEngine.kt:119 | Writing `buf[off..off+len)` succeeds exactly when the declared fixed length has room for len bytes (or nothing is written). On success, exactly those bytes are appended to what was sent. |
| Http.CloseOutput | app/src/main/java/be/mygod/reactmap/webkit/ReactMapHttpEngine.kt:119 | Closing fails exactly when fewer bytes were sent than the declared fixed length. |
| Preferences.ContentEncoding | app/src/main/java/be/mygod/reactmap/webkit/ReactMapHttpEngine.kt:103-107 | The header is "br" exactly when the Brotli flag is not stored as false, so an absent flag counts as true. It is "deflate" exactly when the flag is stored as false. |
| Compression.EncoderFor | app/src/main/java/be/mygod/reactmap/webkit/ReactMapHttpEngine.kt:113-116 | A Brotli encoder is used exactly when the header says "br", and Deflate exactly when it says "deflate". |
| Compression.NewBuffer | app/src/main/java/be/mygod/reactmap/webkit/ReactMapHttpEngine.kt:111 | A new byte buffer has nothing written (its backing array has the default capacity of 32). |
| Compression.Append | app/src/main/java/be/mygod/reactmap/webkit/ReactMapHttpEngine.kt:97-100 | After a write, the buffer's written part is the old part followed by the new bytes. The backing array never shrinks and may carry slack past the count. |
| Compression.Fill | app/src/main/java/be/mygod/reactmap/webkit/ReactMapHttpEngine.kt:111-116 | After the encoder stream has written all its chunks, the buffer's written part is their concatenation. |
| Compression.WriteCompressed | app/src/main/java/be/mygod/reactmap/webkit/ReactMapHttpEngine.kt:102-119 | Content-Encoding matches the preference and other headers are unchanged. doOutput is on and redirects are not followed. The declared fixed length, replacing any earlier one, equals the compressed size. Exactly the compressed bytes are sent, never the buffer's slack. The fixed-length stream refuses neither the write nor the close. |
| PercentCodec.Decode | app/src/main/java/be/mygod/reactmap/webkit/ReactMapHttpEngine.kt:124 | The decoded text is never longer than its input. Text without '%' decodes to itself. |
| PercentCodec.DecodeEncode | app/src/main/java/be/mygod/reactmap/webkit/ReactMapHttpEngine.kt:124 | Decoding undoes the reference percent-encoder for every text. |
| ErrorRedirect.DetectBrotliError | app/src/main/java/be/mygod/reactmap/webkit/ReactMapHttpEngine.kt:122-129 | A location is reported as a server error exactly when it starts with "/error/", and the message is the decoding of the location with its first 7 characters dropped; any other location comes back raw with the preferences untouched. The flag becomes false exactly on a Brotli rejection from the active host and is unchanged otherwise. The fallback cookie is never touched, and Brotli is never switched on. |
| ErrorRedirect.ServerMessageRoundTrip | app/src/main/java/be/mygod/reactmap/webkit/ReactMapHttpEngine.kt:124 | For a location "/error/" followed by a percent-encoded message, exactly that message is reported. |
| ErrorRedirect.EncodedRejectionDowngrades | app/src/main/java/be/mygod/reactmap/webkit/ReactMapHttpEngine.kt:125 | For a percent-encoded message behind "/error/", the preferences become "Brotli off" exactly when the message is the Brotli rejection and the redirect came from the active host. In every other case (another message, another host, no active host) they are unchanged. |
| ErrorRedirect.DetectIdempotent | app/src/main/java/be/mygod/reactmap/webkit/ReactMapHttpEngine.kt:125 | Handling the same redirect a second time changes nothing further. |
| ErrorRedirect.Replay | app/src/main/java/be/mygod/reactmap/webkit/ReactMapHttpEngine.kt:122-129 | Over any run of redirects, the fallback cookie is kept and Brotli is never switched back on. |
| ErrorRedirect.DowngradeIsPermanent | app/src/main/java/be/mygod/reactmap/webkit/ReactMapHttpEngine.kt:103-125 | Once Brotli is off, it stays stored as false after any run of redirects, and every later request goes out as "deflate". |
| Cookies.GetCookie | app/src/main/java/be/mygod/reactmap/webkit/ReactMapHttpEngine.kt:82 | The shared store has a cookie for a URL exactly when one was stored for it. |
| Cookies.SetCookie | app/src/main/java/be/mygod/reactmap/webkit/ReactMapHttpEngine.kt:84 | Setting a line for a URL changes that URL's cookie to the merge of the old cookie and the line. Every other URL's cookie is unchanged. |
| Cookies.Attach | app/src/main/java/be/mygod/reactmap/webkit/ReactMapHttpEngine.kt:80-86 | The mode's cookie is appended as a Cookie header when present, and the connection is unchanged otherwise. Unlocked reads touch only the shared store, locked reads only the fallback. Nothing is written. |
| Cookies.HarvestOnlyTouchesUrl | app/src/main/java/be/mygod/reactmap/webkit/ReactMapHttpEngine.kt:84 | Writing back Set-Cookie lines for a URL leaves every other URL's cookie as it was. |
| Cookies.Harvest | app/src/main/java/be/mygod/reactmap/webkit/ReactMapHttpEngine.kt:84 | Every Set-Cookie value is written back for the URL, one event each, in response order. The store ends as the in-order fold of those values. |
| Cookies.Exchange | app/src/main/java/be/mygod/reactmap/webkit/ReactMapHttpEngine.kt:80-88 | Once the connection is open, setup runs exactly once, on the connection carrying the attached cookie. Attach comes before setup and every write-back after it. Unlocked: only the shared store is used and it ends as the harvest of the response. Locked: only the fallback is read and no state changes. A throwing setup returns its exception and changes no state. |
| Cookies.ConnectWithCookie | app/src/main/java/be/mygod/reactmap/webkit/ReactMapHttpEngine.kt:79-89 | When the connection cannot be opened, the exception propagates with an empty trace: no store is read and setup never runs. Otherwise setup runs exactly once and the request behaves as Exchange states. Attach always comes before setup and every write-back after it, and the two stores are never mixed. |
| Cookies.UpdateCookie | app/src/main/java/be/mygod/reactmap/webkit/ReactMapHttpEngine.kt:91-95 | The fallback becomes the shared store's cookie for the API URL, or is removed when there is none. This is followed by a flush, and nothing else changes. |
| Cookies.LockedRequestCarriesSavedCookie | app/src/main/java/be/mygod/reactmap/webkit/ReactMapHttpEngine.kt:85-95 | After updateCookie, a request made while locked carries exactly the shared store's cookie for the API URL, whatever URL the request targets. When the store held none, the request carries no new cookie, because the old fallback was removed. |

## Left out

- `connectCancellable` (lines 60-77): coroutine launch, cancellation and disconnect on both paths are concurrency with no sequential rule to state.
- The `HttpEngine` builder (lines 37-50): cache directory creation, the 512 MiB disk cache, connection migration and Brotli support are platform configuration and file-system effects.
- `apiUrl` (lines 52-55): built with Android's `Uri.buildUpon().path("/graphql")`. Callers pass the resulting string in.
- The Brotli and Deflate encoders, the native library load (`initBrotli`) and `String.toByteArray`: library code, passed in as functions. No codec round trip is claimed.
- PercentCodec.Decode: `Uri.decode` turns escaped UTF-8 byte sequences into one character and replaces malformed escapes. This decoder maps each well-formed `%XY` to the single character with that code and keeps malformed escapes literally. The two agree whenever every escape is well-formed and below `%80`, which covers every input either decoder maps to the Brotli rejection.
- Transport.OpenConnection: parsing by `java.net.URL` is an input (`ParsedUrl`), and every non-HTTP protocol is taken to fail the `as HttpURLConnection` cast.
- Compression.WriteCompressed: the I/O failures of the real connection are not modelled. Obtaining `outputStream` connects, and the write or close can throw `IOException`. The contract promises only that the fixed-length stream itself refuses neither the write nor the close.
- Cookies.HarvestOnlyTouchesUrl: the isolation holds only for the exact-URL store of this model. `CookieManager` scopes cookies by domain and path, so a `Path=/` cookie harvested from `https://h/graphql` is also returned for `https://h/`.
- Cookies.SetCookie: `CookieManager`'s cookie parsing, domain/path matching and expiry are not modelled. The store is keyed by the exact URL, and merging is a parameter.
- Header names are compared exactly, whereas HTTP treats them case-insensitively.
- `Timber` logging of opaque redirects and `SharedPreferences`/`CookieManager` persistence (`flush` is recorded only as an event).
- The lazy, once-only evaluation of `engine` and the call to `SdkExtensions.getExtensionVersion` only when the SDK is at least S. The extension version is taken as a plain input.
