/** Choice between the platform `HttpEngine` and the baseline
    `URL.openConnection`, and opening a connection through it. */
module Transport {
  import opened Wrappers
  import opened Http

  /** `Build.VERSION_CODES.S`. */
  const SdkS := 31
  /** The first SDK level that ships `HttpEngine` without an extension. */
  const SdkNative := 34
  /** The S-extension version from which `HttpEngine` is backported. */
  const MinSExtension := 7

  /** What the device reports: `Build.VERSION.SDK_INT` and
      `SdkExtensions.getExtensionVersion(S)`. The extension version is
      consulted only when the SDK level is at least S. */
  datatype Platform = Platform(sdk: int, sExtension: int)

  /** `isCronet`: whether `HttpEngine` may be used, told band by band:
      never below S, from S on exactly when the extension has reached
      version 7, always from the native level on. */
  function IsCronet(p: Platform): (r: bool)
    ensures p.sdk < SdkS ==> !r
    ensures SdkS <= p.sdk < SdkNative ==> (r <==> p.sExtension >= MinSExtension)
    ensures p.sdk >= SdkNative ==> r
  {
    p.sdk >= SdkNative || (p.sdk >= SdkS && p.sExtension >= MinSExtension)
  }

  /** A newer SDK or a newer extension never loses `HttpEngine`. */
  lemma IsCronetMonotone(p: Platform, q: Platform)
    requires p.sdk <= q.sdk && p.sExtension <= q.sExtension
    ensures IsCronet(p) ==> IsCronet(q)
  {
  }

  /** What `java.net.URL(url)` makes of the text: not a URL at all, or a URL
      with its (lower-cased) protocol and host. URL parsing itself is the
      library's and is an input here. */
  datatype ParsedUrl = Malformed | Parsed(protocol: string, host: string)

  /** Why `openConnection` throws: `MalformedURLException` from `URL(url)`,
      or `ClassCastException` from `as HttpURLConnection` when the protocol
      is not served by an HTTP connection. */
  datatype OpenError = MalformedUrl | NotHttp

  predicate IsHttpProtocol(protocol: string) {
    protocol == "http" || protocol == "https"
  }

  /** `openConnection(url)`: a fresh connection for an HTTP(S) URL, through
      `HttpEngine` exactly when `isCronet` holds; an exception for text that
      is no URL or names another protocol. */
  function OpenConnection(p: Platform, url: string, parsed: ParsedUrl): (r: Result<Conn, OpenError>)
    ensures r.Ok? <==> parsed.Parsed? && IsHttpProtocol(parsed.protocol)
    ensures parsed.Malformed? ==> r == Err(MalformedUrl)
    ensures parsed.Parsed? && !IsHttpProtocol(parsed.protocol) ==> r == Err(NotHttp)
    ensures r.Ok? ==> (r.value.backend == HttpEngineBackend <==> IsCronet(p))
    ensures r.Ok? ==> r.value.url == url && r.value.host == parsed.host && Fresh(r.value)
  {
    match parsed
    case Malformed => Err(MalformedUrl)
    case Parsed(protocol, host) =>
      if !IsHttpProtocol(protocol) then Err(NotHttp)
      else Ok(Conn(if IsCronet(p) then HttpEngineBackend else UrlConnectionBackend,
                   url, host, map[], false, true, None, [], map[]))
  }

  /** The platform decides only the backend: whether a URL opens, and the
      connection it opens apart from its backend, are the same on every
      platform. */
  lemma OpenIndependentOfPlatform(p: Platform, q: Platform, url: string, parsed: ParsedUrl)
    ensures OpenConnection(p, url, parsed).Ok? == OpenConnection(q, url, parsed).Ok?
    ensures OpenConnection(p, url, parsed).Err? ==> OpenConnection(p, url, parsed) == OpenConnection(q, url, parsed)
    ensures OpenConnection(p, url, parsed).Ok? ==>
              OpenConnection(p, url, parsed).value.(backend := UrlConnectionBackend)
              == OpenConnection(q, url, parsed).value.(backend := UrlConnectionBackend)
  {
  }
}
