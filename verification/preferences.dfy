/** The two entries of the app's `SharedPreferences` this engine uses. */
module Preferences {
  import opened Wrappers

  /** `http.brotli` (absent until first downgraded) and `cookie.graphql`
      (the fallback cookie used while the user is locked). */
  datatype Prefs = Prefs(brotli: Option<bool>, cookie: Option<string>)

  /** `getBoolean("http.brotli", true)`: Brotli unless stored as false. */
  predicate UseBrotli(p: Prefs) {
    p.brotli.GetOr(true)
  }

  /** The `Content-Encoding` value a request is sent with. */
  function ContentEncoding(p: Prefs): (r: string)
    ensures r == "br" <==> p.brotli != Some(false)
    ensures r == "deflate" <==> p.brotli == Some(false)
  {
    if UseBrotli(p) then "br" else "deflate"
  }
}
