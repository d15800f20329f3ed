/** `detectBrotliError`: classifying the `Location` of a redirect answer
    and, for one exact message from the active server, turning Brotli off
    for good. */
module ErrorRedirect {
  import opened Wrappers
  import opened Http
  import opened Preferences
  import PercentCodec

  const ErrorPrefix := "/error/"
  /** The message a server sends when it cannot read a Brotli body. */
  const BrotliUnsupported := "unsupported content encoding \"br\""

  /** A structured server error (its decoded message) or any other redirect
      (its raw location). */
  datatype Redirect = ServerError(message: string) | OpaqueRedirect(location: string) {
    /** The string `detectBrotliError` returns. */
    function Text(): string {
      match this
      case ServerError(m) => m
      case OpaqueRedirect(l) => l
    }
  }

  predicate HasLocation(c: Conn) {
    HeaderField(c, "Location").Some?
  }

  function Location(c: Conn): string
    requires HasLocation(c)
  {
    HeaderField(c, "Location").value
  }

  /** `startsWith("/error/")`. */
  predicate IsErrorPath(loc: string) {
    |ErrorPrefix| <= |loc| && loc[..|ErrorPrefix|] == ErrorPrefix
  }

  /** The redirect says the active server could not read a Brotli body. */
  predicate RejectsBrotli(activeHost: Option<string>, c: Conn)
    requires HasLocation(c)
  {
    var loc := Location(c);
    && IsErrorPath(loc)
    && activeHost == Some(c.host)
    && PercentCodec.Decode(loc[|ErrorPrefix|..]) == BrotliUnsupported
  }

  /** `detectBrotliError(conn)`, given the host of `app.activeUrl` (absent
      when that URI has none). An error path yields its decoded message, any
      other location comes back raw; only a Brotli rejection from the active
      host touches the preferences, and then only to store `false`. */
  function DetectBrotliError(p: Prefs, activeHost: Option<string>, c: Conn): (r: (Redirect, Prefs))
    requires HasLocation(c)
    ensures IsErrorPath(Location(c)) <==> r.0.ServerError?
    ensures r.0.OpaqueRedirect? ==> r.0.location == Location(c) && r.1 == p
    ensures r.0.ServerError? ==> r.0.message == PercentCodec.Decode(Location(c)[|ErrorPrefix|..])
    ensures r.0.ServerError? ==> |r.0.message| <= |Location(c)| - |ErrorPrefix|
    ensures r.0.ServerError? && '%' !in Location(c) ==> r.0.message == Location(c)[|ErrorPrefix|..]
    ensures r.1.brotli == (if RejectsBrotli(activeHost, c) then Some(false) else p.brotli)
    ensures r.1.cookie == p.cookie
    ensures UseBrotli(r.1) ==> UseBrotli(p)
  {
    var loc := Location(c);
    if IsErrorPath(loc) then
      var message := PercentCodec.Decode(loc[|ErrorPrefix|..]);
      var p' := if Some(c.host) == activeHost && message == BrotliUnsupported
                then p.(brotli := Some(false)) else p;
      (ServerError(message), p')
    else
      (OpaqueRedirect(loc), p)
  }

  /** A server that percent-encodes its message behind `/error/` gets that
      very message reported back. */
  lemma ServerMessageRoundTrip(p: Prefs, activeHost: Option<string>, c: Conn, message: string)
    requires HasLocation(c) && Location(c) == ErrorPrefix + PercentCodec.Encode(message)
    ensures DetectBrotliError(p, activeHost, c).0 == ServerError(message)
  {
    var loc := Location(c);
    assert loc[..|ErrorPrefix|] == ErrorPrefix;
    assert loc[|ErrorPrefix|..] == PercentCodec.Encode(message);
    PercentCodec.DecodeEncode(message);
  }

  /** For an encoded message from `/error/`: Brotli goes off exactly when the
      message is the rejection and the redirect came from the active host;
      otherwise the preferences stay as they were. */
  lemma EncodedRejectionDowngrades(p: Prefs, activeHost: Option<string>, c: Conn, message: string)
    requires HasLocation(c) && Location(c) == ErrorPrefix + PercentCodec.Encode(message)
    ensures message == BrotliUnsupported && activeHost == Some(c.host) ==>
              DetectBrotliError(p, activeHost, c).1 == p.(brotli := Some(false))
    ensures message != BrotliUnsupported || activeHost != Some(c.host) ==>
              DetectBrotliError(p, activeHost, c).1 == p
  {
    ServerMessageRoundTrip(p, activeHost, c, message);
  }

  /** Handling the same redirect twice leaves what handling it once left. */
  lemma DetectIdempotent(p: Prefs, activeHost: Option<string>, c: Conn)
    requires HasLocation(c)
    ensures var once := DetectBrotliError(p, activeHost, c).1;
            DetectBrotliError(once, activeHost, c) == DetectBrotliError(p, activeHost, c)
  {
  }

  /** The preferences after a run of redirects has been examined in order. */
  function Replay(p: Prefs, activeHost: Option<string>, redirects: seq<Conn>): (r: Prefs)
    requires forall i :: 0 <= i < |redirects| ==> HasLocation(redirects[i])
    ensures r.cookie == p.cookie
    ensures UseBrotli(r) ==> UseBrotli(p)
    decreases |redirects|
  {
    if |redirects| == 0 then p
    else Replay(DetectBrotliError(p, activeHost, redirects[0]).1, activeHost, redirects[1..])
  }

  /** Once Brotli is off it stays off: every later request, whatever
      redirects came in between, goes out as Deflate. */
  lemma {:induction false} DowngradeIsPermanent(p: Prefs, activeHost: Option<string>, redirects: seq<Conn>)
    requires forall i :: 0 <= i < |redirects| ==> HasLocation(redirects[i])
    requires !UseBrotli(p)
    ensures Replay(p, activeHost, redirects).brotli == Some(false)
    ensures ContentEncoding(Replay(p, activeHost, redirects)) == "deflate"
  {
    if |redirects| > 0 {
      var next := DetectBrotliError(p, activeHost, redirects[0]).1;
      DowngradeIsPermanent(next, activeHost, redirects[1..]);
    }
  }
}
