/** The slice of `java.net.HttpURLConnection` that the engine touches:
    request headers, the output/redirect switches, fixed-length streaming
    and the response headers that the caller's exchange produced. */
module Http {
  import opened Wrappers

  type Byte = b: int | 0 <= b < 256

  /** Header table: each header name maps to its values in the order added. */
  type Headers = map<string, seq<string>>

  /** Which backend opened the connection. */
  datatype Backend = HttpEngineBackend | UrlConnectionBackend

  datatype Conn = Conn(
    backend: Backend,
    url: string,
    /** The host part of `url`, as `java.net.URL.getHost` reports it. */
    host: string,
    requestHeaders: Headers,
    doOutput: bool,
    followRedirects: bool,
    /** The length given to `setFixedLengthStreamingMode`, if any. */
    fixedLength: Option<nat>,
    /** Every byte handed to the connection's output stream so far. */
    sent: seq<Byte>,
    responseHeaders: Headers)

  /** A connection as `URL.openConnection` returns it: nothing configured,
      nothing sent, no response yet, redirects followed by default. */
  predicate Fresh(c: Conn) {
    && c.requestHeaders == map[]
    && !c.doOutput
    && c.followRedirects
    && c.fixedLength.None?
    && c.sent == []
    && c.responseHeaders == map[]
  }

  function Values(h: Headers, name: string): seq<string> {
    if name in h then h[name] else []
  }

  /** `setRequestProperty`: the header now holds `value` alone. */
  function SetRequestProperty(c: Conn, name: string, value: string): (r: Conn)
    ensures Values(r.requestHeaders, name) == [value]
    ensures forall k :: k != name ==> Values(r.requestHeaders, k) == Values(c.requestHeaders, k)
    ensures r.(requestHeaders := c.requestHeaders) == c
  {
    c.(requestHeaders := c.requestHeaders[name := [value]])
  }

  /** `addRequestProperty`: `value` is appended after the header's existing values. */
  function AddRequestProperty(c: Conn, name: string, value: string): (r: Conn)
    ensures Values(r.requestHeaders, name) == Values(c.requestHeaders, name) + [value]
    ensures forall k :: k != name ==> Values(r.requestHeaders, k) == Values(c.requestHeaders, k)
    ensures r.(requestHeaders := c.requestHeaders) == c
  {
    c.(requestHeaders := c.requestHeaders[name := Values(c.requestHeaders, name) + [value]])
  }

  /** `getHeaderField(name)`: the last value of a response header, or absent. */
  function HeaderField(c: Conn, name: string): (r: Option<string>)
    ensures r.Some? <==> |Values(c.responseHeaders, name)| > 0
    ensures r.Some? ==> r.value == Values(c.responseHeaders, name)[|Values(c.responseHeaders, name)| - 1]
  {
    var vs := Values(c.responseHeaders, name);
    if |vs| == 0 then None else Some(vs[|vs| - 1])
  }

  /** How a fixed-length output stream refuses a body of the wrong size. */
  datatype StreamError = ExcessBytes | MissingBytes

  /** Whether `n` more bytes fit in what was declared to `setFixedLengthStreamingMode`. */
  predicate Room(c: Conn, n: nat) {
    c.fixedLength.None? || |c.sent| + n <= c.fixedLength.value
  }

  /** Writing one byte to the output stream; a fixed-length stream refuses
      a byte beyond the declared length. */
  function WriteByte(c: Conn, b: Byte): (r: Result<Conn, StreamError>)
    ensures r.Ok? <==> Room(c, 1)
    ensures r.Ok? ==> r.value == c.(sent := c.sent + [b])
  {
    if Room(c, 1) then Ok(c.(sent := c.sent + [b])) else Err(ExcessBytes)
  }

  /** `OutputStream.write(buf, off, len)`: the bytes `buf[off..off+len)` in
      order, one at a time. */
  method WriteRange(c: Conn, buf: seq<Byte>, off: nat, len: nat) returns (r: Result<Conn, StreamError>)
    requires off + len <= |buf|
    ensures r.Ok? <==> (len == 0 || Room(c, len))
    ensures r.Ok? ==> r.value == c.(sent := c.sent + buf[off..off + len])
  {
    var cur := c;
    var i := 0;
    while i < len
      invariant 0 <= i <= len
      invariant i > 0 ==> Room(c, i)
      invariant cur == c.(sent := c.sent + buf[off..off + i])
    {
      var w := WriteByte(cur, buf[off + i]);
      if w.Err? {
        return Err(ExcessBytes);
      }
      assert buf[off..off + i + 1] == buf[off..off + i] + [buf[off + i]];
      cur := w.value;
      i := i + 1;
    }
    r := Ok(cur);
  }

  /** Closing the output stream; a fixed-length stream refuses to close
      short of the declared length. */
  function CloseOutput(c: Conn): (r: Result<Conn, StreamError>)
    ensures r.Ok? <==> (c.fixedLength.None? || |c.sent| >= c.fixedLength.value)
    ensures r.Ok? ==> r.value == c
  {
    if c.fixedLength.Some? && |c.sent| < c.fixedLength.value then Err(MissingBytes) else Ok(c)
  }
}
