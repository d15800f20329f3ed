/** `writeCompressed`: choosing the request body's codec from the stored
    preference, buffering the compressed body, and sending it with a
    fixed length equal to the buffered byte count. */
module Compression {
  import opened Wrappers
  import opened Http
  import opened Preferences

  datatype BrotliMode = Generic | Text | Font

  /** The encoder configuration: Brotli in text mode at quality 5, or
      Deflate at `Deflater.BEST_COMPRESSION`. */
  datatype Encoder = BrotliEncoder(mode: BrotliMode, quality: nat) | DeflateEncoder(level: nat)

  const BrotliQuality := 5
  const DeflateBestCompression := 9

  function EncoderFor(p: Prefs): (e: Encoder)
    ensures e.BrotliEncoder? <==> ContentEncoding(p) == "br"
    ensures e.DeflateEncoder? <==> ContentEncoding(p) == "deflate"
  {
    if UseBrotli(p) then BrotliEncoder(Text, BrotliQuality) else DeflateEncoder(DeflateBestCompression)
  }

  /** The library code `writeCompressed` calls: `String.toByteArray` (UTF-8)
      and the encoder streams, given as the chunks an encoder writes into
      its sink for a given input, the final flush on `close` included. */
  datatype Codecs = Codecs(
    utf8: string -> seq<Byte>,
    compress: (Encoder, seq<Byte>) -> seq<seq<Byte>>)

  function Flatten(chunks: seq<seq<Byte>>): seq<Byte> {
    if |chunks| == 0 then [] else Flatten(chunks[..|chunks| - 1]) + chunks[|chunks| - 1]
  }

  /** The complete compressed body for `body` under preference `p`. */
  function Compressed(codecs: Codecs, p: Prefs, body: string): seq<Byte> {
    Flatten(codecs.compress(EncoderFor(p), codecs.utf8(body)))
  }

  /** `ExposingBufferByteArrayOutputStream`: the backing array `buf`, of
      which only the first `count` bytes have been written. */
  datatype ByteBuffer = ByteBuffer(buf: seq<Byte>, count: nat) {
    predicate Valid() { count <= |buf| }

    function Contents(): seq<Byte>
      requires Valid()
    {
      buf[..count]
    }
  }

  /** The capacity of a `ByteArrayOutputStream()`. */
  const InitialCapacity := 32

  function NewBuffer(): (b: ByteBuffer)
    ensures b.Valid() && b.Contents() == []
  {
    ByteBuffer(seq(InitialCapacity, _ => 0), 0)
  }

  /** `ByteArrayOutputStream.write`: grows the array to the larger of twice
      its size and what is needed, then copies `data` after the written part.
      The array may end with unwritten slack. */
  function Append(b: ByteBuffer, data: seq<Byte>): (r: ByteBuffer)
    requires b.Valid()
    ensures r.Valid()
    ensures r.Contents() == b.Contents() + data
    ensures |r.buf| >= |b.buf|
  {
    var need := b.count + |data|;
    var grown := if need <= |b.buf| then b.buf
                 else b.buf + seq(if need < 2 * |b.buf| then 2 * |b.buf| - |b.buf| else need - |b.buf|, _ => 0);
    ByteBuffer(grown[..b.count] + data + grown[need..], need)
  }

  /** Runs the encoder stream into a fresh buffer, chunk by chunk. */
  method Fill(chunks: seq<seq<Byte>>) returns (b: ByteBuffer)
    ensures b.Valid()
    ensures b.Contents() == Flatten(chunks)
  {
    b := NewBuffer();
    var i := 0;
    while i < |chunks|
      invariant 0 <= i <= |chunks|
      invariant b.Valid()
      invariant b.Contents() == Flatten(chunks[..i])
    {
      assert chunks[..i + 1][..i] == chunks[..i];
      b := Append(b, chunks[i]);
      i := i + 1;
    }
    assert chunks[..|chunks|] == chunks;
  }

  /** `writeCompressed(conn, body)`. The `Content-Encoding` header names
      the codec the preference selects, redirects are left to the caller,
      the declared fixed length is the compressed size, and exactly the
      compressed bytes (never the buffer's slack) reach the connection, so
      neither the write nor the close is refused. */
  method WriteCompressed(codecs: Codecs, p: Prefs, conn: Conn, body: string) returns (r: Result<Conn, StreamError>)
    requires conn.sent == []
    ensures r.Ok?
    ensures Values(r.value.requestHeaders, "Content-Encoding") == [if UseBrotli(p) then "br" else "deflate"]
    ensures forall k :: k != "Content-Encoding" ==> Values(r.value.requestHeaders, k) == Values(conn.requestHeaders, k)
    ensures r.value.doOutput && !r.value.followRedirects
    ensures r.value.fixedLength == Some(|Compressed(codecs, p, body)|)
    ensures r.value.sent == Compressed(codecs, p, body)
    ensures r.value.(requestHeaders := conn.requestHeaders, doOutput := conn.doOutput,
                     followRedirects := conn.followRedirects, fixedLength := conn.fixedLength, sent := []) == conn
  {
    var c := SetRequestProperty(conn, "Content-Encoding", ContentEncoding(p));
    c := c.(doOutput := true, followRedirects := false);
    var uncompressed := codecs.utf8(body);
    var out := Fill(codecs.compress(EncoderFor(p), uncompressed));
    c := c.(fixedLength := Some(out.count));
    var w := WriteRange(c, out.buf, 0, out.count);
    assert w.Ok?;
    r := CloseOutput(w.value);
  }
}
