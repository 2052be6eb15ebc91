/**
 * The `onProxyRes` handler of the catch-all proxy: when the upstream
 * response is HTML it buffers the body, decodes it once the upstream
 * stream ends, and patches the client response so that `write` and
 * `writeHead` are deferred and `end` emits the rewritten page.
 */
module Interceptor {
  import opened Wrappers
  import opened Text
  import Inject

  newtype byte = x: int | 0 <= x < 256

  /** Upstream response headers, keyed by lower-cased name. */
  type Headers = map<string, string>

  /** A JavaScript value passed to, or stored by, the client response. */
  datatype JsValue = Undefined | Num(n: int) | Str(s: string)

  /** A call made on the client response through one of its original methods. */
  datatype Event =
    | SetHeader(name: string, value: JsValue)
    | RemoveHeader(name: string)
    | WriteHead(args: seq<JsValue>)
    | Write(data: JsValue)
    | End(data: JsValue)

  /** The foreign decoders: zlib's `gunzipSync` (None where it throws) and `toString('utf8')`. */
  datatype Codecs = Codecs(gunzip: seq<byte> -> Option<seq<byte>>, utf8: seq<byte> -> string)

  const ContentType: string := "content-type"
  const ContentEncoding: string := "content-encoding"
  const ContentLength: string := "content-length"

  /**
   * Intercept when the upstream headers exist and their content type
   * contains "text/html", compared case-sensitively.
   */
  function ShouldIntercept(upstream: Option<Headers>): (b: bool)
    ensures b <==> upstream.Some? && ContentType in upstream.value &&
                   Occurs(upstream.value[ContentType], "text/html", false)
  {
    upstream.Some? && ContentType in upstream.value && upstream.value[ContentType] != "" &&
    FindFirst(upstream.value[ContentType], "text/html", false).Some?
  }

  /** A charset parameter after the media type does not stop interception. */
  lemma CharsetParameterIntercepted(contentType: string)
    requires contentType == "text/html; charset=utf-8"
    ensures ShouldIntercept(Some(map[ContentType := contentType]))
  {
  }

  /** The comparison is case-sensitive: an upper-case media type is passed through. */
  lemma UpperCaseNotIntercepted(contentType: string)
    requires contentType == "TEXT/HTML"
    ensures !ShouldIntercept(Some(map[ContentType := contentType]))
  {
    assert !SameChar(contentType[0], "text/html"[0], false);
  }

  predicate IsGzip(upstream: Option<Headers>) {
    upstream.Some? && ContentEncoding in upstream.value && upstream.value[ContentEncoding] == "gzip"
  }

  /**
   * The page text of a complete buffer: gunzipped first only when the
   * upstream encoding is exactly "gzip". None when gunzip throws.
   */
  function Decode(buffer: seq<byte>, upstream: Option<Headers>, codecs: Codecs): (r: Option<string>)
    ensures !IsGzip(upstream) ==> r == Some(codecs.utf8(buffer))
    ensures IsGzip(upstream) ==> (r.None? <==> codecs.gunzip(buffer).None?)
    ensures IsGzip(upstream) && r.Some? ==> r.value == codecs.utf8(codecs.gunzip(buffer).value)
  {
    if IsGzip(upstream) then
      match codecs.gunzip(buffer)
      case None => None
      case Some(raw) => Some(codecs.utf8(raw))
    else Some(codecs.utf8(buffer))
  }

  /** The bytes of the chunks, in arrival order. */
  function Concat(chunks: seq<seq<byte>>): seq<byte> {
    if chunks == [] then [] else Concat(chunks[..|chunks| - 1]) + chunks[|chunks| - 1]
  }

  /** Where chunk `k` starts in the buffer. */
  function Offset(chunks: seq<seq<byte>>, k: nat): nat
    requires k <= |chunks|
  {
    |Concat(chunks[..k])|
  }

  /** Every chunk sits intact in the buffer, after all the chunks that arrived before it. */
  lemma {:induction false} ChunkInBuffer(chunks: seq<seq<byte>>, k: nat)
    requires k < |chunks|
    ensures Offset(chunks, k) + |chunks[k]| <= |Concat(chunks)|
    ensures Concat(chunks)[Offset(chunks, k)..Offset(chunks, k) + |chunks[k]|] == chunks[k]
  {
    var n := |chunks| - 1;
    var init := chunks[..n];
    assert chunks[..n + 1] == chunks;
    if k < n {
      assert init[..k] == chunks[..k];
      ChunkInBuffer(init, k);
      assert Concat(chunks) == Concat(init) + chunks[n];
    } else {
      assert chunks[..k] == init;
    }
  }

  /** One emission by the patched `end`: the page and the recorded `writeHead` arguments. */
  datatype Flush = Flush(output: string, args: seq<JsValue>)

  /** The calls the patched `end` makes on the original response, in order. */
  function FlushEvents(f: Flush): seq<Event> {
    [ SetHeader(ContentLength, Num(|f.output|)),
      RemoveHeader(ContentEncoding),
      WriteHead(f.args),
      Write(Str(f.output)),
      End(Str("")) ]
  }

  function Flushed(fs: seq<Flush>): seq<Event> {
    if fs == [] then [] else Flushed(fs[..|fs| - 1]) + FlushEvents(fs[|fs| - 1])
  }

  /**
   * In the log of an intercepted response, every write of a page comes
   * after a content-length equal to that page's length, the removal of the
   * content encoding and the replayed `writeHead`, and is followed by an
   * empty `end`.
   */
  lemma {:induction false} WriteIsFramed(fs: seq<Flush>, k: nat)
    requires k < |Flushed(fs)| && Flushed(fs)[k].Write?
    ensures 3 <= k && k + 1 < |Flushed(fs)|
    ensures Flushed(fs)[k].data.Str?
    ensures Flushed(fs)[k - 3] == SetHeader(ContentLength, Num(|Flushed(fs)[k].data.s|))
    ensures Flushed(fs)[k - 2] == RemoveHeader(ContentEncoding)
    ensures Flushed(fs)[k - 1].WriteHead?
    ensures Flushed(fs)[k + 1] == End(Str(""))
  {
    var n := |fs| - 1;
    var before := Flushed(fs[..n]);
    assert Flushed(fs) == before + FlushEvents(fs[n]);
    if k < |before| {
      WriteIsFramed(fs[..n], k);
    }
  }

  /** The state of one intercepted exchange: the closure variables of the handler and the client response. */
  class Interception {
    const intercept: bool
    const upstream: Option<Headers>
    const proxyEnv: Option<string>
    const codecs: Codecs
    var buffer: seq<byte>
    var body: Option<string>
    var writeHeadArgs: Option<seq<JsValue>>
    /** The client response's outgoing header map. */
    var headers: map<string, JsValue>
    /** The calls made on the client response through its original methods. */
    var log: seq<Event>
    ghost var chunks: seq<seq<byte>>
    ghost var flushes: seq<Flush>

    ghost predicate Valid()
      reads this
    {
      && intercept == ShouldIntercept(upstream)
      && buffer == Concat(chunks)
      && (intercept ==> log == Flushed(flushes))
      && (!intercept ==> chunks == [] && body.None? && writeHeadArgs.None? && flushes == [])
    }

    /** The handler runs when the upstream response headers arrive. */
    constructor (upstream: Option<Headers>, responseHeaders: map<string, JsValue>,
                 proxyEnv: Option<string>, codecs: Codecs)
      ensures Valid()
      ensures this.upstream == upstream && this.proxyEnv == proxyEnv && this.codecs == codecs
      ensures intercept == ShouldIntercept(upstream)
      ensures buffer == [] && body.None? && writeHeadArgs.None?
      ensures headers == responseHeaders && log == []
    {
      this.upstream := upstream;
      this.proxyEnv := proxyEnv;
      this.codecs := codecs;
      intercept := ShouldIntercept(upstream);
      buffer := [];
      body := None;
      writeHeadArgs := None;
      headers := responseHeaders;
      log := [];
      chunks := [];
      flushes := [];
    }

    /** An upstream `data` event: the chunk joins the end of the buffer. */
    method OnData(chunk: seq<byte>)
      requires Valid()
      modifies this
      ensures Valid()
      ensures buffer == if intercept then old(buffer) + chunk else old(buffer)
      ensures chunks == if intercept then old(chunks) + [chunk] else old(chunks)
      ensures body == old(body) && writeHeadArgs == old(writeHeadArgs)
      ensures headers == old(headers) && log == old(log) && flushes == old(flushes)
    {
      if intercept {
        buffer := buffer + chunk;
        chunks := chunks + [chunk];
        assert chunks[..|chunks| - 1] == old(chunks);
      }
    }

    /**
     * The upstream `end` event: the body is decoded from the whole buffer.
     * `ok` is false where gunzip throws, and `body` then stays as it was.
     */
    method OnUpstreamEnd() returns (ok: bool)
      requires Valid()
      modifies this
      ensures Valid()
      ensures intercept ==> ok == Decode(buffer, upstream, codecs).Some?
      ensures !intercept ==> ok
      ensures body == if intercept && ok then Decode(buffer, upstream, codecs) else old(body)
      ensures buffer == old(buffer) && chunks == old(chunks) && writeHeadArgs == old(writeHeadArgs)
      ensures headers == old(headers) && log == old(log) && flushes == old(flushes)
    {
      ok := true;
      if intercept {
        var decoded := Decode(buffer, upstream, codecs);
        ok := decoded.Some?;
        if ok {
          body := decoded;
        }
      }
    }

    /** `res.write`: a no-op while intercepting, otherwise forwarded. */
    method Write(data: JsValue)
      requires Valid()
      modifies this
      ensures Valid()
      ensures log == if intercept then old(log) else old(log) + [Event.Write(data)]
      ensures buffer == old(buffer) && chunks == old(chunks) && body == old(body)
      ensures writeHeadArgs == old(writeHeadArgs) && headers == old(headers) && flushes == old(flushes)
    {
      if !intercept {
        log := log + [Event.Write(data)];
      }
    }

    /** `res.writeHead`: while intercepting only its arguments are kept, the last call's winning. */
    method WriteHead(args: seq<JsValue>)
      requires Valid()
      modifies this
      ensures Valid()
      ensures writeHeadArgs == if intercept then Some(args) else old(writeHeadArgs)
      ensures log == if intercept then old(log) else old(log) + [Event.WriteHead(args)]
      ensures buffer == old(buffer) && chunks == old(chunks) && body == old(body)
      ensures headers == old(headers) && flushes == old(flushes)
    {
      if intercept {
        writeHeadArgs := Some(args);
      } else {
        log := log + [Event.WriteHead(args)];
      }
    }

    /**
     * `res.end`. While intercepting, its argument is ignored and the page
     * with the tags injected is emitted: content-length set to its length,
     * content-encoding removed, the recorded `writeHead` replayed (with no
     * arguments when none was recorded), the page written, and an empty
     * `end`. The upstream `end` must have decoded the body first.
     */
    method End(data: JsValue)
      requires Valid()
      requires intercept ==> body.Some?
      modifies this
      ensures Valid()
      ensures intercept ==>
                var output := Inject.InjectReturnToNCI(old(body).value, proxyEnv);
                var args := if old(writeHeadArgs).Some? then old(writeHeadArgs).value else [];
                && flushes == old(flushes) + [Flush(output, args)]
                && log == old(log) + FlushEvents(Flush(output, args))
                && headers == (old(headers)[ContentLength := Num(|output|)] - {ContentEncoding})
      ensures !intercept ==> log == old(log) + [Event.End(data)] && headers == old(headers)
      ensures buffer == old(buffer) && chunks == old(chunks) && body == old(body)
      ensures writeHeadArgs == old(writeHeadArgs)
    {
      if intercept {
        var output := Inject.InjectReturnToNCI(body.value, proxyEnv);
        var args := if writeHeadArgs.Some? then writeHeadArgs.value else [];
        var f := Flush(output, args);
        headers := headers[ContentLength := Num(|output|)] - {ContentEncoding};
        log := log + FlushEvents(f);
        flushes := flushes + [f];
        assert flushes[..|flushes| - 1] == old(flushes);
      } else {
        log := log + [Event.End(data)];
      }
    }
  }
}
