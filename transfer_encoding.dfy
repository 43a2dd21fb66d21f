/**
 * io.undertow.server.HttpTransferEncodingHandler: persistence negotiation and
 * message framing for HTTP/1.x (sections 4.4 and 8.1 of RFC 2616).
 *
 * A request decides whether the connection looks persistent and which body
 * channel wraps the request stream; the response wrapper later decides the
 * response framing and rewrites the Connection and Transfer-Encoding headers.
 * The decisions are pure functions of the version, the method, the status and
 * the headers; the Exchange class performs them as the handler does, by
 * changing the exchange.  Header values are Strings; comparing one with a
 * constant goes through new HttpString(value), which throws for a char above
 * 0xFF, and then ignores ASCII case.
 */
module TransferEncoding {
  import opened Octets
  import HttpStrings
  import opened JavaNumbers

  datatype Version = Http10 | Http11 | OtherVersion

  /** The header names the handler consults; every other header is OtherHeader. */
  datatype HeaderName = Connection | TransferEncodingHeader | ContentLength | OtherHeader(name: seq<Byte>)

  /** A HeaderMap: the values of each header in the order they were added. */
  type HeaderMap = map<HeaderName, seq<string>>

  predicate Has(m: HeaderMap, h: HeaderName) {
    h in m && |m[h]| > 0
  }

  function First(m: HeaderMap, h: HeaderName): string
    requires Has(m, h)
  {
    m[h][0]
  }

  function Last(m: HeaderMap, h: HeaderName): string
    requires Has(m, h)
  {
    m[h][|m[h]| - 1]
  }

  const Close: string := "close"
  const KeepAlive: string := "keep-alive"
  const Identity: string := "identity"
  const Chunked: string := "chunked"
  const Head: seq<Byte> := [0x48, 0x45, 0x41, 0x44]

  predicate IsAsciiText(s: string) {
    forall i :: 0 <= i < |s| ==> s[i] as int < 128
  }

  /**
   * new HttpString(value).equals(constant) for an ASCII constant: the
   * constructor's IllegalArgumentException for a char above 0xFF, otherwise
   * ASCII-case-insensitive equality.
   */
  function TokenEquals(value: string, constant: string): (r: HttpStrings.Result<bool>)
    requires IsAsciiText(constant)
    ensures r.Err? <==> !IsLatin1(value)
    ensures r.Err? ==> r.error == HttpStrings.IllegalArgument
    ensures r.Ok? ==> (r.value <==> |value| == |constant|
                                    && forall i :: 0 <= i < |value| ==>
                                         HttpStrings.UpperCase(LowByte(value[i])) == HttpStrings.UpperCase(LowByte(constant[i])))
  {
    if !IsLatin1(value) then HttpStrings.Err(HttpStrings.IllegalArgument)
    else HttpStrings.Ok(HttpStrings.FoldEqual(LowBytes(value), LowBytes(constant)))
  }

  /** Both instances come from Strings, so HttpString.equals takes its String path; against an ASCII constant that is the same answer. */
  lemma TokenEqualsAgreesWithStringPath(value: string, constant: string)
    requires IsAsciiText(constant) && IsLatin1(value)
    ensures TokenEquals(value, constant) == HttpStrings.Ok(HttpStrings.StringEqualsIgnoreCase(value, constant))
  {
    HttpStrings.Latin1AgainstAsciiAgrees(value, constant);
  }

  // ---------------------------------------------------------------------
  // The request side (HttpTransferEncodingHandler.java:77-140)
  // ---------------------------------------------------------------------

  /** Some value of the list is keep-alive, scanning in order; the first non-Latin-1 value before a match throws. */
  function AnyKeepAlive(values: seq<string>): HttpStrings.Result<bool>
    decreases |values|
  {
    if values == [] then HttpStrings.Ok(false)
    else match TokenEquals(values[0], KeepAlive)
      case Err(e) => HttpStrings.Err(e)
      case Ok(b) => if b then HttpStrings.Ok(true) else AnyKeepAlive(values[1..])
  }

  predicate SomeKeepAlive(values: seq<string>) {
    exists i :: 0 <= i < |values| && HttpStrings.FoldEqual(LowBytes(values[i]), LowBytes(KeepAlive))
  }

  /** On Latin-1 values the scan answers whether some value is keep-alive. */
  lemma {:induction false} AnyKeepAliveMeaning(values: seq<string>)
    requires forall i :: 0 <= i < |values| ==> IsLatin1(values[i])
    ensures AnyKeepAlive(values) == HttpStrings.Ok(SomeKeepAlive(values))
    decreases |values|
  {
    if values != [] {
      AnyKeepAliveMeaning(values[1..]);
      if !HttpStrings.FoldEqual(LowBytes(values[0]), LowBytes(KeepAlive)) {
        assert SomeKeepAlive(values) <==> SomeKeepAlive(values[1..]) by {
          if SomeKeepAlive(values) {
            var i :| 0 <= i < |values| && HttpStrings.FoldEqual(LowBytes(values[i]), LowBytes(KeepAlive));
            assert values[1..][i - 1] == values[i];
          }
          if SomeKeepAlive(values[1..]) {
            var i :| 0 <= i < |values[1..]| && HttpStrings.FoldEqual(LowBytes(values[1..][i]), LowBytes(KeepAlive));
            assert values[1..][i] == values[i + 1];
          }
        }
      }
    }
  }

  /** Whether the request looks persistent (HttpTransferEncodingHandler.java:83-98). */
  function Persistence(v: Version, req: HeaderMap): HttpStrings.Result<bool> {
    match v
    case Http11 =>
      if !Has(req, Connection) then HttpStrings.Ok(true)
      else (match TokenEquals(First(req, Connection), Close)
            case Err(e) => HttpStrings.Err(e)
            case Ok(b) => HttpStrings.Ok(!b))
    case Http10 =>
      if !Has(req, Connection) then HttpStrings.Ok(false) else AnyKeepAlive(req[Connection])
    case OtherVersion => HttpStrings.Ok(false)
  }

  /** HTTP/1.1 is persistent unless the first Connection value is close; HTTP/1.0 only with some keep-alive; other versions never. */
  lemma PersistenceRules(v: Version, req: HeaderMap)
    requires Connection in req ==> forall i :: 0 <= i < |req[Connection]| ==> IsLatin1(req[Connection][i])
    ensures v == Http11 ==>
              Persistence(v, req) == HttpStrings.Ok(!(Has(req, Connection) && HttpStrings.FoldEqual(LowBytes(First(req, Connection)), LowBytes(Close))))
    ensures v == Http10 ==>
              Persistence(v, req) == HttpStrings.Ok(Has(req, Connection) && SomeKeepAlive(req[Connection]))
    ensures v == OtherVersion ==> Persistence(v, req) == HttpStrings.Ok(false)
  {
    if v == Http10 && Has(req, Connection) {
      AnyKeepAliveMeaning(req[Connection]);
    }
  }

  /** The request wrapper added to the exchange, if any. */
  datatype RequestBody = ChunkedBody | EmptyBody | FixedBody(length: int) | NoBody

  datatype RequestOutcome =
    | Rejected         // IllegalArgumentException out of new HttpString(value)
    | BadRequest       // response code 400, then return
    | Accepted(persistent: bool, body: RequestBody, terminated: bool)

  /** What handleRequest does to the exchange (HttpTransferEncodingHandler.java:77-140). */
  function RequestDecision(v: Version, req: HeaderMap): RequestOutcome {
    match Persistence(v, req)
    case Err(_) => Rejected
    case Ok(looksPersistent) =>
      var hasTe := Has(req, TransferEncodingHeader);
      var identity := if hasTe then TokenEquals(Last(req, TransferEncodingHeader), Identity) else HttpStrings.Ok(true);
      if identity.Err? then Rejected
      else if hasTe && !identity.value then Accepted(looksPersistent, ChunkedBody, false)
      else if Has(req, ContentLength) then
        (match ParseLong(First(req, ContentLength))
         case None => BadRequest
         case Some(n) => Accepted(looksPersistent, if n == 0 then EmptyBody else FixedBody(n), false))
      else if hasTe then Accepted(false, NoBody, false)
      else if looksPersistent then Accepted(true, EmptyBody, true)
      else Accepted(false, NoBody, false)
  }

  /** The decision table of the request body, for Latin-1 header values. */
  lemma RequestBodyRules(v: Version, req: HeaderMap)
    requires Persistence(v, req).Ok?
    requires Has(req, TransferEncodingHeader) ==> IsLatin1(Last(req, TransferEncodingHeader))
    ensures var p := Persistence(v, req).value;
            var chunked := Has(req, TransferEncodingHeader)
                           && !HttpStrings.FoldEqual(LowBytes(Last(req, TransferEncodingHeader)), LowBytes(Identity));
            var d := RequestDecision(v, req);
            (chunked ==> d == Accepted(p, ChunkedBody, false))
            && (!chunked && Has(req, ContentLength) ==>
                  (d == BadRequest <==> ParseLong(First(req, ContentLength)).None?)
                  && (ParseLong(First(req, ContentLength)) == Some(0) ==> d == Accepted(p, EmptyBody, false))
                  && (forall n :: ParseLong(First(req, ContentLength)) == Some(n) && n != 0 ==> d == Accepted(p, FixedBody(n), false)))
            && (!chunked && !Has(req, ContentLength) && Has(req, TransferEncodingHeader) ==> d == Accepted(false, NoBody, false))
            && (!Has(req, TransferEncodingHeader) && !Has(req, ContentLength) ==>
                  d == Accepted(p, if p then EmptyBody else NoBody, p))
  {
  }

  /** A 400 is given exactly when the body is not chunked and Content-Length does not parse; it never reaches setPersistent. */
  lemma BadRequestExactly(v: Version, req: HeaderMap)
    ensures RequestDecision(v, req) == BadRequest <==>
              Persistence(v, req).Ok?
              && (Has(req, TransferEncodingHeader) ==> TokenEquals(Last(req, TransferEncodingHeader), Identity) == HttpStrings.Ok(true))
              && Has(req, ContentLength) && ParseLong(First(req, ContentLength)).None?
  {
  }

  /** The request is terminated at once only when it has neither Transfer-Encoding nor Content-Length and looks persistent, and an accepted request is never more persistent than it looked. */
  lemma RequestTerminationAndPersistence(v: Version, req: HeaderMap)
    ensures RequestDecision(v, req).Accepted? ==> Persistence(v, req).Ok?
    ensures RequestDecision(v, req).Accepted? && RequestDecision(v, req).persistent ==> Persistence(v, req) == HttpStrings.Ok(true)
    ensures RequestDecision(v, req).Accepted? && RequestDecision(v, req).terminated <==>
              Persistence(v, req) == HttpStrings.Ok(true) && !Has(req, TransferEncodingHeader) && !Has(req, ContentLength)
  {
  }

  /** The source channel the request wrapper builds (HttpTransferEncodingHandler.java:224-250). */
  datatype SourceChannel = ChunkedSource(maxEntity: int) | FixedSource(length: int) | BrokenSource(maxEntity: int) | EmptySource

  function SourceFor(body: RequestBody, maxEntity: int): (c: Option<SourceChannel>)
    ensures body == NoBody <==> c.None?
    ensures c.Some? && c.value.FixedSource? ==> c.value.length <= maxEntity
    ensures body.FixedBody? ==> (c == Some(BrokenSource(maxEntity)) <==> body.length > maxEntity)
  {
    match body
    case ChunkedBody => Some(ChunkedSource(maxEntity))
    case EmptyBody => Some(EmptySource)
    case FixedBody(n) => if n > maxEntity then Some(BrokenSource(maxEntity)) else Some(FixedSource(n))
    case NoBody => None
  }

  // ---------------------------------------------------------------------
  // The response side (HttpTransferEncodingHandler.java:142-222)
  // ---------------------------------------------------------------------

  /** The sink channel the response wrapper builds; closeWhenDone is !stillPersistent, listens says a terminateResponse listener is attached. */
  datatype SinkChannel =
    | FixedSink(length: int, closeWhenDone: bool, listens: bool)
    | ChunkedSink(closeWhenDone: bool, listens: bool)
    | UnboundedSink   // FinishableStreamSinkChannel with the terminateResponse listener

  datatype ResponseOutcome =
    | ResponseRejected    // IllegalArgumentException out of new HttpString(value)
    | Framed(channel: SinkChannel, headers: HeaderMap, persistent: bool)

  /** A response without a body: to HEAD, or with status 1xx, 204 or 304. */
  predicate NoBodyResponse(verb: seq<Byte>, code: int) {
    HttpStrings.FoldEqual(verb, Head) || (100 <= code <= 199) || code == 204 || code == 304
  }

  /**
   * The first step of wrap (HttpTransferEncodingHandler.java:148-161): the
   * effective transfer coding is identity or not, and the headers after the
   * Transfer-Encoding edits.  injectChunked says whether a missing
   * Transfer-Encoding and Content-Length on HTTP/1.1 adds chunked.
   */
  function CodingStep(v: Version, h: HeaderMap, injectChunked: bool): HttpStrings.Result<(bool, HeaderMap)> {
    if Has(h, TransferEncodingHeader) then
      if v == Http11 then
        match TokenEquals(Last(h, TransferEncodingHeader), Identity)
        case Err(e) => HttpStrings.Err(e)
        case Ok(isIdentity) => HttpStrings.Ok((isIdentity, h))
      else HttpStrings.Ok((true, h - {TransferEncodingHeader}))
    else if v == Http11 && !Has(h, ContentLength) && injectChunked then
      HttpStrings.Ok((false, h[TransferEncodingHeader := [Chunked]]))
    else HttpStrings.Ok((true, h))
  }

  /** The channel and the final persistence (HttpTransferEncodingHandler.java:162-201). */
  function Framing(verb: seq<Byte>, code: int, h: HeaderMap, isIdentity: bool, persistent: bool): (SinkChannel, bool) {
    if NoBodyResponse(verb, code) then
      if code == 101 && Has(h, ContentLength) then
        match ParseLong(First(h, ContentLength))
        case Some(n) => (FixedSink(n, !persistent, persistent), persistent)
        case None => (UnboundedSink, false)
      else (FixedSink(0, !persistent, persistent), persistent)
    else if !isIdentity then (ChunkedSink(!persistent, persistent), persistent)
    else if Has(h, ContentLength) then
      match ParseLong(First(h, ContentLength))
      case Some(n) => (FixedSink(n, !persistent, persistent), persistent)
      case None => (UnboundedSink, false)
    else (UnboundedSink, false)
  }

  /** The Connection header edit (HttpTransferEncodingHandler.java:202-218). */
  function ConnectionStep(v: Version, code: int, h: HeaderMap, persistent: bool): HeaderMap {
    if code == 101 then h
    else match v
      case Http11 => h[Connection := [if persistent then KeepAlive else Close]]
      case Http10 => if persistent then h[Connection := [KeepAlive]] else h - {Connection}
      case OtherVersion => h
  }

  function ResponseWith(v: Version, verb: seq<Byte>, code: int, h: HeaderMap, looksPersistent: bool, injectChunked: bool): ResponseOutcome {
    match CodingStep(v, h, injectChunked)
    case Err(_) => ResponseRejected
    case Ok(step) =>
      var (channel, persistent) := Framing(verb, code, step.1, step.0, looksPersistent);
      Framed(channel, ConnectionStep(v, code, step.1, persistent), persistent)
  }

  /** wrap as written: chunked is added whenever HTTP/1.1 has neither Transfer-Encoding nor Content-Length. */
  function ResponseAsWritten(v: Version, verb: seq<Byte>, code: int, h: HeaderMap, looksPersistent: bool): ResponseOutcome {
    ResponseWith(v, verb, code, h, looksPersistent, true)
  }

  /** wrap with the evident intent: chunked is added only to a response that can have a body. */
  function Response(v: Version, verb: seq<Byte>, code: int, h: HeaderMap, looksPersistent: bool): ResponseOutcome {
    ResponseWith(v, verb, code, h, looksPersistent, !NoBodyResponse(verb, code))
  }

  /** The two differ only in the header: the channel and persistence are the same. */
  lemma ResponseChangesOnlyTheHeader(v: Version, verb: seq<Byte>, code: int, h: HeaderMap, looksPersistent: bool)
    ensures Response(v, verb, code, h, looksPersistent).ResponseRejected? == ResponseAsWritten(v, verb, code, h, looksPersistent).ResponseRejected?
    ensures Response(v, verb, code, h, looksPersistent).Framed? ==>
              Response(v, verb, code, h, looksPersistent).channel == ResponseAsWritten(v, verb, code, h, looksPersistent).channel
              && Response(v, verb, code, h, looksPersistent).persistent == ResponseAsWritten(v, verb, code, h, looksPersistent).persistent
  {
  }

  /** A 204 on HTTP/1.1 with no framing headers is announced as chunked yet framed with length 0 as written; the corrected wrapper adds no Transfer-Encoding. */
  lemma NoBodyResponseAnnouncedChunked()
    ensures var r := ResponseAsWritten(Http11, [0x47, 0x45, 0x54], 204, map[], true);
            r.Framed? && r.channel == FixedSink(0, false, true)
            && TransferEncodingHeader in r.headers && r.headers[TransferEncodingHeader] == [Chunked]
    ensures var r := Response(Http11, [0x47, 0x45, 0x54], 204, map[], true);
            r.Framed? && r.channel == FixedSink(0, false, true) && TransferEncodingHeader !in r.headers
  {
    assert !HttpStrings.FoldEqual([0x47, 0x45, 0x54], Head);
  }

  /** A response without a body is framed with length 0 (or a 101's Content-Length), and the corrected wrapper never adds chunked to it. */
  lemma NoBodyResponseFraming(v: Version, verb: seq<Byte>, code: int, h: HeaderMap, looksPersistent: bool)
    requires NoBodyResponse(verb, code)
    requires Response(v, verb, code, h, looksPersistent).Framed?
    ensures var r := Response(v, verb, code, h, looksPersistent);
            (r.channel.FixedSink? || r.channel.UnboundedSink?)
            && (!(code == 101 && Has(h, ContentLength)) ==> r.channel == FixedSink(0, !looksPersistent, looksPersistent) && r.persistent == looksPersistent)
            && (code == 101 && Has(h, ContentLength) ==>
                  (r.channel.UnboundedSink? <==> ParseLong(First(h, ContentLength)).None?)
                  && (forall n :: ParseLong(First(h, ContentLength)) == Some(n) ==> r.channel == FixedSink(n, !looksPersistent, looksPersistent)))
            && (TransferEncodingHeader in r.headers ==> TransferEncodingHeader in h && r.headers[TransferEncodingHeader] == h[TransferEncodingHeader])
  {
  }

  /** The framing of a response that may have a body. */
  lemma BodyResponseFraming(v: Version, verb: seq<Byte>, code: int, h: HeaderMap, looksPersistent: bool)
    requires !NoBodyResponse(verb, code)
    requires Has(h, TransferEncodingHeader) ==> IsLatin1(Last(h, TransferEncodingHeader))
    ensures Response(v, verb, code, h, looksPersistent).Framed?
    ensures var r := Response(v, verb, code, h, looksPersistent);
            v == Http11 && !Has(h, TransferEncodingHeader) && !Has(h, ContentLength) ==>
              r.channel == ChunkedSink(!looksPersistent, looksPersistent) && r.headers[TransferEncodingHeader] == [Chunked]
    ensures v != Http11 ==> !Has(Response(v, verb, code, h, looksPersistent).headers, TransferEncodingHeader)
    ensures v == Http11 && Has(h, TransferEncodingHeader)
            && !HttpStrings.FoldEqual(LowBytes(Last(h, TransferEncodingHeader)), LowBytes(Identity)) ==>
              Response(v, verb, code, h, looksPersistent).channel == ChunkedSink(!looksPersistent, looksPersistent)
    ensures var r := Response(v, verb, code, h, looksPersistent);
            var identityCoded := v != Http11
                                 || (Has(h, TransferEncodingHeader)
                                     && HttpStrings.FoldEqual(LowBytes(Last(h, TransferEncodingHeader)), LowBytes(Identity)));
            identityCoded && Has(h, ContentLength) ==>
              (forall n :: ParseLong(First(h, ContentLength)) == Some(n) ==> r.channel == FixedSink(n, !looksPersistent, looksPersistent))
              && (ParseLong(First(h, ContentLength)).None? ==> r.channel == UnboundedSink && !r.persistent)
    ensures var r := Response(v, verb, code, h, looksPersistent);
            var identityCoded := v != Http11
                                 || (Has(h, TransferEncodingHeader)
                                     && HttpStrings.FoldEqual(LowBytes(Last(h, TransferEncodingHeader)), LowBytes(Identity)));
            identityCoded && !Has(h, ContentLength) ==> r.channel == UnboundedSink && !r.persistent
  {
  }

  /** The response is never more persistent than the request looked, and the Connection header reports the final decision. */
  lemma ResponseConnectionHeader(v: Version, verb: seq<Byte>, code: int, h: HeaderMap, looksPersistent: bool)
    requires Response(v, verb, code, h, looksPersistent).Framed?
    ensures var r := Response(v, verb, code, h, looksPersistent);
            (r.persistent ==> looksPersistent)
            && (code == 101 ==> (Connection in r.headers <==> Connection in h) && (Connection in h ==> r.headers[Connection] == h[Connection]))
            && (code != 101 && v == Http11 ==> r.headers[Connection] == [if r.persistent then KeepAlive else Close])
            && (code != 101 && v == Http10 && r.persistent ==> r.headers[Connection] == [KeepAlive])
            && (code != 101 && v == Http10 && !r.persistent ==> Connection !in r.headers)
            && (v == OtherVersion ==> (Connection in r.headers <==> Connection in h) && (Connection in h ==> r.headers[Connection] == h[Connection]))
  {
  }

  /** Only the Connection and Transfer-Encoding headers are touched. */
  lemma ResponseTouchesOnlyFramingHeaders(v: Version, verb: seq<Byte>, code: int, h: HeaderMap, looksPersistent: bool, name: HeaderName)
    requires name != Connection && name != TransferEncodingHeader
    requires Response(v, verb, code, h, looksPersistent).Framed?
    ensures var r := Response(v, verb, code, h, looksPersistent);
            (name in r.headers <==> name in h) && (name in h ==> r.headers[name] == h[name])
  {
  }

  // ---------------------------------------------------------------------
  // The exchange the handler changes
  // ---------------------------------------------------------------------

  /** The parts of HttpServerExchange that the handler and its wrappers and listeners read and change. */
  class Exchange {
    const version: Version
    const requestMethod: seq<Byte>
    const requestHeaders: HeaderMap
    const maxEntitySize: int
    var responseCode: int
    var responseHeaders: HeaderMap
    var persistent: bool
    var requestWrappers: seq<RequestBody>
    /** The requestLooksPersistent each added response wrapper captured. */
    var responseWrappers: seq<bool>
    var requestTerminated: bool
    var responseTerminated: bool
    var nextHandlerRan: bool

    constructor (v: Version, verb: seq<Byte>, req: HeaderMap, maxEntity: int)
      ensures version == v && requestMethod == verb && requestHeaders == req && maxEntitySize == maxEntity
      ensures responseCode == 200 && responseHeaders == map[] && !persistent
      ensures requestWrappers == [] && responseWrappers == [] && !requestTerminated && !responseTerminated && !nextHandlerRan
    {
      version, requestMethod, requestHeaders, maxEntitySize := v, verb, req, maxEntity;
      responseCode := 200;
      responseHeaders := map[];
      persistent := false;
      requestWrappers, responseWrappers := [], [];
      requestTerminated, responseTerminated, nextHandlerRan := false, false, false;
    }

    /** The HTTP/1.0 loop over the Connection values (HttpTransferEncodingHandler.java:87-94). */
    method ScanKeepAlive(values: seq<string>) returns (r: HttpStrings.Result<bool>)
      ensures r == AnyKeepAlive(values)
    {
      var i := 0;
      while i < |values|
        invariant 0 <= i <= |values|
        invariant AnyKeepAlive(values) == AnyKeepAlive(values[i..])
      {
        assert values[i..][1..] == values[i + 1..];
        var t := TokenEquals(values[i], KeepAlive);
        if t.Err? {
          return HttpStrings.Err(t.error);
        }
        if t.value {
          return HttpStrings.Ok(true);
        }
        i := i + 1;
      }
      return HttpStrings.Ok(false);
    }

    /** handleRequest (HttpTransferEncodingHandler.java:77-140); thrown is the IllegalArgumentException of new HttpString. */
    method HandleRequest() returns (thrown: bool)
      modifies this
      ensures thrown <==> RequestDecision(version, requestHeaders) == Rejected
      ensures RequestDecision(version, requestHeaders).Rejected? ==>
                responseCode == old(responseCode) && persistent == old(persistent) && requestWrappers == old(requestWrappers)
                && responseWrappers == old(responseWrappers) && requestTerminated == old(requestTerminated) && !nextHandlerRan
      ensures RequestDecision(version, requestHeaders).BadRequest? ==>
                responseCode == 400 && persistent == old(persistent) && requestWrappers == old(requestWrappers)
                && responseWrappers == old(responseWrappers) && requestTerminated == old(requestTerminated) && !nextHandlerRan
      ensures RequestDecision(version, requestHeaders).Accepted? ==>
                var d := RequestDecision(version, requestHeaders);
                responseCode == old(responseCode) && persistent == d.persistent
                && requestWrappers == old(requestWrappers) + (if d.body == NoBody then [] else [d.body])
                && responseWrappers == old(responseWrappers) + [d.persistent]
                && requestTerminated == (old(requestTerminated) || d.terminated) && nextHandlerRan
      ensures responseHeaders == old(responseHeaders) && responseTerminated == old(responseTerminated)
    {
      nextHandlerRan := false;
      var looks := LooksPersistent();
      if looks.Err? {
        return true;
      }
      var persistentConnection := looks.value;
      var hasTe := Has(requestHeaders, TransferEncodingHeader);
      var hasLength := Has(requestHeaders, ContentLength);
      var isIdentity := true;
      if hasTe {
        var t := TokenEquals(Last(requestHeaders, TransferEncodingHeader), Identity);
        if t.Err? {
          return true;
        }
        isIdentity := t.value;
      }
      if hasTe && !isIdentity {
        requestWrappers := requestWrappers + [ChunkedBody];
      } else if hasLength {
        var contentLength := ParseLong(First(requestHeaders, ContentLength));
        if contentLength.None? {
          responseCode := 400;
          return false;
        }
        if contentLength.value == 0 {
          requestWrappers := requestWrappers + [EmptyBody];
        } else {
          requestWrappers := requestWrappers + [FixedBody(contentLength.value)];
        }
      } else if hasTe {
        persistentConnection := false;
      } else if persistentConnection {
        requestTerminated := true;
        requestWrappers := requestWrappers + [EmptyBody];
      }
      persistent := persistentConnection;
      responseWrappers := responseWrappers + [persistentConnection];
      nextHandlerRan := true;
      thrown := false;
    }

    /** The persistence test of handleRequest (HttpTransferEncodingHandler.java:79-98). */
    method LooksPersistent() returns (r: HttpStrings.Result<bool>)
      ensures r == Persistence(version, requestHeaders)
    {
      var hasConnection := Has(requestHeaders, Connection);
      if version == Http11 {
        if hasConnection {
          var t := TokenEquals(First(requestHeaders, Connection), Close);
          if t.Err? {
            return HttpStrings.Err(t.error);
          }
          return HttpStrings.Ok(!t.value);
        }
        return HttpStrings.Ok(true);
      } else if version == Http10 {
        if hasConnection {
          r := ScanKeepAlive(requestHeaders[Connection]);
          return;
        }
        return HttpStrings.Ok(false);
      }
      return HttpStrings.Ok(false);
    }

    /** responseWrapper's wrap (HttpTransferEncodingHandler.java:144-220), with chunked added only to a response that can have a body. */
    method WrapResponse(requestLooksPersistent: bool) returns (r: Option<SinkChannel>)
      modifies this`responseHeaders
      ensures var d := Response(version, requestMethod, responseCode, old(responseHeaders), requestLooksPersistent);
              (d.ResponseRejected? ==> r.None? && responseHeaders == old(responseHeaders))
              && (d.Framed? ==> r == Some(d.channel) && responseHeaders == d.headers)
    {
      var h := responseHeaders;
      var isIdentity := true;
      if Has(h, TransferEncodingHeader) {
        if version == Http11 {
          var t := TokenEquals(Last(h, TransferEncodingHeader), Identity);
          if t.Err? {
            return None;
          }
          isIdentity := t.value;
        } else {
          h := h - {TransferEncodingHeader};
        }
      } else if version == Http11 && !Has(h, ContentLength) && !NoBodyResponse(requestMethod, responseCode) {
        h := h[TransferEncodingHeader := [Chunked]];
        isIdentity := false;
      }
      var stillPersistent := requestLooksPersistent;
      var code := responseCode;
      var channel: SinkChannel;
      if NoBodyResponse(requestMethod, code) {
        if code == 101 && Has(h, ContentLength) {
          var n := ParseLong(First(h, ContentLength));
          if n.Some? {
            channel := FixedSink(n.value, !stillPersistent, stillPersistent);
          } else {
            stillPersistent := false;
            channel := UnboundedSink;
          }
        } else {
          channel := FixedSink(0, !stillPersistent, stillPersistent);
        }
      } else if !isIdentity {
        channel := ChunkedSink(!stillPersistent, stillPersistent);
      } else if Has(h, ContentLength) {
        var n := ParseLong(First(h, ContentLength));
        if n.Some? {
          channel := FixedSink(n.value, !stillPersistent, stillPersistent);
        } else {
          stillPersistent := false;
          channel := UnboundedSink;
        }
      } else {
        stillPersistent := false;
        channel := UnboundedSink;
      }
      if code != 101 {
        if version == Http11 {
          h := h[Connection := [if stillPersistent then KeepAlive else Close]];
        } else if version == Http10 {
          if stillPersistent {
            h := h[Connection := [KeepAlive]];
          } else {
            h := h - {Connection};
          }
        }
      }
      responseHeaders := h;
      r := Some(channel);
    }

    /** fixedLengthDrainListener (HttpTransferEncodingHandler.java:252-263): terminates the request only when nothing remains. */
    method FixedLengthDrained(remaining: int)
      modifies this`requestTerminated
      ensures requestTerminated == (old(requestTerminated) || remaining <= 0)
    {
      if remaining <= 0 {
        requestTerminated := true;
      }
    }

    /** chunkedDrainListener (HttpTransferEncodingHandler.java:265-275): terminates the request only when the last chunk was read. */
    method ChunkedDrained(finished: bool)
      modifies this`requestTerminated
      ensures requestTerminated == (old(requestTerminated) || finished)
    {
      if finished {
        requestTerminated := true;
      }
    }

    /** terminateResponseListener (HttpTransferEncodingHandler.java:277-283). */
    method ResponseFinished()
      modifies this`responseTerminated
      ensures responseTerminated
    {
      responseTerminated := true;
    }
  }
}
