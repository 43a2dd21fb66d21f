/**
 * The mutable objects the HTTP request parser works on: the ByteBuffer it
 * reads from, the ParseState that carries a suspended parse from one
 * buffer to the next, and the parts of HttpServerExchange the parser fills
 * in.  ParseState.java and HttpServerExchange.java are not part of this
 * model; their fields are the ones HttpRequestParser and the generated
 * matcher read and write.
 */
module ParseStates {
  import opened Octets

  // The values of ParseState.state (RequestParserGenerator.java:21-28).
  const Verb: int := 0
  const Path: int := 1
  const PathParameters: int := 2
  /** QUERY_STRING in the generator, QUERY_PARAMETERS in the parser. */
  const QueryParameters: int := 3
  const Version: int := 4
  const AfterVersion: int := 5
  const Header: int := 6
  const HeaderValue: int := 7
  /** ParseState.PARSE_COMPLETE: taken as the value after HEADER_VALUE. */
  const ParseComplete: int := 8

  /** The unconsumed part of a java.nio.ByteBuffer: the bytes up to its limit and the read position. */
  class ByteBuffer {
    const data: seq<Byte>
    var position: nat

    predicate Valid()
      reads this
    {
      position <= |data|
    }

    constructor (data: seq<Byte>)
      ensures Valid() && this.data == data && position == 0
    {
      this.data := data;
      position := 0;
    }

    predicate HasRemaining()
      reads this
    {
      position < |data|
    }

    /** The bytes get() will return from here on. */
    function Rest(): (r: seq<Byte>)
      reads this
      requires Valid()
      ensures |r| == |data| - position
    {
      data[position..]
    }

    /** ByteBuffer.get(): the next byte, as Java's signed byte. */
    method Get() returns (b: int)
      requires Valid() && HasRemaining()
      modifies this`position
      ensures Valid() && position == old(position) + 1
      ensures b == Signed(data[old(position)])
    {
      b := Signed(data[position]);
      position := position + 1;
    }

    /** ByteBuffer.position(int). */
    method SetPosition(p: nat)
      requires p <= |data|
      modifies this`position
      ensures Valid() && position == p
    {
      position := p;
    }
  }

  /** The fields of ParseState that the parser reads and writes. */
  class ParseState {
    var state: int
    var parseState: int
    var pos: int
    var stringBuilder: string
    var urlDecodeRequired: bool
    var mapCount: int
    var nextQueryParam: Option<string>
    var nextHeader: Option<seq<Byte>>
    /** A byte read ahead by one sub-parser for the next one, 0 when there is none. */
    var leftOver: int
    /** The interned token the matcher is prefix-matching against, and that token's bytes. */
    var current: Option<string>
    var currentBytes: Option<seq<int>>

    /** A fresh ParseState: every field at its Java default. */
    constructor ()
      ensures state == Verb && parseState == 0 && pos == 0 && stringBuilder == ""
      ensures !urlDecodeRequired && mapCount == 0 && nextQueryParam == None && nextHeader == None
      ensures leftOver == 0 && current == None && currentBytes == None
    {
      state := Verb;
      parseState := 0;
      pos := 0;
      stringBuilder := "";
      urlDecodeRequired := false;
      mapCount := 0;
      nextQueryParam := None;
      nextHeader := None;
      leftOver := 0;
      current := None;
      currentBytes := None;
    }

    /** ParseState.parseComplete(): the request head has been read. */
    method MarkComplete()
      modifies this`state
      ensures state == ParseComplete
    {
      state := ParseComplete;
    }
  }

  /** One request header as HeaderMap.add receives it: the name is ParseState.nextHeader, null included. */
  datatype HeaderEntry = HeaderEntry(name: Option<seq<Byte>>, value: seq<Byte>)

  /** A query or path parameter as addQueryParam / addPathParam receive it. */
  datatype Param = Param(name: string, value: string)

  /** The request line and headers as HttpServerExchange records them. */
  class Exchange {
    var requestMethod: Option<seq<Byte>>
    var protocol: Option<seq<Byte>>
    var requestPath: string
    var relativePath: string
    var requestURI: string
    /** The second argument of setRequestURI: whether the URI was in absolute form. */
    var uriIsAbsolute: bool
    var queryString: string
    var queryParams: seq<Param>
    var pathParams: seq<Param>
    var requestHeaders: seq<HeaderEntry>

    constructor ()
      ensures requestMethod == None && protocol == None
      ensures requestPath == "" && relativePath == "" && requestURI == "" && !uriIsAbsolute && queryString == ""
      ensures queryParams == [] && pathParams == [] && requestHeaders == []
    {
      requestMethod := None;
      protocol := None;
      requestPath := "";
      relativePath := "";
      requestURI := "";
      uriIsAbsolute := false;
      queryString := "";
      queryParams := [];
      pathParams := [];
      requestHeaders := [];
    }
  }

  /** Every field of a ParseState, as a value. */
  datatype PS = PS(state: int, parseState: int, pos: int, builder: string, urlDecodeRequired: bool,
                   mapCount: int, nextQueryParam: Option<string>, nextHeader: Option<seq<Byte>>,
                   leftOver: int, current: Option<string>, currentBytes: Option<seq<int>>)

  function Snapshot(st: ParseState): PS
    reads st
  {
    PS(st.state, st.parseState, st.pos, st.stringBuilder, st.urlDecodeRequired, st.mapCount,
       st.nextQueryParam, st.nextHeader, st.leftOver, st.current, st.currentBytes)
  }

  /** Every field of an Exchange, as a value. */
  datatype ExData = ExData(requestMethod: Option<seq<Byte>>, protocol: Option<seq<Byte>>,
                           requestPath: string, relativePath: string, requestURI: string,
                           uriIsAbsolute: bool, queryString: string, queryParams: seq<Param>,
                           pathParams: seq<Param>, requestHeaders: seq<HeaderEntry>)

  function DataOf(ex: Exchange): ExData
    reads ex
  {
    ExData(ex.requestMethod, ex.protocol, ex.requestPath, ex.relativePath, ex.requestURI,
           ex.uriIsAbsolute, ex.queryString, ex.queryParams, ex.pathParams, ex.requestHeaders)
  }

  /**
   * The exceptions the parser throws: failedToParsePath, tooManyQueryParameters,
   * tooManyHeaders and badRequest from UndertowMessages; the generated
   * matcher's RuntimeException("Invalid character") for a parseState no
   * tableswitch slot stands for; IllegalArgumentException from
   * new HttpString(String) on a char above 0xFF; and
   * StringIndexOutOfBoundsException from substring.
   */
  datatype ParseError = FailedToParsePath | TooManyQueryParameters | TooManyHeaders | BadRequest
                      | InvalidCharacter | IllegalCharacter | IndexOutOfBounds

  /**
   * What one call of a handler did to the ParseState and the Exchange, how
   * many bytes of the buffer it read, and the exception it threw if any.
   */
  datatype Ran = Ran(ps: PS, ex: ExData, used: nat, error: Option<ParseError>)

  /** A run that started k bytes further on. */
  function Later(r: Ran, k: nat): Ran {
    r.(used := r.used + k)
  }

  /** The parser's options: MAX_PARAMETERS, MAX_HEADERS, ALLOW_ENCODED_SLASH, DECODE_URL, and URLUtils.decode with URL_CHARSET bound in. */
  datatype Config = Config(maxParameters: int, maxHeaders: int, allowEncodedSlash: bool, decodeUrl: bool,
                           urlDecode: (string, bool) -> string)
}
