/** The parser record of http_parser.h, its enumerations and the character tables. */
module HttpTypes {
  import opened Bytes

  const ULLONG_MAX: nat := 0xFFFF_FFFF_FFFF_FFFF
  const HTTP_MAX_HEADER_SIZE: nat := 80 * 1024

  const CR: byte := '\r'
  const LF: byte := '\n'

  datatype State =
    | Dead
    | StartReqOrRes | ResOrRespH | StartRes | ResH | ResHT | ResHTT | ResHTTP
    | ResFirstHttpMajor | ResHttpMajor | ResFirstHttpMinor | ResHttpMinor
    | ResFirstStatusCode | ResStatusCode | ResStatusStart | ResStatus | ResLineAlmostDone
    | StartReq
    | ReqMethod | ReqSpacesBeforeUrl
    | ReqSchema | ReqSchemaSlash | ReqSchemaSlashSlash | ReqServerStart | ReqServer | ReqServerWithAt
    | ReqPath | ReqQueryStringStart | ReqQueryString | ReqFragmentStart | ReqFragment
    | ReqHttpStart | ReqHttpH | ReqHttpHT | ReqHttpHTT | ReqHttpHTTP
    | ReqFirstHttpMajor | ReqHttpMajor | ReqFirstHttpMinor | ReqHttpMinor | ReqLineAlmostDone
    | HeaderFieldStart | HeaderField
    | HeaderValueDiscardWs | HeaderValueDiscardWsAlmostDone | HeaderValueDiscardLws
    | HeaderValueStart | HeaderValue | HeaderValueLws | HeaderAlmostDone
    | ChunkSizeStart | ChunkSize | ChunkParameters | ChunkSizeAlmostDone
    | HeadersAlmostDone | HeadersDone
    | ChunkData | ChunkDataAlmostDone | ChunkDataDone
    | BodyIdentity | BodyIdentityEof
    | MessageDone

  /** PARSING_HEADER: the states up to `HeadersDone`, which count towards the header size. */
  predicate ParsingHeader(s: State) {
    !s.ChunkData? && !s.ChunkDataAlmostDone? && !s.ChunkDataDone?
    && !s.BodyIdentity? && !s.BodyIdentityEof? && !s.MessageDone?
  }

  /** The states in which a buffer may end, or start, inside the URL. */
  predicate InUrl(s: State) {
    s.ReqSchema? || s.ReqSchemaSlash? || s.ReqSchemaSlashSlash? || s.ReqServerStart? || s.ReqServer?
    || s.ReqServerWithAt? || s.ReqPath? || s.ReqQueryStringStart? || s.ReqQueryString?
    || s.ReqFragmentStart? || s.ReqFragment?
  }

  datatype HState =
    | General | C | CO | CON
    | MatchingConnection | MatchingProxyConnection | MatchingContentLength
    | MatchingTransferEncoding | MatchingUpgrade
    | Connection | ContentLength | TransferEncoding | Upgrade
    | MatchingTransferEncodingChunked
    | MatchingConnectionTokenStart | MatchingConnectionKeepAlive | MatchingConnectionClose
    | MatchingConnectionUpgrade | MatchingConnectionToken
    | TransferEncodingChunked | ConnectionKeepAlive | ConnectionClose | ConnectionUpgrade

  datatype ParserType = Request | Response | Both

  datatype Flags = Flags(
    chunked: bool, keepAlive: bool, close: bool, connectionUpgrade: bool,
    trailing: bool, upgrade: bool, skipBody: bool, contentLength: bool)

  const NO_FLAGS := Flags(false, false, false, false, false, false, false, false)

  datatype Errno =
    | Ok
    | CbHeadersComplete
    | InvalidEofState | HeaderOverflow | ClosedConnection | InvalidVersion | InvalidStatus
    | InvalidMethod | InvalidUrl | LfExpected | InvalidHeaderToken | InvalidContentLength
    | UnexpectedContentLength | InvalidChunkSize | InvalidConstant | Strict

  datatype Method =
    | DELETE | GET | HEAD | POST | PUT | CONNECT | OPTIONS | TRACE
    | COPY | LOCK | MKCOL | MOVE | PROPFIND | PROPPATCH | SEARCH | UNLOCK | BIND | REBIND | UNBIND | ACL
    | REPORT | MKACTIVITY | CHECKOUT | MERGE
    | MSEARCH | NOTIFY | SUBSCRIBE | UNSUBSCRIBE
    | PATCH | PURGE | MKCALENDAR | LINK | UNLINK

  function MethodString(m: Method): bytes {
    match m
    case DELETE => "DELETE" case GET => "GET" case HEAD => "HEAD" case POST => "POST"
    case PUT => "PUT" case CONNECT => "CONNECT" case OPTIONS => "OPTIONS" case TRACE => "TRACE"
    case COPY => "COPY" case LOCK => "LOCK" case MKCOL => "MKCOL" case MOVE => "MOVE"
    case PROPFIND => "PROPFIND" case PROPPATCH => "PROPPATCH" case SEARCH => "SEARCH"
    case UNLOCK => "UNLOCK" case BIND => "BIND" case REBIND => "REBIND" case UNBIND => "UNBIND"
    case ACL => "ACL" case REPORT => "REPORT" case MKACTIVITY => "MKACTIVITY"
    case CHECKOUT => "CHECKOUT" case MERGE => "MERGE" case MSEARCH => "M-SEARCH"
    case NOTIFY => "NOTIFY" case SUBSCRIBE => "SUBSCRIBE" case UNSUBSCRIBE => "UNSUBSCRIBE"
    case PATCH => "PATCH" case PURGE => "PURGE" case MKCALENDAR => "MKCALENDAR"
    case LINK => "LINK" case UNLINK => "UNLINK"
  }

  /** The fields of `struct http_parser`, apart from the header-size counter `nread`. */
  datatype Parser = Parser(
    ptype: ParserType, flags: Flags, state: State, hstate: HState, index: nat, lenient: bool,
    contentLength: nat, major: nat, minor: nat, status: nat, verb: Method,
    errno: Errno, upgrade: bool)

  /** `http_parser_init` (lines 2144-2153); the caller may set `lenient` afterwards. */
  function Init(t: ParserType, lenient: bool): Parser {
    Parser(t, NO_FLAGS,
           match t case Request => StartReq case Response => StartRes case Both => StartReqOrRes,
           General, 0, lenient, 0, 0, 0, 0, DELETE, Ok, false)
  }

  datatype DataKind = OnUrl | OnStatus | OnHeaderField | OnHeaderValue | OnBody

  datatype Notification =
    OnMessageBegin | OnHeadersComplete | OnMessageComplete | OnChunkHeader | OnChunkComplete

  /** What a callback sees: a notification sees the parser, a data callback sees bytes. */
  datatype Event =
    | Notify(what: Notification, seen: Parser)
    | Data(kind: DataKind, run: bytes)

  /** What `on_headers_complete` returns: 0, 1, 2, or anything else. */
  datatype HeadersAnswer = Proceed | SkipBody | SkipBodyAndUpgrade | Refuse

  // Character classes

  function Lower(c: byte): byte {
    if (c as int / 32) % 2 == 1 then c else (c as int + 32) as char
  }

  predicate IsAlpha(c: byte) {
    'a' <= Lower(c) <= 'z'
  }

  predicate IsAlphaNum(c: byte) {
    IsAlpha(c) || IsDigit(c)
  }

  predicate IsMark(c: byte) {
    c == '-' || c == '_' || c == '.' || c == '!' || c == '~' || c == '*' || c == '\'' || c == '(' || c == ')'
  }

  predicate IsUserinfoChar(c: byte) {
    IsAlphaNum(c) || IsMark(c) || c == '%' || c == ';' || c == ':' || c == '&' || c == '=' || c == '+'
    || c == '$' || c == ','
  }

  /** The strict `normal_url_char` table: visible ASCII without `#` and `?`. */
  predicate IsUrlChar(c: byte) {
    '!' <= c <= '~' && c != '#' && c != '?'
  }

  /** The `tokens` table: 0 for a separator or control, else the lower-case character. */
  function Token(c: byte): byte {
    if IsAlpha(c) then Lower(c)
    else if IsDigit(c) || c == '!' || c == '#' || c == '$' || c == '%' || c == '&' || c == '\'' || c == '*'
         || c == '+' || c == '-' || c == '.' || c == '^' || c == '_' || c == '`' || c == '|' || c == '~' then c
    else '\0'
  }

  predicate IsHeaderChar(c: byte) {
    c == CR || c == LF || c == '\t' || (c as int > 31 && c as int != 127)
  }

  /** The `unhex` table; -1 for an ASCII byte that is not a hexadecimal digit. */
  function Unhex(c: byte): (v: int)
    ensures -1 <= v < 16
  {
    if c as int >= 128 then 0   // the initializer stops at 127: the rest of the table is 0
    else if IsDigit(c) then DigitValue(c)
    else if 'a' <= c <= 'f' then c as int - 'a' as int + 10
    else if 'A' <= c <= 'F' then c as int - 'A' as int + 10
    else -1
  }
}
