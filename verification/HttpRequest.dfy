/** HTTP/1.1 request heads (src/http.c): the meaning of each line, and of the whole block. */
module HttpRequest {
  import opened Bytes
  import opened ByteRange

  const METHOD_LEN: nat := 16
  const PATH_LEN: nat := 2048
  const HOST_LEN: nat := 256
  const ENCODING_LEN: nat := 256
  const VALIDATOR_LEN: nat := 256
  const MAX_HEADER_BLOCK: nat := 16384
  const MAX_REQUEST_LINE: nat := 2048
  const MAX_LINE: nat := 1024
  const MAX_HEADERS: nat := 100

  /** rpsiod_http_request */
  datatype Request = Request(
    method_: seq<byte>, path: seq<byte>, host: seq<byte>, query: seq<byte>,
    acceptEncoding: seq<byte>, ifNoneMatch: seq<byte>, ifModifiedSince: seq<byte>,
    headerLen: nat, contentLength: nat, range: Range,
    keepAlive: bool, headOnly: bool, upgradeWebsocket: bool, internalHttps: bool, traceRequest: bool,
    absoluteForm: bool)

  /** 0, -1 and 1 of rpsiod_http_parse_request */
  datatype Parsed = Incomplete | Bad | Good(req: Request)

  // ---------------------------------------------------------------- characters

  predicate IsTokenChar(b: byte) {
    IsDigit(b) || 65 <= b <= 90 || 97 <= b <= 122 ||
    b in [33, 35, 36, 37, 38, 39, 42, 43, 45, 46, 94, 95, 96, 124, 126]
  }

  predicate ValidToken(s: seq<byte>) {
    s != [] && forall i :: 0 <= i < |s| ==> IsTokenChar(s[i])
  }

  predicate ValidHeaderValue(s: seq<byte>) {
    forall i :: 0 <= i < |s| ==> (s[i] >= 32 || s[i] == TAB) && s[i] != 127
  }

  /** A CR at `i` is followed by LF, and an LF at `i` is preceded by CR. */
  predicate PairedAt(s: seq<byte>, i: nat)
    requires i < |s|
  {
    (s[i] == CR ==> i + 1 < |s| && s[i + 1] == LF) && (s[i] == LF ==> i > 0 && s[i - 1] == CR)
  }

  predicate ProperNewlines(s: seq<byte>) {
    forall i :: 0 <= i < |s| ==> PairedAt(s, i)
  }

  // ---------------------------------------------------------------- Host

  predicate ValidPort(text: seq<byte>) {
    text != [] && AllDigits(text) && Decimal(text) <= 65535
  }

  predicate HostChars(s: seq<byte>) {
    forall i :: 0 <= i < |s| ==> 32 < s[i] < 127 && s[i] != SLASH && s[i] != 92
  }

  const OPEN_BRACKET: byte := 91
  const CLOSE_BRACKET: byte := 93

  /** parse_host_value: the host without its port. */
  function ParseHost(value: seq<byte>): (r: Option<seq<byte>>)
    ensures r.Some? ==> 0 < |r.value| < HOST_LEN && HostChars(r.value)
  {
    var host := Trim(value);
    if host == [] || |host| >= HOST_LEN || !HostChars(host) then None
    else if host[0] == OPEN_BRACKET then
      var end := FindByte(host, CLOSE_BRACKET);
      if end.None? || end.value == 1 then None
      else
        var rest := host[end.value + 1..];
        if rest != [] && !(rest[0] == COLON && ValidPort(rest[1..])) then None else Some(host[..end.value + 1])
    else
      var colon := FindByte(host, COLON);
      if colon.None? || COLON in host[colon.value + 1..] then Some(host)
      else if !ValidPort(host[colon.value + 1..]) || colon.value == 0 then None
      else Some(host[..colon.value])
  }

  // ---------------------------------------------------------------- request line

  const QUESTION: byte := 63

  function ParseTarget(target: seq<byte>): Option<(seq<byte>, Option<seq<byte>>)> {
    if target == [] || |target| >= PATH_LEN || exists i :: 0 <= i < |target| && (target[i] <= 32 || target[i] == 127)
    then None
    else
      var http, https := Ascii("http://"), Ascii("https://");
      if http <= LowerAll(target) || https <= LowerAll(target) then
        var after := target[if target[4] == COLON then 7 else 8..];
        var slash := FindByte(after, SLASH);
        var authority := if slash.Some? then after[..slash.value] else after;
        if authority == [] || |authority| >= HOST_LEN then None
        else Some((if slash.Some? then after[slash.value..] else [SLASH], Some(authority)))
      else if target[0] != SLASH then None
      else Some((target, None))
  }

  datatype RequestLine = RequestLine(
    method_: seq<byte>, path: seq<byte>, query: seq<byte>, head: bool, authority: Option<seq<byte>>, http11: bool)

  /** The part of the path after the first '?'. */
  function Query(path: seq<byte>): seq<byte> {
    var q := FindByte(path, QUESTION);
    if q.Some? then Truncate(path[q.value + 1..], PATH_LEN) else []
  }

  function ParseRequestLine(line: seq<byte>): Option<RequestLine> {
    if line == [] || exists i :: 0 <= i < |line| && (line[i] < 32 || line[i] == 127) then None
    else
      var first := FindByte(line, SP);
      if first.None? then None
      else
        var rest := line[first.value + 1..];
        var second := FindByte(rest, SP);
        if second.None? then None
        else
          var method_, version := line[..first.value], rest[second.value + 1..];
          if SP in version || version == [] || |version| >= 32 || !ValidToken(method_) || |method_| >= METHOD_LEN then None
          else if !EqualCi(version, Ascii("HTTP/1.0")) && !EqualCi(version, Ascii("HTTP/1.1")) then None
          else
            var target := ParseTarget(rest[..second.value]);
            if target.None? then None
            else Some(RequestLine(method_, target.value.0, Query(target.value.0), EqualCi(method_, Ascii("HEAD")),
                                  target.value.1, EqualCi(version, Ascii("HTTP/1.1"))))
  }

  // ---------------------------------------------------------------- header lines

  datatype Kind =
    | Host | AcceptEncoding | IfNoneMatch | IfModifiedSince | RangeKind | ContentLength | TransferEncoding
    | Connection | Upgrade | InternalScheme | TraceKind | Other

  function KindOf(name: seq<byte>): Kind {
    if EqualCi(name, Ascii("Host")) then Host
    else if EqualCi(name, Ascii("Accept-Encoding")) then AcceptEncoding
    else if EqualCi(name, Ascii("If-None-Match")) then IfNoneMatch
    else if EqualCi(name, Ascii("If-Modified-Since")) then IfModifiedSince
    else if EqualCi(name, Ascii("Range")) then RangeKind
    else if EqualCi(name, Ascii("Content-Length")) then ContentLength
    else if EqualCi(name, Ascii("Transfer-Encoding")) then TransferEncoding
    else if EqualCi(name, Ascii("Connection")) then Connection
    else if EqualCi(name, Ascii("Upgrade")) then Upgrade
    else if EqualCi(name, Ascii("X-Rpsiod-Internal-Scheme")) then InternalScheme
    else if EqualCi(name, Ascii("X-Rpsiod-Trace")) then TraceKind
    else Other
  }

  /** parse_content_length */
  function ParseContentLength(value: seq<byte>): Option<nat> {
    if value == [] || !AllDigits(value) || Decimal(value) > ULLONG_MAX then None else Some(Decimal(value))
  }

  /** A comma-separated element of `value` equals `token`, blanks around it aside. */
  ghost predicate HasToken(value: seq<byte>, token: seq<byte>) {
    exists i, j :: IsElement(value, i, j) && EqualCi(Trim(value[i..j]), token)
  }

  ghost predicate IsElement(value: seq<byte>, i: int, j: int) {
    && 0 <= i <= j <= |value|
    && (i == 0 || value[i - 1] == COMMA) && (j == |value| || value[j] == COMMA)
    && forall k :: i <= k < j ==> value[k] != COMMA
  }

  /** What one header line says. */
  datatype Field =
    | HostField(host: seq<byte>)
    | LengthField(length: nat)
    | TransferField
    | RangeField(spec: RangeSpec)
    | ConnectionField(close: bool, keepAlive: bool, upgrade: bool)
    | UpgradeField(websocket: bool)
    | SchemeField(https: bool)
    | TraceField(on: bool)
    | EncodingField(text: seq<byte>)
    | NoneMatchField(text: seq<byte>)
    | ModifiedField(text: seq<byte>)
    | OtherField

  /** The field a name and a trimmed value make, unless the value is unacceptable for that name. */
  ghost function FieldOf(kind: Kind, value: seq<byte>): Option<Field> {
    match kind
    case Host => var h := ParseHost(value); if h.None? then None else Some(HostField(h.value))
    case AcceptEncoding => Some(EncodingField(Truncate(value, ENCODING_LEN)))
    case IfNoneMatch => Some(NoneMatchField(Truncate(value, VALIDATOR_LEN)))
    case IfModifiedSince => Some(ModifiedField(Truncate(value, VALIDATOR_LEN)))
    case RangeKind => var r := ParseRangeSpec(value); if r.None? then None else Some(RangeField(r.value))
    case ContentLength => var n := ParseContentLength(value); if n.None? then None else Some(LengthField(n.value))
    case TransferEncoding => if EqualCi(value, Ascii("chunked")) then Some(TransferField) else None
    case Connection =>
      Some(ConnectionField(HasToken(value, Ascii("close")), HasToken(value, Ascii("keep-alive")),
                           HasToken(value, Ascii("upgrade"))))
    case Upgrade => Some(UpgradeField(EqualCi(value, Ascii("websocket"))))
    case InternalScheme => Some(SchemeField(EqualCi(value, Ascii("https"))))
    case TraceKind => Some(TraceField(EqualCi(value, Ascii("1")) || EqualCi(value, Ascii("true"))))
    case Other => Some(OtherField)
  }

  /** A header line: token, colon, value without control characters. */
  ghost function ReadField(line: seq<byte>): Option<Field> {
    var colon := FindByte(line, COLON);
    if colon.None? then None
    else
      var name, raw := line[..colon.value], line[colon.value + 1..];
      if !ValidToken(name) || |name| >= 128 || !ValidHeaderValue(raw) then None
      else FieldOf(KindOf(name), Trim(raw))
  }

  /** authority_matches_host */
  predicate AuthorityMatches(authority: Option<seq<byte>>, host: seq<byte>) {
    authority.Some? ==>
      var a, h := ParseHost(authority.value), ParseHost(host);
      a.Some? && h.Some? && EqualCi(a.value, h.value)
  }
}

/**
 The shape of a request head, for any way of reading its lines. The loop over the header lines, the order of
 the checks and the framing do not depend on what the lines mean.
 */
module HttpHead {
  import opened Bytes
  import opened ByteRange
  import opened HttpRequest

  datatype Grammar = Grammar(
    line: seq<byte> -> Option<RequestLine>,
    field: seq<byte> -> Option<Field>,
    authorityOk: (Option<seq<byte>>, seq<byte>) -> bool)

  /** The server's grammar. */
  ghost function Http11(): Grammar {
    Grammar(ParseRequestLine, ReadField, AuthorityMatches)
  }

  /** What decides acceptance and framing: the Host, the body length, Transfer-Encoding, the number of fields. */
  datatype Core = Core(host: Option<seq<byte>>, length: Option<nat>, transfer: bool, count: nat)

  /** The other things the header loop collects. */
  datatype Extra = Extra(
    range: Range, keepAlive: bool, connectionUpgrade: bool, upgradeWebsocket: bool, internalHttps: bool,
    traceRequest: bool, acceptEncoding: seq<byte>, ifNoneMatch: seq<byte>, ifModifiedSince: seq<byte>)

  /** One field applied; refused on a second Host and on a different Content-Length. */
  function ApplyCore(c: Core, f: Field): Option<Core> {
    match f
    case HostField(h) => if c.host.Some? then None else Some(c.(host := Some(h)))
    case LengthField(n) => if c.length.Some? && n != c.length.value then None else Some(c.(length := Some(n)))
    case TransferField => Some(c.(transfer := true))
    case _ => Some(c)
  }

  function ApplyExtra(x: Extra, f: Field): Extra {
    match f
    case RangeField(spec) => x.(range := SetRange(spec, x.range))
    case ConnectionField(close, keep, upgrade) =>
      x.(keepAlive := !close && (keep || x.keepAlive), connectionUpgrade := upgrade || x.connectionUpgrade)
    case UpgradeField(ws) => x.(upgradeWebsocket := ws || x.upgradeWebsocket)
    case SchemeField(https) => x.(internalHttps := https || x.internalHttps)
    case TraceField(on) => x.(traceRequest := on)
    case EncodingField(v) => x.(acceptEncoding := v)
    case NoneMatchField(v) => x.(ifNoneMatch := v)
    case ModifiedField(v) => x.(ifModifiedSince := v)
    case _ => x
  }

  /** Header lines in order. */
  datatype Lines = NoLines | Line(text: seq<byte>, more: Lines)

  /** The CRLF-separated lines of a header section. */
  ghost function Split(s: seq<byte>): Lines
    decreases |s|
  {
    if s == [] then NoLines
    else
      match Find(s, CRLF)
      case None => Line(s, NoLines)
      case Some(n) => Line(s[..n], Split(s[n + 2..]))
  }

  ghost function Step(g: Grammar, c: Core, line: seq<byte>): Option<Core> {
    if |line| >= MAX_LINE then None
    else if line == [] then Some(c)
    else if c.count >= MAX_HEADERS then None
    else
      var f := g.field(line);
      if f.None? then None else ApplyCore(c.(count := c.count + 1), f.value)
  }

  ghost function Fold(g: Grammar, lines: Lines, c: Core): Option<Core> {
    match lines
    case NoLines => Some(c)
    case Line(text, more) =>
      var next := Step(g, c, text);
      if next.None? then None else Fold(g, more, next.value)
  }

  ghost function Extras(g: Grammar, lines: Lines, x: Extra): Extra {
    match lines
    case NoLines => x
    case Line(text, more) =>
      var f := g.field(text);
      Extras(g, more, if text != [] && f.Some? then ApplyExtra(x, f.value) else x)
  }

  const NO_CORE := Core(None, None, false, 0)

  function InitialExtra(line: RequestLine): Extra {
    Extra(NO_RANGE, line.http11, false, false, false, false, [], [], [])
  }

  /** The checks after the last header, and the request they let through. */
  ghost function Finish(g: Grammar, line: RequestLine, c: Core, x: Extra, headerLen: nat): (p: Parsed)
    ensures p != Incomplete
  {
    if c.transfer || c.host.None? || !g.authorityOk(line.authority, c.host.value) then Bad
    else
      Good(Request(line.method_, line.path, c.host.value, line.query, x.acceptEncoding, x.ifNoneMatch,
                   x.ifModifiedSince, headerLen, if c.length.Some? then c.length.value else 0, x.range, x.keepAlive,
                   line.head, x.connectionUpgrade && x.upgradeWebsocket, x.internalHttps, x.traceRequest,
                   line.authority.Some?))
  }

  /** The lines between the request line and the empty line. */
  ghost function HeaderLines(head: seq<byte>, eol: nat): Lines
    requires 4 <= |head| && eol <= |head|
  {
    Split(if eol + 2 <= |head| - 4 then head[eol + 2..|head| - 4] else [])
  }

  /** A complete head, empty line included. */
  ghost function ParseHead(g: Grammar, head: seq<byte>): (p: Parsed)
    requires 4 <= |head|
    ensures p != Incomplete
  {
    var eol := Find(head, CRLF);
    if |head| > MAX_HEADER_BLOCK || !ProperNewlines(head) || eol.None? || eol.value > MAX_REQUEST_LINE then Bad
    else
      var line := g.line(head[..eol.value]);
      if line.None? then Bad
      else
        var lines := HeaderLines(head, eol.value);
        var c := Fold(g, lines, NO_CORE);
        if c.None? then Bad
        else Finish(g, line.value, c.value, Extras(g, lines, InitialExtra(line.value)), |head|)
  }

  /** rpsiod_http_parse_request */
  ghost function Parse(g: Grammar, buf: seq<byte>): Parsed {
    match Find(buf, CRLFCRLF)
    case None => Incomplete
    case Some(n) => ParseHead(g, buf[..n + 4])
  }
}
