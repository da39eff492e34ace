/** The loops of src/http.c, proved against HttpRequest and HttpHead. */
module HttpParser {
  import opened Bytes
  import opened ByteRange
  import opened HttpRequest
  import opened HttpHead

  /** valid_header_block_newlines */
  method ValidHeaderBlockNewlines(s: seq<byte>) returns (ok: bool)
    ensures ok <==> ProperNewlines(s)
  {
    var i := 0;
    while i < |s|
      invariant i <= |s| && (i > 0 ==> s[i - 1] != CR)
      invariant forall k :: 0 <= k < i ==> PairedAt(s, k)
    {
      ghost var paired := PairedAt(s, i);
      if s[i] == CR {
        if i + 1 >= |s| || s[i + 1] != LF {
          return false;
        }
        i := i + 1;
      } else if s[i] == LF {
        return false;
      }
      i := i + 1;
    }
    return true;
  }

  /** The two loops of copy_trimmed_value. */
  method TrimValue(s: seq<byte>) returns (r: seq<byte>)
    ensures r == Trim(s)
  {
    var from, to := 0, |s|;
    assert s[0..] == s;
    while from < to && IsBlank(s[from])
      invariant from <= to == |s| && TrimLeft(s) == TrimLeft(s[from..])
    {
      assert s[from..][1..] == s[from + 1..];
      from := from + 1;
    }
    assert s[from..to] == s[from..];
    while from < to && IsBlank(s[to - 1])
      invariant from <= to <= |s| && Trim(s) == TrimRight(s[from..to])
    {
      assert s[from..to][..to - from - 1] == s[from..to - 1];
      to := to - 1;
    }
    return s[from..to];
  }

  /** The port digits of a Host value, given up as soon as they pass 65535. */
  method ReadPort(text: seq<byte>) returns (ok: bool)
    ensures ok <==> ValidPort(text)
  {
    if text == [] {
      return false;
    }
    var port := 0;
    for i := 0 to |text|
      invariant forall k :: 0 <= k < i ==> IsDigit(text[k])
      invariant port == Decimal(text[..i]) <= 65535
    {
      if !IsDigit(text[i]) {
        return false;
      }
      assert text[..i + 1][..i] == text[..i];
      port := port * 10 + DigitValue(text[i]);
      if port > 65535 {
        DecimalMonotone(text, i + 1);
        return false;
      }
    }
    assert text[..|text|] == text;
    return true;
  }

  /** parse_host_value */
  method ParseHostValue(value: seq<byte>) returns (r: Option<seq<byte>>)
    ensures r == ParseHost(value)
  {
    var host := TrimValue(value);
    if host == [] || |host| >= HOST_LEN || !HostChars(host) {
      return None;
    }
    if host[0] == OPEN_BRACKET {
      var end := FindByte(host, CLOSE_BRACKET);
      if end.None? || end.value == 1 {
        return None;
      }
      var rest := host[end.value + 1..];
      if rest != [] {
        if rest[0] != COLON {
          return None;
        }
        var ok := ReadPort(rest[1..]);
        if !ok {
          return None;
        }
      }
      return Some(host[..end.value + 1]);
    }
    var colon := FindByte(host, COLON);
    if colon.None? || COLON in host[colon.value + 1..] {
      return Some(host);
    }
    var ok := ReadPort(host[colon.value + 1..]);
    if !ok || colon.value == 0 {
      return None;
    }
    return Some(host[..colon.value]);
  }

  /** header_token_present */
  method HeaderTokenPresent(value: seq<byte>, token: seq<byte>) returns (found: bool)
    requires token != []
    ensures found <==> HasToken(value, token)
  {
    var cursor := 0;
    while cursor < |value|
      invariant 0 <= cursor <= |value|
      invariant cursor == 0 || cursor == |value| || value[cursor] == COMMA
      invariant forall i, j :: IsElement(value, i, j) && j < cursor ==> !EqualCi(Trim(value[i..j]), token)
      invariant forall i, j :: IsElement(value, i, j) && j == cursor && cursor > 0 ==> !EqualCi(Trim(value[i..j]), token)
      decreases |value| - cursor
    {
      ghost var was := cursor;
      while cursor < |value| && (IsBlank(value[cursor]) || value[cursor] == COMMA)
        invariant was <= cursor <= |value|
        invariant forall k :: was <= k < cursor ==> IsBlank(value[k]) || value[k] == COMMA
      {
        cursor := cursor + 1;
      }
      var start := cursor;
      while cursor < |value| && value[cursor] != COMMA
        invariant start <= cursor <= |value|
        invariant forall k :: start <= k < cursor ==> value[k] != COMMA
      {
        cursor := cursor + 1;
      }
      var element := TrimValue(value[start..cursor]);
      ElementsBetween(value, token, was, start, cursor);
      if EqualCi(element, token) {
        return true;
      }
    }
    return false;
  }

  lemma {:induction false} TrimBlankPrefix(s: seq<byte>, n: nat)
    requires n <= |s| && forall k :: 0 <= k < n ==> IsBlank(s[k])
    ensures Trim(s) == Trim(s[n..])
  {
    if n == 0 {
      assert s[0..] == s;
    } else {
      TrimBlankPrefix(s[1..], n - 1);
      assert s[1..][n - 1..] == s[n..];
    }
  }

  lemma TrimAllBlank(s: seq<byte>)
    requires forall k :: 0 <= k < |s| ==> IsBlank(s[k])
    ensures Trim(s) == []
  {
    TrimBlankPrefix(s, |s|);
  }

  /** The elements that end in the stretch one turn of the loop moves over: blank ones, and the one it looks at. */
  lemma ElementsBetween(value: seq<byte>, token: seq<byte>, was: nat, start: nat, end: nat)
    requires token != [] && was <= start <= end <= |value| && was < |value|
    requires was == 0 || value[was] == COMMA
    requires forall k :: was <= k < start ==> IsBlank(value[k]) || value[k] == COMMA
    requires start < |value| ==> !IsBlank(value[start]) && value[start] != COMMA
    requires forall k :: start <= k < end ==> value[k] != COMMA
    requires end < |value| ==> value[end] == COMMA
    ensures EqualCi(Trim(value[start..end]), token) ==> HasToken(value, token)
    ensures !EqualCi(Trim(value[start..end]), token) ==>
            forall i, j :: IsElement(value, i, j) && j <= end && (was < j || was == 0) ==> !EqualCi(Trim(value[i..j]), token)
  {
    forall i, j | IsElement(value, i, j) && j <= end && (was < j || was == 0)
      ensures EqualCi(Trim(value[i..j]), token) ==> EqualCi(Trim(value[start..end]), token)
    {
      ElementBefore(value, token, was, start, end, i, j);
    }
    var from := ElementStart(value, was, start);
    assert IsElement(value, from, end);
    ElementTrim(value, from, start, end);
  }

  /** Blanks before an element do not count. */
  lemma ElementTrim(value: seq<byte>, i: nat, start: nat, end: nat)
    requires i <= start <= end <= |value| && forall k :: i <= k < start ==> IsBlank(value[k])
    ensures Trim(value[i..end]) == Trim(value[start..end])
  {
    TrimBlankPrefix(value[i..end], start - i);
    assert value[i..end][start - i..] == value[start..end];
  }

  /** An element that ends no later than this one is blank, or it is this one with blanks before it. */
  lemma ElementBefore(value: seq<byte>, token: seq<byte>, was: nat, start: nat, end: nat, i: int, j: int)
    requires token != [] && was <= start <= end <= |value| && was < |value|
    requires was == 0 || value[was] == COMMA
    requires forall k :: was <= k < start ==> IsBlank(value[k]) || value[k] == COMMA
    requires start < |value| ==> !IsBlank(value[start]) && value[start] != COMMA
    requires forall k :: start <= k < end ==> value[k] != COMMA
    requires end < |value| ==> value[end] == COMMA
    requires IsElement(value, i, j) && j <= end && (was < j || was == 0)
    ensures EqualCi(Trim(value[i..j]), token) ==> EqualCi(Trim(value[start..end]), token)
  {
    if j < start {
      TrimAllBlank(value[i..j]);
      assert |LowerAll([])| == 0 && |LowerAll(token)| == |token|;
    } else {
      ElementTrim(value, i, start, j);
    }
  }

  /** The element that contains `start` begins at `from`, with blanks up to `start`. */
  lemma ElementStart(value: seq<byte>, was: nat, start: nat) returns (from: nat)
    requires was <= start <= |value| && was < |value| && (was == 0 || value[was] == COMMA)
    requires forall k :: was <= k < start ==> IsBlank(value[k]) || value[k] == COMMA
    requires was < start || was == 0
    ensures was <= from <= start && (from == 0 || value[from - 1] == COMMA)
    ensures forall k :: from <= k < start ==> IsBlank(value[k]) && value[k] != COMMA
  {
    from := start;
    while from > was && value[from - 1] != COMMA
      invariant was <= from <= start
      invariant forall k :: from <= k < start ==> IsBlank(value[k]) && value[k] != COMMA
    {
      from := from - 1;
    }
  }

  // ---------------------------------------------------------------- header lines

  /**
   `g` reads lines as the server does. The contracts below speak of `g`, so that the framing proofs need not look
   inside the readers.
   */
  ghost predicate IsHttp11(g: Grammar) {
    && (forall l {:trigger ParseRequestLine(l)} :: g.line(l) == ParseRequestLine(l))
    && (forall l {:trigger ReadField(l)} :: g.field(l) == ReadField(l))
    && (forall a, h {:trigger AuthorityMatches(a, h)} :: g.authorityOk(a, h) == AuthorityMatches(a, h))
  }

  /** One header line after the length and count checks. */
  method ReadHeaderLine(line: seq<byte>, ghost g: Grammar) returns (r: Option<Field>)
    requires IsHttp11(g)
    ensures r == g.field(line)
  {
    ghost var answer := ReadField(line);
    var colon := FindByte(line, COLON);
    if colon.None? {
      return None;
    }
    var name, raw := line[..colon.value], line[colon.value + 1..];
    if !ValidToken(name) || !ValidHeaderValue(raw) || |name| >= 128 {
      return None;
    }
    var value := TrimValue(raw);
    r := ReadFieldValue(KindOf(name), value);
  }

  method ReadFieldValue(kind: Kind, value: seq<byte>) returns (r: Option<Field>)
    ensures r == FieldOf(kind, value)
  {
    match kind
    case Host =>
      var h := ParseHostValue(value);
      return if h.None? then None else Some(HostField(h.value));
    case AcceptEncoding => return Some(EncodingField(Truncate(value, ENCODING_LEN)));
    case IfNoneMatch => return Some(NoneMatchField(Truncate(value, VALIDATOR_LEN)));
    case IfModifiedSince => return Some(ModifiedField(Truncate(value, VALIDATOR_LEN)));
    case RangeKind =>
      var spec := ParseRangeSpec(value);
      return if spec.None? then None else Some(RangeField(spec.value));
    case ContentLength =>
      var n := ParseContentLength(value);
      return if n.None? then None else Some(LengthField(n.value));
    case TransferEncoding => return if EqualCi(value, Ascii("chunked")) then Some(TransferField) else None;
    case Connection =>
      var close := HeaderTokenPresent(value, Ascii("close"));
      var keep := HeaderTokenPresent(value, Ascii("keep-alive"));
      var upgrade := HeaderTokenPresent(value, Ascii("upgrade"));
      return Some(ConnectionField(close, keep, upgrade));
    case Upgrade => return Some(UpgradeField(EqualCi(value, Ascii("websocket"))));
    case InternalScheme => return Some(SchemeField(EqualCi(value, Ascii("https"))));
    case TraceKind => return Some(TraceField(EqualCi(value, Ascii("1")) || EqualCi(value, Ascii("true"))));
    case Other => return Some(OtherField);
  }

  method ReadRequestLine(line: seq<byte>, ghost g: Grammar) returns (r: Option<RequestLine>)
    requires IsHttp11(g)
    ensures r == g.line(line)
  {
    r := ParseRequestLine(line);
  }

  // ---------------------------------------------------------------- the header loop

  /** The loop over the lines of `head[from..end]`. */
  method ReadHeaders(head: seq<byte>, from: nat, end: nat, extra: Extra, ghost g: Grammar)
    returns (core: Option<Core>, x: Extra)
    requires from <= end <= |head| && IsHttp11(g)
    ensures core == Fold(g, Split(head[from..end]), NO_CORE)
    ensures core.Some? ==> x == Extras(g, Split(head[from..end]), extra)
  {
    var p, c := from, NO_CORE;
    x := extra;
    while p < end
      invariant from <= p <= end
      invariant Fold(g, Split(head[from..end]), NO_CORE) == Fold(g, Split(head[p..end]), c)
      invariant Extras(g, Split(head[from..end]), extra) == Extras(g, Split(head[p..end]), x)
      decreases end - p
    {
      ghost var rest := head[p..end];
      var n := MemMem(head[p..end], CRLF);
      var next := if n.None? then end else p + n.value;
      var line := head[p..next];
      assert line == if n.None? then rest else rest[..n.value];
      assert n.Some? ==> rest[n.value + 2..] == head[next + 2..end];
      var accepted, x' := ReadLine(line, c, x, g);
      if accepted.None? {
        return None, x;
      }
      c, x := accepted.value, x';
      p := if n.None? then end else next + 2;
    }
    return Some(c), x;
  }

  /** One turn of the loop. */
  method ReadLine(line: seq<byte>, c: Core, x: Extra, ghost g: Grammar) returns (next: Option<Core>, x': Extra)
    requires IsHttp11(g)
    ensures next == Step(g, c, line)
    ensures next.Some? ==>
            x' == if line != [] && g.field(line).Some? then ApplyExtra(x, g.field(line).value) else x
  {
    if |line| >= MAX_LINE {
      return None, x;
    }
    if line == [] {
      return Some(c), x;
    }
    if c.count + 1 > MAX_HEADERS {
      return None, x;
    }
    var field := ReadHeaderLine(line, g);
    if field.None? {
      return None, x;
    }
    return ApplyCore(c.(count := c.count + 1), field.value), ApplyExtra(x, field.value);
  }

  /** rpsiod_http_parse_request */
  method ParseRequest(buf: seq<byte>, ghost g: Grammar) returns (p: Parsed)
    requires IsHttp11(g)
    ensures p == Parse(g, buf)
  {
    var end := MemMem(buf, CRLFCRLF);
    if end.None? {
      return Incomplete;
    }
    p := ReadHead(buf[..end.value + 4], g);
  }

  method ReadHead(head: seq<byte>, ghost g: Grammar) returns (p: Parsed)
    requires 4 <= |head| && IsHttp11(g)
    ensures p == ParseHead(g, head)
  {
    var proper := ValidHeaderBlockNewlines(head);
    if |head| > MAX_HEADER_BLOCK || !proper {
      return Bad;
    }
    var eol := MemMem(head, CRLF);
    if eol.None? || eol.value > MAX_REQUEST_LINE {
      return Bad;
    }
    var line := ReadRequestLine(head[..eol.value], g);
    if line.None? {
      return Bad;
    }
    p := ReadRest(head, eol.value, line.value, g);
  }

  /** The header lines behind the request line. */
  method ReadRest(head: seq<byte>, eol: nat, line: RequestLine, ghost g: Grammar) returns (p: Parsed)
    requires 4 <= |head| && Find(head, CRLF) == Some(eol) && IsHttp11(g)
    ensures var lines := HeaderLines(head, eol);
            var c := Fold(g, lines, NO_CORE);
            p == if c.None? then Bad else Finish(g, line, c.value, Extras(g, lines, InitialExtra(line)), |head|)
  {
    var from := eol + 2;
    var core, x := None, InitialExtra(line);
    if from <= |head| - 4 {
      core, x := ReadHeaders(head, from, |head| - 4, x, g);
    } else {
      core := Some(NO_CORE);
    }
    if core.None? {
      return Bad;
    }
    p := FinishHead(line, core.value, x, |head|, g);
  }

  method FinishHead(line: RequestLine, c: Core, x: Extra, headerLen: nat, ghost g: Grammar) returns (p: Parsed)
    requires IsHttp11(g)
    ensures p == Finish(g, line, c, x, headerLen)
  {
    if c.transfer || c.host.None? {
      return Bad;
    }
    var matches := AuthorityMatches(line.authority, c.host.value);
    if !matches {
      return Bad;
    }
    return Good(Request(line.method_, line.path, c.host.value, line.query, x.acceptEncoding, x.ifNoneMatch,
                        x.ifModifiedSince, headerLen, if c.length.Some? then c.length.value else 0, x.range,
                        x.keepAlive, line.head, x.connectionUpgrade && x.upgradeWebsocket, x.internalHttps,
                        x.traceRequest, line.authority.Some?));
  }
}
