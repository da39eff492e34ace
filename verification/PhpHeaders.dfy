/** The header lines of a CGI head as the server prints them, and what the other side makes of them. */
module PhpHeaders {
  import opened Bytes
  import opened ByteRange
  import opened HttpRequest
  import opened LoopbackHead

  const TRANSFER_ENCODING: seq<byte> := Ascii("Transfer-Encoding")

  /** The names of php_response_header_allowed: the server writes these itself, or does not pass them on. */
  function Refused(): seq<seq<byte>> {
    [TRANSFER_ENCODING, Ascii("Status"), Ascii("Content-Type"), Ascii("Content-Length"), Ascii("Connection"),
     Ascii("Keep-Alive"), Ascii("Proxy-Authenticate"), Ascii("Proxy-Authorization"), Ascii("TE"), Ascii("Trailer"),
     Ascii("Upgrade"), Ascii("Server"), Ascii("Date"), Ascii("Strict-Transport-Security"), Ascii("X-Served-By"),
     Ascii("X-Cache"), Ascii("X-Cache-Hits"), Ascii("X-Timer"), Ascii("X-Request-ID"), Ascii("Alt-Svc")]
  }

  predicate Allowed(name: seq<byte>) {
    forall i :: 0 <= i < |Refused()| ==> !EqualCi(name, Refused()[i])
  }

  function NameOf(line: seq<byte>, colon: nat): seq<byte>
    requires colon < |line|
  {
    TrimQuoted(line[..colon])
  }

  function ValueOf(line: seq<byte>, colon: nat): seq<byte>
    requires colon < |line|
  {
    TrimQuoted(line[colon + 1..])
  }

  /** What append_php_response_headers lets pass; `removed` are the headers the site drops. */
  predicate Passed(name: seq<byte>, value: seq<byte>, removed: seq<byte> -> bool) {
    ValidToken(name) && ValidHeaderValue(value) && Allowed(name) && !removed(name)
  }

  /** One line of the CGI head as it is printed, if it is. */
  function Printed(line: seq<byte>, removed: seq<byte> -> bool): Option<seq<byte>> {
    match FindByte(line, COLON)
    case None => None
    case Some(colon) =>
      var name, value := NameOf(line, colon), ValueOf(line, colon);
      if Passed(name, value, removed) then Some(name + [COLON, SP] + value) else None
  }

  /** A name that kept a pair of quotes. */
  predicate Quoted(name: seq<byte>) {
    |name| >= 2 && name[0] == 39 && name[|name| - 1] == 39
  }

  lemma TokenTrimmed(name: seq<byte>)
    requires ValidToken(name)
    ensures TrimQuoted(name) == if Quoted(name) then name[1..|name| - 1] else name
  {
    assert !IsSpace(name[0]) && !IsSpace(name[|name| - 1]) && name[0] != 34;
    assert SpacesLeft(name) == name && SpacesRight(name) == name;
  }

  lemma PrintedParts(name: seq<byte>, value: seq<byte>)
    requires ValidToken(name)
    ensures var p := name + [COLON, SP] + value;
            FindByte(p, COLON) == Some(|name|) && p[..|name|] == name && p[|name| + 1..] == [SP] + value
  {
    var p := name + [COLON, SP] + value;
    assert p[|name|] == COLON && p[..|name|] == name && p[|name| + 1..] == [SP] + value;
    assert forall k :: 0 <= k < |name| ==> p[k] == name[k] && IsTokenChar(name[k]);
  }

  /** The name kept a second pair of quotes, inside of which it is Transfer-Encoding, and the value has the coding. */
  ghost predicate KeepsCoding(name: seq<byte>, value: seq<byte>) {
    && Quoted(name) && EqualCi(name[1..|name| - 1], TRANSFER_ENCODING)
    && HasCoding(TrimQuoted([SP] + value), Ascii("chunked"))
  }

  /** The exact condition for a printed line to name the chunked coding, which the server means to keep for itself. */
  lemma PrintedNamesIff(line: seq<byte>, removed: seq<byte> -> bool, p: seq<byte>)
    requires Printed(line, removed) == Some(p)
    ensures var colon := FindByte(line, COLON).value;
            NamesChunked(p) <==> KeepsCoding(NameOf(line, colon), ValueOf(line, colon))
  {
    var name, value := PrintedFrom(line, removed, p);
    AllowedIsOther(name);
    PassedNamesIff(name, value, p);
  }

  lemma PrintedFrom(line: seq<byte>, removed: seq<byte> -> bool, p: seq<byte>) returns (name: seq<byte>, value: seq<byte>)
    requires Printed(line, removed) == Some(p)
    ensures var colon := FindByte(line, COLON);
            colon.Some? && name == NameOf(line, colon.value) && value == ValueOf(line, colon.value)
    ensures ValidToken(name) && Allowed(name) && p == name + [COLON, SP] + value
  {
    var colon := FindByte(line, COLON).value;
    name, value := NameOf(line, colon), ValueOf(line, colon);
  }

  lemma PassedNamesIff(name: seq<byte>, value: seq<byte>, line: seq<byte>)
    requires ValidToken(name) && !EqualCi(name, TRANSFER_ENCODING) && line == name + [COLON, SP] + value
    ensures NamesChunked(line) <==> KeepsCoding(name, value)
  {
    PrintedParts(name, value);
    TokenTrimmed(name);
  }

  lemma AllowedIsOther(name: seq<byte>)
    requires Allowed(name)
    ensures !EqualCi(name, TRANSFER_ENCODING)
  {
    assert Refused()[0] == TRANSFER_ENCODING;
  }

  // ---------------------------------------------------------------- an example

  /** ''Transfer-Encoding'': chunked */
  const TWICE_QUOTED: seq<byte> := [39, 39] + TRANSFER_ENCODING + [39, 39, COLON, SP] + Ascii("chunked")

  lemma TwiceQuotedParts()
    ensures FindByte(TWICE_QUOTED, COLON) == Some(21)
    ensures TWICE_QUOTED[..21] == [39] + ([39] + TRANSFER_ENCODING + [39]) + [39]
    ensures TWICE_QUOTED[22..] == [SP] + Ascii("chunked")
  {
    var n := TRANSFER_ENCODING;
    assert |n| == 17;
    assert TWICE_QUOTED[..21] == [39] + ([39] + n + [39]) + [39] && TWICE_QUOTED[22..] == [SP] + Ascii("chunked");
    assert TWICE_QUOTED[21] == COLON && forall k :: 0 <= k < 17 ==> n[k] != COLON;
    assert forall k {:trigger TWICE_QUOTED[k]} :: 2 <= k < 19 ==> TWICE_QUOTED[k] == n[k - 2];
  }

  lemma NameIsToken()
    ensures ValidToken(TRANSFER_ENCODING)
  {
    assert |TRANSFER_ENCODING| == 17;
  }

  lemma QuotedToken(name: seq<byte>)
    requires ValidToken(name)
    ensures ValidToken([39] + name + [39])
  {
    var q := [39] + name + [39];
    assert forall k :: 1 <= k <= |name| ==> q[k] == name[k - 1];
  }

  lemma CodingIsValue()
    ensures ValidHeaderValue(Ascii("chunked"))
  {
    assert |Ascii("chunked")| == 7;
  }

  lemma RefusedAreUnquoted()
    ensures forall i :: 0 <= i < |Refused()| ==> Unquoted(Refused()[i])
  {
  }

  predicate Unquoted(name: seq<byte>) {
    name == [] || Lower(name[0]) != 39
  }

  lemma QuotedDiffers(name: seq<byte>, other: seq<byte>)
    requires name != [] && name[0] == 39 && Unquoted(other)
    ensures !EqualCi(name, other)
  {
    assert LowerAll(name)[0] == 39 && (other != [] ==> LowerAll(other)[0] == Lower(other[0]));
  }

  /** No name that starts with a quote is refused. */
  lemma QuotedIsAllowed(name: seq<byte>)
    requires name != [] && name[0] == 39
    ensures Allowed(name)
  {
    RefusedAreUnquoted();
    forall i | 0 <= i < |Refused()| ensures !EqualCi(name, Refused()[i]) {
      QuotedDiffers(name, Refused()[i]);
    }
  }

  /** The server prints this line with one pair of quotes left, whatever else the site removes. */
  lemma TwiceQuotedIsPrinted(removed: seq<byte> -> bool)
    requires !removed([39] + TRANSFER_ENCODING + [39])
    ensures Printed(TWICE_QUOTED, removed) == Some(QUOTED_LINE)
  {
    var name := [39] + TRANSFER_ENCODING + [39];
    TwiceQuotedParts();
    QuotesComeOff(name);
    ChunkedTrimmed();
    NameIsToken();
    QuotedToken(TRANSFER_ENCODING);
    CodingIsValue();
    QuotedIsAllowed(name);
    assert name + [COLON, SP] + Ascii("chunked") == QUOTED_LINE;
  }
}

/** Which header lines of a CGI head are printed, and how, by their text. */
module PrintedMeaning {
  import opened Bytes
  import opened HttpRequest
  import opened LoopbackHead
  import opened PhpHeaders
  import opened HeaderMeaning
  import opened LoopbackMeaning

  /** Names about the connection and its framing, and those the server prints itself. */
  predicate OwnName(name: seq<byte>) {
    || EqualCi(name, Ascii("Connection")) || EqualCi(name, Ascii("Keep-Alive")) || EqualCi(name, Ascii("Upgrade"))
    || EqualCi(name, Ascii("TE")) || EqualCi(name, Ascii("Trailer")) || EqualCi(name, Ascii("Transfer-Encoding"))
    || EqualCi(name, Ascii("Proxy-Authenticate")) || EqualCi(name, Ascii("Proxy-Authorization"))
    || EqualCi(name, Ascii("Status")) || EqualCi(name, Ascii("Content-Type")) || EqualCi(name, Ascii("Content-Length"))
    || EqualCi(name, Ascii("Server")) || EqualCi(name, Ascii("Date")) || EqualCi(name, Ascii("Strict-Transport-Security"))
    || EqualCi(name, Ascii("X-Served-By")) || EqualCi(name, Ascii("X-Cache")) || EqualCi(name, Ascii("X-Cache-Hits"))
    || EqualCi(name, Ascii("X-Timer")) || EqualCi(name, Ascii("X-Request-ID")) || EqualCi(name, Ascii("Alt-Svc"))
  }

  lemma AllowedIff(name: seq<byte>)
    ensures Allowed(name) <==> !OwnName(name)
  {
    var r := Refused();
    if Allowed(name) {
      assert !EqualCi(name, r[0]) && !EqualCi(name, r[1]) && !EqualCi(name, r[2]) && !EqualCi(name, r[3]) && !EqualCi(name, r[4]);
      assert !EqualCi(name, r[5]) && !EqualCi(name, r[6]) && !EqualCi(name, r[7]) && !EqualCi(name, r[8]) && !EqualCi(name, r[9]);
      assert !EqualCi(name, r[10]) && !EqualCi(name, r[11]) && !EqualCi(name, r[12]) && !EqualCi(name, r[13]);
      assert !EqualCi(name, r[14]) && !EqualCi(name, r[15]) && !EqualCi(name, r[16]) && !EqualCi(name, r[17]);
      assert !EqualCi(name, r[18]) && !EqualCi(name, r[19]);
    }
  }

  /** Trimmed, one pair of quotes aside. */
  ghost predicate Trims(s: seq<byte>, r: seq<byte>) {
    exists a, m, b :: Wraps(s, a, m, b) && r == WithoutQuotes(m)
  }

  /** A line that is passed on with this name and value. */
  ghost predicate PassedOn(line: seq<byte>, left: seq<byte>, right: seq<byte>, name: seq<byte>, value: seq<byte>) {
    && line == left + [58] + right && 58 !in left && Trims(left, name) && Trims(right, value)
    && Token(name) && Printable(value) && !OwnName(name)
  }

  lemma PassedIff(name: seq<byte>, value: seq<byte>, removed: seq<byte> -> bool)
    ensures Passed(name, value, removed) <==> Token(name) && Printable(value) && !OwnName(name) && !removed(name)
  {
    TokenIff(name);
    PrintableIff(value);
    AllowedIff(name);
  }

  lemma PrintedIsPassed(line: seq<byte>, removed: seq<byte> -> bool, p: seq<byte>)
    returns (left: seq<byte>, right: seq<byte>, name: seq<byte>, value: seq<byte>)
    requires Printed(line, removed) == Some(p)
    ensures PassedOn(line, left, right, name, value) && !removed(name) && p == name + Ascii(": ") + value
  {
    var colon := FindByte(line, COLON).value;
    left, right, name, value := line[..colon], line[colon + 1..], NameOf(line, colon), ValueOf(line, colon);
    CutAround(line, colon);
    TrimQuotedIff(left, name);
    TrimQuotedIff(right, value);
    PassedIff(name, value, removed);
    ColonSpace();
  }

  lemma ColonSpace()
    ensures Ascii(": ") == [COLON, SP]
  {
  }

  lemma PassedIsPrinted(line: seq<byte>, removed: seq<byte> -> bool, left: seq<byte>, right: seq<byte>, name: seq<byte>, value: seq<byte>)
    requires PassedOn(line, left, right, name, value) && !removed(name)
    ensures Printed(line, removed) == Some(name + Ascii(": ") + value)
  {
    BehindFirst(line, 58, left, right);
    TrimQuotedIff(left, name);
    TrimQuotedIff(right, value);
    PassedIff(name, value, removed);
    ColonSpace();
  }

  /** The exact meaning of what is printed for a line. */
  lemma PrintedIff(line: seq<byte>, removed: seq<byte> -> bool, p: seq<byte>)
    ensures Printed(line, removed) == Some(p) <==>
            exists left, right, name, value ::
              PassedOn(line, left, right, name, value) && !removed(name) && p == name + Ascii(": ") + value
  {
    if Printed(line, removed) == Some(p) {
      var left, right, name, value := PrintedIsPassed(line, removed, p);
    }
    if left, right, name, value :| PassedOn(line, left, right, name, value) && !removed(name) && p == name + Ascii(": ") + value {
      PassedIsPrinted(line, removed, left, right, name, value);
    }
  }
}
