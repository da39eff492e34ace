/** What the header lines of a request mean, by their names and values, and what a parsed head says about its lines. */
module HeaderMeaning {
  import opened Bytes
  import opened ByteRange
  import opened HttpRequest
  import opened Text

  // ---------------------------------------------------------------- names and values

  /** tchar of section 5.6.2 of RFC 9110 */
  predicate TChar(c: char) {
    c in "!#$%&'*+-.^_`|~" || '0' <= c <= '9' || 'A' <= c <= 'Z' || 'a' <= c <= 'z'
  }

  predicate Token(s: seq<byte>) {
    s != [] && forall i :: 0 <= i < |s| ==> TChar(s[i] as char)
  }

  /** No control characters but the tab. */
  predicate Printable(s: seq<byte>) {
    forall i :: 0 <= i < |s| ==> s[i] == 9 || (32 <= s[i] && s[i] != 127)
  }

  lemma TokenCharIff(b: byte)
    ensures IsTokenChar(b) <==> TChar(b as char)
  {
    var t := "!#$%&'*+-.^_`|~";
    assert t[0] == '!' && t[1] == '#' && t[2] == '$' && t[3] == '%' && t[4] == '&';
    assert t[5] == '\'' && t[6] == '*' && t[7] == '+' && t[8] == '-' && t[9] == '.';
    assert t[10] == '^' && t[11] == '_' && t[12] == '`' && t[13] == '|' && t[14] == '~';
  }

  lemma TokenIff(s: seq<byte>)
    ensures ValidToken(s) <==> Token(s)
  {
    forall i | 0 <= i < |s| ensures IsTokenChar(s[i]) <==> TChar(s[i] as char) {
      TokenCharIff(s[i]);
    }
  }

  lemma PrintableIff(s: seq<byte>)
    ensures ValidHeaderValue(s) <==> Printable(s)
  {
  }

  /** name ":" blanks value blanks */
  ghost predicate SplitsInto(line: seq<byte>, name: seq<byte>, a: seq<byte>, value: seq<byte>, b: seq<byte>) {
    line == name + [58] + (a + value + b) && Blanks(a) && Blanks(b)
  }

  /** A header line of this name and value. */
  ghost predicate Says(line: seq<byte>, name: seq<byte>, value: seq<byte>) {
    && Token(name) && |name| < 128 && Printable(value) && Bare(value)
    && exists a, b :: SplitsInto(line, name, a, value, b)
  }

  lemma TokenHasNoColon(name: seq<byte>, rest: seq<byte>)
    requires Token(name)
    ensures var line := name + [58] + rest;
            FindByte(line, COLON) == Some(|name|) && line[..|name|] == name && line[|name| + 1..] == rest
  {
    var line := name + [58] + rest;
    assert line[|name|] == COLON;
    forall k | 0 <= k < |name| ensures line[k] != COLON {
      assert TChar(name[k] as char) && line[k] == name[k];
    }
    assert line[..|name|] == name && line[|name| + 1..] == rest;
  }

  /** A line of this name and value is read as the field the name calls for. */
  lemma SaidIsRead(line: seq<byte>, name: seq<byte>, value: seq<byte>)
    requires Says(line, name, value)
    ensures ReadField(line) == FieldOf(KindOf(name), value)
  {
    var a, b :| SplitsInto(line, name, a, value, b);
    TokenHasNoColon(name, a + value + b);
    TokenIff(name);
    BlanksArePrintable(a, value, b);
    TrimIs(a, value, b);
  }

  lemma BlanksArePrintable(a: seq<byte>, value: seq<byte>, b: seq<byte>)
    requires Blanks(a) && Blanks(b)
    ensures ValidHeaderValue(a + value + b) <==> Printable(value)
  {
    var all := a + value + b;
    if ValidHeaderValue(all) {
      assert forall i :: 0 <= i < |value| ==> value[i] == all[|a| + i];
    }
    if Printable(value) {
      forall i | 0 <= i < |all| ensures (all[i] >= 32 || all[i] == TAB) && all[i] != 127 {
        if |a| <= i < |a| + |value| {
          assert all[i] == value[i - |a|];
        } else if i < |a| {
          assert all[i] == a[i];
        } else {
          assert all[i] == b[i - |a| - |value|];
        }
      }
    }
  }

  /** Only such lines are read. */
  lemma ReadIsSaid(line: seq<byte>) returns (name: seq<byte>, value: seq<byte>)
    requires ReadField(line).Some?
    ensures Says(line, name, value)
  {
    var raw: seq<byte>;
    name, raw := ReadParts(line);
    value := Trim(raw);
    var a, b := TrimSplits(raw);
    TokenIff(name);
    BlanksArePrintable(a, value, b);
    assert SplitsInto(line, name, a, value, b);
  }

  lemma ReadParts(line: seq<byte>) returns (name: seq<byte>, raw: seq<byte>)
    requires ReadField(line).Some?
    ensures line == name + [58] + raw && ValidToken(name) && |name| < 128 && ValidHeaderValue(raw)
  {
    var colon := FindByte(line, COLON).value;
    name, raw := line[..colon], line[colon + 1..];
    assert line == name + [58] + raw;
  }

  /** A line says one thing only. */
  lemma SaidOnce(line: seq<byte>, name: seq<byte>, value: seq<byte>, name': seq<byte>, value': seq<byte>)
    requires Says(line, name, value) && Says(line, name', value')
    ensures name == name' && value == value'
  {
    var a, b :| SplitsInto(line, name, a, value, b);
    var a', b' :| SplitsInto(line, name', a', value', b');
    TokenHasNoColon(name, a + value + b);
    TokenHasNoColon(name', a' + value' + b');
    TrimIs(a, value, b);
    TrimIs(a', value', b');
  }

  // ---------------------------------------------------------------- lists of tokens

  /** An element `t` between commas or ends, blanks around it. */
  ghost predicate ItemAt(value: seq<byte>, pre: seq<byte>, a: seq<byte>, t: seq<byte>, b: seq<byte>, post: seq<byte>) {
    && value == pre + (a + t + b) + post && Blanks(a) && Blanks(b)
    && (pre == [] || pre[|pre| - 1] == 44) && (post == [] || post[0] == 44)
  }

  /** The comma-separated list has this element, in any case. */
  ghost predicate Lists(value: seq<byte>, token: seq<byte>) {
    exists pre, a, t, b, post :: ItemAt(value, pre, a, t, b, post) && EqualCi(t, token)
  }

  predicate Plain(token: seq<byte>) {
    Bare(token) && forall i :: 0 <= i < |token| ==> token[i] != 44
  }

  lemma PlainInAnyCase(t: seq<byte>, token: seq<byte>)
    requires EqualCi(t, token) && Plain(token)
    ensures Plain(t)
  {
    EqualCiIff(t, token);
    assert forall i :: 0 <= i < |t| ==> SameLetter(t[i], token[i]);
  }

  lemma ElementIsItem(value: seq<byte>, i: nat, j: nat) returns (a: seq<byte>, b: seq<byte>)
    requires IsElement(value, i, j)
    ensures ItemAt(value, value[..i], a, Trim(value[i..j]), b, value[j..])
  {
    a, b := TrimSplits(value[i..j]);
    assert value == value[..i] + value[i..j] + value[j..];
  }

  lemma ItemIsElement(value: seq<byte>, pre: seq<byte>, a: seq<byte>, t: seq<byte>, b: seq<byte>, post: seq<byte>)
    requires ItemAt(value, pre, a, t, b, post) && Plain(t)
    ensures var i, j := |pre|, |pre| + |a + t + b|; IsElement(value, i, j) && Trim(value[i..j]) == t
  {
    var i, j, item := |pre|, |pre| + |a + t + b|, a + t + b;
    assert value[i..j] == item;
    TrimIs(a, t, b);
    NoComma(a, t, b);
    assert forall k :: i <= k < j ==> value[k] == item[k - i];
    assert i > 0 ==> value[i - 1] == pre[i - 1];
    assert j < |value| ==> value[j] == post[0];
  }

  lemma NoComma(a: seq<byte>, t: seq<byte>, b: seq<byte>)
    requires Blanks(a) && Blanks(b) && Plain(t)
    ensures forall k :: 0 <= k < |a + t + b| ==> (a + t + b)[k] != 44
  {
  }

  lemma ListsIff(value: seq<byte>, token: seq<byte>)
    requires Plain(token)
    ensures HasToken(value, token) <==> Lists(value, token)
  {
    if HasToken(value, token) {
      TokenIsListed(value, token);
    }
    if Lists(value, token) {
      ListedIsToken(value, token);
    }
  }

  lemma TokenIsListed(value: seq<byte>, token: seq<byte>)
    requires HasToken(value, token)
    ensures Lists(value, token)
  {
    var i, j :| IsElement(value, i, j) && EqualCi(Trim(value[i..j]), token);
    var a, b := ElementIsItem(value, i, j);
    assert ItemAt(value, value[..i], a, Trim(value[i..j]), b, value[j..]);
  }

  lemma ListedIsToken(value: seq<byte>, token: seq<byte>)
    requires Plain(token) && Lists(value, token)
    ensures HasToken(value, token)
  {
    var pre, a, t, b, post :| ItemAt(value, pre, a, t, b, post) && EqualCi(t, token);
    PlainInAnyCase(t, token);
    ItemIsElement(value, pre, a, t, b, post);
  }

  // ---------------------------------------------------------------- one lemma for each name the server reads

  /** The names are told apart by their length or their first letter. */
  lemma NamesDiffer(name: seq<byte>, a: seq<byte>, b: seq<byte>)
    requires EqualCi(name, a) && (|a| != |b| || (a != [] && Lower(a[0]) != Lower(b[0])))
    ensures !EqualCi(name, b)
  {
    assert |LowerAll(a)| == |a| && |LowerAll(b)| == |b|;
    assert a != [] ==> LowerAll(a)[0] == Lower(a[0]);
    assert b != [] ==> LowerAll(b)[0] == Lower(b[0]);
  }

  /** The names the server reads. */
  function ServerNames(): (r: seq<seq<byte>>)
    ensures |r| == 11
  {
    [Ascii("Host"), Ascii("Accept-Encoding"), Ascii("If-None-Match"), Ascii("If-Modified-Since"), Ascii("Range"), Ascii("Content-Length"), Ascii("Transfer-Encoding"), Ascii("Connection"), Ascii("Upgrade"), Ascii("X-Rpsiod-Internal-Scheme"), Ascii("X-Rpsiod-Trace")]
  }

  lemma NamesAreDistinct()
    ensures forall i, j :: 0 <= i < j < 11 ==>
              var a, b := ServerNames()[i], ServerNames()[j];
              a != [] && b != [] && (|a| != |b| || Lower(a[0]) != Lower(b[0]))
  {
    var ns := ServerNames();
    assert |ns[0]| == 4 && |ns[1]| == 15 && |ns[2]| == 13 && |ns[3]| == 17 && |ns[4]| == 5 && |ns[5]| == 14;
    assert |ns[6]| == 17 && |ns[7]| == 10 && |ns[8]| == 7 && |ns[9]| == 24 && |ns[10]| == 14;
    assert ns[3][0] == 73 && ns[6][0] == 84 && ns[5][0] == 67 && ns[10][0] == 88;
  }

  /** A name is at most one of them. */
  lemma OneName(name: seq<byte>, j: nat)
    requires j < 11 && EqualCi(name, ServerNames()[j])
    ensures forall i :: 0 <= i < 11 && i != j ==> !EqualCi(name, ServerNames()[i])
  {
    NamesAreDistinct();
    forall i | 0 <= i < 11 && i != j ensures !EqualCi(name, ServerNames()[i]) {
      NamesDiffer(name, ServerNames()[j], ServerNames()[i]);
    }
  }

  lemma KindInOrder(name: seq<byte>)
    ensures var ns := ServerNames();
            KindOf(name) ==
            if EqualCi(name, ns[0]) then Kind.Host
            else if EqualCi(name, ns[1]) then AcceptEncoding
            else if EqualCi(name, ns[2]) then IfNoneMatch
            else if EqualCi(name, ns[3]) then IfModifiedSince
            else if EqualCi(name, ns[4]) then RangeKind
            else if EqualCi(name, ns[5]) then ContentLength
            else if EqualCi(name, ns[6]) then TransferEncoding
            else if EqualCi(name, ns[7]) then Kind.Connection
            else if EqualCi(name, ns[8]) then Kind.Upgrade
            else if EqualCi(name, ns[9]) then InternalScheme
            else if EqualCi(name, ns[10]) then TraceKind
            else Other
  {
  }

  function Kinds(): (r: seq<Kind>)
    ensures |r| == 11
  {
    [Kind.Host, AcceptEncoding, IfNoneMatch, IfModifiedSince, RangeKind, ContentLength, TransferEncoding, Kind.Connection, Kind.Upgrade, InternalScheme, TraceKind]
  }

  lemma KindAt(name: seq<byte>, j: nat)
    requires j < 11 && EqualCi(name, ServerNames()[j])
    ensures KindOf(name) == Kinds()[j]
  {
    OneName(name, j);
    KindInOrder(name);
  }

  lemma TheNames()
    ensures var ns, ks := ServerNames(), Kinds();
            && ns[0] == Ascii("Host") && ks[0] == Kind.Host
            && ns[1] == Ascii("Accept-Encoding") && ks[1] == AcceptEncoding
            && ns[2] == Ascii("If-None-Match") && ks[2] == IfNoneMatch
            && ns[3] == Ascii("If-Modified-Since") && ks[3] == IfModifiedSince
            && ns[4] == Ascii("Range") && ks[4] == RangeKind
            && ns[5] == Ascii("Content-Length") && ks[5] == ContentLength
            && ns[6] == Ascii("Transfer-Encoding") && ks[6] == TransferEncoding
            && ns[7] == Ascii("Connection") && ks[7] == Kind.Connection
            && ns[8] == Ascii("Upgrade") && ks[8] == Kind.Upgrade
            && ns[9] == Ascii("X-Rpsiod-Internal-Scheme") && ks[9] == InternalScheme
            && ns[10] == Ascii("X-Rpsiod-Trace") && ks[10] == TraceKind
  {
  }

  lemma Named(line: seq<byte>, name: seq<byte>, value: seq<byte>, lit: seq<byte>, j: nat, kind: Kind)
    requires Says(line, name, value) && EqualCi(name, lit) && j < 11 && ServerNames()[j] == lit && Kinds()[j] == kind
    ensures ReadField(line) == FieldOf(kind, value)
  {
    SaidIsRead(line, name, value);
    KindAt(name, j);
  }

  predicate Digits(s: seq<byte>) {
    s != [] && forall i :: 0 <= i < |s| ==> s[i] in Ascii("0123456789")
  }

  /** A Content-Length: a number of at most 64 bits, or refused. */
  lemma LengthLine(line: seq<byte>, name: seq<byte>, value: seq<byte>)
    requires Says(line, name, value) && EqualCi(name, Ascii("Content-Length"))
    ensures ReadField(line) ==
            if Digits(value) && Decimal(value) <= 0xFFFF_FFFF_FFFF_FFFF then Some(LengthField(Decimal(value))) else None
  {
    TheNames();
    Named(line, name, value, Ascii("Content-Length"), 5, ContentLength);
    LengthValue(value);
  }

  lemma LengthValue(value: seq<byte>)
    ensures FieldOf(ContentLength, value) ==
            if Digits(value) && Decimal(value) <= 0xFFFF_FFFF_FFFF_FFFF then Some(LengthField(Decimal(value))) else None
  {
    AllDigitsIff(value);
  }

  /** A Transfer-Encoding: the chunked coding, or refused. */
  lemma TransferLine(line: seq<byte>, name: seq<byte>, value: seq<byte>)
    requires Says(line, name, value) && EqualCi(name, Ascii("Transfer-Encoding"))
    ensures ReadField(line) == if EqualCi(value, Ascii("chunked")) then Some(TransferField) else None
  {
    TheNames();
    Named(line, name, value, Ascii("Transfer-Encoding"), 6, TransferEncoding);
    TransferValue(value);
  }

  lemma TransferValue(value: seq<byte>)
    ensures FieldOf(TransferEncoding, value) == if EqualCi(value, Ascii("chunked")) then Some(TransferField) else None
  {
  }

  /** A Connection: which of its three tokens it lists. */
  lemma ConnectionLine(line: seq<byte>, name: seq<byte>, value: seq<byte>)
    requires Says(line, name, value) && EqualCi(name, Ascii("Connection"))
    ensures ReadField(line) ==
            Some(ConnectionField(Lists(value, Ascii("close")), Lists(value, Ascii("keep-alive")), Lists(value, Ascii("upgrade"))))
  {
    TheNames();
    Named(line, name, value, Ascii("Connection"), 7, Kind.Connection);
    TokensArePlain();
    ListsIff(value, Ascii("close"));
    ListsIff(value, Ascii("keep-alive"));
    ListsIff(value, Ascii("upgrade"));
  }

  /** An Upgrade: to websocket or not. */
  lemma UpgradeLine(line: seq<byte>, name: seq<byte>, value: seq<byte>)
    requires Says(line, name, value) && EqualCi(name, Ascii("Upgrade"))
    ensures ReadField(line) == Some(UpgradeField(EqualCi(value, Ascii("websocket"))))
  {
    TheNames();
    Named(line, name, value, Ascii("Upgrade"), 8, Kind.Upgrade);
  }

  /** The scheme of an internal request. */
  lemma SchemeLine(line: seq<byte>, name: seq<byte>, value: seq<byte>)
    requires Says(line, name, value) && EqualCi(name, Ascii("X-Rpsiod-Internal-Scheme"))
    ensures ReadField(line) == Some(SchemeField(EqualCi(value, Ascii("https"))))
  {
    TheNames();
    Named(line, name, value, Ascii("X-Rpsiod-Internal-Scheme"), 9, InternalScheme);
  }

  /** A trace request. */
  lemma TraceLine(line: seq<byte>, name: seq<byte>, value: seq<byte>)
    requires Says(line, name, value) && EqualCi(name, Ascii("X-Rpsiod-Trace"))
    ensures ReadField(line) == Some(TraceField(EqualCi(value, Ascii("1")) || EqualCi(value, Ascii("true"))))
  {
    TheNames();
    Named(line, name, value, Ascii("X-Rpsiod-Trace"), 10, TraceKind);
  }

  /** The text of an Accept-Encoding, as much of it as is kept. */
  lemma EncodingLine(line: seq<byte>, name: seq<byte>, value: seq<byte>)
    requires Says(line, name, value) && EqualCi(name, Ascii("Accept-Encoding"))
    ensures ReadField(line) == Some(EncodingField(value[..if |value| < 256 then |value| else 255]))
  {
    TheNames();
    Named(line, name, value, Ascii("Accept-Encoding"), 1, AcceptEncoding);
    assert value[..|value|] == value;
  }

  /** The text of an If-None-Match. */
  lemma NoneMatchLine(line: seq<byte>, name: seq<byte>, value: seq<byte>)
    requires Says(line, name, value) && EqualCi(name, Ascii("If-None-Match"))
    ensures ReadField(line) == Some(NoneMatchField(value[..if |value| < 256 then |value| else 255]))
  {
    TheNames();
    Named(line, name, value, Ascii("If-None-Match"), 2, IfNoneMatch);
    assert value[..|value|] == value;
  }

  /** The text of an If-Modified-Since. */
  lemma ModifiedLine(line: seq<byte>, name: seq<byte>, value: seq<byte>)
    requires Says(line, name, value) && EqualCi(name, Ascii("If-Modified-Since"))
    ensures ReadField(line) == Some(ModifiedField(value[..if |value| < 256 then |value| else 255]))
  {
    TheNames();
    Named(line, name, value, Ascii("If-Modified-Since"), 3, IfModifiedSince);
    assert value[..|value|] == value;
  }

  lemma TokensArePlain()
    ensures Plain(Ascii("close")) && Plain(Ascii("keep-alive")) && Plain(Ascii("upgrade"))
  {
  }

  /** Any other name is let pass, whatever the value. */
  lemma OtherLine(line: seq<byte>, name: seq<byte>, value: seq<byte>)
    requires Says(line, name, value) && forall i :: 0 <= i < 11 ==> !EqualCi(name, ServerNames()[i])
    ensures ReadField(line) == Some(OtherField)
  {
    SaidIsRead(line, name, value);
    KindInOrder(name);
  }

  // ---------------------------------------------------------------- Host

  predicate Port(text: seq<byte>) {
    Digits(text) && Decimal(text) <= 65535
  }

  /** Visible ASCII without slashes. */
  predicate HostBytes(s: seq<byte>) {
    forall i :: 0 <= i < |s| ==> 33 <= s[i] <= 126 && s[i] as char != '/' && s[i] as char != '\\'
  }

  /** The text is the host, or the host, a colon and a port. */
  ghost predicate WithPort(text: seq<byte>, host: seq<byte>) {
    text == host || exists port :: text == host + [58] + port && Port(port)
  }

  /** An address in brackets. */
  ghost predicate Bracketed(host: seq<byte>) {
    exists x: seq<byte> :: host == [91] + x + [93] && x != [] && 93 !in x
  }

  /** `text` names this host: in brackets, by a name without colons, or as a text with several colons as a whole. */
  ghost predicate NamesHost(text: seq<byte>, host: seq<byte>) {
    && 0 < |text| < 256 && HostBytes(text)
    && if text[0] == 91 then Bracketed(host) && WithPort(text, host)
       else if 58 !in host then host != [] && WithPort(text, host)
       else text == host && SeveralColons(host)
  }

  ghost predicate SeveralColons(s: seq<byte>) {
    exists i, j :: 0 <= i < j < |s| && s[i] == 58 && s[j] == 58
  }

  lemma HostBytesIff(s: seq<byte>)
    ensures HostChars(s) <==> HostBytes(s)
  {
    assert '/' as int == 47 && '\\' as int == 92;
  }

  lemma PortIff(s: seq<byte>)
    ensures ValidPort(s) <==> Port(s)
  {
    AllDigitsIff(s);
  }

  /** What ParseHost makes of the text between the blanks. */
  function HostOf(text: seq<byte>): Option<seq<byte>>
    requires text != []
  {
    if text[0] == OPEN_BRACKET then
      var end := FindByte(text, CLOSE_BRACKET);
      if end.None? || end.value == 1 then None
      else
        var rest := text[end.value + 1..];
        if rest != [] && !(rest[0] == COLON && ValidPort(rest[1..])) then None else Some(text[..end.value + 1])
    else
      var colon := FindByte(text, COLON);
      if colon.None? || COLON in text[colon.value + 1..] then Some(text)
      else if !ValidPort(text[colon.value + 1..]) || colon.value == 0 then None
      else Some(text[..colon.value])
  }

  lemma ParseHostIs(value: seq<byte>)
    ensures ParseHost(value) ==
            var t := Trim(value); if t == [] || |t| >= 256 || !HostBytes(t) then None else HostOf(t)
  {
    HostBytesIff(Trim(value));
  }

  lemma BehindFirst(text: seq<byte>, c: byte, head: seq<byte>, rest: seq<byte>)
    requires text == head + [c] + rest && c !in head
    ensures FindByte(text, c) == Some(|head|) && text[..|head|] == head && text[|head| + 1..] == rest && text[..|head| + 1] == head + [c]
  {
    assert text[|head|] == c && text[..|head|] == head;
    assert forall k :: 0 <= k < |head| ==> text[k] == head[k] && head[k] in head;
  }

  lemma BracketedIff(text: seq<byte>, host: seq<byte>)
    requires text != [] && text[0] == 91
    ensures HostOf(text) == Some(host) <==> Bracketed(host) && WithPort(text, host)
  {
    if HostOf(text) == Some(host) {
      ReadIsBracketed(text, host);
    }
    if Bracketed(host) && WithPort(text, host) {
      var rest := PortBehind(text, host);
      BracketedIsRead(text, host, rest);
    }
  }

  lemma ReadIsBracketed(text: seq<byte>, host: seq<byte>)
    requires text != [] && text[0] == 91 && HostOf(text) == Some(host)
    ensures Bracketed(host) && WithPort(text, host)
  {
    var end := FindByte(text, CLOSE_BRACKET).value;
    var x, rest := text[1..end], text[end + 1..];
    assert host == [91] + x + [93] && x != [];
    assert text == host + rest;
    if rest != [] {
      PortIff(rest[1..]);
      assert text == host + [58] + rest[1..];
    }
  }

  lemma PortBehind(text: seq<byte>, host: seq<byte>) returns (rest: seq<byte>)
    requires WithPort(text, host)
    ensures text == host + rest && (rest != [] ==> rest[0] == 58 && Port(rest[1..]))
  {
    if text == host {
      rest := [];
    } else {
      var port :| text == host + [58] + port && Port(port);
      rest := [58] + port;
      assert rest[1..] == port;
    }
  }

  lemma BracketedIsRead(text: seq<byte>, host: seq<byte>, rest: seq<byte>)
    requires Bracketed(host) && text == host + rest && (rest != [] ==> rest[0] == 58 && Port(rest[1..]))
    ensures HostOf(text) == Some(host)
  {
    var x: seq<byte> :| host == [91] + x + [93] && x != [] && 93 !in x;
    assert text == ([91] + x) + [93] + rest;
    BehindFirst(text, 93, [91] + x, rest);
    if rest != [] {
      PortIff(rest[1..]);
    }
  }

  lemma NamedIff(text: seq<byte>, host: seq<byte>)
    requires text != [] && text[0] != 91
    ensures HostOf(text) == Some(host) <==>
            if 58 !in host then host != [] && WithPort(text, host) else text == host && SeveralColons(host)
  {
    var colon := FindByte(text, COLON);
    if colon.Some? {
      var head, rest := text[..colon.value], text[colon.value + 1..];
      assert text == head + [58] + rest;
      PortIff(rest);
      if 58 !in host && exists port :: text == host + [58] + port && Port(port) {
        var port :| text == host + [58] + port && Port(port);
        BehindFirst(text, 58, host, port);
        PortIff(port);
        DigitsAreNoColons(port);
      }
      ColonsIff(text, colon.value);
    } else {
      assert 58 !in text;
    }
  }

  lemma DigitsAreNoColons(s: seq<byte>)
    requires Digits(s)
    ensures 58 !in s
  {
    AllDigitsIff(s);
  }

  lemma ColonsIff(text: seq<byte>, n: nat)
    requires n < |text| && text[n] == 58 && forall k :: 0 <= k < n ==> text[k] != 58
    ensures SeveralColons(text) <==> 58 in text[n + 1..]
  {
    if SeveralColons(text) {
      var i, j :| 0 <= i < j < |text| && text[i] == 58 && text[j] == 58;
      assert text[n + 1..][j - n - 1] == 58;
    }
    if 58 in text[n + 1..] {
      var k :| 0 <= k < |text[n + 1..]| && text[n + 1..][k] == 58;
      assert text[n + 1 + k] == 58;
    }
  }

  /** A text names a host if and only if it is read so. */
  lemma HostIff(value: seq<byte>, host: seq<byte>)
    ensures ParseHost(value) == Some(host) <==> NamesHost(Trim(value), host)
  {
    var t := Trim(value);
    ParseHostIs(value);
    if t != [] {
      if t[0] == 91 {
        BracketedIff(t, host);
      } else {
        NamedIff(t, host);
      }
    }
  }

  lemma BareIsTrimmed(value: seq<byte>)
    requires Bare(value)
    ensures Trim(value) == value
  {
    TrimIs([], value, []);
    assert [] + value + [] == value;
  }

  /** A Host: the host it names, or refused. */
  lemma HostLine(line: seq<byte>, name: seq<byte>, value: seq<byte>)
    requires Says(line, name, value) && EqualCi(name, Ascii("Host"))
    ensures forall h :: ReadField(line) == Some(HostField(h)) <==> NamesHost(value, h)
    ensures (forall h :: !NamesHost(value, h)) ==> ReadField(line) == None
  {
    TheNames();
    Named(line, name, value, Ascii("Host"), 0, Kind.Host);
    BareIsTrimmed(value);
    forall h ensures ParseHost(value) == Some(h) <==> NamesHost(value, h) {
      HostIff(value, h);
    }
    if ParseHost(value).Some? {
      assert NamesHost(value, ParseHost(value).value);
    }
  }

  /** A Range: what it asks for, or refused. */
  lemma RangeLine(line: seq<byte>, name: seq<byte>, value: seq<byte>)
    requires Says(line, name, value) && EqualCi(name, Ascii("Range"))
    ensures forall spec :: ReadField(line) == Some(RangeField(spec)) <==> AsksFor(value, spec)
    ensures (forall spec :: !AsksFor(value, spec)) ==> ReadField(line) == None
  {
    TheNames();
    Named(line, name, value, Ascii("Range"), 4, RangeKind);
    forall spec ensures ParseRangeSpec(value) == Some(spec) <==> AsksFor(value, spec) {
      SpecIff(value, spec);
    }
    if ParseRangeSpec(value).Some? {
      assert AsksFor(value, ParseRangeSpec(value).value);
    }
  }

  /** The authority of an absolute target and the Host must name the same host. */
  lemma AuthorityIff(authority: seq<byte>, host: seq<byte>)
    ensures AuthorityMatches(Some(authority), host) <==>
            exists x, y :: NamesHost(Trim(authority), x) && NamesHost(Trim(host), y) && EqualCi(x, y)
  {
    if AuthorityMatches(Some(authority), host) {
      HostIff(authority, ParseHost(authority).value);
      HostIff(host, ParseHost(host).value);
    }
    if x, y :| NamesHost(Trim(authority), x) && NamesHost(Trim(host), y) && EqualCi(x, y) {
      HostIff(authority, x);
      HostIff(host, y);
    }
  }
}
