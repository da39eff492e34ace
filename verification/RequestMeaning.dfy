/** What a request line means by its text, and what a whole parsed head says about its lines. */
module RequestLineMeaning {
  import opened Bytes
  import opened HttpRequest
  import opened Text
  import opened HeaderMeaning

  /** No control characters, and no space. */
  predicate Visible(s: seq<byte>) {
    forall i :: 0 <= i < |s| ==> 33 <= s[i] && s[i] != 127
  }

  /** scheme, authority, and the path if there is one */
  ghost predicate Absolute(target: seq<byte>, scheme: seq<byte>, authority: seq<byte>, path: seq<byte>) {
    && target == scheme + authority + path && (EqualCi(scheme, Ascii("http://")) || EqualCi(scheme, Ascii("https://")))
    && 0 < |authority| < 256 && 47 !in authority && (path != [] ==> path[0] == 47)
  }

  /** A target of this path, and of this authority if it is an absolute one. */
  ghost predicate TargetIs(target: seq<byte>, path: seq<byte>, authority: Option<seq<byte>>) {
    && 0 < |target| < 2048 && Visible(target)
    && match authority
       case None => target == path && target[0] == 47
       case Some(a) => exists scheme, p :: Absolute(target, scheme, a, p) && path == if p == [] then [47] else p
  }

  /** What stands behind the first question mark, as much of it as is kept. */
  ghost predicate QueryIs(path: seq<byte>, query: seq<byte>) {
    if 63 !in path then query == []
    else exists p: seq<byte>, q: seq<byte> :: path == p + [63] + q && 63 !in p && query == q[..if |q| < 2048 then |q| else 2047]
  }

  /** method SP target SP version */
  ghost predicate LineIs(line: seq<byte>, target: seq<byte>, version: seq<byte>, r: RequestLine) {
    && line == r.method_ + [32] + target + [32] + version && Token(r.method_) && |r.method_| < 16
    && TargetIs(target, r.path, r.authority) && QueryIs(r.path, r.query)
    && (if r.http11 then EqualCi(version, Ascii("HTTP/1.1")) else EqualCi(version, Ascii("HTTP/1.0")))
    && (r.head <==> EqualCi(r.method_, Ascii("HEAD")))
  }

  lemma QueryIff(path: seq<byte>, query: seq<byte>)
    ensures Query(path) == query <==> QueryIs(path, query)
  {
    var n := FindByte(path, QUESTION);
    if n.Some? {
      assert path == path[..n.value] + [63] + path[n.value + 1..];
      QueryCut(path, path[..n.value], path[n.value + 1..], query);
    } else {
      assert 63 !in path;
    }
  }

  lemma QueryCut(path: seq<byte>, p: seq<byte>, q: seq<byte>, query: seq<byte>)
    requires path == p + [63] + q && 63 !in p
    ensures Query(path) == query <==> QueryIs(path, query)
  {
    BehindFirst(path, 63, p, q);
    assert 63 in path && q[..|q|] == q;
    if QueryIs(path, query) {
      var p': seq<byte>, q': seq<byte> :| path == p' + [63] + q' && 63 !in p' && query == q'[..if |q'| < 2048 then |q'| else 2047];
      BehindFirst(path, 63, p', q');
    }
  }

  // ---------------------------------------------------------------- targets

  const HTTP: seq<byte> := Ascii("http://")
  const HTTPS: seq<byte> := Ascii("https://")

  /** The scheme an absolute target starts with. */
  function SchemeLen(target: seq<byte>): nat {
    if |target| >= 7 && EqualCi(target[..7], HTTP) then 7
    else if |target| >= 8 && EqualCi(target[..8], HTTPS) then 8
    else 0
  }

  lemma StartsWith(target: seq<byte>, literal: seq<byte>)
    requires LowerAll(literal) == literal
    ensures literal <= LowerAll(target) <==> |literal| <= |target| && EqualCi(target[..|literal|], literal)
  {
    if |literal| <= |target| {
      assert LowerAll(target[..|literal|]) == LowerAll(target)[..|literal|];
    }
  }

  lemma Literals()
    ensures |HTTP| == 7 && |HTTPS| == 8 && LowerAll(HTTP) == HTTP && LowerAll(HTTPS) == HTTPS
    ensures HTTP[4] == 58 && HTTPS[4] == 115
  {
  }

  lemma SchemeLenIs(target: seq<byte>)
    ensures SchemeLen(target) > 0 <==> HTTP <= LowerAll(target) || HTTPS <= LowerAll(target)
    ensures SchemeLen(target) > 0 ==> |target| > 4 && SchemeLen(target) == (if target[4] == COLON then 7 else 8) <= |target|
  {
    Literals();
    StartsWith(target, HTTP);
    StartsWith(target, HTTPS);
    if SchemeLen(target) == 7 {
      assert LowerAll(target[..7])[4] == 58;
    } else if SchemeLen(target) == 8 {
      assert LowerAll(target[..8])[4] == 115;
    }
  }

  /** What stands behind the scheme. */
  function AfterScheme(after: seq<byte>): Option<(seq<byte>, Option<seq<byte>>)> {
    var slash := FindByte(after, SLASH);
    var authority := if slash.Some? then after[..slash.value] else after;
    if authority == [] || |authority| >= HOST_LEN then None
    else Some((if slash.Some? then after[slash.value..] else [SLASH], Some(authority)))
  }

  lemma VisibleIff(s: seq<byte>)
    ensures Visible(s) <==> !exists i :: 0 <= i < |s| && (s[i] <= 32 || s[i] == 127)
  {
  }

  lemma ParseTargetIs(target: seq<byte>)
    ensures ParseTarget(target) ==
            if target == [] || |target| >= 2048 || !Visible(target) then None
            else if SchemeLen(target) > 0 && SchemeLen(target) <= |target| then AfterScheme(target[SchemeLen(target)..])
            else if target[0] != 47 then None
            else Some((target, None))
  {
    VisibleIff(target);
    SchemeLenIs(target);
  }

  lemma AuthorityCut(authority: seq<byte>, p: seq<byte>)
    requires 47 !in authority && (p != [] ==> p[0] == 47)
    ensures var slash := FindByte(authority + p, SLASH);
            if p == [] then slash == None && authority + p == authority
            else slash == Some(|authority|) && (authority + p)[..|authority|] == authority && (authority + p)[|authority|..] == p
  {
    var after := authority + p;
    assert forall k :: 0 <= k < |authority| ==> after[k] == authority[k] && authority[k] in authority;
    if p != [] {
      assert after[|authority|] == 47;
      assert after[..|authority|] == authority && after[|authority|..] == p;
    } else {
      assert after == authority;
    }
  }

  lemma AbsoluteIsRead(target: seq<byte>, scheme: seq<byte>, a: seq<byte>, p: seq<byte>)
    requires Absolute(target, scheme, a, p)
    ensures SchemeLen(target) == |scheme| && 0 < |scheme| <= |target| && target[|scheme|..] == a + p
    ensures AfterScheme(a + p) == Some((if p == [] then [47] else p, Some(a)))
  {
    Literals();
    assert |LowerAll(scheme)| == |scheme|;
    assert target[..|scheme|] == scheme && target[|scheme|..] == a + p;
    if |scheme| == 8 {
      assert LowerAll(scheme)[4] == 115;
      assert LowerAll(target[..7])[4] == Lower(target[4]) && scheme[4] == target[4];
      assert !EqualCi(target[..7], HTTP);
    }
    AuthorityCut(a, p);
  }

  lemma ReadIsAbsolute(target: seq<byte>, path: seq<byte>, a: seq<byte>) returns (scheme: seq<byte>, p: seq<byte>)
    requires 0 < SchemeLen(target) <= |target| && AfterScheme(target[SchemeLen(target)..]) == Some((path, Some(a)))
    ensures Absolute(target, scheme, a, p) && path == if p == [] then [47] else p
  {
    var after := target[SchemeLen(target)..];
    var slash := FindByte(after, SLASH);
    scheme := target[..SchemeLen(target)];
    p := if slash.Some? then after[slash.value..] else [];
    Regrouped(target, SchemeLen(target), if slash.Some? then slash.value else |after|);
  }

  lemma Regrouped(s: seq<byte>, n: nat, k: nat)
    requires n <= |s| && k <= |s[n..]|
    ensures s == s[..n] + s[n..][..k] + s[n..][k..] && s[n..][|s[n..]|..] == [] && s[n..][..|s[n..]|] == s[n..]
  {
  }

  /** A target is read as this path and authority if and only if that is what it says. */
  lemma TargetIff(target: seq<byte>, path: seq<byte>, authority: Option<seq<byte>>)
    ensures ParseTarget(target) == Some((path, authority)) <==> TargetIs(target, path, authority)
  {
    ParseTargetIs(target);
    if ParseTarget(target) == Some((path, authority)) && authority.Some? {
      var scheme, p := ReadIsAbsolute(target, path, authority.value);
      assert Absolute(target, scheme, authority.value, p);
    }
    if TargetIs(target, path, authority) {
      match authority
      case None => NoScheme(target);
      case Some(a) =>
        var scheme, p :| Absolute(target, scheme, a, p) && path == if p == [] then [47] else p;
        AbsoluteIsRead(target, scheme, a, p);
    }
  }

  lemma NoScheme(target: seq<byte>)
    requires target != [] && target[0] == 47
    ensures SchemeLen(target) == 0
  {
    Literals();
    assert LowerAll(HTTP)[0] == 104 && LowerAll(HTTPS)[0] == 104;
    assert |target| >= 7 ==> LowerAll(target[..7])[0] == 47;
    assert |target| >= 8 ==> LowerAll(target[..8])[0] == 47;
  }

  // ---------------------------------------------------------------- the whole line

  /** The line cut at its first two spaces. */
  lemma LineCut(line: seq<byte>, m: seq<byte>, target: seq<byte>, version: seq<byte>)
    requires line == m + [32] + target + [32] + version && 32 !in m && 32 !in target
    ensures FindByte(line, SP) == Some(|m|) && line[..|m|] == m
    ensures var rest := line[|m| + 1..];
            FindByte(rest, SP) == Some(|target|) && rest[..|target|] == target && rest[|target| + 1..] == version
  {
    var rest := target + [32] + version;
    assert line == m + [32] + rest;
    BehindFirst(line, 32, m, rest);
    BehindFirst(rest, 32, target, version);
  }

  /** What ParseRequestLine makes of the three parts of a line without control characters. */
  function LineOf(m: seq<byte>, target: seq<byte>, version: seq<byte>): Option<RequestLine> {
    if SP in version || version == [] || |version| >= 32 || !ValidToken(m) || |m| >= METHOD_LEN then None
    else if !EqualCi(version, Ascii("HTTP/1.0")) && !EqualCi(version, Ascii("HTTP/1.1")) then None
    else
      var t := ParseTarget(target);
      if t.None? then None
      else Some(RequestLine(m, t.value.0, Query(t.value.0), EqualCi(m, Ascii("HEAD")), t.value.1, EqualCi(version, Ascii("HTTP/1.1"))))
  }

  predicate NoControls(s: seq<byte>) {
    forall i :: 0 <= i < |s| ==> 32 <= s[i] && s[i] != 127
  }

  lemma LineUnfolds(line: seq<byte>)
    ensures ParseRequestLine(line) ==
            var first := FindByte(line, SP);
            if first.None? || !NoControls(line) then None
            else
              var rest := line[first.value + 1..];
              var second := FindByte(rest, SP);
              if second.None? then None else LineOf(line[..first.value], rest[..second.value], rest[second.value + 1..])
  {
  }

  lemma LineOfIs(line: seq<byte>, m: seq<byte>, target: seq<byte>, version: seq<byte>)
    requires line == m + [32] + target + [32] + version && 32 !in m && 32 !in target
    ensures ParseRequestLine(line) == if NoControls(line) then LineOf(m, target, version) else None
  {
    LineUnfolds(line);
    LineCut(line, m, target, version);
  }

  lemma VisibleInAnyCase(s: seq<byte>, literal: seq<byte>)
    requires EqualCi(s, literal) && Visible(literal)
    ensures |s| == |literal| && Visible(s)
  {
    EqualCiIff(s, literal);
    assert forall i :: 0 <= i < |s| ==> SameLetter(s[i], literal[i]);
  }

  lemma VersionLiterals()
    ensures var a, b := Ascii("HTTP/1.0"), Ascii("HTTP/1.1");
            |a| == |b| == 8 && Visible(a) && Visible(b) && LowerAll(a)[7] == 48 && LowerAll(b)[7] == 49
  {
  }

  lemma VersionIs(version: seq<byte>)
    ensures EqualCi(version, Ascii("HTTP/1.0")) || EqualCi(version, Ascii("HTTP/1.1")) ==> |version| == 8 && Visible(version)
    ensures !(EqualCi(version, Ascii("HTTP/1.0")) && EqualCi(version, Ascii("HTTP/1.1")))
  {
    VersionLiterals();
    if EqualCi(version, Ascii("HTTP/1.0")) {
      VisibleInAnyCase(version, Ascii("HTTP/1.0"));
    }
    if EqualCi(version, Ascii("HTTP/1.1")) {
      VisibleInAnyCase(version, Ascii("HTTP/1.1"));
    }
  }

  lemma PartsAreClean(m: seq<byte>, target: seq<byte>, version: seq<byte>)
    requires Token(m) && Visible(target) && Visible(version)
    ensures NoControls(m + [32] + target + [32] + version) && 32 !in m && 32 !in target && 32 !in version
  {
    forall i | 0 <= i < |m| ensures 33 <= m[i] && m[i] != 127 {
      TokenCharIff(m[i]);
    }
  }

  lemma LineIsRead(line: seq<byte>, target: seq<byte>, version: seq<byte>, r: RequestLine)
    requires LineIs(line, target, version, r)
    ensures ParseRequestLine(line) == Some(r)
  {
    VersionIs(version);
    PartsAreClean(r.method_, target, version);
    LineOfIs(line, r.method_, target, version);
    TokenIff(r.method_);
    TargetIff(target, r.path, r.authority);
    QueryIff(r.path, r.query);
  }

  lemma CutLine(line: seq<byte>) returns (m: seq<byte>, target: seq<byte>, version: seq<byte>)
    requires ParseRequestLine(line).Some?
    ensures line == m + [32] + target + [32] + version && 32 !in m && 32 !in target
  {
    LineUnfolds(line);
    m, target, version := CutAtSpaces(line);
  }

  lemma CutAt(s: seq<byte>, c: byte) returns (head: seq<byte>, rest: seq<byte>)
    requires FindByte(s, c).Some?
    ensures s == head + [c] + rest && c !in head && rest == s[FindByte(s, c).value + 1..]
  {
    var n := FindByte(s, c).value;
    head, rest := s[..n], s[n + 1..];
    assert s == head + [c] + rest;
  }

  lemma CutAtSpaces(line: seq<byte>) returns (m: seq<byte>, target: seq<byte>, version: seq<byte>)
    requires FindByte(line, SP).Some? && FindByte(line[FindByte(line, SP).value + 1..], SP).Some?
    ensures line == m + [32] + target + [32] + version && 32 !in m && 32 !in target
  {
    var rest: seq<byte>;
    m, rest := CutAt(line, SP);
    target, version := CutAt(rest, SP);
    Regroup(m, target, version);
  }

  lemma Regroup(m: seq<byte>, target: seq<byte>, version: seq<byte>)
    ensures m + [32] + (target + [32] + version) == m + [32] + target + [32] + version
  {
  }

  lemma ReadIsLine(line: seq<byte>, r: RequestLine) returns (target: seq<byte>, version: seq<byte>)
    requires ParseRequestLine(line) == Some(r)
    ensures LineIs(line, target, version, r)
  {
    var m: seq<byte>;
    m, target, version := CutLine(line);
    LineOfIs(line, m, target, version);
    TokenIff(m);
    VersionIs(version);
    TargetIff(target, r.path, r.authority);
    QueryIff(r.path, r.query);
  }

  /** A request line is read as this if and only if that is what it says. */
  lemma RequestLineIff(line: seq<byte>, r: RequestLine)
    ensures ParseRequestLine(line) == Some(r) <==> exists target, version :: LineIs(line, target, version, r)
  {
    if ParseRequestLine(line) == Some(r) {
      var target, version := ReadIsLine(line, r);
    }
    if target, version :| LineIs(line, target, version, r) {
      LineIsRead(line, target, version, r);
    }
  }
}

/** What a parsed head says about its lines. */
module HeadMeaning {
  import opened Bytes
  import opened ByteRange
  import opened HttpRequest
  import opened HttpHead
  import opened HttpTheorems
  import opened Text
  import opened HeaderMeaning
  import opened RequestLineMeaning

  // ---------------------------------------------------------------- which lines make which fields

  /** A header line of this name, in any case, with this value. */
  ghost predicate Field(line: seq<byte>, name: seq<byte>, value: seq<byte>) {
    exists n :: Says(line, n, value) && EqualCi(n, name)
  }

  lemma OneValue(line: seq<byte>, name: seq<byte>, value: seq<byte>, name': seq<byte>, value': seq<byte>)
    requires Field(line, name, value) && Field(line, name', value')
    ensures value == value' && EqualCi(name, name')
  {
    var n :| Says(line, n, value) && EqualCi(n, name);
    var n' :| Says(line, n', value') && EqualCi(n', name');
    SaidOnce(line, n, value, n', value');
  }

  /** The name that calls for such a field. */
  function NameFor(f: HttpRequest.Field): Option<seq<byte>> {
    match f
    case HostField(_) => Some(Ascii("Host"))
    case LengthField(_) => Some(Ascii("Content-Length"))
    case TransferField => Some(Ascii("Transfer-Encoding"))
    case RangeField(_) => Some(Ascii("Range"))
    case ConnectionField(_, _, _) => Some(Ascii("Connection"))
    case UpgradeField(_) => Some(Ascii("Upgrade"))
    case SchemeField(_) => Some(Ascii("X-Rpsiod-Internal-Scheme"))
    case TraceField(_) => Some(Ascii("X-Rpsiod-Trace"))
    case EncodingField(_) => Some(Ascii("Accept-Encoding"))
    case NoneMatchField(_) => Some(Ascii("If-None-Match"))
    case ModifiedField(_) => Some(Ascii("If-Modified-Since"))
    case OtherField => None
  }

  /** A field is made by a line of the name it calls for. */
  lemma FieldHasName(line: seq<byte>) returns (name: seq<byte>, value: seq<byte>)
    requires ReadField(line).Some?
    ensures Says(line, name, value)
    ensures var n := NameFor(ReadField(line).value); n.Some? ==> EqualCi(name, n.value) && Field(line, n.value, value)
  {
    name, value := ReadIsSaid(line);
    SaidIsRead(line, name, value);
    KindHasName(name, value);
  }

  function KindName(kind: Kind): Option<seq<byte>> {
    match kind
    case Host => Some(Ascii("Host"))
    case AcceptEncoding => Some(Ascii("Accept-Encoding"))
    case IfNoneMatch => Some(Ascii("If-None-Match"))
    case IfModifiedSince => Some(Ascii("If-Modified-Since"))
    case RangeKind => Some(Ascii("Range"))
    case ContentLength => Some(Ascii("Content-Length"))
    case TransferEncoding => Some(Ascii("Transfer-Encoding"))
    case Connection => Some(Ascii("Connection"))
    case Upgrade => Some(Ascii("Upgrade"))
    case InternalScheme => Some(Ascii("X-Rpsiod-Internal-Scheme"))
    case TraceKind => Some(Ascii("X-Rpsiod-Trace"))
    case Other => None
  }

  lemma KindIsNamed(name: seq<byte>)
    ensures KindName(KindOf(name)).Some? ==> EqualCi(name, KindName(KindOf(name)).value)
  {
    KindInOrder(name);
    TheNames();
    NameOfKind(name, KindOf(name), ServerNames());
  }

  lemma NameOfKind(name: seq<byte>, kind: Kind, ns: seq<seq<byte>>)
    requires |ns| == 11 && kind ==
             if EqualCi(name, ns[0]) then Kind.Host
             else if EqualCi(name, ns[1]) then AcceptEncoding
             else if EqualCi(name, ns[2]) then IfNoneMatch
             else if EqualCi(name, ns[3]) then IfModifiedSince
             else if EqualCi(name, ns[4]) then RangeKind
             else if EqualCi(name, ns[5]) then ContentLength
             else if EqualCi(name, ns[6]) then TransferEncoding
             else if EqualCi(name, ns[7]) then Kind.Connection
             else if EqualCi(name, ns[8]) then Kind.Upgrade
             else if EqualCi(name, ns[9]) then InternalScheme
             else if EqualCi(name, ns[10]) then TraceKind
             else Other
    requires ns[0] == Ascii("Host") && ns[1] == Ascii("Accept-Encoding") && ns[2] == Ascii("If-None-Match") && ns[3] == Ascii("If-Modified-Since") && ns[4] == Ascii("Range") && ns[5] == Ascii("Content-Length")
    requires ns[6] == Ascii("Transfer-Encoding") && ns[7] == Ascii("Connection") && ns[8] == Ascii("Upgrade") && ns[9] == Ascii("X-Rpsiod-Internal-Scheme") && ns[10] == Ascii("X-Rpsiod-Trace")
    ensures KindName(kind).Some? ==> EqualCi(name, KindName(kind).value)
  {
  }

  lemma FieldIsOfKind(kind: Kind, value: seq<byte>)
    requires FieldOf(kind, value).Some?
    ensures NameFor(FieldOf(kind, value).value) == KindName(kind)
  {
  }

  lemma KindHasName(name: seq<byte>, value: seq<byte>)
    requires FieldOf(KindOf(name), value).Some?
    ensures var n := NameFor(FieldOf(KindOf(name), value).value); n.Some? ==> EqualCi(name, n.value)
  {
    var kind := KindOf(name);
    KindIsNamed(name);
    FieldIsOfKind(kind, value);
  }

  // ---------------------------------------------------------------- what decides acceptance and framing

  ghost predicate In(lines: Lines, t: seq<byte>) {
    lines.Line? && (lines.text == t || In(lines.more, t))
  }

  lemma {:induction false} CountIn(lines: Lines, p: seq<byte> -> bool)
    ensures Count(lines, p) > 0 ==> exists t :: In(lines, t) && p(t)
    ensures forall t :: In(lines, t) && p(t) ==> Count(lines, p) > 0
  {
    if lines.Line? {
      CountIn(lines.more, p);
      if p(lines.text) {
        assert In(lines, lines.text);
      } else if Count(lines, p) > 0 {
        var t :| In(lines.more, t) && p(t);
        assert In(lines, t);
      }
    }
  }

  lemma {:induction false} AgreedIn(g: Grammar, lines: Lines, h: seq<byte>, n: nat, t: seq<byte>)
    requires AllOk(g, lines) && LengthsAre(g, lines, n) && HostsAre(g, lines, h) && In(lines, t)
    ensures t != [] ==> g.field(t).Some?
    ensures IsLength(g, t) ==> g.field(t).value.length == n
    ensures IsHost(g, t) ==> g.field(t).value.host == h
  {
    if lines.text != t {
      AgreedIn(g, lines.more, h, n, t);
    }
  }

  predicate Break(s: seq<byte>, k: int) {
    0 <= k && k + 1 < |s| && s[k] == 13 && s[k + 1] == 10
  }

  lemma BreakIff(s: seq<byte>, k: int)
    ensures OccursAt(s, CRLF, k) <==> Break(s, k)
  {
    if 0 <= k && k + 2 <= |s| {
      assert s[k..k + 2] == [s[k], s[k + 1]];
    }
  }

  /** `t` stands at `i` between line breaks or ends, and has none in it. */
  ghost predicate PieceAt(s: seq<byte>, t: seq<byte>, i: int) {
    && 0 <= i < |s| && i + |t| <= |s| && s[i..i + |t|] == t && (i == 0 || Break(s, i - 2))
    && (i + |t| == |s| || Break(s, i + |t|)) && forall k :: i <= k < i + |t| ==> !Break(s, k)
  }

  /** The first line break is at `n`. */
  ghost predicate BreaksFirst(s: seq<byte>, n: nat) {
    Break(s, n) && forall k :: 0 <= k < n ==> !Break(s, k)
  }

  lemma FindBreak(s: seq<byte>)
    ensures match Find(s, CRLF)
            case None => forall k :: !Break(s, k)
            case Some(n) => BreaksFirst(s, n)
  {
    forall k ensures OccursAt(s, CRLF, k) <==> Break(s, k) {
      BreakIff(s, k);
    }
  }

  lemma PieceBehind(s: seq<byte>, n: nat, t: seq<byte>, i: nat)
    requires BreaksFirst(s, n)
    ensures PieceAt(s[n + 2..], t, i) <==> PieceAt(s, t, n + 2 + i)
  {
    var rest := s[n + 2..];
    assert forall k: nat :: Break(rest, k) <==> Break(s, n + 2 + k);
    if n + 2 + i + |t| <= |s| {
      assert rest[i..i + |t|] == s[n + 2 + i..n + 2 + i + |t|];
    }
    if PieceAt(rest, t, i) {
      forall k | n + 2 + i <= k < n + 2 + i + |t| ensures !Break(s, k) {
        assert !Break(rest, k - n - 2);
      }
    }
  }

  lemma FirstPiece(s: seq<byte>, n: nat, t: seq<byte>, i: nat)
    requires BreaksFirst(s, n) && PieceAt(s, t, i)
    ensures if i == 0 then t == s[..n] else i >= n + 2
  {
    if i == 0 {
      assert s[0..|t|] == s[..|t|];
    }
  }

  /** The lines of a header section are what stands between its line breaks. */
  lemma {:induction false} SplitIff(s: seq<byte>, t: seq<byte>)
    ensures In(Split(s), t) <==> exists i :: PieceAt(s, t, i)
    decreases |s|
  {
    FindBreak(s);
    if s != [] {
      match Find(s, CRLF)
      case None => OnePiece(s, t);
      case Some(n) =>
        SplitIff(s[n + 2..], t);
        MorePieces(s, n, s[n + 2..], t);
    }
  }

  lemma MorePieces(s: seq<byte>, n: nat, rest: seq<byte>, t: seq<byte>)
    requires BreaksFirst(s, n) && rest == s[n + 2..]
    ensures (exists i :: PieceAt(s, t, i)) <==> t == s[..n] || exists i :: PieceAt(rest, t, i)
  {
    assert s[0..n] == s[..n] && PieceAt(s, s[..n], 0);
    if i :| PieceAt(s, t, i) {
      FirstPiece(s, n, t, i);
      if i > 0 {
        PieceBehind(s, n, t, i - n - 2);
      }
    }
    if i :| PieceAt(rest, t, i) {
      PieceBehind(s, n, t, i);
    }
  }

  lemma OnePiece(s: seq<byte>, t: seq<byte>)
    requires s != [] && forall k :: !Break(s, k)
    ensures (exists i :: PieceAt(s, t, i)) <==> t == s
  {
    assert s[0..|s|] == s;
    if t == s {
      assert PieceAt(s, t, 0);
    }
  }

  ghost function LinesOf(head: seq<byte>): Lines
    requires 4 <= |head|
  {
    if Find(head, CRLF).Some? then HeaderLines(head, Find(head, CRLF).value) else NoLines
  }

  /** The Content-Length lines of an accepted head give its body length. */
  lemma LengthIsSaid(head: seq<byte>, r: Request)
    requires 4 <= |head| && ParseHead(Http11(), head) == Good(r)
    ensures forall t, v :: In(LinesOf(head), t) && Field(t, Ascii("Content-Length"), v) ==> Digits(v) && Decimal(v) == r.contentLength
  {
    var g, lines := Http11(), LinesOf(head);
    AcceptIff(g, head);
    forall t, v | In(lines, t) && Field(t, Ascii("Content-Length"), v)
      ensures Digits(v) && Decimal(v) == r.contentLength
    {
      AgreedIn(g, lines, r.host, r.contentLength, t);
      LengthFieldIs(t, v);
    }
  }

  /** Without one the body is empty. */
  lemma LengthIsUnsaid(head: seq<byte>, r: Request)
    requires 4 <= |head| && ParseHead(Http11(), head) == Good(r) && r.contentLength != 0
    ensures exists t, v :: In(LinesOf(head), t) && Field(t, Ascii("Content-Length"), v)
  {
    var g, lines := Http11(), LinesOf(head);
    AcceptIff(g, head);
    CountIn(lines, l => IsLength(g, l));
    var t :| In(lines, t) && IsLength(g, t);
    var n, v := FieldHasName(t);
    assert Field(t, Ascii("Content-Length"), v);
  }

  /** An accepted head has no Transfer-Encoding line. */
  lemma NoTransferIsSaid(head: seq<byte>, r: Request)
    requires 4 <= |head| && ParseHead(Http11(), head) == Good(r)
    ensures forall t, v :: In(LinesOf(head), t) ==> !Field(t, Ascii("Transfer-Encoding"), v)
  {
    var g, lines := Http11(), LinesOf(head);
    AcceptIff(g, head);
    CountIn(lines, l => IsTransfer(g, l));
    forall t, v | In(lines, t) ensures !Field(t, Ascii("Transfer-Encoding"), v) {
      if Field(t, Ascii("Transfer-Encoding"), v) {
        AgreedIn(g, lines, r.host, r.contentLength, t);
        TransferFieldIs(t, v);
      }
    }
  }

  lemma LengthFieldIs(t: seq<byte>, v: seq<byte>)
    requires Field(t, Ascii("Content-Length"), v)
    ensures t != []
    ensures ReadField(t).Some? ==> ReadField(t) == Some(LengthField(Decimal(v))) && Digits(v)
  {
    var n :| Says(t, n, v) && EqualCi(n, Ascii("Content-Length"));
    LengthLine(t, n, v);
    SaysSomething(t, n, v);
  }

  lemma TransferFieldIs(t: seq<byte>, v: seq<byte>)
    requires Field(t, Ascii("Transfer-Encoding"), v)
    ensures t != []
    ensures ReadField(t).Some? ==> ReadField(t) == Some(TransferField)
  {
    var n :| Says(t, n, v) && EqualCi(n, Ascii("Transfer-Encoding"));
    TransferLine(t, n, v);
    SaysSomething(t, n, v);
  }

  lemma SaysSomething(t: seq<byte>, n: seq<byte>, v: seq<byte>)
    requires Says(t, n, v)
    ensures t != []
  {
  }

  lemma HostFieldIs(t: seq<byte>, v: seq<byte>)
    requires Field(t, Ascii("Host"), v)
    ensures t != []
    ensures ReadField(t).Some? ==> ReadField(t).value.HostField? && NamesHost(v, ReadField(t).value.host)
  {
    var n :| Says(t, n, v) && EqualCi(n, Ascii("Host"));
    HostLine(t, n, v);
    SaysSomething(t, n, v);
  }

  /** An accepted head has a Host line, and every one it has names the request's host. */
  lemma HostIsSaid(head: seq<byte>, r: Request)
    requires 4 <= |head| && ParseHead(Http11(), head) == Good(r)
    ensures exists t, v :: In(LinesOf(head), t) && Field(t, Ascii("Host"), v)
    ensures forall t, v :: In(LinesOf(head), t) && Field(t, Ascii("Host"), v) ==> NamesHost(v, r.host)
  {
    var g, lines := Http11(), LinesOf(head);
    AcceptIff(g, head);
    CountIn(lines, l => IsHost(g, l));
    var t :| In(lines, t) && IsHost(g, t);
    var n, v := FieldHasName(t);
    assert Field(t, Ascii("Host"), v);
    forall t, v | In(lines, t) && Field(t, Ascii("Host"), v) ensures NamesHost(v, r.host) {
      AgreedIn(g, lines, r.host, r.contentLength, t);
      HostFieldIs(t, v);
    }
  }

  // ---------------------------------------------------------------- what else the lines say

  /** The last line that satisfies `p`. */
  ghost function LastOf(lines: Lines, p: seq<byte> -> bool): (r: Option<seq<byte>>)
    ensures r.Some? ==> In(lines, r.value) && p(r.value)
    ensures r.None? ==> forall t :: In(lines, t) ==> !p(t)
  {
    match lines
    case NoLines => None
    case Line(t, more) =>
      var l := LastOf(more, p);
      if l.Some? then l else if p(t) then Some(t) else None
  }

  ghost predicate Connects(t: seq<byte>, token: seq<byte>) {
    exists v :: Field(t, Ascii("Connection"), v) && Lists(v, token)
  }

  /** A Connection line that says what becomes of the connection. */
  ghost predicate Decides(t: seq<byte>) {
    Connects(t, Ascii("close")) || Connects(t, Ascii("keep-alive"))
  }

  /** `g` reads header lines as the server does. */
  ghost predicate ReadsFields(g: Grammar) {
    forall t {:trigger ReadField(t)} :: g.field(t) == ReadField(t)
  }

  /** What a line makes of the fields collected so far. */
  ghost function Applied(g: Grammar, x: Extra, t: seq<byte>): Extra {
    var f := g.field(t);
    if t != [] && f.Some? then ApplyExtra(x, f.value) else x
  }

  lemma ConnectionSaid(g: Grammar, t: seq<byte>, v: seq<byte>)
    requires ReadsFields(g) && Field(t, Ascii("Connection"), v)
    ensures t != []
    ensures g.field(t) == Some(ConnectionField(Lists(v, Ascii("close")), Lists(v, Ascii("keep-alive")), Lists(v, Ascii("upgrade"))))
  {
    var n :| Says(t, n, v) && EqualCi(n, Ascii("Connection"));
    ConnectionLine(t, n, v);
    SaysSomething(t, n, v);
  }

  lemma ConnectsIff(t: seq<byte>, v: seq<byte>, token: seq<byte>)
    requires Field(t, Ascii("Connection"), v)
    ensures Connects(t, token) <==> Lists(v, token)
  {
    if v' :| Field(t, Ascii("Connection"), v') && Lists(v', token) {
      OneValue(t, Ascii("Connection"), v, Ascii("Connection"), v');
    }
  }

  lemma Unsaid(g: Grammar, t: seq<byte>, name: seq<byte>)
    requires ReadsFields(g) && forall v :: !Field(t, name, v)
    ensures g.field(t).Some? ==> NameFor(g.field(t).value) != Some(name)
  {
    if ReadField(t).Some? {
      var n, v := FieldHasName(t);
    }
  }

  /** What a field, if there is one, makes of the connection. */
  lemma FieldConnects(x: Extra, f: HttpRequest.Field)
    ensures f.ConnectionField? ==>
              && ApplyExtra(x, f).keepAlive == (if f.close then false else if f.keepAlive then true else x.keepAlive)
              && (ApplyExtra(x, f).connectionUpgrade <==> x.connectionUpgrade || f.upgrade)
    ensures NameFor(f) != Some(Ascii("Connection")) ==>
              ApplyExtra(x, f).keepAlive == x.keepAlive && ApplyExtra(x, f).connectionUpgrade == x.connectionUpgrade
  {
  }

  lemma KeepAliveStep(g: Grammar, x: Extra, t: seq<byte>)
    requires ReadsFields(g)
    ensures Applied(g, x, t).keepAlive == if Decides(t) then !Connects(t, Ascii("close")) else x.keepAlive
    ensures Applied(g, x, t).connectionUpgrade <==> x.connectionUpgrade || Connects(t, Ascii("upgrade"))
  {
    if v :| Field(t, Ascii("Connection"), v) {
      ConnectionSaid(g, t, v);
      ConnectsIff(t, v, Ascii("close"));
      ConnectsIff(t, v, Ascii("keep-alive"));
      ConnectsIff(t, v, Ascii("upgrade"));
      FieldConnects(x, g.field(t).value);
    } else {
      Unsaid(g, t, Ascii("Connection"));
      if g.field(t).Some? {
        FieldConnects(x, g.field(t).value);
      }
    }
  }

  /** The last line that decides is the one that counts, and without one the version does. */
  lemma {:induction false} KeepAliveIs(g: Grammar, lines: Lines, x: Extra)
    requires ReadsFields(g)
    ensures var l := LastOf(lines, t => Decides(t));
            Extras(g, lines, x).keepAlive == if l.Some? then !Connects(l.value, Ascii("close")) else x.keepAlive
    ensures Extras(g, lines, x).connectionUpgrade <==> x.connectionUpgrade || exists t :: In(lines, t) && Connects(t, Ascii("upgrade"))
  {
    if lines.Line? {
      KeepAliveStep(g, x, lines.text);
      KeepAliveIs(g, lines.more, Applied(g, x, lines.text));
    }
  }

  ghost predicate Named(t: seq<byte>, name: seq<byte>) {
    exists v :: Field(t, name, v)
  }

  /** Lines of this name set the attribute, each anew; lines of other names leave it. */
  ghost predicate Sets<T(!new)>(g: Grammar, name: seq<byte>, get: Extra -> T, of: seq<byte> -> T) {
    && (forall x, t, v {:trigger Applied(g, x, t), Field(t, name, v)} :: Field(t, name, v) ==> get(Applied(g, x, t)) == of(v))
    && (forall x, t {:trigger Applied(g, x, t)} :: !Named(t, name) ==> get(Applied(g, x, t)) == get(x))
  }

  /** Then the last such line counts. */
  lemma {:induction false} LastCounts<T(!new)>(g: Grammar, lines: Lines, x: Extra, name: seq<byte>, get: Extra -> T, of: seq<byte> -> T)
    requires Sets(g, name, get, of)
    ensures var l := LastOf(lines, t => Named(t, name));
            if l.None? then get(Extras(g, lines, x)) == get(x)
            else exists v :: Field(l.value, name, v) && get(Extras(g, lines, x)) == of(v)
  {
    if lines.Line? {
      var next := Applied(g, x, lines.text);
      LastCounts(g, lines.more, next, name, get, of);
      if v :| Field(lines.text, name, v) {
        assert get(next) == of(v);
      }
    }
  }

  /** Lines of this name with the right value raise the flag; nothing lowers it. */
  ghost predicate Raises(g: Grammar, name: seq<byte>, get: Extra -> bool, on: seq<byte> -> bool) {
    && (forall x, t, v {:trigger Applied(g, x, t), Field(t, name, v)} :: Field(t, name, v) ==> get(Applied(g, x, t)) == (get(x) || on(v)))
    && (forall x, t {:trigger Applied(g, x, t)} :: !Named(t, name) ==> get(Applied(g, x, t)) == get(x))
  }

  lemma {:induction false} AnyRaises(g: Grammar, lines: Lines, x: Extra, name: seq<byte>, get: Extra -> bool, on: seq<byte> -> bool)
    requires Raises(g, name, get, on)
    ensures get(Extras(g, lines, x)) <==> get(x) || exists t, v :: In(lines, t) && Field(t, name, v) && on(v)
  {
    if lines.Line? {
      var next := Applied(g, x, lines.text);
      AnyRaises(g, lines.more, next, name, get, on);
      if v :| Field(lines.text, name, v) {
        assert get(next) == (get(x) || on(v));
        forall v' | Field(lines.text, name, v') ensures v' == v {
          OneValue(lines.text, name, v, name, v');
        }
      }
    }
  }

  /** A field of another name leaves what this one sets. */
  lemma OtherFields(x: Extra, f: HttpRequest.Field)
    ensures var y := ApplyExtra(x, f);
            && (NameFor(f) != Some(Ascii("X-Rpsiod-Internal-Scheme")) ==> y.internalHttps == x.internalHttps)
            && (NameFor(f) != Some(Ascii("Upgrade")) ==> y.upgradeWebsocket == x.upgradeWebsocket)
            && (NameFor(f) != Some(Ascii("X-Rpsiod-Trace")) ==> y.traceRequest == x.traceRequest)
            && (NameFor(f) != Some(Ascii("Accept-Encoding")) ==> y.acceptEncoding == x.acceptEncoding)
            && (NameFor(f) != Some(Ascii("If-None-Match")) ==> y.ifNoneMatch == x.ifNoneMatch)
            && (NameFor(f) != Some(Ascii("If-Modified-Since")) ==> y.ifModifiedSince == x.ifModifiedSince)
            && (NameFor(f) != Some(Ascii("Range")) ==> y.range == x.range)
  {
  }

  lemma OtherLines(g: Grammar, x: Extra, t: seq<byte>, name: seq<byte>)
    requires ReadsFields(g) && !Named(t, name)
    ensures var f := g.field(t); Applied(g, x, t) == x || (f.Some? && NameFor(f.value) != Some(name) && Applied(g, x, t) == ApplyExtra(x, f.value))
  {
    Unsaid(g, t, name);
  }

  lemma AppliedIs(g: Grammar, x: Extra, t: seq<byte>, f: HttpRequest.Field)
    requires t != [] && g.field(t) == Some(f)
    ensures Applied(g, x, t) == ApplyExtra(x, f)
  {
  }

  function Kept(v: seq<byte>): seq<byte> {
    v[..if |v| < 256 then |v| else 255]
  }

  predicate SchemeSays(v: seq<byte>) {
    EqualCi(v, Ascii("https"))
  }

  lemma SchemeRead(g: Grammar, t: seq<byte>, v: seq<byte>)
    requires ReadsFields(g) && Field(t, Ascii("X-Rpsiod-Internal-Scheme"), v)
    ensures t != [] && g.field(t) == Some(SchemeField(SchemeSays(v)))
  {
    var n :| Says(t, n, v) && EqualCi(n, Ascii("X-Rpsiod-Internal-Scheme"));
    SchemeLine(t, n, v);
    SaysSomething(t, n, v);
  }

  lemma SchemeSaid(g: Grammar, x: Extra, t: seq<byte>, v: seq<byte>)
    requires ReadsFields(g) && Field(t, Ascii("X-Rpsiod-Internal-Scheme"), v)
    ensures Applied(g, x, t).internalHttps == (x.internalHttps || SchemeSays(v))
  {
    SchemeRead(g, t, v);
    AppliedIs(g, x, t, SchemeField(SchemeSays(v)));
  }

  lemma SchemeUnsaid(g: Grammar, x: Extra, t: seq<byte>)
    requires ReadsFields(g) && !Named(t, Ascii("X-Rpsiod-Internal-Scheme"))
    ensures Applied(g, x, t).internalHttps == x.internalHttps
  {
    OtherLines(g, x, t, Ascii("X-Rpsiod-Internal-Scheme"));
    if g.field(t).Some? {
      OtherFields(x, g.field(t).value);
    }
  }

  lemma SchemeRaises(g: Grammar)
    requires ReadsFields(g)
    ensures Raises(g, Ascii("X-Rpsiod-Internal-Scheme"), (x: Extra) => x.internalHttps, SchemeSays)
  {
    forall x: Extra, t, v | Field(t, Ascii("X-Rpsiod-Internal-Scheme"), v) ensures Applied(g, x, t).internalHttps == (x.internalHttps || SchemeSays(v)) {
      SchemeSaid(g, x, t, v);
    }
    forall x: Extra, t | !Named(t, Ascii("X-Rpsiod-Internal-Scheme")) ensures Applied(g, x, t).internalHttps == x.internalHttps {
      SchemeUnsaid(g, x, t);
    }
  }

  predicate UpgradeSays(v: seq<byte>) {
    EqualCi(v, Ascii("websocket"))
  }

  lemma UpgradeRead(g: Grammar, t: seq<byte>, v: seq<byte>)
    requires ReadsFields(g) && Field(t, Ascii("Upgrade"), v)
    ensures t != [] && g.field(t) == Some(UpgradeField(UpgradeSays(v)))
  {
    var n :| Says(t, n, v) && EqualCi(n, Ascii("Upgrade"));
    UpgradeLine(t, n, v);
    SaysSomething(t, n, v);
  }

  lemma UpgradeSaid(g: Grammar, x: Extra, t: seq<byte>, v: seq<byte>)
    requires ReadsFields(g) && Field(t, Ascii("Upgrade"), v)
    ensures Applied(g, x, t).upgradeWebsocket == (x.upgradeWebsocket || UpgradeSays(v))
  {
    UpgradeRead(g, t, v);
    AppliedIs(g, x, t, UpgradeField(UpgradeSays(v)));
  }

  lemma UpgradeUnsaid(g: Grammar, x: Extra, t: seq<byte>)
    requires ReadsFields(g) && !Named(t, Ascii("Upgrade"))
    ensures Applied(g, x, t).upgradeWebsocket == x.upgradeWebsocket
  {
    OtherLines(g, x, t, Ascii("Upgrade"));
    if g.field(t).Some? {
      OtherFields(x, g.field(t).value);
    }
  }

  lemma UpgradeRaises(g: Grammar)
    requires ReadsFields(g)
    ensures Raises(g, Ascii("Upgrade"), (x: Extra) => x.upgradeWebsocket, UpgradeSays)
  {
    forall x: Extra, t, v | Field(t, Ascii("Upgrade"), v) ensures Applied(g, x, t).upgradeWebsocket == (x.upgradeWebsocket || UpgradeSays(v)) {
      UpgradeSaid(g, x, t, v);
    }
    forall x: Extra, t | !Named(t, Ascii("Upgrade")) ensures Applied(g, x, t).upgradeWebsocket == x.upgradeWebsocket {
      UpgradeUnsaid(g, x, t);
    }
  }

  predicate TraceSays(v: seq<byte>) {
    EqualCi(v, Ascii("1")) || EqualCi(v, Ascii("true"))
  }

  lemma TraceRead(g: Grammar, t: seq<byte>, v: seq<byte>)
    requires ReadsFields(g) && Field(t, Ascii("X-Rpsiod-Trace"), v)
    ensures t != [] && g.field(t) == Some(TraceField(TraceSays(v)))
  {
    var n :| Says(t, n, v) && EqualCi(n, Ascii("X-Rpsiod-Trace"));
    TraceLine(t, n, v);
    SaysSomething(t, n, v);
  }

  lemma TraceSaid(g: Grammar, x: Extra, t: seq<byte>, v: seq<byte>)
    requires ReadsFields(g) && Field(t, Ascii("X-Rpsiod-Trace"), v)
    ensures Applied(g, x, t).traceRequest == TraceSays(v)
  {
    TraceRead(g, t, v);
    AppliedIs(g, x, t, TraceField(TraceSays(v)));
  }

  lemma TraceUnsaid(g: Grammar, x: Extra, t: seq<byte>)
    requires ReadsFields(g) && !Named(t, Ascii("X-Rpsiod-Trace"))
    ensures Applied(g, x, t).traceRequest == x.traceRequest
  {
    OtherLines(g, x, t, Ascii("X-Rpsiod-Trace"));
    if g.field(t).Some? {
      OtherFields(x, g.field(t).value);
    }
  }

  lemma TraceSets(g: Grammar)
    requires ReadsFields(g)
    ensures Sets(g, Ascii("X-Rpsiod-Trace"), (x: Extra) => x.traceRequest, TraceSays)
  {
    forall x: Extra, t, v | Field(t, Ascii("X-Rpsiod-Trace"), v) ensures Applied(g, x, t).traceRequest == TraceSays(v) {
      TraceSaid(g, x, t, v);
    }
    forall x: Extra, t | !Named(t, Ascii("X-Rpsiod-Trace")) ensures Applied(g, x, t).traceRequest == x.traceRequest {
      TraceUnsaid(g, x, t);
    }
  }

  lemma EncodingRead(g: Grammar, t: seq<byte>, v: seq<byte>)
    requires ReadsFields(g) && Field(t, Ascii("Accept-Encoding"), v)
    ensures t != [] && g.field(t) == Some(EncodingField(Kept(v)))
  {
    var n :| Says(t, n, v) && EqualCi(n, Ascii("Accept-Encoding"));
    EncodingLine(t, n, v);
    SaysSomething(t, n, v);
  }

  lemma EncodingSaid(g: Grammar, x: Extra, t: seq<byte>, v: seq<byte>)
    requires ReadsFields(g) && Field(t, Ascii("Accept-Encoding"), v)
    ensures Applied(g, x, t).acceptEncoding == Kept(v)
  {
    EncodingRead(g, t, v);
    AppliedIs(g, x, t, EncodingField(Kept(v)));
  }

  lemma EncodingUnsaid(g: Grammar, x: Extra, t: seq<byte>)
    requires ReadsFields(g) && !Named(t, Ascii("Accept-Encoding"))
    ensures Applied(g, x, t).acceptEncoding == x.acceptEncoding
  {
    OtherLines(g, x, t, Ascii("Accept-Encoding"));
    if g.field(t).Some? {
      OtherFields(x, g.field(t).value);
    }
  }

  lemma EncodingSets(g: Grammar)
    requires ReadsFields(g)
    ensures Sets(g, Ascii("Accept-Encoding"), (x: Extra) => x.acceptEncoding, Kept)
  {
    forall x: Extra, t, v | Field(t, Ascii("Accept-Encoding"), v) ensures Applied(g, x, t).acceptEncoding == Kept(v) {
      EncodingSaid(g, x, t, v);
    }
    forall x: Extra, t | !Named(t, Ascii("Accept-Encoding")) ensures Applied(g, x, t).acceptEncoding == x.acceptEncoding {
      EncodingUnsaid(g, x, t);
    }
  }

  lemma NoneMatchRead(g: Grammar, t: seq<byte>, v: seq<byte>)
    requires ReadsFields(g) && Field(t, Ascii("If-None-Match"), v)
    ensures t != [] && g.field(t) == Some(NoneMatchField(Kept(v)))
  {
    var n :| Says(t, n, v) && EqualCi(n, Ascii("If-None-Match"));
    NoneMatchLine(t, n, v);
    SaysSomething(t, n, v);
  }

  lemma NoneMatchSaid(g: Grammar, x: Extra, t: seq<byte>, v: seq<byte>)
    requires ReadsFields(g) && Field(t, Ascii("If-None-Match"), v)
    ensures Applied(g, x, t).ifNoneMatch == Kept(v)
  {
    NoneMatchRead(g, t, v);
    AppliedIs(g, x, t, NoneMatchField(Kept(v)));
  }

  lemma NoneMatchUnsaid(g: Grammar, x: Extra, t: seq<byte>)
    requires ReadsFields(g) && !Named(t, Ascii("If-None-Match"))
    ensures Applied(g, x, t).ifNoneMatch == x.ifNoneMatch
  {
    OtherLines(g, x, t, Ascii("If-None-Match"));
    if g.field(t).Some? {
      OtherFields(x, g.field(t).value);
    }
  }

  lemma NoneMatchSets(g: Grammar)
    requires ReadsFields(g)
    ensures Sets(g, Ascii("If-None-Match"), (x: Extra) => x.ifNoneMatch, Kept)
  {
    forall x: Extra, t, v | Field(t, Ascii("If-None-Match"), v) ensures Applied(g, x, t).ifNoneMatch == Kept(v) {
      NoneMatchSaid(g, x, t, v);
    }
    forall x: Extra, t | !Named(t, Ascii("If-None-Match")) ensures Applied(g, x, t).ifNoneMatch == x.ifNoneMatch {
      NoneMatchUnsaid(g, x, t);
    }
  }

  lemma ModifiedRead(g: Grammar, t: seq<byte>, v: seq<byte>)
    requires ReadsFields(g) && Field(t, Ascii("If-Modified-Since"), v)
    ensures t != [] && g.field(t) == Some(ModifiedField(Kept(v)))
  {
    var n :| Says(t, n, v) && EqualCi(n, Ascii("If-Modified-Since"));
    ModifiedLine(t, n, v);
    SaysSomething(t, n, v);
  }

  lemma ModifiedSaid(g: Grammar, x: Extra, t: seq<byte>, v: seq<byte>)
    requires ReadsFields(g) && Field(t, Ascii("If-Modified-Since"), v)
    ensures Applied(g, x, t).ifModifiedSince == Kept(v)
  {
    ModifiedRead(g, t, v);
    AppliedIs(g, x, t, ModifiedField(Kept(v)));
  }

  lemma ModifiedUnsaid(g: Grammar, x: Extra, t: seq<byte>)
    requires ReadsFields(g) && !Named(t, Ascii("If-Modified-Since"))
    ensures Applied(g, x, t).ifModifiedSince == x.ifModifiedSince
  {
    OtherLines(g, x, t, Ascii("If-Modified-Since"));
    if g.field(t).Some? {
      OtherFields(x, g.field(t).value);
    }
  }

  lemma ModifiedSets(g: Grammar)
    requires ReadsFields(g)
    ensures Sets(g, Ascii("If-Modified-Since"), (x: Extra) => x.ifModifiedSince, Kept)
  {
    forall x: Extra, t, v | Field(t, Ascii("If-Modified-Since"), v) ensures Applied(g, x, t).ifModifiedSince == Kept(v) {
      ModifiedSaid(g, x, t, v);
    }
    forall x: Extra, t | !Named(t, Ascii("If-Modified-Since")) ensures Applied(g, x, t).ifModifiedSince == x.ifModifiedSince {
      ModifiedUnsaid(g, x, t);
    }
  }

  // ---------------------------------------------------------------- ranges

  lemma RangeRead(g: Grammar, t: seq<byte>, v: seq<byte>, spec: RangeSpec)
    requires ReadsFields(g) && Field(t, Ascii("Range"), v) && AsksFor(v, spec)
    ensures t != [] && g.field(t) == Some(RangeField(spec))
  {
    var n :| Says(t, n, v) && EqualCi(n, Ascii("Range"));
    RangeLine(t, n, v);
    SaysSomething(t, n, v);
  }

  /** Every Range line asks for the same. */
  ghost predicate AllAskFor(lines: Lines, spec: RangeSpec) {
    forall t, v :: In(lines, t) && Field(t, Ascii("Range"), v) ==> AsksFor(v, spec)
  }

  lemma RangeStep(g: Grammar, x: Extra, t: seq<byte>, spec: RangeSpec)
    requires ReadsFields(g) && forall v :: Field(t, Ascii("Range"), v) ==> AsksFor(v, spec)
    ensures Applied(g, x, t).range == if Named(t, Ascii("Range")) then SetRange(spec, x.range) else x.range
  {
    if v :| Field(t, Ascii("Range"), v) {
      RangeRead(g, t, v, spec);
    } else {
      OtherLines(g, x, t, Ascii("Range"));
      if g.field(t).Some? {
        OtherFields(x, g.field(t).value);
      }
    }
  }

  lemma {:induction false} RangeIs(g: Grammar, lines: Lines, x: Extra, spec: RangeSpec)
    requires ReadsFields(g) && AllAskFor(lines, spec)
    ensures Extras(g, lines, x).range ==
            if exists t :: In(lines, t) && Named(t, Ascii("Range")) then SetRange(spec, x.range) else x.range
  {
    if lines.Line? {
      assert In(lines, lines.text) && forall t :: In(lines.more, t) ==> In(lines, t);
      RangeStep(g, x, lines.text, spec);
      RangeIs(g, lines.more, Applied(g, x, lines.text), spec);
    }
  }

  // ---------------------------------------------------------------- the whole request

  lemma FinishParts(g: Grammar, head: seq<byte>, r: Request) returns (line: RequestLine)
    requires 4 <= |head| && ParseHead(g, head) == Good(r)
    ensures Find(head, CRLF).Some? && g.line(head[..Find(head, CRLF).value]) == Some(line)
    ensures var x := Extras(g, LinesOf(head), InitialExtra(line));
            && r.method_ == line.method_ && r.path == line.path && r.query == line.query && r.headOnly == line.head
            && r.absoluteForm == line.authority.Some? && g.authorityOk(line.authority, r.host)
            && r.keepAlive == x.keepAlive && r.internalHttps == x.internalHttps && r.traceRequest == x.traceRequest
            && r.upgradeWebsocket == (x.connectionUpgrade && x.upgradeWebsocket) && r.range == x.range
            && r.acceptEncoding == x.acceptEncoding && r.ifNoneMatch == x.ifNoneMatch && r.ifModifiedSince == x.ifModifiedSince
            && r.headerLen == |head|
  {
    line := g.line(head[..Find(head, CRLF).value]).value;
  }

  /** What the request line of an accepted head says. */
  lemma LineIsSaid(head: seq<byte>, r: Request) returns (line: RequestLine, target: seq<byte>, version: seq<byte>)
    requires 4 <= |head| && ParseHead(Http11(), head) == Good(r)
    ensures Find(head, CRLF).Some? && LineIs(head[..Find(head, CRLF).value], target, version, line)
    ensures r.method_ == line.method_ && r.path == line.path && r.query == line.query && r.headOnly == line.head
    ensures r.absoluteForm == line.authority.Some?
    ensures line.authority.Some? ==>
              exists x, y :: NamesHost(Trim(line.authority.value), x) && NamesHost(Trim(r.host), y) && EqualCi(x, y)
  {
    line := FinishParts(Http11(), head, r);
    target, version := ReadIsLine(head[..Find(head, CRLF).value], line);
    if line.authority.Some? {
      AuthorityIff(line.authority.value, r.host);
    }
  }

  ghost predicate SaysKeepAlive(lines: Lines, http11: bool, keepAlive: bool) {
    var l := LastOf(lines, t => Decides(t));
    keepAlive == if l.Some? then !Connects(l.value, Ascii("close")) else http11
  }

  /** Whether the peer wants the connection kept: what the last line says that decides, else what the version says. */
  lemma KeepAliveIsSaid(head: seq<byte>, r: Request)
    requires 4 <= |head| && ParseHead(Http11(), head) == Good(r)
    ensures exists target, version, line ::
              && Find(head, CRLF).Some? && LineIs(head[..Find(head, CRLF).value], target, version, line)
              && SaysKeepAlive(LinesOf(head), line.http11, r.keepAlive)
  {
    var g := Http11();
    var line := FinishParts(g, head, r);
    var target, version := ReadIsLine(head[..Find(head, CRLF).value], line);
    KeepAliveIs(g, LinesOf(head), InitialExtra(line));
  }

  /** A WebSocket upgrade takes both a Connection line and an Upgrade line. */
  lemma UpgradeIsSaid(head: seq<byte>, r: Request)
    requires 4 <= |head| && ParseHead(Http11(), head) == Good(r)
    ensures r.upgradeWebsocket <==>
              && (exists t :: In(LinesOf(head), t) && Connects(t, Ascii("upgrade")))
              && (exists t, v :: In(LinesOf(head), t) && Field(t, Ascii("Upgrade"), v) && EqualCi(v, Ascii("websocket")))
  {
    var g, lines := Http11(), LinesOf(head);
    var line := FinishParts(g, head, r);
    var x := InitialExtra(line);
    KeepAliveIs(g, lines, x);
    UpgradeRaises(g);
    AnyRaises(g, lines, x, Ascii("Upgrade"), (x: Extra) => x.upgradeWebsocket, UpgradeSays);
    assert forall v :: UpgradeSays(v) <==> EqualCi(v, Ascii("websocket"));
  }

  /** The flag of internal requests. */
  lemma SchemeIsSaid(head: seq<byte>, r: Request)
    requires 4 <= |head| && ParseHead(Http11(), head) == Good(r)
    ensures r.internalHttps <==>
              exists t, v :: In(LinesOf(head), t) && Field(t, Ascii("X-Rpsiod-Internal-Scheme"), v) && EqualCi(v, Ascii("https"))
  {
    var g, lines := Http11(), LinesOf(head);
    var line := FinishParts(g, head, r);
    SchemeRaises(g);
    AnyRaises(g, lines, InitialExtra(line), Ascii("X-Rpsiod-Internal-Scheme"), (x: Extra) => x.internalHttps, SchemeSays);
    assert forall v :: SchemeSays(v) <==> EqualCi(v, Ascii("https"));
  }

  /** The last line of a name gives its text, as much of it as is kept; without one it is empty. */
  ghost predicate SaysText(lines: Lines, name: seq<byte>, text: seq<byte>) {
    var l := LastOf(lines, t => Named(t, name));
    if l.None? then text == [] else exists v :: Field(l.value, name, v) && text == Kept(v)
  }

  /** What negotiation and validation work with. */
  lemma TextsAreSaid(head: seq<byte>, r: Request)
    requires 4 <= |head| && ParseHead(Http11(), head) == Good(r)
    ensures SaysText(LinesOf(head), Ascii("Accept-Encoding"), r.acceptEncoding)
    ensures SaysText(LinesOf(head), Ascii("If-None-Match"), r.ifNoneMatch)
    ensures SaysText(LinesOf(head), Ascii("If-Modified-Since"), r.ifModifiedSince)
  {
    var g, lines := Http11(), LinesOf(head);
    var line := FinishParts(g, head, r);
    var x := InitialExtra(line);
    EncodingSets(g);
    LastCounts(g, lines, x, Ascii("Accept-Encoding"), (x: Extra) => x.acceptEncoding, Kept);
    NoneMatchSets(g);
    LastCounts(g, lines, x, Ascii("If-None-Match"), (x: Extra) => x.ifNoneMatch, Kept);
    ModifiedSets(g);
    LastCounts(g, lines, x, Ascii("If-Modified-Since"), (x: Extra) => x.ifModifiedSince, Kept);
  }

  /** The last trace line turns tracing on or off. */
  lemma TraceIsSaid(head: seq<byte>, r: Request)
    requires 4 <= |head| && ParseHead(Http11(), head) == Good(r)
    ensures var name := Ascii("X-Rpsiod-Trace");
            var l := LastOf(LinesOf(head), t => Named(t, name));
            if l.None? then !r.traceRequest
            else exists v :: Field(l.value, name, v) && (r.traceRequest <==> EqualCi(v, Ascii("1")) || EqualCi(v, Ascii("true")))
  {
    var g := Http11();
    var line := FinishParts(g, head, r);
    var x := InitialExtra(line);
    TraceSets(g);
    LastCounts(g, LinesOf(head), x, Ascii("X-Rpsiod-Trace"), (x: Extra) => x.traceRequest, TraceSays);
  }

  /** The range of a request whose Range lines, if any, all ask for the same. */
  lemma RangeIsSaid(head: seq<byte>, r: Request, spec: RangeSpec)
    requires 4 <= |head| && ParseHead(Http11(), head) == Good(r) && AllAskFor(LinesOf(head), spec)
    ensures r.range == if exists t :: In(LinesOf(head), t) && Named(t, Ascii("Range")) then SetRange(spec, NO_RANGE) else NO_RANGE
  {
    var g := Http11();
    var line := FinishParts(g, head, r);
    var x := InitialExtra(line);
    RangeIs(g, LinesOf(head), x, spec);
  }
}
