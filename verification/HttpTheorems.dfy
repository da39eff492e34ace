/** What the request parser promises, stated about the lines of a head rather than about the parsing loop. */
module HttpTheorems {
  import opened Bytes
  import opened ByteRange
  import opened HttpRequest
  import opened HttpHead

  // ---------------------------------------------------------------- prefix stability

  /** Once decided, a request is not changed by anything that arrives after it. */
  lemma ParseStable(g: Grammar, buf: seq<byte>, more: seq<byte>)
    requires Parse(g, buf) != Incomplete
    ensures Parse(g, buf + more) == Parse(g, buf)
  {
    FindExtends(buf, more, CRLFCRLF);
    var n := Find(buf, CRLFCRLF).value;
    assert (buf + more)[..n + 4] == buf[..n + 4];
  }

  /** The head ends with the first empty line: anything shorter is undecided, and the head alone suffices. */
  lemma ParseAtHeadEnd(g: Grammar, buf: seq<byte>, k: nat)
    requires Find(buf, CRLFCRLF).Some? && k <= |buf|
    ensures var n := Find(buf, CRLFCRLF).value + 4;
            && (k < n ==> Parse(g, buf[..k]) == Incomplete)
            && (n <= k ==> Parse(g, buf[..k]) == Parse(g, buf))
  {
    var n := Find(buf, CRLFCRLF).value + 4;
    assert buf[..k] + buf[k..] == buf;
    if k < n {
      if Find(buf[..k], CRLFCRLF).Some? {
        FindExtends(buf[..k], buf[k..], CRLFCRLF);
      }
    } else {
      FindInPrefix(buf, CRLFCRLF, k);
      assert buf[..k][..n] == buf[..n];
    }
  }

  /** The header length an accepted request reports is the length of its head. */
  lemma HeadLength(g: Grammar, buf: seq<byte>)
    requires Parse(g, buf).Good?
    ensures Find(buf, CRLFCRLF).Some? && Parse(g, buf).req.headerLen == Find(buf, CRLFCRLF).value + 4
  {
  }

  // ---------------------------------------------------------------- acceptance, line by line

  ghost predicate IsHost(g: Grammar, line: seq<byte>) {
    line != [] && g.field(line).Some? && g.field(line).value.HostField?
  }

  ghost predicate IsLength(g: Grammar, line: seq<byte>) {
    line != [] && g.field(line).Some? && g.field(line).value.LengthField?
  }

  ghost predicate IsTransfer(g: Grammar, line: seq<byte>) {
    line != [] && g.field(line).Some? && g.field(line).value.TransferField?
  }

  /** How many lines satisfy `p`. */
  ghost function Count(lines: Lines, p: seq<byte> -> bool): nat {
    match lines
    case NoLines => 0
    case Line(text, more) => (if p(text) then 1 else 0) + Count(more, p)
  }

  ghost predicate LineOk(g: Grammar, line: seq<byte>) {
    |line| < MAX_LINE && (line != [] ==> g.field(line).Some?)
  }

  /** Every line is short enough and readable. */
  ghost predicate AllOk(g: Grammar, lines: Lines) {
    lines.Line? ==> LineOk(g, lines.text) && AllOk(g, lines.more)
  }

  /** Every Content-Length line says `n`. */
  ghost predicate LengthsAre(g: Grammar, lines: Lines, n: nat) {
    lines.Line? ==> (IsLength(g, lines.text) ==> g.field(lines.text).value.length == n) && LengthsAre(g, lines.more, n)
  }

  /** Every Host line says `h`. */
  ghost predicate HostsAre(g: Grammar, lines: Lines, h: seq<byte>) {
    lines.Line? ==> (IsHost(g, lines.text) ==> g.field(lines.text).value.host == h) && HostsAre(g, lines.more, h)
  }

  /** Whether `v` is absent or `x`. */
  predicate Is<T(==)>(v: Option<T>, x: T) {
    v.None? || v.value == x
  }

  function B(b: bool): nat {
    if b then 1 else 0
  }

  /** What the loop accepts, given that the Host lines say `h` and the Content-Length lines `n`. */
  lemma {:induction false} FoldIff(g: Grammar, lines: Lines, c: Core, h: seq<byte>, n: nat)
    requires c.count <= MAX_HEADERS
    requires HostsAre(g, lines, h) && Is(c.host, h) && LengthsAre(g, lines, n) && Is(c.length, n)
    ensures Fold(g, lines, c).Some? <==>
            && AllOk(g, lines) && c.count + Count(lines, l => l != []) <= MAX_HEADERS
            && B(c.host.Some?) + Count(lines, l => IsHost(g, l)) <= 1
    ensures Fold(g, lines, c).Some? ==>
            var t := Fold(g, lines, c).value;
            && t.host == (if c.host.Some? || Count(lines, l => IsHost(g, l)) > 0 then Some(h) else None)
            && t.length == (if c.length.Some? || Count(lines, l => IsLength(g, l)) > 0 then Some(n) else None)
            && (t.transfer <==> c.transfer || Count(lines, l => IsTransfer(g, l)) > 0)
  {
    if lines.Line? {
      var next := Step(g, c, lines.text);
      if next.Some? {
        FoldIff(g, lines.more, next.value, h, n);
      }
    }
  }

  /** When the loop accepts, its Host lines and its Content-Length lines agree. */
  lemma {:induction false} FoldAgrees(g: Grammar, lines: Lines, c: Core, h: seq<byte>, n: nat)
    requires Fold(g, lines, c).Some? && Is(Fold(g, lines, c).value.host, h) && Is(Fold(g, lines, c).value.length, n)
    ensures HostsAre(g, lines, h) && Is(c.host, h) && LengthsAre(g, lines, n) && Is(c.length, n)
  {
    if lines.Line? {
      FoldAgrees(g, lines.more, Step(g, c, lines.text).value, h, n);
    }
  }

  /** A head that should be accepted, with the host and the body length it announces. */
  ghost predicate Acceptable(g: Grammar, head: seq<byte>, h: seq<byte>, n: nat)
    requires 4 <= |head|
  {
    && |head| <= MAX_HEADER_BLOCK && ProperNewlines(head)
    && Find(head, CRLF).Some?
    && var eol := Find(head, CRLF).value;
       && eol <= MAX_REQUEST_LINE && g.line(head[..eol]).Some?
       && var lines := HeaderLines(head, eol);
          && AllOk(g, lines) && Count(lines, l => l != []) <= MAX_HEADERS
          && Count(lines, l => IsHost(g, l)) == 1 && HostsAre(g, lines, h)
          && Count(lines, l => IsTransfer(g, l)) == 0
          && LengthsAre(g, lines, n) && (Count(lines, l => IsLength(g, l)) == 0 ==> n == 0)
          && g.authorityOk(g.line(head[..eol]).value.authority, h)
  }

  /**
   Acceptance, both ways: exactly one Host, no Transfer-Encoding, all Content-Length lines equal, every line
   readable; and then the request's host and body length are the announced ones.
   */
  lemma AcceptIff(g: Grammar, head: seq<byte>)
    requires 4 <= |head|
    ensures ParseHead(g, head).Good? <==> exists h, n :: Acceptable(g, head, h, n)
    ensures ParseHead(g, head).Good? ==>
            Acceptable(g, head, ParseHead(g, head).req.host, ParseHead(g, head).req.contentLength)
  {
    if ParseHead(g, head).Good? {
      var eol, r := Find(head, CRLF).value, ParseHead(g, head).req;
      var lines := HeaderLines(head, eol);
      FoldAgrees(g, lines, NO_CORE, r.host, r.contentLength);
      FoldIff(g, lines, NO_CORE, r.host, r.contentLength);
      assert Acceptable(g, head, r.host, r.contentLength);
    }
    if h, n :| Acceptable(g, head, h, n) {
      FoldIff(g, HeaderLines(head, Find(head, CRLF).value), NO_CORE, h, n);
    }
  }

  /** A request announces at most one body length. */
  lemma {:induction false} LengthIsUnambiguous(g: Grammar, lines: Lines, n: nat, m: nat)
    requires LengthsAre(g, lines, n) && LengthsAre(g, lines, m) && Count(lines, l => IsLength(g, l)) > 0
    ensures n == m
  {
    if !IsLength(g, lines.text) {
      LengthIsUnambiguous(g, lines.more, n, m);
    }
  }

  /** No Content-Length of the server's grammar passes 64 bits. */
  lemma {:induction false} LengthFits(lines: Lines, n: nat)
    requires LengthsAre(Http11(), lines, n) && Count(lines, l => IsLength(Http11(), l)) > 0
    ensures n <= ULLONG_MAX
  {
    if IsLength(Http11(), lines.text) {
      FieldLengthFits(lines.text);
    } else {
      LengthFits(lines.more, n);
    }
  }

  lemma FieldLengthFits(line: seq<byte>)
    requires ReadField(line).Some? && ReadField(line).value.LengthField?
    ensures ReadField(line).value.length <= ULLONG_MAX
  {
  }

  /** The bounds the connection loop lives on. */
  lemma AcceptedBounds(buf: seq<byte>)
    requires Parse(Http11(), buf).Good?
    ensures var r := Parse(Http11(), buf).req;
            4 <= r.headerLen <= |buf| && r.headerLen <= MAX_HEADER_BLOCK && r.contentLength <= ULLONG_MAX
  {
    var g := Http11();
    HeadLength(g, buf);
    var head := buf[..Find(buf, CRLFCRLF).value + 4];
    AcceptIff(g, head);
    var lines, n := HeaderLines(head, Find(head, CRLF).value), Parse(g, buf).req.contentLength;
    if Count(lines, l => IsLength(g, l)) > 0 {
      LengthFits(lines, n);
    }
  }
}
