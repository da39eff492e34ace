/** A smallest request, read by the server grammar step by step: the example the buffer counterexample needs. */
module SmallestRequest {
  import opened Bytes
  import opened HttpRequest
  import opened HttpHead

  const LINE: seq<byte> := [71, 69, 84, 32, 47, 32, 72, 84, 84, 80, 47, 49, 46, 49]
  const HOST: seq<byte> := [72, 111, 115, 116, 58, 32, 97]
  const SMALLEST: seq<byte> := LINE + CRLF + HOST + CRLFCRLF

  lemma FindFirstByte(s: seq<byte>, b: byte, n: nat)
    requires n < |s| && s[n] == b && forall k :: 0 <= k < n ==> s[k] != b
    ensures FindByte(s, b) == Some(n)
  {
  }

  lemma TheHost()
    ensures ReadField(HOST) == Some(HostField([97]))
  {
    FindFirstByte(HOST, COLON, 4);
    var name, raw := HOST[..4], HOST[5..];
    assert name == Ascii("Host");
    assert raw == [32, 97];
    assert TrimLeft(raw) == TrimLeft(raw[1..]) && raw[1..] == [97];
    assert Trim(raw) == [97];
    assert [97][0..] == [97];
    assert TrimLeft([97]) == [97] && TrimRight([97]) == [97];
    assert ParseHost([97]) == Some([97]) by {
      assert Trim([97]) == [97];
      assert FindByte([97], COLON).None?;
    }
  }

  lemma TheTarget()
    ensures ParseTarget([47]) == Some(([47], None))
  {
    assert |Ascii("http://")| == 7 && |Ascii("https://")| == 8 && |LowerAll([47])| == 1;
  }

  lemma TheParts()
    ensures FindByte(LINE, SP) == Some(3) && LINE[..3] == [71, 69, 84]
    ensures FindByte(LINE[4..], SP) == Some(1) && LINE[4..][..1] == [47] && LINE[4..][2..] == Ascii("HTTP/1.1")
  {
    FindFirstByte(LINE, SP, 3);
    var rest := LINE[4..];
    assert rest == [47, 32, 72, 84, 84, 80, 47, 49, 46, 49];
    FindFirstByte(rest, SP, 1);
    assert rest[2..] == Ascii("HTTP/1.1");
  }

  lemma TheLine()
    ensures ParseRequestLine(LINE).Some? && ParseRequestLine(LINE).value.authority.None?
  {
    TheParts();
    TheTarget();
    TheVersion();
    assert ValidToken([71, 69, 84]);
    assert forall i :: 0 <= i < |LINE| ==> LINE[i] >= 32 && LINE[i] != 127;
  }

  lemma TheVersion()
    ensures var v := Ascii("HTTP/1.1"); SP !in v && |v| == 8 && EqualCi(v, v)
  {
  }

  lemma TheEnds()
    ensures Find(SMALLEST, CRLF) == Some(14) && Find(SMALLEST, CRLFCRLF) == Some(23)
  {
    var s := SMALLEST;
    assert s[14..16] == CRLF && s[23..27] == CRLFCRLF;
    assert OccursAt(s, CRLF, 14) && OccursAt(s, CRLFCRLF, 23);
    forall k | 0 <= k < 14 ensures !OccursAt(s, CRLF, k) {
      assert s[k..k + 2][0] == s[k];
    }
    forall k | 0 <= k < 23 ensures !OccursAt(s, CRLFCRLF, k) {
      assert s[k..k + 4][0] == s[k] && s[k..k + 4][2] == s[k + 2];
    }
    FindIs(s, CRLF, 14);
    FindIs(s, CRLFCRLF, 23);
  }

  lemma TheShape()
    ensures |SMALLEST| == 27 && SMALLEST[..14] == LINE && SMALLEST[16..23] == HOST && ProperNewlines(SMALLEST)
    ensures Find(HOST, CRLF).None?
  {
    ThePairs();
    forall i | 0 <= i && i + 2 <= 7 ensures !OccursAt(HOST, CRLF, i) {
      assert HOST[i..i + 2][0] == HOST[i];
    }
  }

  lemma ThePairs()
    ensures ProperNewlines(SMALLEST)
  {
    var s := SMALLEST;
    assert s[14] == CR && s[15] == LF && s[23] == CR && s[24] == LF && s[25] == CR && s[26] == LF;
    forall i | 0 <= i < |s| ensures PairedAt(s, i) {
      if i < 14 {
        assert s[i] == LINE[i];
      } else if 16 <= i < 23 {
        assert s[i] == HOST[i - 16];
      }
    }
  }

  /** A head with one header line, a Host, is accepted without a body. */
  lemma HostOnly(g: Grammar, head: seq<byte>, eol: nat, line: RequestLine, host: seq<byte>)
    requires 4 <= |head| <= MAX_HEADER_BLOCK && ProperNewlines(head) && Find(head, CRLF) == Some(eol)
    requires eol <= MAX_REQUEST_LINE && eol + 2 < |head| - 4 && g.line(head[..eol]) == Some(line)
    requires var text := head[eol + 2..|head| - 4];
             Find(text, CRLF).None? && |text| < MAX_LINE && g.field(text) == Some(HostField(host))
    requires g.authorityOk(line.authority, host)
    ensures var p := ParseHead(g, head); p.Good? && p.req.headerLen == |head| && p.req.contentLength == 0
  {
    var text := head[eol + 2..|head| - 4];
    assert HeaderLines(head, eol) == Line(text, NoLines);
    assert Fold(g, NoLines, Core(Some(host), None, false, 1)).Some?;
    assert Fold(g, Line(text, NoLines), NO_CORE) == Some(Core(Some(host), None, false, 1));
  }

  /** The smallest request that is served. */
  lemma SmallestIsServed()
    ensures var p := Parse(Http11(), SMALLEST); p.Good? && p.req.headerLen == |SMALLEST| && p.req.contentLength == 0
  {
    TheEnds();
    TheShape();
    TheLine();
    TheHost();
    HostOnly(Http11(), SMALLEST, 14, ParseRequestLine(LINE).value, [97]);
    HeadAlone(Http11(), SMALLEST);
  }

  lemma HeadAlone(g: Grammar, head: seq<byte>)
    requires |head| >= 4 && Find(head, CRLFCRLF) == Some(|head| - 4)
    ensures Parse(g, head) == ParseHead(g, head)
  {
    AllOf(head, |head| - 4 + 4);
  }

  lemma AllOf(s: seq<byte>, n: nat)
    requires n == |s|
    ensures s[..n] == s
  {
  }
}
