/** FastCGI records and pairs by their bytes (sections 3.3, 3.4 and 8 of the FastCGI specification). */
module FastCgiMeaning {
  import opened Bytes
  import opened FastCgi
  import opened PhpStream

  /** Version, type, request id, content length, padding length, reserved; then content, padding, and the rest. */
  ghost predicate RecordOf(s: seq<byte>, kind: byte, content: seq<byte>, rest: seq<byte>,
                           version: byte, id: (byte, byte), length: (byte, byte), reserved: byte, padding: seq<byte>)
  {
    && |padding| < 256 && (length.0 as int) * 256 + (length.1 as int) == |content|
    && s == [version, kind, id.0, id.1, length.0, length.1, |padding|, reserved] + content + padding + rest
  }

  lemma RecordIsRead(s: seq<byte>, kind: byte, content: seq<byte>, rest: seq<byte>,
                     version: byte, id: (byte, byte), length: (byte, byte), reserved: byte, padding: seq<byte>)
    requires RecordOf(s, kind, content, rest, version, id, length, reserved, padding)
    ensures DecodeRecord(s) == Some(Taken(Record(kind, content), rest))
  {
    var n, p := |content|, |padding|;
    var head := [version, kind, id.0, id.1, length.0, length.1, p, reserved];
    assert s[..8] == head;
    assert s[1] == head[1] && s[4] == head[4] && s[5] == head[5] && s[6] == head[6];
    assert s[8..8 + n] == content && s[8 + n + p..] == rest;
  }

  lemma ReadIsRecord(s: seq<byte>, kind: byte, content: seq<byte>, rest: seq<byte>)
    requires DecodeRecord(s) == Some(Taken(Record(kind, content), rest))
    ensures exists version, id, length, reserved, padding :: RecordOf(s, kind, content, rest, version, id, length, reserved, padding)
  {
    var n, p := (s[4] as int) * 256 + s[5] as int, s[6] as int;
    var padding := s[8 + n..8 + n + p];
    assert s == s[..8] + s[8..8 + n] + padding + s[8 + n + p..];
    assert s[..8] == [s[0], kind, s[2], s[3], s[4], s[5], |padding|, s[7]];
    assert RecordOf(s, kind, content, rest, s[0], (s[2], s[3]), (s[4], s[5]), s[7], padding);
  }

  /** A record is read if and only if its bytes stand there, whatever version, request id, reserved byte and padding say. */
  lemma RecordIff(s: seq<byte>, kind: byte, content: seq<byte>, rest: seq<byte>)
    ensures DecodeRecord(s) == Some(Taken(Record(kind, content), rest)) <==>
            exists version, id, length, reserved, padding :: RecordOf(s, kind, content, rest, version, id, length, reserved, padding)
  {
    if DecodeRecord(s) == Some(Taken(Record(kind, content), rest)) {
      ReadIsRecord(s, kind, content, rest);
    }
    if version, id, length, reserved, padding :| RecordOf(s, kind, content, rest, version, id, length, reserved, padding) {
      RecordIsRead(s, kind, content, rest, version, id, length, reserved, padding);
    }
  }

  /** FCGI_END_REQUEST is 3 and ends what is said, FCGI_STDOUT is 6 and adds to it, any other type adds nothing. */
  lemma StdoutIs(decode: Decoder, s: seq<byte>, r: Record, rest: seq<byte>)
    requires decode(s) == Some(Taken(r, rest)) && |rest| < |s|
    ensures r.kind == 3 ==> Stdout(decode, s) == Some([])
    ensures r.kind == 6 ==>
              Stdout(decode, s) == if Stdout(decode, rest).Some? then Some(r.content + Stdout(decode, rest).value) else None
    ensures r.kind != 3 && r.kind != 6 ==> Stdout(decode, s) == Stdout(decode, rest)
  {
    if r.kind != 3 && r.kind != 6 && Stdout(decode, rest).Some? {
      assert [] + Stdout(decode, rest).value == Stdout(decode, rest).value;
    }
  }

  /** A length of 128 and more stands in four bytes, the highest first, with the top bit set. */
  lemma LengthIs(n: nat)
    requires n < 0x8000_0000
    ensures var t := EncodeLength(n);
            if n < 128 then t == [n]
            else |t| == 4 && 128 <= t[0] &&
                 ((t[0] as int) - 128) * 0x100_0000 + (t[1] as int) * 0x1_0000 + (t[2] as int) * 0x100 + (t[3] as int) == n
  {
    var a, b, c := n / 0x100_0000, n / 0x1_0000, n / 0x100;
    assert a < 128 && n == 0x100 * c + n % 0x100 && c == 0x100 * b + c % 0x100 && b == 0x100 * a + b % 0x100;
  }

  /** Both lengths, then the name, then the value. */
  lemma PairExample()
    ensures EncodePair(Pair(Ascii("A"), Ascii("BC"))) == [1, 2, 65, 66, 67]
  {
    assert Ascii("A") == [65] && Ascii("BC") == [66, 67];
  }
}

/** What a PHP response is, case by case. */
module ResponseMeaning {
  import opened Bytes
  import opened Chunked
  import opened PhpStream

  /** Without an empty line on STDOUT: the server's own head for that many bytes, and all of them unless only a head is wanted. */
  lemma HeadlessResponseIff(heads: Heads, headOnly: bool, out: seq<byte>, sent: seq<byte>)
    requires Find(out, CRLFCRLF).None?
    ensures IsResponse(heads, headOnly, out, sent) <==>
            heads.plain(|out|).Some? && sent == heads.plain(|out|).value + if headOnly then [] else out
  {
  }

  /** With one, for a HEAD request: the printed head. */
  lemma HeadResponseIff(heads: Heads, out: seq<byte>, n: nat, sent: seq<byte>)
    requires Find(out, CRLFCRLF) == Some(n)
    ensures var block := heads.print_(out[..n], false);
            IsResponse(heads, true, out, sent) <==> block.Some? && sent == block.value
  {
    var block := heads.print_(out[..n], false);
    if block.Some? {
      assert block.value + [] == block.value;
    }
  }

  /** With a length in the head: the printed head, and what follows the empty line as it is. */
  lemma LengthResponseIff(heads: Heads, out: seq<byte>, n: nat, sent: seq<byte>)
    requires Find(out, CRLFCRLF) == Some(n) && heads.declaresLength(out[..n])
    ensures var block := heads.print_(out[..n], false);
            IsResponse(heads, false, out, sent) <==> block.Some? && sent == block.value + out[n + 4..]
  {
    assert IsBodyWire(false, out[n + 4..], out[n + 4..]);
  }

  /** Without one: the printed head, and what follows the empty line in chunks. */
  lemma ChunkedResponseIff(heads: Heads, out: seq<byte>, n: nat, sent: seq<byte>)
    requires Find(out, CRLFCRLF) == Some(n) && !heads.declaresLength(out[..n])
    ensures var block := heads.print_(out[..n], true);
            IsResponse(heads, false, out, sent) <==>
            block.Some? && exists pieces: seq<seq<byte>> :: Concat(pieces) == out[n + 4..] && sent == block.value + Encode(pieces)
  {
    var block, body := heads.print_(out[..n], true), out[n + 4..];
    if block.Some? {
      if IsResponse(heads, false, out, sent) {
        var wire :| sent == block.value + wire && IsBodyWire(true, wire, body);
        var pieces: seq<seq<byte>> :| Concat(pieces) == body && wire == Encode(pieces);
      }
      if pieces: seq<seq<byte>> :| Concat(pieces) == body && sent == block.value + Encode(pieces) {
        assert IsBodyWire(true, Encode(pieces), body);
      }
    }
  }
}
