/**
 The HTTP/1.1 to HTTP/2 body bridge from end to end: the PHP writer prints chunks into a socket, the HTTP/2
 side reads them back in arbitrary pieces, dechunks them and hands them out in arbitrary frames.
 */
module Bridge {
  import opened Bytes
  import opened ChunkSize
  import opened ChunkGrammar
  import opened Chunked
  import opened Wire
  import opened Buffer
  import opened ChunkDecoder
  import opened LoopbackHead

  // ---------------------------------------------------------------- the writing side

  /** client_write_chunked_body */
  method WriteChunkedBody(sock: Socket, tls: bool, body: seq<byte>) returns (ok: bool)
    modifies sock
    ensures ok ==> sock.sent == old(sock.sent) + EncodePiece(body)
    ensures !ok ==> exists k :: StoppedAt(old(sock.sent), sock.sent, EncodePiece(body), k)
    ensures body == [] ==> ok
    ensures Used(old(sock.answers), sock.answers) && (!ok ==> GaveUp(old(sock.answers), sock.answers))
  {
    if |body| == 0 {
      return true;
    }
    var iov := [Hex(|body|) + CRLF, body, CRLF];
    assert ConcatFrom(iov, 3) == [] && ConcatFrom(iov, 2) == CRLF && ConcatFrom(iov, 1) == body + CRLF;
    assert Concat(iov) == EncodePiece(body);
    ok := sock.WritevAll(tls, iov);
  }

  /** The chunks of every piece; a failed write stops everything. */
  method WritePieces(sock: Socket, tls: bool, pieces: seq<seq<byte>>) returns (ok: bool, ghost done: seq<byte>)
    modifies sock
    ensures ok ==> sock.sent == old(sock.sent) + done && done + ENCODED_END == Encode(pieces)
    ensures !ok ==> exists k :: StoppedAt(old(sock.sent), sock.sent, Encode(pieces), k)
    ensures Used(old(sock.answers), sock.answers) && (!ok ==> GaveUp(old(sock.answers), sock.answers))
  {
    ghost var start := sock.sent;
    done := [];
    assert start + [] == start && [] + Encode(pieces) == Encode(pieces);
    for i := 0 to |pieces|
      invariant Used(old(sock.answers), sock.answers)
      invariant Writing(start, sock.sent, pieces, i, done)
    {
      ghost var left, sent := sock.answers, sock.sent;
      ok := WriteChunkedBody(sock, tls, pieces[i]);
      UsedThen(old(sock.answers), left, sock.answers);
      if !ok {
        WritingStopped(start, sent, sock.sent, pieces, i, done);
        return;
      }
      WritingNext(start, sent, pieces, i, done);
      done := done + EncodePiece(pieces[i]);
    }
    ok := true;
  }

  /** The chunks of the first i pieces are out. */
  ghost predicate Writing(start: seq<byte>, sent: seq<byte>, pieces: seq<seq<byte>>, i: nat, done: seq<byte>) {
    i <= |pieces| && sent == start + done && done + EncodeFrom(pieces, i) == Encode(pieces)
  }

  lemma WritingNext(start: seq<byte>, sent: seq<byte>, pieces: seq<seq<byte>>, i: nat, done: seq<byte>)
    requires i < |pieces| && Writing(start, sent, pieces, i, done)
    ensures Writing(start, sent + EncodePiece(pieces[i]), pieces, i + 1, done + EncodePiece(pieces[i]))
  {
    var e, rest := EncodePiece(pieces[i]), EncodeFrom(pieces, i + 1);
    assert EncodeFrom(pieces, i) == e + rest;
    Associative(done, e, rest);
    Associative(start, done, e);
  }

  lemma WritingStopped(start: seq<byte>, sent: seq<byte>, now: seq<byte>, pieces: seq<seq<byte>>, i: nat, done: seq<byte>)
    requires i < |pieces| && pieces[i] != [] && Writing(start, sent, pieces, i, done)
    requires exists k :: StoppedAt(sent, now, EncodePiece(pieces[i]), k)
    ensures exists k :: StoppedAt(start, now, Encode(pieces), k)
  {
    var k: nat :| StoppedAt(sent, now, EncodePiece(pieces[i]), k);
    StoppedInPart(start, now, done, EncodePiece(pieces[i]), EncodeFrom(pieces, i + 1), k);
  }

  /** All pieces and the end marker, as send_php_fpm writes them. */
  method WriteChunked(sock: Socket, tls: bool, pieces: seq<seq<byte>>) returns (ok: bool)
    modifies sock
    ensures ok ==> sock.sent == old(sock.sent) + Encode(pieces)
    ensures !ok ==> exists k :: StoppedAt(old(sock.sent), sock.sent, Encode(pieces), k)
    ensures Used(old(sock.answers), sock.answers) && (!ok ==> GaveUp(old(sock.answers), sock.answers))
  {
    ghost var start, done := sock.sent, [];
    ok, done := WritePieces(sock, tls, pieces);
    if ok {
      ghost var before := sock.answers;
      ok := sock.WriteAll(ENCODED_END);
      UsedThen(old(sock.answers), before, sock.answers);
      if !ok {
        ghost var k :| 0 <= k < |ENCODED_END| && sock.sent == start + done + ENCODED_END[..k];
        StoppedInPart(start, sock.sent, done, ENCODED_END, [], k);
        assert ENCODED_END + [] == ENCODED_END;
      }
    }
  }

  // ---------------------------------------------------------------- the reading side

  /** h2_progress_backend_stream's read loop: up to 8192 bytes a time, in the sizes the kernel chooses. */
  method ReadAll(wire: seq<byte>, sizes: seq<nat>) returns (raw: Option<seq<byte>>)
    ensures raw == if |wire| <= MAX_RESPONSE then Some(wire) else None
  {
    var buf := new GrowBuffer();
    var off, turn := 0, 0;
    while off < |wire|
      invariant buf.Valid() && fresh(buf) && fresh(buf.data)
      invariant off <= |wire| && buf.Contents() == wire[..off]
    {
      var want := if turn < |sizes| then sizes[turn] % 8192 + 1 else 8192;
      var got := Min(want, |wire| - off);
      assert wire[..off] + wire[off..off + got] == wire[..off + got];
      var ok := buf.Append(wire[off..off + got]);
      if !ok {
        return None;
      }
      off, turn := off + got, turn + 1;
    }
    assert wire[..off] == wire;
    return Some(buf.data[..buf.len]);
  }

  /** `r` is what decoding `s` must give. */
  ghost predicate IsDecoding(s: seq<byte>, r: Option<seq<byte>>) {
    forall d :: Carries(ParseSize, s, 0, d) <==> r == Some(d)
  }

  /** `body` is what a response with these bytes carries, if it is readable. */
  ghost predicate IsParsed(raw: seq<byte>, body: Option<seq<byte>>) {
    match Find(raw, CRLFCRLF)
    case None => body.None?
    case Some(n) =>
      match ReadHead(raw[..n])
      case None => body.None?
      case Some(chunked) => if chunked then IsDecoding(raw[n + 4..], body) else body == Some(raw[n + 4..])
  }

  /**
   parse_loopback_response: the body is what follows the first empty line, dechunked if the head says so; a head
   without a readable status line is refused.
   */
  method ParseLoopback(raw: seq<byte>) returns (body: Option<seq<byte>>)
    ensures IsParsed(raw, body)
  {
    var end := MemMem(raw, CRLFCRLF);
    if end.None? {
      return None;
    }
    var chunked := ReadLoopbackHead(raw[..end.value]);
    if chunked.None? {
      return None;
    }
    var rest := raw[end.value + 4..];
    if chunked.value {
      body := DecodeChunkedBody(rest);
    } else {
      body := Some(rest);
    }
  }

  // ---------------------------------------------------------------- the framing side

  /** The part of a stream that response_data_callback works on. */
  class ResponseBody {
    const body: seq<byte>
    var off: nat

    constructor (body: seq<byte>)
      ensures this.body == body && off == 0
    {
      this.body, this.off := body, 0;
    }

    /** response_data_callback: the next bytes, and whether the end of the stream is marked. */
    method NextData(length: nat) returns (data: seq<byte>, eof: bool)
      requires off <= |body|
      modifies this
      ensures off == Min(old(off) + length, |body|) && data == body[old(off)..off]
      ensures eof <==> off == |body|
    {
      var left := |body| - off;
      if left == 0 {
        return [], true;
      }
      var n := if left < length then left else length;
      data := body[off..off + n];
      off := off + n;
      eof := off == |body|;
    }
  }

  /** One DATA frame as it goes to the peer. */
  datatype Frame = Frame(data: seq<byte>, eof: bool)

  function DataOfFrames(fs: seq<Frame>): seq<byte> {
    if fs == [] then [] else DataOfFrames(fs[..|fs| - 1]) + fs[|fs| - 1].data
  }

  /** nghttp2 asking for data until the end is marked, with whatever positive lengths it likes. */
  method Drain(body: seq<byte>, lengths: seq<nat>) returns (fs: seq<Frame>)
    ensures DataOfFrames(fs) == body
    ensures fs != [] && forall i :: 0 <= i < |fs| ==> (fs[i].eof <==> i == |fs| - 1)
    ensures body != [] ==> forall i :: 0 <= i < |fs| ==> fs[i].data != []
  {
    var stream := new ResponseBody(body);
    fs := [];
    var eof, turn := false, 0;
    while !eof
      invariant stream.body == body && fresh(stream) && Drained(fs, body, stream.off, eof)
      decreases |body| - stream.off, !eof
    {
      var length := if turn < |lengths| then lengths[turn] + 1 else 16384;
      ghost var from := stream.off;
      var data: seq<byte>;
      data, eof := stream.NextData(length);
      DrainedNext(fs, body, from, stream.off, data, eof);
      fs, turn := fs + [Frame(data, eof)], turn + 1;
    }
    assert body[..stream.off] == body;
  }

  /** The frames so far carry the first `off` bytes; the end is marked on the last frame, once it is reached. */
  ghost predicate Drained(fs: seq<Frame>, body: seq<byte>, off: nat, eof: bool) {
    && off <= |body| && DataOfFrames(fs) == body[..off]
    && (if eof then off == |body| && fs != [] else off < |body| || fs == [])
    && (forall i :: 0 <= i < |fs| ==> (fs[i].eof <==> eof && i == |fs| - 1))
    && (body != [] ==> forall i :: 0 <= i < |fs| ==> fs[i].data != [])
  }

  lemma DrainedNext(fs: seq<Frame>, body: seq<byte>, from: nat, off: nat, data: seq<byte>, eof: bool)
    requires Drained(fs, body, from, false) && from <= off <= |body| && data == body[from..off]
    requires (eof <==> off == |body|) && (from < |body| ==> from < off)
    ensures Drained(fs + [Frame(data, eof)], body, off, eof)
  {
    var all := fs + [Frame(data, eof)];
    assert all[..|all| - 1] == fs && body[..off] == body[..from] + data;
  }

  /** The end of the stream is marked once: on the last frame, or on HEADERS when there is no frame. */
  predicate EndsOnce(fs: seq<Frame>) {
    forall i :: 0 <= i < |fs| ==> (fs[i].eof <==> i == |fs| - 1)
  }

  /**
   The end of submit_parsed_loopback_response: a body that is empty, or that a HEAD request does not want, gets no data
   provider, so the end of the stream stands on HEADERS.
   */
  method SubmitBody(body: seq<byte>, headOnly: bool, lengths: seq<nat>) returns (fs: seq<Frame>)
    ensures DataOfFrames(fs) == (if headOnly then [] else body)
    ensures EndsOnce(fs) && (fs == [] <==> headOnly || body == [])
  {
    var len := if headOnly then 0 else |body|;
    if len > 0 {
      fs := Drain(body, lengths);
    } else {
      fs := [];
    }
  }

  // ---------------------------------------------------------------- end to end

  /** What the peer gets besides the response headers: the frames of a body, or the text of a 502. */
  datatype Outcome = Delivered(frames: seq<Frame>) | BadGateway

  /**
   The whole way of one chunked response behind a header block. However the kernel splits the writes and the
   reads and nghttp2 the frames, the peer gets exactly the concatenated pieces or a 502: a response cut short
   by a write error is never delivered in part.
   */
  method ServeChunked(head: seq<byte>, pieces: seq<seq<byte>>, tls: bool,
                      answers: seq<Answer>, readSizes: seq<nat>, frameLengths: seq<nat>)
    returns (outcome: Outcome, sentAll: bool, ghost rest: seq<Answer>)
    requires ReadHead(head) == Some(true) && Find(head + CRLFCRLF, CRLFCRLF) == Some(|head|)
    ensures outcome.Delivered? <==> sentAll && |head| + 4 + |Encode(pieces)| <= MAX_RESPONSE
    ensures !sentAll ==> GaveUp(answers, rest)
    ensures outcome.Delivered? ==> DataOfFrames(outcome.frames) == Concat(pieces)
    ensures outcome.Delivered? ==> EndsOnce(outcome.frames) && (outcome.frames == [] <==> Concat(pieces) == [])
  {
    var sock := new Socket(answers);
    sock.sent := head + CRLFCRLF;
    sentAll := WriteChunked(sock, tls, pieces);
    rest := sock.answers;
    ghost var body := sock.sent[|head| + 4..];
    assert sentAll ==> body == Encode(pieces);
    assert sock.sent == head + CRLFCRLF + body;
    var raw := ReadAll(sock.sent, readSizes);
    if raw.None? {
      return BadGateway, sentAll, rest;
    }
    var got := ParseLoopback(raw.value);
    BehindEmptyLine(head, body, got);
    if sentAll {
      EncodeLonger(pieces, 0);
      EncodeCarries(pieces, [], Concat(pieces));
      assert Encode(pieces) + [] == Encode(pieces);
      var fs := SubmitBody(got.value, false, frameLengths);
      return Delivered(fs), sentAll, rest;
    } else {
      CutRefused(head, sock.sent, pieces, body);
      return BadGateway, sentAll, rest;
    }
  }

  /** What is parsed behind a chunked head and its empty line is the decoding of the rest. */
  lemma BehindEmptyLine(head: seq<byte>, body: seq<byte>, got: Option<seq<byte>>)
    requires ReadHead(head) == Some(true) && Find(head + CRLFCRLF, CRLFCRLF) == Some(|head|)
    requires IsParsed(head + CRLFCRLF + body, got)
    ensures IsDecoding(body, got)
  {
    FindExtends(head + CRLFCRLF, body, CRLFCRLF);
    AroundEmptyLine(head, body, head + CRLFCRLF + body);
  }

  lemma AroundEmptyLine(head: seq<byte>, body: seq<byte>, raw: seq<byte>)
    requires raw == head + CRLFCRLF + body
    ensures raw[..|head|] == head && raw[|head| + 4..] == body
  {
  }

  /** What a writer that stopped early left behind the head is no chunked body. */
  lemma CutRefused(head: seq<byte>, sent: seq<byte>, pieces: seq<seq<byte>>, body: seq<byte>)
    requires sent == head + CRLFCRLF + body
    requires exists k :: StoppedAt(head + CRLFCRLF, sent, Encode(pieces), k)
    ensures forall d :: !Carries(ParseSize, body, 0, d)
  {
    var k: nat :| StoppedAt(head + CRLFCRLF, sent, Encode(pieces), k);
    EncodeLonger(pieces, 0);
    assert body == sent[|head| + 4..] == Encode(pieces)[..k];
    forall d ensures !Carries(ParseSize, body, 0, d) {
      EncodedPrefixRefused(pieces, 0, k, 0, d);
    }
  }

  lemma {:induction false} EncodeLonger(pieces: seq<seq<byte>>, i: nat)
    requires i <= |pieces|
    ensures |ConcatFrom(pieces, i)| < |EncodeFrom(pieces, i)|
    decreases |pieces| - i
  {
    if i < |pieces| {
      PieceLonger(pieces[i]);
      EncodeLonger(pieces, i + 1);
    }
  }

  lemma PieceLonger(p: seq<byte>)
    ensures |p| <= |EncodePiece(p)|
  {
  }
}
