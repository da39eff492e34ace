/** From the records of a PHP backend to the frames of an HTTP/2 peer. */
module PhpBridge {
  import opened Bytes
  import opened ChunkSize
  import opened ChunkGrammar
  import opened Chunked
  import opened Wire
  import opened Bridge
  import opened LoopbackHead
  import opened PhpHeaders
  import opened PhpStream
  import Streams

  /** A printed header block ends with its first empty line and is read back as meant. */
  ghost predicate IsPrintedHead(block: seq<byte>, chunked: bool) {
    && |block| >= 4 && Find(block, CRLFCRLF) == Some(|block| - 4)
    && ReadHead(block[..|block| - 4]) == Some(chunked)
  }

  /** The block printed for this response, if any, is read back as meant. */
  ghost predicate HeadReadable(heads: Heads, out: seq<byte>) {
    var block := HeadFor(heads, false, out);
    block.Some? ==> IsPrintedHead(block.value, MeansChunked(heads, out))
  }

  /** Whether the body of this response is sent in chunks. */
  ghost predicate MeansChunked(heads: Heads, out: seq<byte>) {
    match Find(out, CRLFCRLF)
    case None => false
    case Some(n) => IsChunked(heads, false, out[..n])
  }

  /** The exact condition, for a block of clean lines: a later line names the chunked coding just when it is meant. */
  lemma ReadAsMeantIff(lines: seq<seq<byte>>, chunked: bool)
    requires lines != [] && (forall k :: 0 <= k < |lines| ==> CleanLine(lines[k])) && StatusReadable(lines[0])
    ensures IsPrintedHead(Join(lines, 0) + CRLFCRLF, chunked) <==> (AnyNames(lines[1..]) <==> chunked)
  {
    var head := Join(lines, 0);
    var block := head + CRLFCRLF;
    PrintedHeadReads(lines);
    PrintedHeadEnds(lines);
    assert block[..|block| - 4] == head;
  }

  /** A server that prints nothing but a status line and the coding: each of its responses is readable. */
  function SampleHeads(): Heads {
    Heads(_ => false,
          (_, chunked) => Some((if chunked then SAMPLE_HEAD else STATUS_LINE) + CRLFCRLF),
          _ => Some(STATUS_LINE + CRLFCRLF))
  }

  lemma SampleIsReadable(out: seq<byte>)
    ensures HeadFor(SampleHeads(), false, out).Some? && HeadReadable(SampleHeads(), out)
  {
    SampleBlocks();
    var meant := MeansChunked(SampleHeads(), out);
    assert HeadFor(SampleHeads(), false, out) == Some((if meant then SAMPLE_HEAD else STATUS_LINE) + CRLFCRLF);
  }

  lemma SampleBlocks()
    ensures IsPrintedHead(SAMPLE_HEAD + CRLFCRLF, true) && IsPrintedHead(STATUS_LINE + CRLFCRLF, false)
  {
    SampleHeadIsRead();
    HeadIsPrinted(SAMPLE_HEAD, true);
    StatusBlock();
  }

  lemma HeadIsPrinted(head: seq<byte>, chunked: bool)
    requires ReadHead(head) == Some(chunked) && Find(head + CRLFCRLF, CRLFCRLF) == Some(|head|)
    ensures IsPrintedHead(head + CRLFCRLF, chunked)
  {
    var block := head + CRLFCRLF;
    assert block[..|block| - 4] == head;
  }

  lemma StatusBlock()
    ensures IsPrintedHead(STATUS_LINE + CRLFCRLF, false)
  {
    StatusLineIsRead();
    var lines := [STATUS_LINE];
    assert Join(lines, 0) == STATUS_LINE && lines[1..] == [] && !AnyNames([]);
    ReadAsMeantIff(lines, false);
  }

  /**
   A head that is not read as meant: a Content-Length, and a header name in two pairs of quotes. The server takes one
   pair off and lets the rest pass; the other side takes the second pair off and looks for chunks. A body without a
   line break has none, so it is refused.
   */
  lemma QuotedCodingIsMisread(length: seq<byte>, body: seq<byte>, removed: seq<byte> -> bool)
    requires CleanLine(length) && Find(body, CRLF).None? && !removed([39] + TRANSFER_ENCODING + [39])
    ensures Printed(TWICE_QUOTED, removed) == Some(QUOTED_LINE)
    ensures var block := Join([STATUS_LINE, length, QUOTED_LINE], 0) + CRLFCRLF;
            !IsPrintedHead(block, false) && forall r :: IsParsed(block + body, r) ==> r == None
  {
    var block := Join([STATUS_LINE, length, QUOTED_LINE], 0) + CRLFCRLF;
    TwiceQuotedIsPrinted(removed);
    StatusLineIsRead();
    QuotedLineIsRead();
    CodingOutOfPlace(STATUS_LINE, length, QUOTED_LINE);
    forall r | IsParsed(block + body, r) ensures r == None {
      UnbrokenIsRefused(block, body, r);
    }
  }

  /** Any line that names the coding behind a length that was meant. */
  lemma CodingOutOfPlace(status: seq<byte>, length: seq<byte>, coding: seq<byte>)
    requires CleanLine(status) && StatusReadable(status) && CleanLine(length) && CleanLine(coding) && NamesChunked(coding)
    ensures var block := Join([status, length, coding], 0) + CRLFCRLF;
            !IsPrintedHead(block, false) && IsPrintedHead(block, true)
  {
    var lines := [status, length, coding];
    assert lines[1..][1] == coding;
    ReadAsMeantIff(lines, false);
    ReadAsMeantIff(lines, true);
  }

  /** Where chunks are expected, a body without a line break is refused. */
  lemma UnbrokenIsRefused(block: seq<byte>, body: seq<byte>, r: Option<seq<byte>>)
    requires IsPrintedHead(block, true) && Find(body, CRLF).None? && IsParsed(block + body, r)
    ensures r == None
  {
    BlockParses(block, true, body, r);
    if r.Some? {
      assert Carries(ParseSize, body, 0, r.value);
      SizeLineIsBroken(body, 0, r.value);
    }
  }

  lemma SizeLineIsBroken(s: seq<byte>, have: nat, d: seq<byte>)
    requires Carries(ParseSize, s, have, d)
    ensures Find(s, CRLF).Some?
  {
    var b :| Accepts(ParseSize, s, b, have) && DataOf(b) == d;
    var line := b.line;
    assert line + CRLF <= Render(b);
    assert s[|line|..|line| + 2] == CRLF;
    assert OccursAt(s, CRLF, |line|);
  }

  /** The body of what was said on STDOUT: what follows the first empty line, or all of it. */
  ghost function BodyOf(out: seq<byte>): seq<byte> {
    match Find(out, CRLFCRLF)
    case None => out
    case Some(n) => out[n + 4..]
  }

  /** What stands behind a printed block is the body, or a chunked form of it. */
  lemma BehindHead(block: seq<byte>, chunked: bool, wire: seq<byte>)
    requires IsPrintedHead(block, chunked)
    ensures Find(block + wire, CRLFCRLF) == Some(|block| - 4)
    ensures ReadHead((block + wire)[..|block| - 4]) == Some(chunked) && (block + wire)[|block|..] == wire
  {
    FindExtends(block, wire, CRLFCRLF);
    assert (block + wire)[..|block| - 4] == block[..|block| - 4];
  }

  lemma {:induction false} ChunkedIsLonger(wire: seq<byte>, body: seq<byte>)
    requires IsBodyWire(true, wire, body)
    ensures |body| <= |wire|
  {
    var pieces: seq<seq<byte>> :| Concat(pieces) == body && wire == Encode(pieces);
    EncodeLonger(pieces, 0);
  }

  /** A printed block and what stands behind it are parsed as such. */
  lemma BlockParses(block: seq<byte>, chunked: bool, wire: seq<byte>, body: Option<seq<byte>>)
    requires IsPrintedHead(block, chunked)
    ensures IsParsed(block + wire, body) <==> if chunked then IsDecoding(wire, body) else body == Some(wire)
  {
    BehindHead(block, chunked, wire);
  }

  /** A printed block and a whole body behind it are parsed to that body. */
  lemma BodyParses(block: seq<byte>, chunked: bool, wire: seq<byte>, said: seq<byte>, body: Option<seq<byte>>)
    requires IsPrintedHead(block, chunked) && IsBodyWire(chunked, wire, said)
    requires |block + wire| <= MAX_RESPONSE && IsParsed(block + wire, body)
    ensures body == Some(said)
  {
    BlockParses(block, chunked, wire, body);
    if chunked {
      ChunkedIsLonger(wire, said);
      BodyWireDecodes(wire, said, said);
    }
  }

  /** A whole response is its printed block and the body behind it, in one form or the other. */
  lemma ResponseSplits(heads: Heads, out: seq<byte>, sent: seq<byte>) returns (block: seq<byte>, chunked: bool, wire: seq<byte>)
    requires HeadReadable(heads, out) && IsResponse(heads, false, out, sent)
    ensures IsPrintedHead(block, chunked) && sent == block + wire && IsBodyWire(chunked, wire, BodyOf(out))
    ensures chunked == MeansChunked(heads, out)
  {
    block, chunked := HeadFor(heads, false, out).value, MeansChunked(heads, out);
    match Find(out, CRLFCRLF)
    case None =>
      wire := out;
    case Some(n) =>
      wire := BodyBehind(heads, out, n, sent);
  }

  lemma BodyBehind(heads: Heads, out: seq<byte>, n: nat, sent: seq<byte>) returns (wire: seq<byte>)
    requires Find(out, CRLFCRLF) == Some(n) && IsResponse(heads, false, out, sent)
    ensures sent == HeadFor(heads, false, out).value + wire
    ensures IsBodyWire(IsChunked(heads, false, out[..n]), wire, out[n + 4..])
  {
    wire :| sent == HeadFor(heads, false, out).value + wire && IsBodyWire(IsChunked(heads, false, out[..n]), wire, out[n + 4..]);
  }

  /** A whole response that fits is parsed to the body of what was said. */
  lemma ResponseParses(heads: Heads, out: seq<byte>, sent: seq<byte>, body: Option<seq<byte>>)
    requires HeadReadable(heads, out) && IsResponse(heads, false, out, sent) && |sent| <= MAX_RESPONSE && IsParsed(sent, body)
    ensures body == Some(BodyOf(out))
  {
    var block, chunked, wire := ResponseSplits(heads, out, sent);
    BodyParses(block, chunked, wire, BodyOf(out), body);
  }

  /** A block that is not complete has no empty line. */
  lemma BlockIncomplete(block: seq<byte>, chunked: bool, sent: seq<byte>)
    requires IsPrintedHead(block, chunked) && sent < block
    ensures Find(sent, CRLFCRLF).None?
  {
    assert sent + block[|sent|..] == block;
    if Find(sent, CRLFCRLF).Some? {
      FindExtends(sent, block[|sent|..], CRLFCRLF);
    }
  }

  /** A body cut behind its block: refused if it was to be chunked, otherwise taken for what is there. */
  lemma CutBodyParses(block: seq<byte>, chunked: bool, wire: seq<byte>, said: seq<byte>, part: seq<byte>, body: Option<seq<byte>>)
    requires IsPrintedHead(block, chunked) && IsBodyWire(chunked, wire, said) && part < wire && IsParsed(block + part, body)
    ensures body == if chunked then None else Some(part)
  {
    BlockParses(block, chunked, part, body);
    if chunked {
      CutChunksRefused(wire, said, part, body);
    }
  }

  lemma CutChunksRefused(wire: seq<byte>, said: seq<byte>, part: seq<byte>, body: Option<seq<byte>>)
    requires IsBodyWire(true, wire, said) && part < wire && IsDecoding(part, body)
    ensures body == None
  {
    var pieces: seq<seq<byte>> :| Concat(pieces) == said && wire == Encode(pieces);
    assert part == Encode(pieces)[..|part|];
    if body.Some? {
      EncodedPrefixRefused(pieces, 0, |part|, 0, body.value);
    }
  }

  /** What is parsed of a cut response: nothing, or a part of a body that was not to be chunked. */
  lemma CutParses(heads: Heads, out: seq<byte>, sent: seq<byte>, body: Option<seq<byte>>)
    requires HeadReadable(heads, out) && IsCut(heads, false, out, sent) && IsParsed(sent, body)
    ensures body.Some? ==> !MeansChunked(heads, out) && body.value < BodyOf(out)
  {
    if HeadFor(heads, false, out).None? {
      assert Find<byte>([], CRLFCRLF).None?;
      UnendedParses(sent, body);
    } else {
      var full :| IsResponse(heads, false, out, full) && sent < full;
      var block, chunked, wire := ResponseSplits(heads, out, full);
      CutAnywhereParses(block, chunked, wire, BodyOf(out), sent, body);
    }
  }

  lemma UnendedParses(sent: seq<byte>, body: Option<seq<byte>>)
    requires Find(sent, CRLFCRLF).None? && IsParsed(sent, body)
    ensures body == None
  {
  }

  /** Cut in the block or behind it. */
  lemma CutAnywhereParses(block: seq<byte>, chunked: bool, wire: seq<byte>, said: seq<byte>, sent: seq<byte>, body: Option<seq<byte>>)
    requires IsPrintedHead(block, chunked) && IsBodyWire(chunked, wire, said) && sent < block + wire && IsParsed(sent, body)
    ensures body.Some? ==> !chunked && body.value < said
  {
    if |sent| < |block| {
      CutBefore(block, wire, sent);
      BlockIncomplete(block, chunked, sent);
      UnendedParses(sent, body);
    } else {
      var part := sent[|block|..];
      CutBehind(block, wire, sent);
      CutBodyParses(block, chunked, wire, said, part, body);
    }
  }

  lemma CutBefore(block: seq<byte>, wire: seq<byte>, sent: seq<byte>)
    requires sent < block + wire && |sent| < |block|
    ensures sent < block
  {
    assert sent == (block + wire)[..|sent|] == block[..|sent|];
  }

  lemma CutBehind(block: seq<byte>, wire: seq<byte>, sent: seq<byte>)
    requires sent < block + wire && |block| <= |sent|
    ensures sent == block + sent[|block|..] && sent[|block|..] < wire
  {
    assert sent == (block + wire)[..|sent|];
  }

  /**
   The whole way of a PHP response to a GET: records in, HTTP/2 frames out. When the response was written in full and
   its printed head is read as meant, the peer gets exactly the body of the concatenated STDOUT, or a 502 if the
   response is over 64 MiB. When a write failed, it gets a 502 for a chunked response, and for one with a declared length a 502 or a
   strict prefix of the body.
   */
  method ServePhp(backend: Backend, tls: bool, heads: Heads, answers: seq<Answer>, readSizes: seq<nat>,
                  frameLengths: seq<nat>, ghost decode: Decoder)
    returns (outcome: Outcome, r: Result, ghost out: seq<byte>, wire: seq<byte>)
    requires backend.pos == 0 && IsDecoder(decode)
    modifies backend
    ensures r == Responded(true) ==> Stdout(decode, backend.wire) == Some(out) && IsResponse(heads, false, out, wire)
    ensures r == Responded(true) && HeadReadable(heads, out) ==> (outcome.Delivered? <==> |wire| <= MAX_RESPONSE)
    ensures r == Responded(true) && HeadReadable(heads, out) && outcome.Delivered? ==>
              DataOfFrames(outcome.frames) == BodyOf(out)
    ensures r == Responded(false) && HeadReadable(heads, out) && outcome.Delivered? ==>
              !MeansChunked(heads, out) && DataOfFrames(outcome.frames) < BodyOf(out)
    ensures outcome.Delivered? ==> IsParsed(wire, Some(DataOfFrames(outcome.frames))) && EndsOnce(outcome.frames)
    ensures outcome.BadGateway? && |wire| <= MAX_RESPONSE ==> IsParsed(wire, None)
  {
    var sock := new Socket(answers);
    r, out := StreamPhp(backend, sock, tls, heads, false, decode);
    wire := sock.sent;
    var raw := ReadAll(wire, readSizes);
    if raw.None? {
      return BadGateway, r, out, wire;
    }
    var body := ParseLoopback(raw.value);
    if r == Responded(true) && HeadReadable(heads, out) {
      ResponseParses(heads, out, wire, body);
    } else if r == Responded(false) && HeadReadable(heads, out) {
      CutParses(heads, out, wire, body);
    }
    if body.None? {
      return BadGateway, r, out, wire;
    }
    var fs := SubmitBody(body.value, false, frameLengths);
    return Delivered(fs), r, out, wire;
  }

  /**
   submit_parsed_loopback_response for a stream whose backend is done: the peer gets the body that the bytes of the last
   attempt carry, none of it for a HEAD request, or a 502 when they carry none.
   */
  method AnswerStream(s: Streams.Stream, headOnly: bool, frameLengths: seq<nat>)
    returns (outcome: Outcome, body: Option<seq<byte>>)
    requires s.Ok() && s.state.Done? && !s.submitted
    ensures IsParsed(s.raw, body) && (outcome.Delivered? <==> body.Some?)
    ensures outcome.Delivered? ==>
              && DataOfFrames(outcome.frames) == (if headOnly then [] else body.value)
              && EndsOnce(outcome.frames) && (outcome.frames == [] <==> headOnly || body.value == [])
  {
    body := ParseLoopback(s.raw);
    if body.None? {
      return BadGateway, body;
    }
    var fs := SubmitBody(body.value, headOnly, frameLengths);
    return Delivered(fs), body;
  }

  /** The stream's whole way: reads that end within the limit and bring a chunked body behind a readable head. */
  lemma ReadsAreDelivered(head: seq<byte>, pieces: seq<seq<byte>>, input: seq<ReadAnswer>)
    requires ReadHead(head) == Some(true) && Find(head + CRLFCRLF, CRLFCRLF) == Some(|head|)
    requires Streams.UpToEnd(input) == Some(head + CRLFCRLF + Encode(pieces))
    requires |head| + 4 + |Encode(pieces)| <= MAX_RESPONSE
    ensures Streams.AfterReads([], input) == (head + CRLFCRLF + Encode(pieces), Streams.Done)
    ensures forall body :: IsParsed(head + CRLFCRLF + Encode(pieces), body) <==> body == Some(Concat(pieces))
  {
    var raw := head + CRLFCRLF + Encode(pieces);
    Streams.DoneIff([], input);
    assert [] + raw == raw;
    forall body ensures IsParsed(raw, body) <==> body == Some(Concat(pieces)) {
      PiecesParse(head, pieces, body);
    }
  }

  lemma PiecesParse(head: seq<byte>, pieces: seq<seq<byte>>, body: Option<seq<byte>>)
    requires ReadHead(head) == Some(true) && Find(head + CRLFCRLF, CRLFCRLF) == Some(|head|)
    requires |head| + 4 + |Encode(pieces)| <= MAX_RESPONSE
    ensures IsParsed(head + CRLFCRLF + Encode(pieces), body) <==> body == Some(Concat(pieces))
  {
    HeadIsPrinted(head, true);
    BlockParses(head + CRLFCRLF, true, Encode(pieces), body);
    PiecesDecode(pieces, body);
  }

  lemma PiecesDecode(pieces: seq<seq<byte>>, body: Option<seq<byte>>)
    requires |Encode(pieces)| <= MAX_RESPONSE
    ensures IsDecoding(Encode(pieces), body) <==> body == Some(Concat(pieces))
  {
    EncodeLonger(pieces, 0);
    assert Encode(pieces) + [] == Encode(pieces);
    forall d ensures Carries(ParseSize, Encode(pieces), 0, d) <==> d == Concat(pieces) {
      EncodeCarries(pieces, [], d);
    }
    assert Carries(ParseSize, Encode(pieces), 0, Concat(pieces));
  }
}
