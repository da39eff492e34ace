/** The record loop of send_php_fpm: FastCGI STDOUT in, an HTTP response out. */
module PhpStream {
  import opened Bytes
  import opened ChunkSize
  import opened ChunkGrammar
  import opened Chunked
  import opened Wire
  import opened Bridge
  import opened FastCgi

  const HEADER_BUFFER: nat := 65536

  // ---------------------------------------------------------------- reading records

  datatype Read<T> = Full(value: T) | TimedOut | Lost

  /** The backend's side of the socket: what it will send, in which pieces, and how it ends. */
  class Backend {
    const wire: seq<byte>
    const stalls: bool
    var pos: nat
    var sizes: seq<nat>

    constructor (wire: seq<byte>, sizes: seq<nat>, stalls: bool)
      ensures this.wire == wire && pos == 0
    {
      this.wire, this.sizes, this.stalls, this.pos := wire, sizes, stalls, 0;
    }

    /** fcgi_read_exact: reads until `len` bytes are there. */
    method ReadExact(len: nat) returns (r: Read<seq<byte>>)
      requires pos <= |wire|
      modifies this
      ensures pos <= |wire|
      ensures r.Full? <==> old(pos) + len <= |wire|
      ensures r.TimedOut? ==> stalls
      ensures r.Full? ==> pos == old(pos) + len && r.value == wire[old(pos)..pos]
    {
      var got := [];
      while |got| < len
        invariant |got| <= len && pos == old(pos) + |got| <= |wire| && got == wire[old(pos)..pos]
      {
        var offered := if sizes == [] then 65536 else sizes[0] + 1;
        sizes := if sizes == [] then [] else sizes[1..];
        var n := Min(Min(offered, len - |got|), |wire| - pos);
        if n == 0 {
          return if stalls then TimedOut else Lost;
        }
        got := got + wire[pos..pos + n];
        pos := pos + n;
      }
      return Full(got);
    }

    /** Header, content and padding of the next record. */
    method ReadRecord(ghost decode: Decoder) returns (r: Read<Record>)
      requires pos <= |wire| && IsDecoder(decode)
      modifies this
      ensures pos <= |wire|
      ensures r.Full? <==> decode(wire[old(pos)..]).Some?
      ensures r.Full? ==> decode(wire[old(pos)..]) == Some(Taken(r.value, wire[pos..])) && old(pos) < pos
      ensures r.TimedOut? ==> stalls
      ensures r.Full? ==> |r.value.content| < 0x1_0000
    {
      ghost var s := wire[pos..];
      ghost var expected := DecodeRecord(s);
      ghost var start := pos;
      var hdr := ReadExact(8);
      if !hdr.Full? {
        return if hdr.TimedOut? then TimedOut else Lost;
      }
      var h := hdr.value;
      assert forall i :: 0 <= i < 8 ==> h[i] == s[i];
      var n, p := (h[4] as int) * 256 + h[5] as int, h[6] as int;
      var content := ReadExact(n);
      if !content.Full? {
        return if content.TimedOut? then TimedOut else Lost;
      }
      assert content.value == s[8..8 + n];
      var pad := ReadExact(p);
      if !pad.Full? {
        return if pad.TimedOut? then TimedOut else Lost;
      }
      assert wire[pos..] == s[8 + n + p..];
      return Full(Record(h[1], content.value));
    }
  }

  /** A reader of single records; the server's is DecodeRecord. */
  type Decoder = seq<byte> -> Option<Taken>

  ghost predicate IsDecoder(decode: Decoder) {
    forall s {:trigger DecodeRecord(s)} :: decode(s) == DecodeRecord(s)
  }

  /** Everything a stream says on STDOUT before it ends the request; nothing if it never does. */
  ghost function Stdout(decode: Decoder, s: seq<byte>): Option<seq<byte>>
    decreases |s|
  {
    var t := decode(s);
    if t.None? || |t.value.rest| >= |s| then None
    else if t.value.record.kind == END_REQUEST then Some([])
    else
      var more := Stdout(decode, t.value.rest);
      if more.None? then None
      else Some((if t.value.record.kind == STDOUT then t.value.record.content else []) + more.value)
  }

  /** Until the head is complete, the STDOUT records fit the head buffer. */
  ghost predicate HeadFits(decode: Decoder, s: seq<byte>, seen: seq<byte>)
    decreases |s|
  {
    var t := decode(s);
    if Find(seen, CRLFCRLF).Some? || t.None? || |t.value.rest| >= |s| || t.value.record.kind == END_REQUEST then true
    else if t.value.record.kind == STDOUT then
      |seen| + |t.value.record.content| <= HEADER_BUFFER && HeadFits(decode, t.value.rest, seen + t.value.record.content)
    else HeadFits(decode, t.value.rest, seen)
  }

  // ---------------------------------------------------------------- the response

  /** What the server does with the CGI head: reading and printing of header lines, which may fail, is not looked into. */
  datatype Heads = Heads(
    declaresLength: seq<byte> -> bool,
    print_: (seq<byte>, bool) -> Option<seq<byte>>,
    plain: nat -> Option<seq<byte>>)

  /** The body as it goes over the wire: chunked pieces, or the bytes themselves. */
  ghost predicate IsBodyWire(chunked: bool, wire: seq<byte>, body: seq<byte>) {
    if chunked then exists pieces: seq<seq<byte>> :: Concat(pieces) == body && wire == Encode(pieces) else wire == body
  }

  /** Whether the body behind this head is chunked. */
  predicate IsChunked(heads: Heads, headOnly: bool, head: seq<byte>) {
    !heads.declaresLength(head) && !headOnly
  }

  /** The header block for what was said on STDOUT, if it can be printed. */
  ghost function HeadFor(heads: Heads, headOnly: bool, out: seq<byte>): Option<seq<byte>> {
    match Find(out, CRLFCRLF)
    case None => heads.plain(|out|)
    case Some(n) => heads.print_(out[..n], IsChunked(heads, headOnly, out[..n]))
  }

  /** The whole response to what was said on STDOUT. */
  ghost predicate IsResponse(heads: Heads, headOnly: bool, out: seq<byte>, sent: seq<byte>) {
    && HeadFor(heads, headOnly, out).Some?
    && match Find(out, CRLFCRLF)
       case None => sent == HeadFor(heads, headOnly, out).value + (if headOnly then [] else out)
       case Some(n) =>
         exists wire :: sent == HeadFor(heads, headOnly, out).value + wire &&
                        if headOnly then wire == []
                        else IsBodyWire(IsChunked(heads, headOnly, out[..n]), wire, out[n + 4..])
  }

  /** What is sent when the response cannot be finished: nothing without a printed head, otherwise a strict prefix of it. */
  ghost predicate IsCut(heads: Heads, headOnly: bool, out: seq<byte>, sent: seq<byte>) {
    if HeadFor(heads, headOnly, out).None? then sent == []
    else exists full :: IsResponse(heads, headOnly, out, full) && sent < full
  }

  /** Responded(true): the response is out. ErrorPage: the backend broke off, or its head does not fit. */
  datatype Result = Responded(ok: bool) | ErrorPage(status: nat)

  /** One body piece as it goes over the wire. */
  function BodyPiece(headOnly: bool, chunked: bool, piece: seq<byte>): seq<byte> {
    if headOnly then [] else if chunked then EncodePiece(piece) else piece
  }

  /** One body piece on its way to the client. */
  method SendPiece(sock: Socket, tls: bool, chunked: bool, piece: seq<byte>) returns (ok: bool)
    modifies sock
    ensures ok ==> sock.sent == old(sock.sent) + BodyPiece(false, chunked, piece)
    ensures !ok ==> old(sock.sent) <= sock.sent < old(sock.sent) + BodyPiece(false, chunked, piece)
    ensures Used(old(sock.answers), sock.answers) && (!ok ==> GaveUp(old(sock.answers), sock.answers))
  {
    if chunked {
      ok := WriteChunkedBody(sock, tls, piece);
      if !ok {
        ghost var k: nat :| StoppedAt(old(sock.sent), sock.sent, EncodePiece(piece), k);
        assert EncodePiece(piece) != [];
      }
    } else {
      ok := sock.WriteAll(piece);
    }
  }

  /** The chunks of some pieces, without the end marker. */
  function Chunks(pieces: seq<seq<byte>>, i: nat): seq<byte>
    requires i <= |pieces|
    decreases |pieces| - i
  {
    if i == |pieces| then [] else EncodePiece(pieces[i]) + Chunks(pieces, i + 1)
  }

  lemma {:induction false} ChunksEnd(pieces: seq<seq<byte>>, i: nat)
    requires i <= |pieces|
    ensures EncodeFrom(pieces, i) == Chunks(pieces, i) + ENCODED_END
    decreases |pieces| - i
  {
    if i < |pieces| {
      ChunksEnd(pieces, i + 1);
      Associative(EncodePiece(pieces[i]), Chunks(pieces, i + 1), ENCODED_END);
    } else {
      assert [] + ENCODED_END == ENCODED_END;
    }
  }

  lemma {:induction false} ChunksSnoc(pieces: seq<seq<byte>>, p: seq<byte>, i: nat)
    requires i <= |pieces|
    ensures Chunks(pieces + [p], i) == Chunks(pieces, i) + EncodePiece(p)
    decreases |pieces| - i
  {
    var e := EncodePiece(p);
    if i == |pieces| {
      assert Chunks(pieces + [p], i + 1) == [];
      assert e + [] == e == [] + e;
    } else {
      ChunksSnoc(pieces, p, i + 1);
      Associative(EncodePiece(pieces[i]), Chunks(pieces, i + 1), e);
    }
  }

  /** The body bytes on the wire after the pieces sent so far. */
  function BodyWire(headOnly: bool, chunked: bool, pieces: seq<seq<byte>>): seq<byte> {
    if headOnly then [] else if chunked then Chunks(pieces, 0) else Concat(pieces)
  }

  lemma BodyWireSnoc(headOnly: bool, chunked: bool, pieces: seq<seq<byte>>, p: seq<byte>)
    ensures BodyWire(headOnly, chunked, pieces + [p]) ==
            BodyWire(headOnly, chunked, pieces) + BodyPiece(headOnly, chunked, p)
  {
    ChunksSnoc(pieces, p, 0);
    ConcatSnoc(pieces, p, 0);
  }

  // ---------------------------------------------------------------- the loop's state

  /** What the loop has done with the STDOUT bytes seen so far. */
  datatype Progress = Collecting(header: seq<byte>) | Streaming(head: seq<byte>, chunked: bool, printed: seq<byte>)

  /** What is on the wire, given the bytes seen: nothing yet, or the head and the body pieces so far. */
  ghost predicate Reached(heads: Heads, headOnly: bool, p: Progress, seen: seq<byte>, sent: seq<byte>,
                          pieces: seq<seq<byte>>)
  {
    match p
    case Collecting(header) => header == seen && |seen| <= HEADER_BUFFER && Find(seen, CRLFCRLF) == None && sent == []
    case Streaming(head, chunked, printed) =>
      && Find(seen, CRLFCRLF) == Some(|head|) && head == seen[..|head|] && Concat(pieces) == seen[|head| + 4..]
      && chunked == IsChunked(heads, headOnly, head) && heads.print_(head, chunked) == Some(printed)
      && sent == printed + BodyWire(headOnly, chunked, pieces)
  }

  /** More STDOUT bytes after the head are one more piece. */
  lemma ReachedMore(heads: Heads, headOnly: bool, p: Progress, seen: seq<byte>, sent: seq<byte>,
                    pieces: seq<seq<byte>>, more: seq<byte>)
    requires p.Streaming? && Reached(heads, headOnly, p, seen, sent, pieces)
    ensures Reached(heads, headOnly, p, seen + more, sent + BodyPiece(headOnly, p.chunked, more), pieces + [more])
  {
    FindExtends(seen, more, CRLFCRLF);
    SplitMore(seen, more, |p.head|);
    BodyWireSnoc(headOnly, p.chunked, pieces, more);
    ConcatSnoc(pieces, more, 0);
    Associative(p.printed, BodyWire(headOnly, p.chunked, pieces), BodyPiece(headOnly, p.chunked, more));
  }

  lemma SplitMore(seen: seq<byte>, more: seq<byte>, n: nat)
    requires n + 4 <= |seen|
    ensures (seen + more)[..n] == seen[..n] && (seen + more)[n + 4..] == seen[n + 4..] + more
  {
  }

  /** The bytes that complete the head; what follows it is the first piece. */
  lemma ReachedHead(heads: Heads, headOnly: bool, seen: seq<byte>, n: nat, chunked: bool, printed: seq<byte>)
    requires Find(seen, CRLFCRLF) == Some(n) && chunked == IsChunked(heads, headOnly, seen[..n])
    requires heads.print_(seen[..n], chunked) == Some(printed)
    ensures var body := seen[n + 4..];
            Reached(heads, headOnly, Streaming(seen[..n], chunked, printed), seen,
                    printed + BodyPiece(headOnly, chunked, body), [body])
  {
    var body := seen[n + 4..];
    assert [] + [body] == [body];
    BodyWireSnoc(headOnly, chunked, [], body);
    ConcatSnoc([], body, 0);
  }

  lemma ReachedEnd(heads: Heads, headOnly: bool, p: Progress, seen: seq<byte>, sent: seq<byte>, pieces: seq<seq<byte>>)
    requires Reached(heads, headOnly, p, seen, sent, pieces)
    ensures p.Collecting? && heads.plain(|seen|).Some? ==>
              IsResponse(heads, headOnly, seen, heads.plain(|seen|).value + (if headOnly then [] else seen))
    ensures p.Streaming? ==>
              IsResponse(heads, headOnly, seen, sent + (if p.chunked then ENCODED_END else []))
  {
    if p.Streaming? {
      var wire, end := BodyWire(headOnly, p.chunked, pieces), if p.chunked then ENCODED_END else [];
      BodyEnds(headOnly, p.chunked, pieces);
      Associative(p.printed, wire, end);
    }
  }

  /** The pieces and, if they are chunks, the end marker are the whole body. */
  lemma BodyEnds(headOnly: bool, chunked: bool, pieces: seq<seq<byte>>)
    requires chunked ==> !headOnly
    ensures var wire := BodyWire(headOnly, chunked, pieces) + (if chunked then ENCODED_END else []);
            if headOnly then wire == [] else IsBodyWire(chunked, wire, Concat(pieces))
  {
    if chunked {
      ChunksEnd(pieces, 0);
    } else {
      assert BodyWire(headOnly, chunked, pieces) + [] == BodyWire(headOnly, chunked, pieces);
    }
  }

  /** A response that ends inside a piece, or inside the end marker, is cut. */
  lemma CutInBody(heads: Heads, headOnly: bool, p: Progress, seen: seq<byte>, sent: seq<byte>, pieces: seq<seq<byte>>, now: seq<byte>)
    requires p.Streaming? && Reached(heads, headOnly, p, seen, sent, pieces)
    requires now < sent || now < sent + (if p.chunked then ENCODED_END else [])
    ensures IsCut(heads, headOnly, seen, now)
  {
    ReachedEnd(heads, headOnly, p, seen, sent, pieces);
    var full := sent + (if p.chunked then ENCODED_END else []);
    assert IsResponse(heads, headOnly, seen, full) && now < full;
  }

  /** A response without an empty line on STDOUT is cut wherever it ends early. */
  lemma CutPlain(heads: Heads, headOnly: bool, seen: seq<byte>, sent: seq<byte>, pieces: seq<seq<byte>>, now: seq<byte>)
    requires Reached(heads, headOnly, Collecting(seen), seen, sent, pieces)
    requires if heads.plain(|seen|).None? then now == []
             else now < heads.plain(|seen|).value + (if headOnly then [] else seen)
    ensures IsCut(heads, headOnly, seen, now)
  {
    ReachedEnd(heads, headOnly, Collecting(seen), seen, sent, pieces);
  }

  lemma StrictSlice(start: seq<byte>, a: seq<byte>, b: seq<byte>)
    requires start <= a < b
    ensures a[|start|..] < b[|start|..]
  {
  }

  // ---------------------------------------------------------------- the loop

  /** One STDOUT record. */
  method TakeStdout(sock: Socket, tls: bool, heads: Heads, headOnly: bool, p: Progress, content: seq<byte>,
                    ghost seen: seq<byte>, ghost start: seq<byte>, ghost pieces: seq<seq<byte>>)
    returns (next: Progress, fits: bool, ok: bool, ghost pieces': seq<seq<byte>>)
    requires content != [] && start <= sock.sent && Reached(heads, headOnly, p, seen, sock.sent[|start|..], pieces)
    modifies sock
    ensures fits <==> p.Streaming? || |seen| + |content| <= HEADER_BUFFER
    ensures Used(old(sock.answers), sock.answers)
    ensures !ok ==> GaveUp(old(sock.answers), sock.answers) || HeadFor(heads, headOnly, seen + content).None?
    ensures !ok ==> Find(seen + content, CRLFCRLF).Some?
    ensures !ok ==> start <= sock.sent && IsCut(heads, headOnly, seen + content, sock.sent[|start|..])
    ensures p.Streaming? ==> next.Streaming?
    ensures fits && ok ==> start <= sock.sent
    ensures fits && ok ==> Reached(heads, headOnly, next, seen + content, sock.sent[|start|..], pieces')
  {
    next, fits, ok, pieces' := p, true, true, pieces;
    match p
    case Streaming(_, chunked, _) =>
      ghost var sent := sock.sent[|start|..];
      ok := StreamPiece(sock, tls, headOnly, chunked, content, start);
      ReachedMore(heads, headOnly, p, seen, sent, pieces, content);
      pieces' := pieces + [content];
      if !ok {
        CutInBody(heads, headOnly, p, seen + content, sent + BodyPiece(headOnly, chunked, content), pieces', sock.sent[|start|..]);
      }
    case Collecting(header) =>
      if |content| > HEADER_BUFFER - |header| {
        fits := false;
        return;
      }
      ok, next, pieces' := Collect(sock, tls, heads, headOnly, header + content, start);
  }

  /** After the head, every record is a piece of the body; a HEAD request gets none. */
  method StreamPiece(sock: Socket, tls: bool, headOnly: bool, chunked: bool, content: seq<byte>, ghost start: seq<byte>)
    returns (ok: bool)
    requires start <= sock.sent
    modifies sock
    ensures Used(old(sock.answers), sock.answers) && (!ok ==> GaveUp(old(sock.answers), sock.answers))
    ensures ok ==> start <= sock.sent && sock.sent[|start|..] == old(sock.sent)[|start|..] + BodyPiece(headOnly, chunked, content)
    ensures !ok ==> start <= sock.sent && sock.sent[|start|..] < old(sock.sent)[|start|..] + BodyPiece(headOnly, chunked, content)
  {
    ok := true;
    if !headOnly {
      ok := SendPiece(sock, tls, chunked, content);
      if !ok {
        StrictSlice(start, sock.sent, old(sock.sent) + BodyPiece(false, chunked, content));
      }
    }
  }

  /** The head buffer has grown: it may hold a complete head now. */
  method Collect(sock: Socket, tls: bool, heads: Heads, headOnly: bool, buffer: seq<byte>, ghost start: seq<byte>)
    returns (ok: bool, next: Progress, ghost pieces: seq<seq<byte>>)
    requires sock.sent == start && |buffer| <= HEADER_BUFFER
    modifies sock
    ensures Used(old(sock.answers), sock.answers)
    ensures !ok ==> GaveUp(old(sock.answers), sock.answers) || HeadFor(heads, headOnly, buffer).None?
    ensures !ok ==> Find(buffer, CRLFCRLF).Some?
    ensures !ok ==> start <= sock.sent && IsCut(heads, headOnly, buffer, sock.sent[|start|..])
    ensures ok ==> start <= sock.sent && Reached(heads, headOnly, next, buffer, sock.sent[|start|..], pieces)
  {
    var separator := MemMem(buffer, CRLFCRLF);
    if separator.None? {
      ok, next, pieces := true, Collecting(buffer), [];
    } else {
      ok, next, pieces := StartResponse(sock, tls, heads, headOnly, buffer, separator.value, start);
    }
  }

  /** The head is complete: it is printed, and what follows it is the first piece. */
  method StartResponse(sock: Socket, tls: bool, heads: Heads, headOnly: bool, buffer: seq<byte>, n: nat,
                       ghost start: seq<byte>)
    returns (ok: bool, next: Progress, ghost pieces: seq<seq<byte>>)
    requires Find(buffer, CRLFCRLF) == Some(n) && sock.sent == start
    modifies sock
    ensures Used(old(sock.answers), sock.answers)
    ensures !ok ==> GaveUp(old(sock.answers), sock.answers) || HeadFor(heads, headOnly, buffer).None?
    ensures !ok ==> start <= sock.sent && IsCut(heads, headOnly, buffer, sock.sent[|start|..])
    ensures ok ==> start <= sock.sent && Reached(heads, headOnly, next, buffer, sock.sent[|start|..], pieces)
  {
    var chunked, body := !heads.declaresLength(buffer[..n]) && !headOnly, buffer[n + 4..];
    var printed := heads.print_(buffer[..n], chunked);
    pieces, next := [body], Collecting(buffer);
    if printed.None? {
      NothingSent(heads, headOnly, buffer, n, chunked, start);
      return false, next, pieces;
    }
    var h := printed.value;
    next := Streaming(buffer[..n], chunked, h);
    ok := SendHead(sock, tls, headOnly, chunked, h, body);
    HeadSentOrCut(heads, headOnly, buffer, n, chunked, h, start, sock.sent, ok);
  }

  lemma NothingSent(heads: Heads, headOnly: bool, seen: seq<byte>, n: nat, chunked: bool, start: seq<byte>)
    requires Find(seen, CRLFCRLF) == Some(n) && chunked == IsChunked(heads, headOnly, seen[..n])
    requires heads.print_(seen[..n], chunked) == None
    ensures HeadFor(heads, headOnly, seen).None? && IsCut(heads, headOnly, seen, start[|start|..])
  {
  }

  /** The head and the first piece are out, or the response is cut inside them. */
  lemma HeadSentOrCut(heads: Heads, headOnly: bool, seen: seq<byte>, n: nat, chunked: bool, printed: seq<byte>,
                      start: seq<byte>, now: seq<byte>, ok: bool)
    requires Find(seen, CRLFCRLF) == Some(n) && chunked == IsChunked(heads, headOnly, seen[..n])
    requires heads.print_(seen[..n], chunked) == Some(printed)
    requires var all := start + (printed + BodyPiece(headOnly, chunked, seen[n + 4..]));
             if ok then now == all else start <= now < all
    ensures start <= now
    ensures ok ==> Reached(heads, headOnly, Streaming(seen[..n], chunked, printed), seen, now[|start|..], [seen[n + 4..]])
    ensures !ok ==> IsCut(heads, headOnly, seen, now[|start|..])
  {
    var all := printed + BodyPiece(headOnly, chunked, seen[n + 4..]);
    ReachedHead(heads, headOnly, seen, n, chunked, printed);
    assert (start + all)[|start|..] == all;
    if !ok {
      StrictSlice(start, now, start + all);
      CutInBody(heads, headOnly, Streaming(seen[..n], chunked, printed), seen, all, [seen[n + 4..]], now[|start|..]);
    }
  }

  /** The printed head and the first piece. */
  method SendHead(sock: Socket, tls: bool, headOnly: bool, chunked: bool, printed: seq<byte>, body: seq<byte>) returns (ok: bool)
    modifies sock
    ensures Used(old(sock.answers), sock.answers) && (!ok ==> GaveUp(old(sock.answers), sock.answers))
    ensures ok ==> sock.sent == old(sock.sent) + (printed + BodyPiece(headOnly, chunked, body))
    ensures !ok ==> old(sock.sent) <= sock.sent < old(sock.sent) + (printed + BodyPiece(headOnly, chunked, body))
  {
    ok := sock.WriteAll(printed);
    if ok && !headOnly {
      ghost var left := sock.answers;
      ok := SendPiece(sock, tls, chunked, body);
      UsedThen(old(sock.answers), left, sock.answers);
    }
    Associative(old(sock.sent), printed, BodyPiece(headOnly, chunked, body));
  }

  /**
   The record loop. A response that is written in full is the one its STDOUT bytes call for: everything after the
   first empty line, chunked unless the head gives a length, or all of it when there is none. It depends on the
   concatenated STDOUT contents alone, not on how they were cut into records or reads.
   */
  method StreamPhp(backend: Backend, sock: Socket, tls: bool, heads: Heads, headOnly: bool, ghost decode: Decoder)
    returns (r: Result, ghost out: seq<byte>)
    requires backend.pos == 0 && sock.sent == [] && IsDecoder(decode)
    modifies backend, sock
    ensures Stdout(decode, backend.wire).Some? ==> out <= Stdout(decode, backend.wire).value
    ensures r == Responded(true) ==>
            Stdout(decode, backend.wire) == Some(out) && IsResponse(heads, headOnly, out, sock.sent)
    ensures r == Responded(false) ==>
            GaveUp(old(sock.answers), sock.answers) || HeadFor(heads, headOnly, out).None?
    ensures r == Responded(false) ==> IsCut(heads, headOnly, out, sock.sent)
    ensures r.ErrorPage? ==> r.status == 502 || (r.status == 504 && backend.stalls)
    ensures Stdout(decode, backend.wire).None? ==> r != Responded(true)
    ensures Stdout(decode, backend.wire).Some? && HeadFits(decode, backend.wire, []) ==> !r.ErrorPage?
    ensures !HeadFits(decode, backend.wire, []) ==> r == ErrorPage(502)
  {
    var p: Progress := Collecting([]);
    out := [];
    ghost var pieces: seq<seq<byte>> := [];
    assert backend.wire[0..] == backend.wire;
    assert Find<byte>([], CRLFCRLF).None?;
    PrefixedNothing(Stdout(decode, backend.wire));
    while true
      invariant backend.pos <= |backend.wire| && Used(old(sock.answers), sock.answers)
      invariant Reached(heads, headOnly, p, out, sock.sent, pieces)
      invariant Followed(decode, backend.wire, backend.wire[backend.pos..], out)
      decreases |backend.wire| - backend.pos
    {
      ghost var s := backend.wire[backend.pos..];
      var rec := backend.ReadRecord(decode);
      FollowedSays(decode, backend.wire, s, out);
      match rec {
        case TimedOut => return ErrorPage(504), out;
        case Lost => return ErrorPage(502), out;
        case Full(record) =>
          FollowedStep(decode, backend.wire, s, record, backend.wire[backend.pos..], out);
          if record.kind == STDOUT && record.content != [] {
            var fits, ok;
            assert sock.sent[0..] == sock.sent;
            ghost var left := sock.answers;
            p, fits, ok, pieces := TakeStdout(sock, tls, heads, headOnly, p, record.content, out, [], pieces);
            UsedThen(old(sock.answers), left, sock.answers);
            out := out + record.content;
            assert sock.sent[0..] == sock.sent;
            if !fits {
              return ErrorPage(502), out;
            }
            if !ok {
              FollowedSays(decode, backend.wire, backend.wire[backend.pos..], out);
              return Responded(false), out;
            }
          } else if record.kind == END_REQUEST {
            break;
          }
      }
    }
    ReachedEnd(heads, headOnly, p, out, sock.sent, pieces);
    ghost var left, sent := sock.answers, sock.sent;
    var ok := FinishResponse(sock, heads, headOnly, p, out);
    UsedThen(old(sock.answers), left, sock.answers);
    if !ok {
      if p.Streaming? {
        CutInBody(heads, headOnly, p, out, sent, pieces, sock.sent);
      } else {
        CutPlain(heads, headOnly, out, sent, pieces, sock.sent);
      }
    }
    return Responded(ok), out;
  }

  lemma PrefixedNothing(b: Option<seq<byte>>)
    ensures Prefixed([], b) == b
  {
    if b.Some? {
      assert [] + b.value == b.value;
    }
  }

  /** One record read: what was said so far grows by its STDOUT content, and END_REQUEST ends it. */
  lemma StdoutStep(decode: Decoder, s: seq<byte>, r: Record, rest: seq<byte>, out: seq<byte>)
    requires decode(s) == Some(Taken(r, rest)) && |rest| < |s|
    ensures Prefixed(out, Stdout(decode, s)) ==
            if r.kind == END_REQUEST then Some(out)
            else if r.kind == STDOUT then Prefixed(out + r.content, Stdout(decode, rest))
            else Prefixed(out, Stdout(decode, rest))
    ensures r.content == [] ==> out + r.content == out
  {
    var more := Stdout(decode, rest);
    if r.kind == END_REQUEST {
      assert out + [] == out;
    } else if more.Some? {
      assert out + (r.content + more.value) == out + r.content + more.value;
      assert [] + more.value == more.value;
    }
  }

  /** One record read: whether the rest of the head fits. */
  lemma HeadFitsStep(decode: Decoder, s: seq<byte>, r: Record, rest: seq<byte>, seen: seq<byte>)
    requires decode(s) == Some(Taken(r, rest)) && |rest| < |s|
    ensures Find(seen, CRLFCRLF).Some? || r.kind == END_REQUEST ==> HeadFits(decode, s, seen)
    ensures r.kind != END_REQUEST && r.kind != STDOUT ==> HeadFits(decode, s, seen) == HeadFits(decode, rest, seen)
    ensures r.kind == STDOUT && (Find(seen, CRLFCRLF).Some? || |seen| + |r.content| <= HEADER_BUFFER) ==>
              HeadFits(decode, s, seen) == HeadFits(decode, rest, seen + r.content)
    ensures r.kind == STDOUT && Find(seen, CRLFCRLF).None? && |seen| + |r.content| > HEADER_BUFFER ==>
              !HeadFits(decode, s, seen)
  {
    if Find(seen, CRLFCRLF).Some? {
      FindExtends(seen, r.content, CRLFCRLF);
    }
  }

  /** `out` was said before `rest`, and nothing so far decided that the head does not fit. */
  ghost predicate Followed(decode: Decoder, wire: seq<byte>, rest: seq<byte>, out: seq<byte>) {
    && Stdout(decode, wire) == Prefixed(out, Stdout(decode, rest))
    && HeadFits(decode, wire, []) == HeadFits(decode, rest, out)
  }

  lemma FollowedStep(decode: Decoder, wire: seq<byte>, s: seq<byte>, r: Record, rest: seq<byte>, out: seq<byte>)
    requires decode(s) == Some(Taken(r, rest)) && |rest| < |s| && Followed(decode, wire, s, out)
    ensures r.kind == END_REQUEST ==> Stdout(decode, wire) == Some(out) && HeadFits(decode, wire, [])
    ensures r.kind != END_REQUEST && (r.kind != STDOUT || r.content == []) && |out| <= HEADER_BUFFER ==>
              Followed(decode, wire, rest, out)
    ensures r.kind != END_REQUEST && (r.kind != STDOUT || r.content == []) && Find(out, CRLFCRLF).Some? ==>
              Followed(decode, wire, rest, out)
    ensures r.kind == STDOUT && (Find(out, CRLFCRLF).Some? || |out| + |r.content| <= HEADER_BUFFER) ==>
              Followed(decode, wire, rest, out + r.content)
    ensures r.kind == STDOUT && Find(out, CRLFCRLF).None? && |out| + |r.content| > HEADER_BUFFER ==>
              !HeadFits(decode, wire, []) && (Stdout(decode, wire).Some? ==> out + r.content <= Stdout(decode, wire).value)
  {
    StdoutStep(decode, s, r, rest, out);
    HeadFitsStep(decode, s, r, rest, out);
  }

  lemma FollowedSays(decode: Decoder, wire: seq<byte>, rest: seq<byte>, out: seq<byte>)
    requires Followed(decode, wire, rest, out)
    ensures Stdout(decode, wire).Some? ==> out <= Stdout(decode, wire).value
    ensures decode(rest).None? ==> Stdout(decode, wire).None? && HeadFits(decode, wire, [])
    ensures Find(out, CRLFCRLF).Some? ==> HeadFits(decode, wire, [])
  {
  }

  ghost function Prefixed(a: seq<byte>, b: Option<seq<byte>>): Option<seq<byte>> {
    if b.None? then None else Some(a + b.value)
  }

  method FinishResponse(sock: Socket, heads: Heads, headOnly: bool, p: Progress, ghost seen: seq<byte>) returns (ok: bool)
    requires p.Collecting? ==> p.header == seen && sock.sent == []
    modifies sock
    ensures Used(old(sock.answers), sock.answers)
    ensures !ok ==> GaveUp(old(sock.answers), sock.answers) || (p.Collecting? && heads.plain(|seen|).None?)
    ensures ok && p.Collecting? ==>
              heads.plain(|seen|).Some? && sock.sent == heads.plain(|seen|).value + (if headOnly then [] else seen)
    ensures !ok && p.Collecting? ==>
              if heads.plain(|seen|).None? then sock.sent == []
              else sock.sent < heads.plain(|seen|).value + (if headOnly then [] else seen)
    ensures !ok && p.Streaming? ==> p.chunked && sock.sent < old(sock.sent) + ENCODED_END
    ensures ok && p.Streaming? ==> sock.sent == old(sock.sent) + (if p.chunked && !headOnly then ENCODED_END else [])
  {
    ok := true;
    match p
    case Collecting(header) =>
      var head := heads.plain(|header|);
      if head.None? {
        return false;
      }
      ok := sock.WriteAll(head.value);
      if ok && !headOnly && |header| > 0 {
        ghost var left := sock.answers;
        ok := sock.WriteAll(header);
        UsedThen(old(sock.answers), left, sock.answers);
      }
    case Streaming(_, chunked, _) =>
      if chunked && !headOnly {
        ok := sock.WriteAll(ENCODED_END);
      }
  }

  /** A chunked body on the wire decodes to exactly the body. */
  lemma BodyWireDecodes(wire: seq<byte>, body: seq<byte>, d: seq<byte>)
    requires IsBodyWire(true, wire, body) && |body| <= MAX_RESPONSE
    ensures Carries(ParseSize, wire, 0, d) <==> d == body
  {
    var pieces: seq<seq<byte>> :| Concat(pieces) == body && wire == Encode(pieces);
    EncodeCarries(pieces, [], d);
    assert Encode(pieces) + [] == wire;
  }
}
