/**
 Chunked transfer coding (section 7.1 of RFC 9112): what the PHP response writer prints, what the
 HTTP/2 bridge accepts, and an explicit grammar both are compared with.
 */
/** The number on a chunk's first line, printed and parsed. */
module ChunkSize {
  import opened Bytes

  /** H2_MAX_RESPONSE */
  const MAX_RESPONSE: nat := 67108864

  // ---------------------------------------------------------------- hexadecimal

  predicate IsHex(b: byte) {
    48 <= b <= 57 || 97 <= b <= 102 || 65 <= b <= 70
  }

  function Digit(b: byte): (d: nat)
    ensures d < 16
  {
    if 48 <= b <= 57 then b - 48
    else if 97 <= b <= 102 then b - 87
    else if 65 <= b <= 70 then b - 55
    else 0
  }

  function HexChar(d: nat): (b: byte)
    requires d < 16
    ensures IsHex(b) && Digit(b) == d
  {
    if d < 10 then 48 + d else 87 + d
  }

  /** printf's %zx */
  function Hex(n: nat): (s: seq<byte>)
    ensures s != [] && forall i :: 0 <= i < |s| ==> IsHex(s[i])
  {
    if n < 16 then [HexChar(n)] else Hex(n / 16) + [HexChar(n % 16)]
  }

  /** The number a run of hexadecimal digits denotes, with no width limit. */
  function HexValue(s: seq<byte>): nat {
    if s == [] then 0 else 16 * HexValue(s[..|s| - 1]) + Digit(s[|s| - 1])
  }

  lemma {:induction false} HexRoundTrip(n: nat)
    ensures HexValue(Hex(n)) == n
  {
    if n < 16 {
      assert Hex(n)[..0] == [];
    } else {
      assert Hex(n)[..|Hex(n)| - 1] == Hex(n / 16);
      HexRoundTrip(n / 16);
    }
  }

  /** The digits are those of section 2.1 of RFC 5234, in either case. */
  lemma HexDigits(b: byte)
    ensures IsHex(b) <==> '0' <= b as char <= '9' || 'a' <= b as char <= 'f' || 'A' <= b as char <= 'F'
    ensures 'A' <= b as char <= 'F' ==> Digit(b) == Digit(b + 32) && Digit(b) == 10 + (b - 65)
    ensures '0' <= b as char <= '9' ==> Digit(b) == b - 48
  {
  }

  lemma {:induction false} HexMonotone(s: seq<byte>, k: nat)
    requires k <= |s|
    ensures HexValue(s[..k]) <= HexValue(s)
  {
    if k < |s| {
      assert s[..|s| - 1][..k] == s[..k];
      HexMonotone(s[..|s| - 1], k);
    } else {
      assert s[..k] == s;
    }
  }

  // ---------------------------------------------------------------- the size line

  /** Blanks up to `i`, digits up to `j`, blanks up to `k`, then the end or the ';' of an extension. */
  ghost predicate SizeLine(line: seq<byte>, i: nat, j: nat, k: nat) {
    && i < j <= k <= |line|
    && (forall x :: 0 <= x < i || j <= x < k ==> IsBlank(line[x]))
    && (forall x :: i <= x < j ==> IsHex(line[x]))
    && (k < |line| ==> line[k] == 59)
  }

  /** The size a chunk's first line gives, if it is well formed and within the limit. */
  ghost function ParseSize(line: seq<byte>): (r: Option<nat>) {
    if i: nat, j: nat, k: nat :| SizeLine(line, i, j, k) && HexValue(line[i..j]) <= MAX_RESPONSE
    then Some(HexValue(line[i..j]))
    else None
  }

  lemma SizeLineUnique(line: seq<byte>, i: nat, j: nat, k: nat, i': nat, j': nat, k': nat)
    requires SizeLine(line, i, j, k) && SizeLine(line, i', j', k')
    ensures i == i' && j == j'
  {
    SizeLineEdges(line, i, j, k);
    SizeLineEdges(line, i', j', k');
  }

  /** The digits are maximal. */
  lemma SizeLineEdges(line: seq<byte>, i: nat, j: nat, k: nat)
    requires SizeLine(line, i, j, k)
    ensures IsHex(line[i]) && forall x :: 0 <= x < i ==> !IsHex(line[x])
    ensures j < |line| ==> !IsHex(line[j])
  {
  }

  /** Any split of the line decides what ParseSize answers. */
  lemma SizeIs(line: seq<byte>, i: nat, j: nat, k: nat)
    requires SizeLine(line, i, j, k)
    ensures ParseSize(line) == if HexValue(line[i..j]) <= MAX_RESPONSE then Some(HexValue(line[i..j])) else None
  {
    forall i': nat, j': nat, k': nat | SizeLine(line, i', j', k')
      ensures i == i' && j == j'
    {
      SizeLineUnique(line, i, j, k, i', j', k');
    }
  }

  /** A printed size parses back to itself, or not at all when it is over the limit. */
  lemma PrintedSizeParses(n: nat)
    ensures ParseSize(Hex(n)) == if n <= MAX_RESPONSE then Some(n) else None
    ensures forall i :: !OccursAt(Hex(n), CRLF, i)
  {
    var line := Hex(n);
    assert line[0..|line|] == line;
    HexRoundTrip(n);
    SizeIs(line, 0, |line|, |line|);
    DigitsHaveNoBreak(line);
  }

  lemma DigitsHaveNoBreak(line: seq<byte>)
    requires forall i :: 0 <= i < |line| ==> IsHex(line[i])
    ensures forall i :: !OccursAt(line, CRLF, i)
  {
    forall i | 0 <= i && i + 2 <= |line|
      ensures !OccursAt(line, CRLF, i)
    {
      assert line[i..i + 2][0] == line[i];
    }
  }
}

/**
 The chunked-body grammar of section 7.1 of RFC 9112, as this server reads it. Everything here holds for
 any reader `size` of size lines; the server's is ParseSize.
 */
module ChunkGrammar {
  import opened Bytes
  import opened ChunkSize

  /** What a chunk's first line says, if it is a size line at all. */
  type SizeReader = seq<byte> -> Option<nat>

  datatype Trailers = End | Trailer(line: seq<byte>, more: Trailers)

  /** A parse tree: data chunks, then the zero-size line and the trailer section. */
  datatype Body =
    | Last(line: seq<byte>, trailers: Trailers)
    | Chunk(line: seq<byte>, data: seq<byte>, more: Body)

  ghost predicate IsLine(s: seq<byte>) {
    forall i :: !OccursAt(s, CRLF, i)
  }

  ghost predicate GoodTrailers(t: Trailers) {
    match t
    case End => true
    case Trailer(line, more) => line != [] && IsLine(line) && GoodTrailers(more)
  }

  /** Well-formed, with every size line telling its chunk's length and `have` + data within the limit. */
  ghost predicate Good(size: SizeReader, b: Body, have: nat) {
    match b
    case Last(line, trailers) => IsLine(line) && size(line) == Some(0) && GoodTrailers(trailers)
    case Chunk(line, data, more) =>
      && IsLine(line) && data != [] && size(line) == Some(|data|)
      && have + |data| <= MAX_RESPONSE && Good(size, more, have + |data|)
  }

  function RenderTrailers(t: Trailers): seq<byte> {
    match t
    case End => CRLF
    case Trailer(line, more) => line + CRLF + RenderTrailers(more)
  }

  function Render(b: Body): seq<byte> {
    match b
    case Last(line, trailers) => line + CRLF + RenderTrailers(trailers)
    case Chunk(line, data, more) => line + CRLF + (data + CRLF + Render(more))
  }

  function DataOf(b: Body): seq<byte> {
    match b
    case Last(_, _) => []
    case Chunk(_, data, more) => data + DataOf(more)
  }

  /** `b` is a parse of the start of `s`. */
  ghost predicate Accepts(size: SizeReader, s: seq<byte>, b: Body, have: nat) {
    Good(size, b, have) && Render(b) <= s
  }

  /** The start of `s` is a chunked body carrying `d`, `have` bytes being decoded already. */
  ghost predicate Carries(size: SizeReader, s: seq<byte>, have: nat, d: seq<byte>) {
    exists b :: Accepts(size, s, b, have) && DataOf(b) == d
  }

  // ---------------------------------------------------------------- unique readability

  /** If a line and CRLF start `s`, the line is everything before the first CRLF of `s`. */
  lemma LineIsFirst(line: seq<byte>, rest: seq<byte>, s: seq<byte>)
    requires IsLine(line) && line + CRLF + rest <= s
    ensures Find(s, CRLF) == Some(|line|) && line == s[..|line|] && rest <= s[|line| + 2..]
  {
    assert s[|line|] == CR && s[|line| + 1] == LF;
    forall k | 0 <= k < |line|
      ensures !OccursAt(s, CRLF, k)
    {
      if k + 2 <= |line| {
        assert s[k..k + 2] == line[k..k + 2];
        assert !OccursAt(line, CRLF, k);
      } else {
        assert s[k..k + 2][1] == CR;
      }
    }
    FindIs(s, CRLF, |line|);
  }

  lemma LineBefore(s: seq<byte>, n: nat)
    requires Find(s, CRLF) == Some(n)
    ensures IsLine(s[..n]) && s == s[..n] + CRLF + s[n + 2..]
  {
    forall i | OccursAt(s[..n], CRLF, i)
      ensures false
    {
      assert s[..n][i..i + 2] == s[i..i + 2];
      assert OccursAt(s, CRLF, i);
    }
    assert s[n..n + 2] == CRLF;
  }

  lemma {:induction false} TrailersUnique(a: Trailers, b: Trailers, s: seq<byte>)
    requires GoodTrailers(a) && GoodTrailers(b) && RenderTrailers(a) <= s && RenderTrailers(b) <= s
    ensures a == b
  {
    var x, y := if a.End? then [] else a.line, if b.End? then [] else b.line;
    var u := if a.End? then [] else RenderTrailers(a.more);
    var v := if b.End? then [] else RenderTrailers(b.more);
    LineIsFirst(x, u, s);
    LineIsFirst(y, v, s);
    if a.Trailer? && b.Trailer? {
      TrailersUnique(a.more, b.more, s[|x| + 2..]);
    }
  }

  /** Where the first chunk of a parse lies in the input. */
  lemma ChunkAt(size: SizeReader, s: seq<byte>, b: Body, have: nat)
    requires Accepts(size, s, b, have) && b.Chunk?
    ensures Find(s, CRLF) == Some(|b.line|) && b.line == s[..|b.line|]
    ensures var rest := s[|b.line| + 2..];
            b.data <= rest && OccursAt(rest, CRLF, |b.data|) && Accepts(size, rest[|b.data| + 2..], b.more, have + |b.data|)
  {
    var after := b.data + CRLF + Render(b.more);
    LineIsFirst(b.line, after, s);
    var rest := s[|b.line| + 2..];
    assert rest[|b.data|..|b.data| + 2] == CRLF;
  }

  /** Where the zero-size line of a parse lies in the input. */
  lemma LastAt(size: SizeReader, s: seq<byte>, b: Body, have: nat)
    requires Accepts(size, s, b, have) && b.Last?
    ensures Find(s, CRLF) == Some(|b.line|) && b.line == s[..|b.line|]
    ensures RenderTrailers(b.trailers) <= s[|b.line| + 2..]
  {
    LineIsFirst(b.line, RenderTrailers(b.trailers), s);
  }

  /** A byte string starts with at most one chunked body. */
  lemma {:induction false} ParseUnique(size: SizeReader, a: Body, b: Body, have: nat, s: seq<byte>)
    requires Accepts(size, s, a, have) && Accepts(size, s, b, have)
    ensures a == b
  {
    if a.Last? { LastAt(size, s, a, have); } else { ChunkAt(size, s, a, have); }
    if b.Last? { LastAt(size, s, b, have); } else { ChunkAt(size, s, b, have); }
    var rest := s[|a.line| + 2..];
    if a.Last? {
      TrailersUnique(a.trailers, b.trailers, rest);
    } else {
      ParseUnique(size, a.more, b.more, have + |a.data|, rest[|a.data| + 2..]);
    }
  }

  /** So it carries at most one content. */
  lemma CarriesUnique(size: SizeReader, s: seq<byte>, have: nat, d: seq<byte>, e: seq<byte>)
    requires Carries(size, s, have, d) && Carries(size, s, have, e)
    ensures d == e
  {
    var a :| Accepts(size, s, a, have) && DataOf(a) == d;
    var b :| Accepts(size, s, b, have) && DataOf(b) == e;
    ParseUnique(size, a, b, have, s);
  }

  /** Prefix freedom: cut before its last byte, a chunked body is no chunked body any more. */
  lemma PrefixFree(size: SizeReader, s: seq<byte>, b: Body, k: nat, d: seq<byte>)
    requires Accepts(size, s, b, 0) && k < |Render(b)|
    ensures !Carries(size, s[..k], 0, d)
  {
    forall c | Accepts(size, s[..k], c, 0)
      ensures false
    {
      ParseUnique(size, b, c, 0, s);
    }
  }

  lemma {:induction false} DataFits(size: SizeReader, b: Body, have: nat)
    requires Good(size, b, have) && have <= MAX_RESPONSE
    ensures have + |DataOf(b)| <= MAX_RESPONSE && |DataOf(b)| <= |Render(b)|
  {
    if b.Chunk? {
      DataFits(size, b.more, have + |b.data|);
    }
  }

  // ---------------------------------------------------------------- reading one line at a time

  ghost predicate EndsIn(s: seq<byte>, t: Trailers) {
    GoodTrailers(t) && RenderTrailers(t) <= s
  }

  /** A complete trailer section starts `s`. */
  ghost predicate HasTrailers(s: seq<byte>) {
    exists t :: EndsIn(s, t)
  }

  lemma TrailerAt(s: seq<byte>, t: Trailers)
    requires EndsIn(s, t)
    ensures t.End? ==> Find(s, CRLF) == Some(0)
    ensures t.Trailer? ==> Find(s, CRLF) == Some(|t.line|) && t.line == s[..|t.line|] && EndsIn(s[|t.line| + 2..], t.more)
  {
    if t.End? { LineIsFirst([], [], s); } else { LineIsFirst(t.line, RenderTrailers(t.more), s); }
  }

  lemma TrailerStep(s: seq<byte>)
    ensures match Find(s, CRLF)
            case None => !HasTrailers(s)
            case Some(n) => HasTrailers(s) <==> n == 0 || HasTrailers(s[n + 2..])
  {
    forall t | EndsIn(s, t)
      ensures Find(s, CRLF).Some? && (Find(s, CRLF).value == 0 || HasTrailers(s[Find(s, CRLF).value + 2..]))
    {
      TrailerAt(s, t);
    }
    match Find(s, CRLF)
    case None =>
    case Some(n) =>
      LineBefore(s, n);
      if n == 0 {
        assert EndsIn(s, End);
      } else if HasTrailers(s[n + 2..]) {
        var more :| EndsIn(s[n + 2..], more);
        assert EndsIn(s, Trailer(s[..n], more));
      }
  }

  /** Without a readable size line there is no body. */
  lemma NoSizeLine(size: SizeReader, s: seq<byte>, have: nat, d: seq<byte>)
    requires Find(s, CRLF).None? || size(s[..Find(s, CRLF).value]).None?
    ensures !Carries(size, s, have, d)
  {
    forall b | Accepts(size, s, b, have)
      ensures false
    {
      if b.Last? { LastAt(size, s, b, have); } else { ChunkAt(size, s, b, have); }
    }
  }

  /** A zero-size line: the body ends here if its trailer section does. */
  lemma LastStep(size: SizeReader, s: seq<byte>, have: nat, n: nat, d: seq<byte>)
    requires Find(s, CRLF) == Some(n) && size(s[..n]) == Some(0)
    ensures Carries(size, s, have, d) <==> d == [] && HasTrailers(s[n + 2..])
  {
    LineBefore(s, n);
    forall b | Accepts(size, s, b, have)
      ensures b.Last? && HasTrailers(s[n + 2..])
    {
      if b.Last? {
        LastAt(size, s, b, have);
        assert EndsIn(s[n + 2..], b.trailers);
      } else {
        ChunkAt(size, s, b, have);
      }
    }
    if HasTrailers(s[n + 2..]) {
      var t :| EndsIn(s[n + 2..], t);
      assert Accepts(size, s, Last(s[..n], t), have);
      assert DataOf(Last(s[..n], t)) == [];
    }
  }

  lemma ChunkStepForward(size: SizeReader, s: seq<byte>, have: nat, n: nat, k: nat, d: seq<byte>)
    requires Find(s, CRLF) == Some(n) && size(s[..n]) == Some(k) && k > 0 && Carries(size, s, have, d)
    ensures var rest := s[n + 2..];
            && k <= |rest| && have + k <= MAX_RESPONSE && OccursAt(rest, CRLF, k)
            && rest[..k] <= d && Carries(size, rest[k + 2..], have + k, d[k..])
  {
    var b :| Accepts(size, s, b, have) && DataOf(b) == d;
    if b.Last? { LastAt(size, s, b, have); } else { ChunkAt(size, s, b, have); }
    assert DataOf(b.more) == d[k..];
  }

  lemma ChunkStepBack(size: SizeReader, s: seq<byte>, have: nat, n: nat, data: seq<byte>, tail: seq<byte>, b: Body)
    requires Find(s, CRLF) == Some(n) && size(s[..n]) == Some(|data|) && data != []
    requires have + |data| <= MAX_RESPONSE && s[n + 2..] == data + CRLF + tail && Accepts(size, tail, b, have + |data|)
    ensures Accepts(size, s, Chunk(s[..n], data, b), have)
  {
    LineBefore(s, n);
    var after := data + CRLF + Render(b);
    assert after <= s[n + 2..];
    assert s[..n] + CRLF + after <= s;
  }

  /** A positive size line: the chunk's data, its CRLF, and then the rest of the body. */
  lemma ChunkStep(size: SizeReader, s: seq<byte>, have: nat, n: nat, k: nat, d: seq<byte>)
    requires Find(s, CRLF) == Some(n) && size(s[..n]) == Some(k) && k > 0
    ensures var rest := s[n + 2..];
            Carries(size, s, have, d) <==>
            k <= |rest| && have + k <= MAX_RESPONSE && OccursAt(rest, CRLF, k) &&
            rest[..k] <= d && Carries(size, rest[k + 2..], have + k, d[k..])
  {
    var rest := s[n + 2..];
    if Carries(size, s, have, d) {
      ChunkStepForward(size, s, have, n, k, d);
    } else if k <= |rest| && have + k <= MAX_RESPONSE && OccursAt(rest, CRLF, k) && rest[..k] <= d {
      var data, tail := rest[..k], rest[k + 2..];
      assert rest == data + CRLF + tail;
      forall b | Accepts(size, tail, b, have + k)
        ensures DataOf(b) != d[k..]
      {
        ChunkStepBack(size, s, have, n, data, tail, b);
        assert DataOf(Chunk(s[..n], data, b)) == data + DataOf(b);
      }
    }
  }

  /** Behind the chunk that starts `s` the body goes on. */
  lemma BehindChunk(size: SizeReader, s: seq<byte>, line: seq<byte>, data: seq<byte>, tail: seq<byte>, have: nat, d: seq<byte>)
    requires IsLine(line) && s == line + CRLF + (data + CRLF + tail)
    requires data != [] && (size(line).Some? ==> size(line).value == |data|)
    ensures Carries(size, s, have, d) ==> data <= d && Carries(size, tail, have + |data|, d[|data|..])
  {
    LineIsFirst(line, data + CRLF + tail, s);
    var rest := s[|line| + 2..];
    assert rest == data + CRLF + tail && rest[|data| + 2..] == tail && rest[..|data|] == data;
    if size(line).Some? {
      ChunkStep(size, s, have, |line|, |data|, d);
    } else {
      NoSizeLine(size, s, have, d);
    }
  }
}

/** What the PHP response writer prints, and that it is a chunked body carrying the pieces. */
module Chunked {
  import opened Bytes
  import opened ChunkSize
  import opened ChunkGrammar

  /** client_write_chunked_body: nothing for an empty piece, since a zero size would end the body. */
  function EncodePiece(p: seq<byte>): seq<byte> {
    if p == [] then [] else Hex(|p|) + CRLF + p + CRLF
  }

  /** client_write_chunked_end: "0" CRLF CRLF */
  const ENCODED_END: seq<byte> := [48, 13, 10, 13, 10]

  function EncodeFrom(pieces: seq<seq<byte>>, i: nat): seq<byte>
    requires i <= |pieces|
    decreases |pieces| - i
  {
    if i == |pieces| then ENCODED_END else EncodePiece(pieces[i]) + EncodeFrom(pieces, i + 1)
  }

  /** A whole body: every piece, then the end marker. */
  function Encode(pieces: seq<seq<byte>>): seq<byte> {
    EncodeFrom(pieces, 0)
  }

  /** The parse tree of a printed body. */
  function TreeFrom(pieces: seq<seq<byte>>, i: nat): Body
    requires i <= |pieces|
    decreases |pieces| - i
  {
    if i == |pieces| then Last([48], End) else WithPiece(pieces[i], TreeFrom(pieces, i + 1))
  }

  function WithPiece(p: seq<byte>, t: Body): Body {
    if p == [] then t else Chunk(Hex(|p|), p, t)
  }

  lemma PieceTree(p: seq<byte>, t: Body, have: nat)
    requires have + |p| <= MAX_RESPONSE && Good(ParseSize, t, have + |p|)
    ensures Good(ParseSize, WithPiece(p, t), have)
    ensures Render(WithPiece(p, t)) == EncodePiece(p) + Render(t)
    ensures DataOf(WithPiece(p, t)) == p + DataOf(t)
  {
    if p != [] {
      PrintedSizeParses(|p|);
      var h, r := Hex(|p|), Render(t);
      assert h + CRLF + (p + CRLF + r) == h + CRLF + p + CRLF + r;
    }
  }

  /** The tree of a printed body: well-formed, rendered as printed, with the pieces as its data. */
  ghost predicate IsTree(pieces: seq<seq<byte>>, i: nat, have: nat, t: Body)
    requires i <= |pieces|
  {
    Good(ParseSize, t, have) && Render(t) == EncodeFrom(pieces, i) && DataOf(t) == ConcatFrom(pieces, i)
  }

  lemma {:induction false} TreeOfPieces(pieces: seq<seq<byte>>, i: nat, have: nat)
    requires i <= |pieces| && have + |ConcatFrom(pieces, i)| <= MAX_RESPONSE
    ensures IsTree(pieces, i, have, TreeFrom(pieces, i))
    decreases |pieces| - i
  {
    if i == |pieces| {
      PrintedSizeParses(0);
    } else {
      TreeOfPieces(pieces, i + 1, have + |pieces[i]|);
      PieceTree(pieces[i], TreeFrom(pieces, i + 1), have);
    }
  }

  /** Round trip: a printed body carries exactly the concatenated pieces, whatever follows it. */
  lemma EncodeCarries(pieces: seq<seq<byte>>, more: seq<byte>, d: seq<byte>)
    requires |Concat(pieces)| <= MAX_RESPONSE
    ensures Carries(ParseSize, Encode(pieces) + more, 0, d) <==> d == Concat(pieces)
  {
    TreeOfPieces(pieces, 0, 0);
    assert Accepts(ParseSize, Encode(pieces) + more, TreeFrom(pieces, 0), 0);
    if Carries(ParseSize, Encode(pieces) + more, 0, d) {
      CarriesUnique(ParseSize, Encode(pieces) + more, 0, d, Concat(pieces));
    }
  }

  /** A printed size line cut before its line feed. */
  lemma SizeCutRefused(n: nat, s: seq<byte>, have: nat, d: seq<byte>)
    requires s <= Hex(n) + CRLF && |s| < |Hex(n)| + 2
    ensures !Carries(ParseSize, s, have, d)
  {
    var h := Hex(n);
    PrintedSizeParses(n);
    forall i | 0 <= i && i + 2 <= |s|
      ensures !OccursAt(s, CRLF, i)
    {
      assert s[i..i + 2][1] == s[i + 1];
      assert i + 2 <= |h| ==> s[i..i + 2] == h[i..i + 2] && !OccursAt(h, CRLF, i);
    }
    NoSizeLine(ParseSize, s, have, d);
  }

  /** A printed size line whose chunk is cut before its last byte. */
  lemma DataCutRefused(n: nat, rest: seq<byte>, have: nat, d: seq<byte>)
    requires 0 < n && |rest| < n + 2
    ensures !Carries(ParseSize, Hex(n) + CRLF + rest, have, d)
  {
    var s := Hex(n) + CRLF + rest;
    PrintedSizeParses(n);
    LineIsFirst(Hex(n), rest, s);
    if n <= MAX_RESPONSE {
      ChunkStep(ParseSize, s, have, |Hex(n)|, n, d);
    } else {
      NoSizeLine(ParseSize, s, have, d);
    }
  }

  /** A strict prefix of one printed piece starts no body. */
  lemma PieceCutRefused(p: seq<byte>, k: nat, have: nat, d: seq<byte>)
    requires k < |EncodePiece(p)|
    ensures !Carries(ParseSize, EncodePiece(p)[..k], have, d)
  {
    var e, h := EncodePiece(p), Hex(|p|);
    assert e == (h + CRLF) + (p + CRLF);
    if k < |h| + 2 {
      assert e[..k] <= h + CRLF;
      SizeCutRefused(|p|, e[..k], have, d);
    } else {
      assert e[..k] == h + CRLF + (p + CRLF)[..k - |h| - 2];
      DataCutRefused(|p|, (p + CRLF)[..k - |h| - 2], have, d);
    }
  }

  /** Every strict prefix of a printed body is refused, however large the pieces are. */
  lemma {:induction false} EncodedPrefixRefused(pieces: seq<seq<byte>>, i: nat, k: nat, have: nat, d: seq<byte>)
    requires i <= |pieces| && k < |EncodeFrom(pieces, i)|
    ensures !Carries(ParseSize, EncodeFrom(pieces, i)[..k], have, d)
    decreases |pieces| - i
  {
    if i == |pieces| {
      EndCutRefused(k, have, d);
    } else {
      var p, rest := pieces[i], EncodeFrom(pieces, i + 1);
      var e := |EncodePiece(p)|;
      if k >= e {
        EncodedPrefixRefused(pieces, i + 1, k - e, have + |p|, if |p| <= |d| then d[|p|..] else []);
      }
      CutAfterPiece(p, rest, k, have, d);
    }
  }

  /** A cut inside a printed piece is refused; a cut behind it is, if what lies between is. */
  lemma CutAfterPiece(p: seq<byte>, rest: seq<byte>, k: nat, have: nat, d: seq<byte>)
    requires k < |EncodePiece(p) + rest|
    requires var e := |EncodePiece(p)|;
             k >= e ==> !Carries(ParseSize, rest[..k - e], have + |p|, if |p| <= |d| then d[|p|..] else [])
    ensures !Carries(ParseSize, (EncodePiece(p) + rest)[..k], have, d)
  {
    var e := EncodePiece(p);
    if k < |e| {
      assert (e + rest)[..k] == e[..k];
      PieceCutRefused(p, k, have, d);
    } else if p == [] {
      assert (e + rest)[..k] == rest[..k - |e|] && d[0..] == d;
    } else {
      assert (e + rest)[..k] == e + rest[..k - |e|];
      AfterPiece(p, rest[..k - |e|], have, d);
    }
  }

  /** Behind a printed piece the body goes on. */
  lemma AfterPiece(p: seq<byte>, tail: seq<byte>, have: nat, d: seq<byte>)
    requires p != []
    ensures Carries(ParseSize, EncodePiece(p) + tail, have, d) ==>
            p <= d && Carries(ParseSize, tail, have + |p|, d[|p|..])
  {
    var s, h := EncodePiece(p) + tail, Hex(|p|);
    PrintedSizeParses(|p|);
    assert s == h + CRLF + (p + CRLF + tail);
    BehindChunk(ParseSize, s, h, p, tail, have, d);
  }

  lemma EndCutRefused(k: nat, have: nat, d: seq<byte>)
    requires k < |ENCODED_END|
    ensures !Carries(ParseSize, ENCODED_END[..k], have, d)
  {
    var s := ENCODED_END[..k];
    PrintedSizeParses(0);
    if k < 3 {
      assert forall i :: OccursAt(s, CRLF, i) ==> s[i..i + 2][1] == s[i + 1];
      NoSizeLine(ParseSize, s, have, d);
    } else {
      assert s == Hex(0) + CRLF + s[3..];
      LineIsFirst(Hex(0), s[3..], s);
      LastStep(ParseSize, s, have, 1, d);
      TrailerStep(s[3..]);
    }
  }
}
