/** decode_chunked_body: the loops, proved against the grammar. */
module ChunkDecoder {
  import opened Bytes
  import opened ChunkSize
  import opened ChunkGrammar
  import opened Buffer

  /** Scans for CRLF from `from`; `r` is where it starts. */
  method FindCrlf(body: seq<byte>, from: nat) returns (r: Option<nat>)
    requires from <= |body|
    ensures r.None? ==> Find(body[from..], CRLF).None?
    ensures r.Some? ==> from <= r.value && r.value + 2 <= |body|
    ensures r.Some? ==> Find(body[from..], CRLF) == Some(r.value - from)
  {
    ghost var s := body[from..];
    var off := from;
    while off + 1 < |body| && !(body[off] == CR && body[off + 1] == LF)
      invariant from <= off <= |body|
      invariant forall i :: 0 <= i < off - from ==> !OccursAt(s, CRLF, i)
    {
      assert s[off - from..off - from + 2] == [body[off], body[off + 1]];
      off := off + 1;
    }
    if off + 1 >= |body| {
      assert forall i :: OccursAt(s, CRLF, i) ==> i < off - from;
      return None;
    }
    assert s[off - from..off - from + 2] == CRLF;
    FindIs(s, CRLF, off - from);
    return Some(off);
  }

  /** `size` is the server's reader. Lemmas about the grammar need not look inside it. */
  ghost predicate IsParseSize(size: SizeReader) {
    forall line {:trigger ParseSize(line)} :: size(line) == ParseSize(line)
  }

  /** Reads a size line; refuses as soon as the running value would pass the limit. */
  method ReadSize(line: seq<byte>, ghost size: SizeReader) returns (r: Option<nat>)
    requires IsParseSize(size)
    ensures r == size(line)
  {
    var i := 0;
    while i < |line| && IsBlank(line[i])
      invariant i <= |line| && forall x :: 0 <= x < i ==> IsBlank(line[x])
    {
      i := i + 1;
    }
    if i == |line| {
      NoSize(line, i, i, i);
      return None;
    }
    ghost var start := i;
    var sawDigit, value;
    i, sawDigit, value := ReadDigits(line, i);
    if value.None? {
      TooBig(line, start, i);
      return None;
    }
    ghost var stop := i;
    while i < |line| && IsBlank(line[i])
      invariant stop <= i <= |line| && forall x :: stop <= x < i ==> IsBlank(line[x])
    {
      i := i + 1;
    }
    if !sawDigit || (i < |line| && line[i] != 59) {
      NoSize(line, start, stop, i);
      return None;
    }
    SizeIs(line, start, stop, i);
    return value;
  }

  /** The digit loop: where it stops, and the value unless it passes the limit there. */
  method ReadDigits(line: seq<byte>, start: nat) returns (i: nat, sawDigit: bool, value: Option<nat>)
    requires start <= |line|
    ensures start <= i <= |line| && (sawDigit <==> start < i) && forall x :: start <= x < i ==> IsHex(line[x])
    ensures value.Some? ==> value.value == HexValue(line[start..i]) <= MAX_RESPONSE && (i < |line| ==> !IsHex(line[i]))
    ensures value.None? ==> start < i && HexValue(line[start..i]) > MAX_RESPONSE
  {
    i, sawDigit := start, false;
    var v := 0;
    while i < |line| && IsHex(line[i])
      invariant start <= i <= |line| && forall x :: start <= x < i ==> IsHex(line[x])
      invariant v == HexValue(line[start..i]) <= MAX_RESPONSE
      invariant sawDigit <==> start < i
    {
      var digit := Digit(line[i]);
      assert line[start..i + 1][..i - start] == line[start..i];
      if v > (MAX_RESPONSE - digit) / 16 {
        return i + 1, true, None;
      }
      v, sawDigit, i := v * 16 + digit, true, i + 1;
    }
    return i, sawDigit, Some(v);
  }

  /** Greedy scanning finds the only possible split of a size line. */
  lemma ScanIsSplit(line: seq<byte>, start: nat, stop: nat, end: nat, i: nat, j: nat, k: nat)
    requires start <= stop <= end <= |line| && SizeLine(line, i, j, k)
    requires forall x :: 0 <= x < start || stop <= x < end ==> IsBlank(line[x])
    requires forall x :: start <= x < stop ==> IsHex(line[x])
    requires start < |line| ==> !IsBlank(line[start])
    ensures i == start && stop <= j
    ensures (stop < |line| ==> !IsHex(line[stop])) ==> j == stop
    ensures (stop < |line| ==> !IsHex(line[stop])) && (end < |line| ==> !IsBlank(line[end])) ==> k == end
  {
    assert IsHex(line[i]);
    assert start < |line| ==> !IsBlank(line[start]);
    var next := if j < |line| then line[j] else LF;  // no digit: a blank, ';' or the end
    assert !IsHex(next);
    assert stop < j ==> IsHex(line[stop]);
    var after := if k < |line| then line[k] else LF;
    assert !IsBlank(after);
    assert j == stop && end < k ==> IsBlank(line[end]);
  }

  /** Digits that already pass the limit leave no acceptable size. */
  lemma TooBig(line: seq<byte>, start: nat, end: nat)
    requires start < end <= |line| && HexValue(line[start..end]) > MAX_RESPONSE
    requires forall x :: 0 <= x < start ==> IsBlank(line[x])
    requires forall x :: start <= x < end ==> IsHex(line[x])
    ensures ParseSize(line) == None
  {
    forall i: nat, j: nat, k: nat | SizeLine(line, i, j, k)
      ensures HexValue(line[i..j]) > MAX_RESPONSE
    {
      ScanIsSplit(line, start, end, end, i, j, k);
      assert line[i..j][..end - start] == line[start..end];
      HexMonotone(line[i..j], end - start);
    }
  }

  /** No digits, or something other than an extension after the size: not a size line. */
  lemma NoSize(line: seq<byte>, start: nat, stop: nat, end: nat)
    requires start <= stop <= end <= |line|
    requires forall x :: 0 <= x < start || stop <= x < end ==> IsBlank(line[x])
    requires forall x :: start <= x < stop ==> IsHex(line[x])
    requires (start < |line| ==> !IsBlank(line[start])) && (stop < |line| ==> !IsHex(line[stop]))
    requires end < |line| ==> !IsBlank(line[end])
    requires start == stop || (end < |line| && line[end] != 59)
    ensures ParseSize(line) == None
  {
    forall i: nat, j: nat, k: nat | SizeLine(line, i, j, k)
      ensures false
    {
      ScanIsSplit(line, start, stop, end, i, j, k);
    }
  }

  /** Skips trailer lines up to and including the empty one. */
  method SkipTrailers(body: seq<byte>, from: nat) returns (ok: bool)
    requires from <= |body|
    ensures ok <==> HasTrailers(body[from..])
  {
    var off := from;
    while true
      invariant from <= off <= |body| && (HasTrailers(body[from..]) <==> HasTrailers(body[off..]))
      decreases |body| - off
    {
      TrailerStep(body[off..]);
      var end := FindCrlf(body, off);
      if end.None? {
        return false;
      }
      assert body[off..][end.value - off + 2..] == body[end.value + 2..];
      if end.value == off {
        return true;
      }
      off := end.value + 2;
    }
  }

  /** Reads the size line at `off`: where its chunk starts, and how long it is. */
  method ReadSizeLine(body: seq<byte>, off: nat, ghost size: SizeReader) returns (from: nat, k: Option<nat>)
    requires off <= |body| && IsParseSize(size)
    ensures k.None? ==> Unreadable(size, body[off..])
    ensures k.Some? ==> off + 2 <= from <= |body|
    ensures k.Some? ==> Find(body[off..], CRLF) == Some(from - 2 - off) && size(body[off..][..from - 2 - off]) == k
  {
    ghost var s := body[off..];
    from, k := 0, None;
    var eol := FindCrlf(body, off);
    if eol.Some? {
      assert body[off..eol.value] == s[..eol.value - off];
      k := ReadSize(body[off..eol.value], size);
      from := eol.value + 2;
    }
  }

  /** No size line starts `s`. */
  ghost predicate Unreadable(size: SizeReader, s: seq<byte>) {
    Find(s, CRLF).None? || size(s[..Find(s, CRLF).value]).None?
  }

  /** One turn of the outer loop: nothing acceptable, the end of the body, or a chunk at an offset. */
  datatype Turn = Refused | Finished | Data(from: nat, len: nat)

  /** What a chunked body at the start of `s` carries, if there is one. */
  ghost function Content(size: SizeReader, s: seq<byte>, have: nat): Option<seq<byte>> {
    if d :| Carries(size, s, have, d) then Some(d) else None
  }

  lemma ContentIs(size: SizeReader, s: seq<byte>, have: nat, d: seq<byte>)
    ensures Carries(size, s, have, d) <==> Content(size, s, have) == Some(d)
  {
    if Carries(size, s, have, d) {
      CarriesUnique(size, s, have, d, Content(size, s, have).value);
    }
  }

  function Prepend(data: seq<byte>, rest: Option<seq<byte>>): Option<seq<byte>> {
    if rest.None? then None else Some(data + rest.value)
  }

  /** One turn agrees with the grammar: no body here, the end of one, or a chunk and then the rest of it. */
  ghost predicate TurnIs(size: SizeReader, body: seq<byte>, off: nat, have: nat, t: Turn)
    requires off <= |body|
  {
    match t
    case Refused => Content(size, body[off..], have) == None
    case Finished => Content(size, body[off..], have) == Some([])
    case Data(from, len) =>
      && off < from && 0 < len && from + len + 2 <= |body| && have + len <= MAX_RESPONSE
      && Content(size, body[off..], have) ==
         Prepend(body[from..from + len], Content(size, body[from + len + 2..], have + len))
  }

  /** Checks that `k` bytes of data and their CRLF are there and still fit. */
  method ReadData(body: seq<byte>, from: nat, k: nat, have: nat) returns (ok: bool)
    requires from <= |body| && have <= MAX_RESPONSE
    ensures ok <==> k <= |body[from..]| && have + k <= MAX_RESPONSE && OccursAt(body[from..], CRLF, k)
  {
    if k > |body| - from || k > MAX_RESPONSE || have > MAX_RESPONSE - k {
      return false;
    }
    if |body| - from - k < 2 {
      return false;
    }
    assert body[from..][k..k + 2] == [body[from + k], body[from + k + 1]];
    return body[from + k] == CR && body[from + k + 1] == LF;
  }

  method ReadChunk(body: seq<byte>, off: nat, have: nat, ghost size: SizeReader) returns (t: Turn)
    requires off <= |body| && have <= MAX_RESPONSE && IsParseSize(size)
    ensures TurnIs(size, body, off, have, t)
  {
    var from, k := ReadSizeLine(body, off, size);
    if k.None? {
      NoLineTurn(size, body, off, have);
      return Refused;
    }
    if k.value == 0 {
      var ok := SkipTrailers(body, from);
      LastTurn(size, body, off, from, have, ok);
      return if ok then Finished else Refused;
    }
    var ok := ReadData(body, from, k.value, have);
    DataTurn(size, body, off, from, have, k.value, ok);
    return if ok then Data(from, k.value) else Refused;
  }

  lemma NoLineTurn(size: SizeReader, body: seq<byte>, off: nat, have: nat)
    requires off <= |body| && Unreadable(size, body[off..])
    ensures TurnIs(size, body, off, have, Refused)
  {
    var d := Content(size, body[off..], have);
    if d.Some? {
      ContentIs(size, body[off..], have, d.value);
      NoSizeLine(size, body[off..], have, d.value);
      assert false;
    }
  }

  lemma LastTurn(size: SizeReader, body: seq<byte>, off: nat, from: nat, have: nat, ok: bool)
    requires off + 2 <= from <= |body| && Find(body[off..], CRLF) == Some(from - 2 - off)
    requires size(body[off..][..from - 2 - off]) == Some(0) && (ok <==> HasTrailers(body[from..]))
    ensures TurnIs(size, body, off, have, if ok then Finished else Refused)
  {
    var s, n := body[off..], from - 2 - off;
    assert s[n + 2..] == body[from..];
    var d := Content(size, s, have);
    ContentIs(size, s, have, if d.Some? then d.value else []);
    LastStep(size, s, have, n, if d.Some? then d.value else []);
    ContentIs(size, s, have, []);
    LastStep(size, s, have, n, []);
  }

  lemma DataTurn(size: SizeReader, body: seq<byte>, off: nat, from: nat, have: nat, len: nat, ok: bool)
    requires off + 2 <= from <= |body| && Find(body[off..], CRLF) == Some(from - 2 - off)
    requires len > 0 && size(body[off..][..from - 2 - off]) == Some(len)
    requires ok <==> len <= |body[from..]| && have + len <= MAX_RESPONSE && OccursAt(body[from..], CRLF, len)
    ensures TurnIs(size, body, off, have, if ok then Data(from, len) else Refused)
  {
    var s, n := body[off..], from - 2 - off;
    assert s[n + 2..] == body[from..];
    if ok {
      var data, tail := body[from..from + len], body[from + len + 2..];
      assert body[from..][..len] == data && body[from..][len + 2..] == tail;
      DataContent(size, s, have, n, len, data, tail);
    } else {
      var d := Content(size, s, have);
      ContentIs(size, s, have, if d.Some? then d.value else []);
      ChunkStep(size, s, have, n, len, if d.Some? then d.value else []);
    }
  }

  /** A chunk that is all there: its data, and then what the rest carries. */
  lemma DataContent(size: SizeReader, s: seq<byte>, have: nat, n: nat, len: nat, data: seq<byte>, tail: seq<byte>)
    requires Find(s, CRLF) == Some(n) && size(s[..n]) == Some(len) && len > 0
    requires var rest := s[n + 2..];
             len <= |rest| && have + len <= MAX_RESPONSE && OccursAt(rest, CRLF, len) &&
             data == rest[..len] && tail == rest[len + 2..]
    ensures Content(size, s, have) == Prepend(data, Content(size, tail, have + len))
  {
    var d, e := Content(size, s, have), Content(size, tail, have + len);
    if d.Some? {
      ContentIs(size, s, have, d.value);
      ChunkStep(size, s, have, n, len, d.value);
      ContentIs(size, tail, have + len, d.value[len..]);
      assert d.value == data + d.value[len..];
    } else if e.Some? {
      ContentIs(size, tail, have + len, e.value);
      assert (data + e.value)[len..] == e.value;
      ChunkStep(size, s, have, n, len, data + e.value);
      ContentIs(size, s, have, data + e.value);
    }
  }

  /** `got` is decoded, `body[off..]` is unread, and what the body carries is `got` and what the rest carries. */
  ghost predicate Progress(size: SizeReader, body: seq<byte>, off: nat, got: seq<byte>)
    requires off <= |body|
  {
    Content(size, body, 0) == Prepend(got, Content(size, body[off..], |got|))
  }

  lemma ProgressStarts(size: SizeReader, body: seq<byte>)
    ensures Progress(size, body, 0, [])
  {
    assert body[0..] == body;
    var r := Content(size, body, 0);
    if r.Some? {
      assert [] + r.value == r.value;
    }
  }

  /** What a turn makes of the progress so far. */
  lemma ProgressTurn(size: SizeReader, body: seq<byte>, off: nat, got: seq<byte>, t: Turn)
    requires off <= |body| && Progress(size, body, off, got) && TurnIs(size, body, off, |got|, t)
    ensures t.Refused? ==> Content(size, body, 0) == None
    ensures t.Finished? ==> Content(size, body, 0) == Some(got)
    ensures t.Data? ==> t.from + t.len + 2 <= |body| &&
                        Progress(size, body, t.from + t.len + 2, got + body[t.from..t.from + t.len])
  {
    match t
    case Refused =>
    case Finished =>
      assert got + [] == got;
    case Data(from, len) =>
      var rest := Content(size, body[from + len + 2..], |got| + len);
      if rest.Some? {
        Associative(got, body[from..from + len], rest.value);
      }
  }

  /** decode_chunked_body: succeeds exactly on chunked bodies, and then returns what they carry. */
  method DecodeLoop(body: seq<byte>, ghost size: SizeReader) returns (r: Option<seq<byte>>)
    requires IsParseSize(size)
    ensures r == Content(size, body, 0) && (r.Some? ==> |r.value| <= MAX_RESPONSE)
  {
    var decoded := new GrowBuffer();
    var off := 0;
    ghost var got: seq<byte> := [];
    ProgressStarts(size, body);
    while true
      invariant decoded.Valid() && fresh(decoded) && fresh(decoded.data) && decoded.Contents() == got
      invariant off <= |body| && Progress(size, body, off, got)
      decreases |body| - off
    {
      var t := ReadChunk(body, off, decoded.len, size);
      ProgressTurn(size, body, off, got, t);
      match t
      case Refused =>
        return None;
      case Finished =>
        r := Some(decoded.data[..decoded.len]);
        assert r == Some(got);
        return;
      case Data(_, _) =>
        decoded.Push(body[t.from..t.from + t.len]);
        got := got + body[t.from..t.from + t.len];
        off := t.from + t.len + 2;
    }
  }

  method DecodeChunkedBody(body: seq<byte>) returns (r: Option<seq<byte>>)
    ensures r.Some? ==> forall d :: Carries(ParseSize, body, 0, d) <==> d == r.value
    ensures r.None? ==> forall d :: !Carries(ParseSize, body, 0, d)
    ensures r.Some? ==> |r.value| <= MAX_RESPONSE
  {
    r := DecodeLoop(body, ParseSize);
    forall d ensures Carries(ParseSize, body, 0, d) <==> r == Some(d) {
      ContentIs(ParseSize, body, 0, d);
    }
  }
}
