/** The head of a loopback response, as parse_loopback_response reads it: is it readable, and is the body chunked? */
module LoopbackHead {
  import opened Bytes
  import opened ByteRange
  import opened HttpRequest
  import opened HttpParser

  // ---------------------------------------------------------------- C strings and strtok_r

  /** A buffer as a C string: it ends at the first NUL. */
  function CString(s: seq<byte>): seq<byte> {
    var nul := FindByte(s, 0);
    if nul.Some? then s[..nul.value] else s
  }

  predicate IsBreak(b: byte) {
    b == CR || b == LF
  }

  function SkipBreaks(s: seq<byte>, i: nat): (j: nat)
    requires i <= |s|
    ensures i <= j <= |s| && (j < |s| ==> !IsBreak(s[j])) && forall k :: i <= k < j ==> IsBreak(s[k])
    decreases |s| - i
  {
    if i < |s| && IsBreak(s[i]) then SkipBreaks(s, i + 1) else i
  }

  function LineEnd(s: seq<byte>, i: nat): (j: nat)
    requires i <= |s|
    ensures i <= j <= |s| && (j < |s| ==> IsBreak(s[j])) && forall k :: i <= k < j ==> !IsBreak(s[k])
    decreases |s| - i
  {
    if i < |s| && !IsBreak(s[i]) then LineEnd(s, i + 1) else i
  }

  /** The non-empty lines from `i` on: line breaks of any kind and number separate them. */
  function LinesFrom(s: seq<byte>, i: nat): seq<seq<byte>>
    requires i <= |s|
    decreases |s| - i
  {
    var from := SkipBreaks(s, i);
    if from == |s| then [] else [s[from..LineEnd(s, from)]] + LinesFrom(s, LineEnd(s, from))
  }

  // ---------------------------------------------------------------- the status line

  function SkipText(s: seq<byte>, i: nat): (j: nat)
    requires i <= |s|
    ensures i <= j <= |s|
    decreases |s| - i
  {
    if i < |s| && !IsSpace(s[i]) then SkipText(s, i + 1) else i
  }

  /** sscanf with "HTTP/%*s %d" finds a number. */
  predicate StatusReadable(line: seq<byte>) {
    Ascii("HTTP/") <= line &&
    var from := SkipSpaces(line, 5);
    var to := SkipText(line, from);
    var number := SkipSpaces(line, to);
    var digit := if number < |line| && (line[number] == 43 || line[number] == 45) then number + 1 else number;
    from < to && digit < |line| && IsDigit(line[digit])
  }

  // ---------------------------------------------------------------- header lines

  function SpacesLeft(s: seq<byte>): seq<byte> {
    if s != [] && IsSpace(s[0]) then SpacesLeft(s[1..]) else s
  }

  function SpacesRight(s: seq<byte>): seq<byte> {
    if s != [] && IsSpace(s[|s| - 1]) then SpacesRight(s[..|s| - 1]) else s
  }

  /** rpsiod_trim: white space around the text, then one pair of quotes. */
  function TrimQuoted(s: seq<byte>): seq<byte> {
    var t := SpacesRight(SpacesLeft(s));
    if |t| >= 2 && t[0] == t[|t| - 1] && (t[0] == 34 || t[0] == 39) then t[1..|t| - 1] else t
  }

  const SEMICOLON: byte := 59

  /** An element without its parameters. */
  function BeforeSemicolon(s: seq<byte>): seq<byte> {
    var n := FindByte(s, SEMICOLON);
    if n.Some? then s[..n.value] else s
  }

  /** Some comma-separated element, parameters and blanks aside, is `token`. */
  ghost predicate HasCoding(value: seq<byte>, token: seq<byte>) {
    exists i, j :: IsElement(value, i, j) && EqualCi(Trim(BeforeSemicolon(value[i..j])), token)
  }

  /** A Transfer-Encoding line that names the chunked coding. */
  ghost predicate NamesChunked(line: seq<byte>) {
    var colon := FindByte(line, COLON);
    && colon.Some? && EqualCi(TrimQuoted(line[..colon.value]), Ascii("Transfer-Encoding"))
    && HasCoding(TrimQuoted(line[colon.value + 1..]), Ascii("chunked"))
  }

  /** Refused without a readable status line; otherwise whether some later line names the chunked coding. */
  ghost function ReadHead(head: seq<byte>): Option<bool> {
    var lines := LinesFrom(CString(head), 0);
    if lines == [] || !StatusReadable(lines[0]) then None
    else Some(AnyNames(lines[1..]))
  }

  ghost predicate AnyNames(lines: seq<seq<byte>>) {
    exists k :: 0 <= k < |lines| && NamesChunked(lines[k])
  }

  // ---------------------------------------------------------------- the loops

  /** header_value_has_token */
  method HeaderValueHasToken(value: seq<byte>, token: seq<byte>) returns (found: bool)
    requires token != []
    ensures found <==> HasCoding(value, token)
  {
    var p := 0;
    while p < |value|
      invariant p <= |value| && (p == 0 || p == |value| || value[p] == COMMA)
      invariant forall i, j :: IsElement(value, i, j) && (j < p || (j == p && p > 0)) ==>
                  !EqualCi(Trim(BeforeSemicolon(value[i..j])), token)
      decreases |value| - p
    {
      var was := p;
      p := SkipSeparators(value, p);
      var start := p;
      var end := ElementEnd(value, p);
      var stop := NextComma(value, end);
      forall i, j | IsElement(value, i, j) && j <= stop && (was < j || was == 0)
        ensures EqualCi(Trim(BeforeSemicolon(value[i..j])), token) ==> EqualCi(Trim(value[start..end]), token)
      {
        OneElement(value, token, was, start, end, stop, i, j);
      }
      ghost var i := ThisElement(value, was, start, end, stop);
      if EqualCi(Trim(value[start..end]), token) {
        return true;
      }
      p := stop;
    }
    return false;
  }

  /** An element that ends in the stretch one turn moves over is blank, or it is the one looked at. */
  lemma OneElement(value: seq<byte>, token: seq<byte>, was: nat, start: nat, end: nat, stop: nat, i: int, j: int)
    requires token != [] && was <= start <= end <= stop <= |value| && was < |value| && (was == 0 || value[was] == COMMA)
    requires forall k :: was <= k < start ==> IsBlank(value[k]) || value[k] == COMMA
    requires start < |value| ==> !IsBlank(value[start]) && value[start] != COMMA
    requires forall k :: start <= k < end ==> value[k] != COMMA && value[k] != SEMICOLON
    requires end < |value| ==> value[end] == COMMA || value[end] == SEMICOLON
    requires (stop < |value| ==> value[stop] == COMMA) && forall k :: end <= k < stop ==> value[k] != COMMA
    requires IsElement(value, i, j) && j <= stop && (was < j || was == 0)
    ensures EqualCi(Trim(BeforeSemicolon(value[i..j])), token) ==> EqualCi(Trim(value[start..end]), token)
  {
    if j < start {
      assert FindByte(value[i..j], SEMICOLON).None?;
      TrimAllBlank(value[i..j]);
      assert |LowerAll([])| == 0 && |LowerAll(token)| == |token|;
    } else {
      assert j == stop;
      CutElement(value, i, start, end, stop);
      ElementTrim(value, i, start, end);
    }
  }

  lemma CutElement(value: seq<byte>, i: nat, start: nat, end: nat, stop: nat)
    requires i <= start <= end <= stop <= |value| && forall k :: i <= k < start ==> IsBlank(value[k])
    requires forall k :: start <= k < end ==> value[k] != SEMICOLON
    requires end < stop ==> value[end] == SEMICOLON
    ensures BeforeSemicolon(value[i..stop]) == value[i..end]
  {
    var s := value[i..stop];
    assert forall k {:trigger s[k]} :: 0 <= k < end - i ==> s[k] == value[i + k] && s[k] != SEMICOLON;
    if end < stop {
      assert s[end - i] == SEMICOLON;
      assert FindByte(s, SEMICOLON) == Some(end - i);
      assert s[..end - i] == value[i..end];
    }
  }

  /** And the one looked at is an element. */
  lemma ThisElement(value: seq<byte>, was: nat, start: nat, end: nat, stop: nat) returns (i: nat)
    requires was <= start <= end <= stop <= |value| && was < |value| && (was == 0 || value[was] == COMMA)
    requires forall k :: was <= k < start ==> IsBlank(value[k]) || value[k] == COMMA
    requires start < |value| ==> !IsBlank(value[start]) && value[start] != COMMA
    requires forall k :: start <= k < end ==> value[k] != COMMA && value[k] != SEMICOLON
    requires end < |value| ==> value[end] == COMMA || value[end] == SEMICOLON
    requires (stop < |value| ==> value[stop] == COMMA) && forall k :: end <= k < stop ==> value[k] != COMMA
    ensures IsElement(value, i, stop) && Trim(BeforeSemicolon(value[i..stop])) == Trim(value[start..end])
  {
    i := ElementStart(value, was, start);
    CutElement(value, i, start, end, stop);
    ElementTrim(value, i, start, end);
  }

  /** Past blanks and commas. */
  function SkipSeparators(value: seq<byte>, i: nat): (j: nat)
    requires i <= |value|
    ensures i <= j <= |value| && forall k :: i <= k < j ==> IsBlank(value[k]) || value[k] == COMMA
    ensures j < |value| ==> !IsBlank(value[j]) && value[j] != COMMA
    decreases |value| - i
  {
    if i < |value| && (IsBlank(value[i]) || value[i] == COMMA) then SkipSeparators(value, i + 1) else i
  }

  /** Up to the next comma or semicolon. */
  function ElementEnd(value: seq<byte>, i: nat): (j: nat)
    requires i <= |value|
    ensures i <= j <= |value| && forall k :: i <= k < j ==> value[k] != COMMA && value[k] != SEMICOLON
    ensures j < |value| ==> value[j] == COMMA || value[j] == SEMICOLON
    decreases |value| - i
  {
    if i < |value| && value[i] != COMMA && value[i] != SEMICOLON then ElementEnd(value, i + 1) else i
  }

  function NextComma(value: seq<byte>, i: nat): (j: nat)
    requires i <= |value|
    ensures i <= j <= |value| && (j < |value| ==> value[j] == COMMA) && forall k :: i <= k < j ==> value[k] != COMMA
    decreases |value| - i
  {
    if i < |value| && value[i] != COMMA then NextComma(value, i + 1) else i
  }

  /** The white-space loops of rpsiod_trim, and its quotes. */
  method Trimmed(s: seq<byte>) returns (r: seq<byte>)
    ensures r == TrimQuoted(s)
  {
    var from, to := 0, |s|;
    assert s[0..] == s;
    while from < to && IsSpace(s[from])
      invariant from <= to == |s| && SpacesLeft(s) == SpacesLeft(s[from..])
    {
      assert s[from..][1..] == s[from + 1..];
      from := from + 1;
    }
    NoSpaceLeft(s[from..]);
    assert s[from..to] == s[from..] == SpacesLeft(s);
    while from < to && IsSpace(s[to - 1])
      invariant from <= to <= |s| && SpacesRight(SpacesLeft(s)) == SpacesRight(s[from..to])
    {
      assert s[from..to][..to - from - 1] == s[from..to - 1];
      to := to - 1;
    }
    var t := s[from..to];
    NoSpaceRight(t);
    r := if |t| >= 2 && t[0] == t[|t| - 1] && (t[0] == 34 || t[0] == 39) then t[1..|t| - 1] else t;
  }

  lemma NoSpaceLeft(s: seq<byte>)
    requires s == [] || !IsSpace(s[0])
    ensures SpacesLeft(s) == s
  {
  }

  lemma NoSpaceRight(s: seq<byte>)
    requires s == [] || !IsSpace(s[|s| - 1])
    ensures SpacesRight(s) == s
  {
  }

  /** One header line. */
  method ReadLine(line: seq<byte>) returns (chunked: bool)
    ensures chunked <==> NamesChunked(line)
  {
    var colon := FindByte(line, COLON);
    if colon.None? {
      return false;
    }
    var name := Trimmed(line[..colon.value]);
    var value := Trimmed(line[colon.value + 1..]);
    chunked := EqualCi(name, Ascii("Transfer-Encoding"));
    if chunked {
      chunked := HeaderValueHasToken(value, Ascii("chunked"));
    }
  }

  /** The loop over the header lines. */
  method AnyNamesChunked(s: seq<byte>, start: nat) returns (chunked: bool)
    requires start <= |s|
    ensures chunked <==> AnyNames(LinesFrom(s, start))
  {
    var i := start;
    chunked := false;
    while true
      invariant i <= |s| && (AnyNames(LinesFrom(s, start)) <==> chunked || AnyNames(LinesFrom(s, i)))
      decreases |s| - i
    {
      var from := SkipBreaks(s, i);
      if from == |s| {
        return;
      }
      var next := LineEnd(s, from);
      OneMoreLine(s[from..next], LinesFrom(s, next));
      var names := ReadLine(s[from..next]);
      chunked, i := chunked || names, next;
    }
  }

  lemma OneMoreLine(line: seq<byte>, rest: seq<seq<byte>>)
    ensures AnyNames([line] + rest) <==> NamesChunked(line) || AnyNames(rest)
    ensures ([line] + rest)[1..] == rest
  {
    var all := [line] + rest;
    assert all[0] == line && forall k :: 0 <= k < |rest| ==> all[k + 1] == rest[k];
    if k :| 0 <= k < |rest| && NamesChunked(rest[k]) {
      assert NamesChunked(all[k + 1]);
    }
  }

  /** The head of parse_loopback_response. */
  method ReadLoopbackHead(head: seq<byte>) returns (r: Option<bool>)
    ensures r == ReadHead(head)
  {
    var s := CString(head);
    var from := SkipBreaks(s, 0);
    if from == |s| {
      return None;
    }
    var end := LineEnd(s, from);
    if !StatusReadable(s[from..end]) {
      return None;
    }
    ghost var lines := LinesFrom(s, 0);
    OneMoreLine(s[from..end], LinesFrom(s, end));
    var chunked := AnyNamesChunked(s, end);
    return Some(chunked);
  }

  // ---------------------------------------------------------------- the heads the server itself prints

  /** A line of a printed head: not empty, and no break or NUL in it. */
  predicate CleanLine(line: seq<byte>) {
    line != [] && forall k :: 0 <= k < |line| ==> !IsBreak(line[k]) && line[k] != 0
  }

  /** Lines with CRLF between them. */
  function Join(lines: seq<seq<byte>>, i: nat): seq<byte>
    requires i < |lines|
    decreases |lines| - i
  {
    if i + 1 == |lines| then lines[i] else lines[i] + CRLF + Join(lines, i + 1)
  }

  lemma {:induction false} LineEndIs(s: seq<byte>, i: nat, j: nat)
    requires i <= j <= |s| && (forall k :: i <= k < j ==> !IsBreak(s[k])) && (j < |s| ==> IsBreak(s[j]))
    ensures LineEnd(s, i) == j
    decreases j - i
  {
    if i < j {
      LineEndIs(s, i + 1, j);
    }
  }

  /** Names the splitting into lines, so that the induction below does not unfold it. */
  type Splitter = (seq<byte>, nat) -> seq<seq<byte>>

  function Split(s: seq<byte>, i: nat): seq<seq<byte>> {
    if i <= |s| then LinesFrom(s, i) else []
  }

  ghost predicate IsSplitter(split: Splitter) {
    forall s, i {:trigger Split(s, i)} :: split(s, i) == Split(s, i)
  }

  lemma LinesSkip(split: Splitter, s: seq<byte>, i: nat)
    requires IsSplitter(split) && i + 1 < |s| && IsBreak(s[i]) && IsBreak(s[i + 1])
    ensures split(s, i) == split(s, i + 2)
  {
    assert SkipBreaks(s, i) == SkipBreaks(s, i + 1) == SkipBreaks(s, i + 2);
    assert split(s, i) == Split(s, i) && split(s, i + 2) == Split(s, i + 2);
  }

  /** A clean line at `p`, up to a break or the end. */
  lemma OneLine(split: Splitter, s: seq<byte>, p: nat, line: seq<byte>)
    requires IsSplitter(split)
    requires CleanLine(line) && p + |line| <= |s| && s[p..p + |line|] == line
    requires p + |line| < |s| ==> IsBreak(s[p + |line|])
    ensures split(s, p) == [line] + split(s, p + |line|)
    ensures p + |line| == |s| ==> split(s, p + |line|) == []
  {
    var end := p + |line|;
    forall k | p <= k < end ensures !IsBreak(s[k]) {
      assert s[k] == s[p..end][k - p] == line[k - p];
    }
    LineEndIs(s, p, end);
    assert SkipBreaks(s, p) == p;
    assert split(s, p) == Split(s, p) && split(s, end) == Split(s, end);
  }

  lemma CutLine(s: seq<byte>, p: nat, line: seq<byte>, rest: seq<byte>)
    requires p <= |s| && s[p..] == line + CRLF + rest
    ensures var end := p + |line|;
            end + 2 <= |s| && s[p..end] == line && s[end] == CR && s[end + 1] == LF && s[end + 2..] == rest
  {
    var t, n := line + CRLF + rest, |line|;
    assert t[..n] == line && t[n] == CR && t[n + 1] == LF && t[n + 2..] == rest;
    assert s[p..p + n] == s[p..][..n] && s[p + n] == s[p..][n] && s[p + n + 1] == s[p..][n + 1];
    assert s[p + n + 2..] == s[p..][n + 2..];
  }

  lemma {:induction false} LinesOfJoin(split: Splitter, s: seq<byte>, p: nat, lines: seq<seq<byte>>, i: nat)
    requires IsSplitter(split)
    requires i < |lines| && p <= |s| && s[p..] == Join(lines, i) && forall k :: 0 <= k < |lines| ==> CleanLine(lines[k])
    ensures split(s, p) == lines[i..]
    decreases |lines| - i
  {
    var line := lines[i];
    var end := p + |line|;
    if i + 1 == |lines| {
      assert s[p..end] == line && end == |s|;
      OneLine(split, s, p, line);
      assert lines[i..] == [line] + [];
    } else {
      CutLine(s, p, line, Join(lines, i + 1));
      OneLine(split, s, p, line);
      LinesSkip(split, s, end);
      LinesOfJoin(split, s, end + 2, lines, i + 1);
      assert lines[i..] == [line] + lines[i + 1..];
    }
  }

  lemma {:induction false} JoinHasNoNul(lines: seq<seq<byte>>, i: nat)
    requires i < |lines| && forall k :: 0 <= k < |lines| ==> CleanLine(lines[k])
    ensures forall k :: 0 <= k < |Join(lines, i)| ==> Join(lines, i)[k] != 0
    decreases |lines| - i
  {
    if i + 1 < |lines| {
      JoinHasNoNul(lines, i + 1);
    }
  }

  /** A printed head is read line by line: chunked if and only if one of its lines says so. */
  lemma PrintedHeadReads(lines: seq<seq<byte>>)
    requires lines != [] && (forall k :: 0 <= k < |lines| ==> CleanLine(lines[k])) && StatusReadable(lines[0])
    ensures ReadHead(Join(lines, 0)) == Some(AnyNames(lines[1..]))
  {
    var head := Join(lines, 0);
    JoinHasNoNul(lines, 0);
    assert CString(head) == head && head[0..] == head && lines[0..] == lines;
    LinesOfJoin(Split, head, 0, lines, 0);
  }

  const CHUNKED_LINE: seq<byte> := Ascii("Transfer-Encoding") + [COLON, SP] + Ascii("chunked")

  lemma ChunkedTrimmed()
    ensures TrimQuoted([SP] + Ascii("chunked")) == Ascii("chunked")
  {
    var c := Ascii("chunked");
    assert |c| == 7 && c[0] == 99 && c[6] == 100;
    assert ([SP] + c)[1..] == c;
    assert SpacesLeft([SP] + c) == SpacesLeft(c) == c && SpacesRight(c) == c;
  }

  lemma ChunkedValue()
    ensures HasCoding(Ascii("chunked"), Ascii("chunked"))
  {
    var c := Ascii("chunked");
    assert |c| == 7 && c[0] == 99 && c[6] == 100;
    assert forall k :: 0 <= k < 7 ==> c[k] != COMMA && c[k] != SEMICOLON;
    assert c[0..7] == c && FindByte(c, SEMICOLON).None?;
    assert TrimLeft(c) == c && TrimRight(c) == c;
    assert IsElement(c, 0, 7);
  }

  lemma ChunkedParts()
    ensures FindByte(CHUNKED_LINE, COLON) == Some(17)
    ensures CHUNKED_LINE[..17] == Ascii("Transfer-Encoding") && CHUNKED_LINE[18..] == [SP] + Ascii("chunked")
    ensures TrimQuoted(Ascii("Transfer-Encoding")) == Ascii("Transfer-Encoding")
  {
    var n := Ascii("Transfer-Encoding");
    assert |n| == 17 && n[0] == 84 && n[16] == 103;
    assert CHUNKED_LINE[..17] == n && CHUNKED_LINE[18..] == [SP] + Ascii("chunked") && CHUNKED_LINE[17] == COLON;
    assert forall k {:trigger CHUNKED_LINE[k]} :: 0 <= k < 17 ==> CHUNKED_LINE[k] == n[k] && n[k] != COLON;
    assert SpacesLeft(n) == n && SpacesRight(n) == n;
  }

  /** The line the server prints for a chunked body is recognised. */
  lemma ChunkedLineIsRead()
    ensures NamesChunked(CHUNKED_LINE)
  {
    ChunkedParts();
    ChunkedTrimmed();
    ChunkedValue();
  }

  // ---------------------------------------------------------------- where a printed head ends

  lemma StartsClean(lines: seq<seq<byte>>, i: nat)
    requires i < |lines| && forall k :: 0 <= k < |lines| ==> CleanLine(lines[k])
    ensures Join(lines, i) != [] && !IsBreak(Join(lines, i)[0])
  {
    assert Join(lines, i)[0] == lines[i][0];
  }

  /** One line and its CRLF before a rest that starts with text: no empty line begins in them. */
  lemma NoEndInLine(line: seq<byte>, rest: seq<byte>, k: nat)
    requires CleanLine(line) && rest != [] && !IsBreak(rest[0]) && k < |line| + 2
    ensures !OccursAt(line + CRLF + rest, CRLFCRLF, k)
  {
    var s := line + CRLF + rest;
    if k + 4 <= |s| {
      assert s[k..k + 4][0] == s[k] && s[k..k + 4][2] == s[k + 2];
      assert k < |line| ==> s[k] == line[k];
      assert s[|line| + 1] == LF && s[|line| + 2] == rest[0];
    }
  }

  lemma {:induction false} NoEarlyEnd(lines: seq<seq<byte>>, i: nat, k: nat)
    requires i < |lines| && (forall n :: 0 <= n < |lines| ==> CleanLine(lines[n])) && k < |Join(lines, i)|
    ensures !OccursAt(Join(lines, i) + CRLFCRLF, CRLFCRLF, k)
    decreases |lines| - i
  {
    var line := lines[i];
    if i + 1 == |lines| {
      var s := line + CRLFCRLF;
      assert s[k..k + 4][0] == s[k] == line[k];
    } else {
      var rest := Join(lines, i + 1);
      StartsClean(lines, i + 1);
      Associative(line + CRLF, rest, CRLFCRLF);
      if k < |line| + 2 {
        NoEndInLine(line, rest + CRLFCRLF, k);
      } else {
        var n := k - |line| - 2;
        NoEarlyEnd(lines, i + 1, n);
        OccursBehind(line + CRLF, rest + CRLFCRLF, n);
      }
    }
  }

  lemma OccursBehind(a: seq<byte>, b: seq<byte>, n: nat)
    ensures OccursAt(a + b, CRLFCRLF, |a| + n) <==> OccursAt(b, CRLFCRLF, n)
  {
    if n + 4 <= |b| {
      assert (a + b)[|a| + n..|a| + n + 4] == b[n..n + 4];
    }
  }

  /** A printed head ends with its first empty line. */
  lemma PrintedHeadEnds(lines: seq<seq<byte>>)
    requires lines != [] && forall k :: 0 <= k < |lines| ==> CleanLine(lines[k])
    ensures Find(Join(lines, 0) + CRLFCRLF, CRLFCRLF) == Some(|Join(lines, 0)|)
  {
    var head := Join(lines, 0);
    var s := head + CRLFCRLF;
    assert s[|head|..|head| + 4] == CRLFCRLF;
    forall k | 0 <= k < |head| ensures !OccursAt(s, CRLFCRLF, k) {
      NoEarlyEnd(lines, 0, k);
    }
    FindIs(s, CRLFCRLF, |head|);
  }

  // ---------------------------------------------------------------- an example

  /** HTTP/1.1 200 */
  const STATUS_LINE: seq<byte> := [72, 84, 84, 80, 47, 49, 46, 49, 32, 50, 48, 48]

  lemma StatusLineIsRead()
    ensures StatusReadable(STATUS_LINE) && CleanLine(STATUS_LINE)
  {
    var s := STATUS_LINE;
    assert s[..5] == Ascii("HTTP/");
    assert SkipSpaces(s, 5) == 5;
    assert SkipText(s, 8) == 8 && SkipText(s, 7) == 8 && SkipText(s, 6) == 8 && SkipText(s, 5) == 8;
    assert SkipSpaces(s, 9) == 9 && SkipSpaces(s, 8) == 9;
  }

  lemma ChunkedLineIsClean()
    ensures CleanLine(CHUNKED_LINE)
  {
    var n, c := Ascii("Transfer-Encoding"), Ascii("chunked");
    assert |n| == 17 && |c| == 7;
    assert forall k :: 0 <= k < 17 ==> n[k] > 32;
    assert forall k :: 0 <= k < 7 ==> c[k] > 32;
    assert forall k {:trigger CHUNKED_LINE[k]} :: 0 <= k < 17 ==> CHUNKED_LINE[k] == n[k];
    assert forall k {:trigger CHUNKED_LINE[k]} :: 19 <= k < 26 ==> CHUNKED_LINE[k] == c[k - 19];
  }

  const SAMPLE_HEAD: seq<byte> := STATUS_LINE + CRLF + CHUNKED_LINE

  /** A head with a status line and the chunked line is read as chunked, and ends where it should. */
  lemma SampleHeadIsRead()
    ensures ReadHead(SAMPLE_HEAD) == Some(true)
    ensures Find(SAMPLE_HEAD + CRLFCRLF, CRLFCRLF) == Some(|SAMPLE_HEAD|)
  {
    StatusLineIsRead();
    ChunkedLineIsClean();
    ChunkedLineIsRead();
    SampleJoin();
    TwoLines(STATUS_LINE, CHUNKED_LINE);
  }

  lemma TwoLines(first: seq<byte>, second: seq<byte>)
    requires CleanLine(first) && CleanLine(second) && StatusReadable(first) && NamesChunked(second)
    ensures ReadHead(Join([first, second], 0)) == Some(true)
    ensures Find(Join([first, second], 0) + CRLFCRLF, CRLFCRLF) == Some(|Join([first, second], 0)|)
  {
    var lines := [first, second];
    PrintedHeadReads(lines);
    PrintedHeadEnds(lines);
    assert lines[1..][0] == second;
  }

  lemma SampleJoin()
    ensures Join([STATUS_LINE, CHUNKED_LINE], 0) == SAMPLE_HEAD
  {
    assert Join([STATUS_LINE, CHUNKED_LINE], 1) == CHUNKED_LINE;
  }

  /** 'Transfer-Encoding': chunked */
  const QUOTED_LINE: seq<byte> := [39] + Ascii("Transfer-Encoding") + [39, COLON, SP] + Ascii("chunked")

  lemma QuotedParts()
    ensures FindByte(QUOTED_LINE, COLON) == Some(19)
    ensures QUOTED_LINE[..19] == [39] + Ascii("Transfer-Encoding") + [39]
    ensures QUOTED_LINE[20..] == [SP] + Ascii("chunked")
  {
    var n := Ascii("Transfer-Encoding");
    assert |n| == 17;
    assert QUOTED_LINE[..19] == [39] + n + [39] && QUOTED_LINE[20..] == [SP] + Ascii("chunked") && QUOTED_LINE[19] == COLON;
    assert forall k :: 0 <= k < 17 ==> n[k] != COLON;
    assert forall k {:trigger QUOTED_LINE[k]} :: 1 <= k < 18 ==> QUOTED_LINE[k] == n[k - 1];
  }

  lemma QuotesComeOff(n: seq<byte>)
    ensures TrimQuoted([39] + n + [39]) == n
  {
    var q := [39] + n + [39];
    assert SpacesLeft(q) == q && SpacesRight(q) == q;
    assert q[1..|q| - 1] == n;
  }

  /** The quotes come off on the way in, so this line names the chunked coding too. */
  lemma QuotedLineIsRead()
    ensures NamesChunked(QUOTED_LINE) && CleanLine(QUOTED_LINE)
  {
    QuotedParts();
    QuotesComeOff(Ascii("Transfer-Encoding"));
    ChunkedTrimmed();
    ChunkedValue();
    QuotedLineIsClean();
  }

  lemma QuotedLineIsClean()
    ensures CleanLine(QUOTED_LINE)
  {
    var n, c := Ascii("Transfer-Encoding"), Ascii("chunked");
    assert |n| == 17 && |c| == 7;
    assert forall k :: 0 <= k < 17 ==> n[k] > 32;
    assert forall k :: 0 <= k < 7 ==> c[k] > 32;
    assert forall k {:trigger QUOTED_LINE[k]} :: 1 <= k < 18 ==> QUOTED_LINE[k] == n[k - 1];
    assert forall k {:trigger QUOTED_LINE[k]} :: 21 <= k < 28 ==> QUOTED_LINE[k] == c[k - 21];
  }
}
