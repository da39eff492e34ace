/** What the head of a loopback response means by its text: its lines, its status, and the coding its lines name. */
module LoopbackMeaning {
  import opened Bytes
  import opened ByteRange
  import opened HttpRequest
  import opened LoopbackHead
  import opened Text
  import opened HeaderMeaning
  import opened Bridge

  // ---------------------------------------------------------------- the status line

  /** "HTTP/", white space up to i, a word up to j, white space up to k, a sign or none, and a digit at n. */
  ghost predicate StatusSplit(line: seq<byte>, i: nat, j: nat, k: nat, n: nat) {
    && 5 <= i < j < k <= n < |line| && line[..5] == Ascii("HTTP/")
    && White(line[5..i]) && NoWhite(line[i..j]) && White(line[j..k])
    && (n == k || (n == k + 1 && (line[k] == 43 || line[k] == 45))) && 48 <= line[n] <= 57
  }

  ghost predicate StatusLine(line: seq<byte>) {
    exists i, j, k, n :: StatusSplit(line, i, j, k, n)
  }

  lemma {:induction false} SkipTextStops(s: seq<byte>, i: nat)
    requires i <= |s|
    ensures var j := SkipText(s, i); NoWhite(s[i..j]) && (j < |s| ==> White([s[j]]))
    decreases |s| - i
  {
    if i < |s| && !(s[i] == 32 || 9 <= s[i] <= 13) {
      SkipTextStops(s, i + 1);
      assert s[i..SkipText(s, i)] == [s[i]] + s[i + 1..SkipText(s, i)];
    }
  }

  lemma {:induction false} SkipTextIs(s: seq<byte>, i: nat, j: nat)
    requires i <= j <= |s| && NoWhite(s[i..j]) && (j < |s| ==> White([s[j]]))
    ensures SkipText(s, i) == j
    decreases |s| - i
  {
    if i < j {
      assert s[i] == s[i..j][0] && s[i + 1..j] == s[i..j][1..];
      SkipTextIs(s, i + 1, j);
    } else if j < |s| {
      assert [s[j]][0] == s[j];
    }
  }

  lemma StatusIsRead(line: seq<byte>, i: nat, j: nat, k: nat, n: nat)
    requires StatusSplit(line, i, j, k, n)
    ensures StatusReadable(line)
  {
    assert |Ascii("HTTP/")| == 5;
    assert line[i] == line[i..j][0] && line[j] == line[j..k][0];
    SkipSpacesIs(line, 5, i);
    SkipTextIs(line, i, j);
    SkipSpacesIs(line, j, k);
  }

  lemma ReadIsStatus(line: seq<byte>)
    requires StatusReadable(line)
    ensures StatusLine(line)
  {
    var i, j, k, n := StatusPlaces(line);
    SkipSpacesStops(line, 5);
    SkipTextStops(line, i);
    SkipSpacesStops(line, j);
    BlankBehind(line, i, j, k);
    assert |Ascii("HTTP/")| == 5;
    assert StatusSplit(line, i, j, k, n);
  }

  lemma StatusPlaces(line: seq<byte>) returns (i: nat, j: nat, k: nat, n: nat)
    requires StatusReadable(line)
    ensures 5 <= i < j <= k <= n < |line| && Ascii("HTTP/") <= line
    ensures i == SkipSpaces(line, 5) && j == SkipText(line, i) && k == SkipSpaces(line, j)
    ensures n == (if line[k] == 43 || line[k] == 45 then k + 1 else k) && 48 <= line[n] <= 57
  {
    i := SkipSpaces(line, 5);
    j := SkipText(line, i);
    k := SkipSpaces(line, j);
    n := if k < |line| && (line[k] == 43 || line[k] == 45) then k + 1 else k;
  }

  /** A word is followed by white space, or by nothing. */
  lemma BlankBehind(line: seq<byte>, i: nat, j: nat, k: nat)
    requires i <= j <= k < |line| && j == SkipText(line, i) && k == SkipSpaces(line, j) && (line[k] == 43 || line[k] == 45 || 48 <= line[k] <= 57)
    ensures j < k
  {
    SkipTextStops(line, i);
    assert j < |line| ==> White([line[j]]) && [line[j]][0] == line[j];
  }

  /** The exact meaning of a readable status line. */
  lemma StatusIff(line: seq<byte>)
    ensures StatusReadable(line) <==> StatusLine(line)
  {
    if StatusReadable(line) {
      ReadIsStatus(line);
    }
    if i, j, k, n :| StatusSplit(line, i, j, k, n) {
      StatusIsRead(line, i, j, k, n);
    }
  }

  // ---------------------------------------------------------------- trimming

  predicate Edged(s: seq<byte>) {
    s != [] ==> NoWhite([s[0]]) && NoWhite([s[|s| - 1]])
  }

  /** One pair of equal quotes around a text comes off. */
  function WithoutQuotes(m: seq<byte>): seq<byte> {
    if |m| >= 2 && m[0] == m[|m| - 1] && (m[0] as char == '"' || m[0] as char == '\'') then m[1..|m| - 1] else m
  }

  /** White space, a text that has none at its ends, white space. */
  ghost predicate Wraps(s: seq<byte>, a: seq<byte>, m: seq<byte>, b: seq<byte>) {
    s == a + m + b && White(a) && White(b) && Edged(m)
  }

  lemma {:induction false} SpacesLeftSplits(s: seq<byte>) returns (a: seq<byte>)
    ensures s == a + SpacesLeft(s) && White(a) && (SpacesLeft(s) != [] ==> NoWhite([SpacesLeft(s)[0]]))
  {
    if s != [] && (s[0] == 32 || 9 <= s[0] <= 13) {
      var a' := SpacesLeftSplits(s[1..]);
      a := [s[0]] + a';
    } else {
      a := [];
    }
  }

  lemma {:induction false} SpacesRightSplits(s: seq<byte>) returns (b: seq<byte>)
    ensures s == SpacesRight(s) + b && White(b)
    ensures SpacesRight(s) != [] ==> NoWhite([SpacesRight(s)[|SpacesRight(s)| - 1]]) && SpacesRight(s)[0] == s[0]
  {
    if s != [] && (s[|s| - 1] == 32 || 9 <= s[|s| - 1] <= 13) {
      var b' := SpacesRightSplits(s[..|s| - 1]);
      b := b' + [s[|s| - 1]];
    } else {
      b := [];
    }
  }

  lemma {:induction false} SpacesLeftBehind(a: seq<byte>, t: seq<byte>)
    requires White(a) && (t != [] ==> NoWhite([t[0]]))
    ensures SpacesLeft(a + t) == t
  {
    if a == [] {
      assert a + t == t && (t != [] ==> [t[0]][0] == t[0]);
    } else {
      assert (a + t)[1..] == a[1..] + t;
      SpacesLeftBehind(a[1..], t);
    }
  }

  lemma {:induction false} SpacesRightBefore(t: seq<byte>, b: seq<byte>)
    requires White(b) && (t != [] ==> NoWhite([t[|t| - 1]]))
    ensures SpacesRight(t + b) == t
  {
    if b == [] {
      assert t + b == t && (t != [] ==> [t[|t| - 1]][0] == t[|t| - 1]);
    } else {
      assert (t + b)[..|t + b| - 1] == t + b[..|b| - 1];
      SpacesRightBefore(t, b[..|b| - 1]);
    }
  }

  lemma WrapsIs(s: seq<byte>, a: seq<byte>, m: seq<byte>, b: seq<byte>)
    requires Wraps(s, a, m, b)
    ensures SpacesRight(SpacesLeft(s)) == m
  {
    if m == [] {
      assert s == (a + b) + [];
      SpacesLeftBehind(a + b, []);
    } else {
      assert s == a + (m + b);
      SpacesLeftBehind(a, m + b);
      SpacesRightBefore(m, b);
    }
  }

  lemma WrapsSomething(s: seq<byte>) returns (a: seq<byte>, b: seq<byte>)
    ensures Wraps(s, a, SpacesRight(SpacesLeft(s)), b)
  {
    a := SpacesLeftSplits(s);
    b := SpacesRightSplits(SpacesLeft(s));
    assert s == a + (SpacesRight(SpacesLeft(s)) + b);
  }

  /** rpsiod_trim, by what a text is made of. */
  lemma TrimQuotedIff(s: seq<byte>, r: seq<byte>)
    ensures TrimQuoted(s) == r <==> exists a, m, b :: Wraps(s, a, m, b) && r == WithoutQuotes(m)
  {
    var a, b := WrapsSomething(s);
    QuotesIff(SpacesRight(SpacesLeft(s)));
    if a, m, b :| Wraps(s, a, m, b) && r == WithoutQuotes(m) {
      WrapsIs(s, a, m, b);
    }
  }

  lemma QuotesIff(m: seq<byte>)
    ensures WithoutQuotes(m) == if |m| >= 2 && m[0] == m[|m| - 1] && (m[0] == 34 || m[0] == 39) then m[1..|m| - 1] else m
  {
    assert '"' as int == 34 && '\'' as int == 39;
  }

  // ---------------------------------------------------------------- codings

  /** An item of a list, between commas or ends. */
  ghost predicate Slot(value: seq<byte>, pre: seq<byte>, item: seq<byte>, post: seq<byte>) {
    && value == pre + item + post && 44 !in item
    && (pre == [] || pre[|pre| - 1] == 44) && (post == [] || post[0] == 44)
  }

  /** Blanks, the coding, blanks, and parameters behind a semicolon. */
  ghost predicate Parts(item: seq<byte>, a: seq<byte>, t: seq<byte>, b: seq<byte>, params: seq<byte>) {
    && item == a + t + b + params && Blanks(a) && Blanks(b)
    && 59 !in t && (params == [] || params[0] == 59)
  }

  ghost predicate ListsCoding(value: seq<byte>, token: seq<byte>) {
    exists pre, item, post, a, t, b, params :: Slot(value, pre, item, post) && Parts(item, a, t, b, params) && EqualCi(t, token)
  }

  lemma PartsIs(item: seq<byte>, a: seq<byte>, t: seq<byte>, b: seq<byte>, params: seq<byte>)
    requires Parts(item, a, t, b, params) && Bare(t)
    ensures Trim(BeforeSemicolon(item)) == t
  {
    var m := a + t + b;
    assert 59 !in m;
    if params == [] {
      assert item == m;
    } else {
      assert item == m + [59] + params[1..];
      BehindFirst(item, 59, m, params[1..]);
    }
    TrimIs(a, t, b);
  }

  lemma ItemHasParts(item: seq<byte>) returns (a: seq<byte>, b: seq<byte>, params: seq<byte>)
    ensures Parts(item, a, Trim(BeforeSemicolon(item)), b, params)
  {
    var m := BeforeSemicolon(item);
    a, b := TrimSplits(m);
    params := BehindCoding(item, m);
    assert forall x :: x in Trim(m) ==> x in m;
  }

  lemma BehindCoding(item: seq<byte>, m: seq<byte>) returns (params: seq<byte>)
    requires m == BeforeSemicolon(item)
    ensures item == m + params && 59 !in m && (params == [] || params[0] == 59)
  {
    params := item[|m|..];
    assert item == m + params;
  }

  lemma ElementIsSlot(value: seq<byte>, i: nat, j: nat)
    requires IsElement(value, i, j)
    ensures Slot(value, value[..i], value[i..j], value[j..])
  {
    assert value == value[..i] + value[i..j] + value[j..];
    assert forall k :: 0 <= k < j - i ==> value[i..j][k] == value[i + k];
  }

  lemma SlotIsElement(value: seq<byte>, pre: seq<byte>, item: seq<byte>, post: seq<byte>)
    requires Slot(value, pre, item, post)
    ensures var i, j := |pre|, |pre| + |item|; IsElement(value, i, j) && value[i..j] == item
  {
    var i, j := |pre|, |pre| + |item|;
    SlotBytes(value, pre, item, post);
    forall k | i <= k < j ensures value[k] != 44 {
      assert value[k] == value[i..j][k - i] && item[k - i] in item;
    }
  }

  lemma SlotBytes(value: seq<byte>, pre: seq<byte>, item: seq<byte>, post: seq<byte>)
    requires value == pre + item + post
    ensures var i, j := |pre|, |pre| + |item|;
            j <= |value| && value[i..j] == item && (i > 0 ==> value[i - 1] == pre[i - 1]) && (j < |value| ==> value[j] == post[0])
  {
  }

  /** A list has a coding if and only if one of its elements is that, parameters aside. */
  lemma CodingIff(value: seq<byte>, token: seq<byte>)
    requires Bare(token)
    ensures HasCoding(value, token) <==> ListsCoding(value, token)
  {
    if HasCoding(value, token) {
      CodingIsListed(value, token);
    }
    if pre, item, post, a, t, b, params :| Slot(value, pre, item, post) && Parts(item, a, t, b, params) && EqualCi(t, token) {
      BareInAnyCase(t, token);
      PartsIs(item, a, t, b, params);
      SlotIsElement(value, pre, item, post);
    }
  }

  lemma CodingIsListed(value: seq<byte>, token: seq<byte>)
    requires HasCoding(value, token)
    ensures ListsCoding(value, token)
  {
    var i, j :| IsElement(value, i, j) && EqualCi(Trim(BeforeSemicolon(value[i..j])), token);
    var pre, item, post := value[..i], value[i..j], value[j..];
    ElementIsSlot(value, i, j);
    ItemIsListed(value, pre, item, post, token);
  }

  lemma ItemIsListed(value: seq<byte>, pre: seq<byte>, item: seq<byte>, post: seq<byte>, token: seq<byte>)
    requires Slot(value, pre, item, post) && EqualCi(Trim(BeforeSemicolon(item)), token)
    ensures ListsCoding(value, token)
  {
    var a, b, params := ItemHasParts(item);
    assert Parts(item, a, Trim(BeforeSemicolon(item)), b, params);
  }

  lemma BareInAnyCase(t: seq<byte>, token: seq<byte>)
    requires EqualCi(t, token) && Bare(token)
    ensures Bare(t)
  {
    EqualCiIff(t, token);
    if t != [] {
      assert SameLetter(t[0], token[0]) && SameLetter(t[|t| - 1], token[|t| - 1]);
    }
  }

  /** name ":" value, where the name is Transfer-Encoding and the value lists chunked, both trimmed. */
  ghost predicate NameAndValue(line: seq<byte>, name: seq<byte>, value: seq<byte>) {
    && line == name + [58] + value && 58 !in name
    && EqualCi(TrimQuoted(name), Ascii("Transfer-Encoding")) && ListsCoding(TrimQuoted(value), Ascii("chunked"))
  }

  ghost predicate CodingLine(line: seq<byte>) {
    exists name, value :: NameAndValue(line, name, value)
  }

  lemma ChunkedIff(value: seq<byte>)
    ensures HasCoding(value, Ascii("chunked")) <==> ListsCoding(value, Ascii("chunked"))
  {
    assert Bare(Ascii("chunked"));
    CodingIff(value, Ascii("chunked"));
  }

  lemma NamedParts(line: seq<byte>) returns (name: seq<byte>, value: seq<byte>)
    requires NamesChunked(line)
    ensures line == name + [58] + value && 58 !in name
    ensures EqualCi(TrimQuoted(name), Ascii("Transfer-Encoding")) && HasCoding(TrimQuoted(value), Ascii("chunked"))
  {
    var colon := FindByte(line, COLON).value;
    name, value := line[..colon], line[colon + 1..];
    CutAround(line, colon);
  }

  lemma CutAround(s: seq<byte>, n: nat)
    requires n < |s|
    ensures s == s[..n] + [s[n]] + s[n + 1..]
  {
  }

  lemma NamedIsCoding(line: seq<byte>)
    requires NamesChunked(line)
    ensures CodingLine(line)
  {
    var name, value := NamedParts(line);
    ChunkedIff(TrimQuoted(value));
    assert NameAndValue(line, name, value);
  }

  lemma CodingIsNamed(line: seq<byte>, name: seq<byte>, value: seq<byte>)
    requires NameAndValue(line, name, value)
    ensures NamesChunked(line)
  {
    BehindFirst(line, 58, name, value);
    ChunkedIff(TrimQuoted(value));
  }

  /** The exact meaning of a line that names the chunked coding. */
  lemma CodingLineIff(line: seq<byte>)
    ensures NamesChunked(line) <==> CodingLine(line)
  {
    if NamesChunked(line) {
      NamedIsCoding(line);
    }
    if name, value :| NameAndValue(line, name, value) {
      CodingIsNamed(line, name, value);
    }
  }

  // ---------------------------------------------------------------- lines

  predicate Breaking(b: byte) {
    b == 13 || b == 10
  }

  /** `t` stands at `i`: a run of bytes without line breaks and NUL, as long as can be, with no NUL before it. */
  ghost predicate RunAt(s: seq<byte>, t: seq<byte>, i: int) {
    && 0 <= i && t != [] && i + |t| <= |s| && s[i..i + |t|] == t
    && (forall k :: 0 <= k < |t| ==> !Breaking(t[k]) && t[k] != 0) && (forall k :: 0 <= k < i ==> s[k] != 0)
    && (i == 0 || Breaking(s[i - 1])) && (i + |t| == |s| || Breaking(s[i + |t|]) || s[i + |t|] == 0)
  }

  /** There is nothing but line breaks before it. */
  ghost predicate Leads(s: seq<byte>, i: int)
    requires 0 <= i <= |s|
  {
    forall k :: 0 <= k < i ==> Breaking(s[k])
  }

  lemma {:induction false} LinesIff(s: seq<byte>, p: nat, t: seq<byte>)
    requires p <= |s| && (p == 0 || p == |s| || Breaking(s[p])) && forall k :: 0 <= k < |s| ==> s[k] != 0
    ensures t in LinesFrom(s, p) <==> exists i :: p <= i && RunAt(s, t, i)
    decreases |s| - p
  {
    var from := SkipBreaks(s, p);
    if from == |s| {
      NoRuns(s, p, t);
    } else {
      var end := LineEnd(s, from);
      LinesIff(s, end, t);
      FirstRun(s, p, from, end);
      RunsAfter(s, p, from, end, t);
    }
  }

  lemma RunStarts(s: seq<byte>, t: seq<byte>, i: int)
    ensures RunAt(s, t, i) ==> i < |s| && !Breaking(s[i])
  {
    if RunAt(s, t, i) {
      assert s[i] == s[i..i + |t|][0];
    }
  }

  lemma NoRuns(s: seq<byte>, p: nat, t: seq<byte>)
    requires p <= |s| && forall k :: p <= k < |s| ==> Breaking(s[k])
    ensures forall i :: p <= i ==> !RunAt(s, t, i)
  {
    forall i | p <= i ensures !RunAt(s, t, i) {
      RunStarts(s, t, i);
    }
  }

  lemma FirstRun(s: seq<byte>, p: nat, from: nat, end: nat)
    requires p <= |s| && (p == 0 || p == |s| || Breaking(s[p])) && forall k :: 0 <= k < |s| ==> s[k] != 0
    requires from == SkipBreaks(s, p) < |s| && end == LineEnd(s, from)
    ensures from < end && RunAt(s, s[from..end], from)
  {
  }

  lemma RunsAfter(s: seq<byte>, p: nat, from: nat, end: nat, t: seq<byte>)
    requires p <= |s| && (p == 0 || p == |s| || Breaking(s[p])) && forall k :: 0 <= k < |s| ==> s[k] != 0
    requires from == SkipBreaks(s, p) < |s| && end == LineEnd(s, from)
    ensures forall i :: p <= i && RunAt(s, t, i) ==> (i == from && t == s[from..end]) || end <= i
  {
    forall i | p <= i && RunAt(s, t, i) ensures (i == from && t == s[from..end]) || end <= i {
      assert s[i] == s[i..i + |t|][0];
      if i < end {
        RunIsMaximal(s, from, end, t, i);
      }
    }
  }

  lemma RunIsMaximal(s: seq<byte>, from: nat, end: nat, t: seq<byte>, i: nat)
    requires from <= i < end <= |s| && RunAt(s, t, i) && (forall k :: from <= k < end ==> !Breaking(s[k])) && (end < |s| ==> Breaking(s[end]))
    requires (from == 0 || Breaking(s[from - 1])) && forall k :: 0 <= k < |s| ==> s[k] != 0
    ensures i == from && t == s[from..end]
  {
    assert forall k :: i <= k < i + |t| ==> s[k] == t[k - i];
  }

  lemma FirstLine(s: seq<byte>, t: seq<byte>)
    requires forall k :: 0 <= k < |s| ==> s[k] != 0
    ensures (LinesFrom(s, 0) != [] && LinesFrom(s, 0)[0] == t) <==> exists i :: RunAt(s, t, i) && Leads(s, i)
  {
    var from := SkipBreaks(s, 0);
    if from < |s| {
      var end := LineEnd(s, from);
      FirstRun(s, 0, from, end);
      RunsAfter(s, 0, from, end, t);
      assert Leads(s, from) && forall i :: end <= i <= |s| ==> !Leads(s, i) by {
        assert !Breaking(s[from]);
      }
    } else {
      NoRuns(s, 0, t);
    }
  }

  lemma LaterLines(s: seq<byte>, t: seq<byte>)
    requires LinesFrom(s, 0) != [] && forall k :: 0 <= k < |s| ==> s[k] != 0
    ensures t in LinesFrom(s, 0)[1..] <==> exists i :: RunAt(s, t, i) && !Leads(s, i)
  {
    var from := SkipBreaks(s, 0);
    var end := LineEnd(s, from);
    FirstRun(s, 0, from, end);
    RunsAfter(s, 0, from, end, t);
    LinesIff(s, end, t);
    assert LinesFrom(s, 0)[1..] == LinesFrom(s, end);
    assert Leads(s, from) && forall i :: end <= i <= |s| ==> !Leads(s, i) by {
      assert !Breaking(s[from]);
    }
  }

  /** A NUL ends the text. */
  lemma RunsOfCString(head: seq<byte>, t: seq<byte>, i: int)
    ensures RunAt(CString(head), t, i) <==> RunAt(head, t, i)
    ensures RunAt(head, t, i) ==> (Leads(CString(head), i) <==> Leads(head, i))
  {
    var nul := FindByte(head, 0);
    var s := CString(head);
    if 0 <= i && i + |t| <= |s| {
      assert s[i..i + |t|] == head[i..i + |t|];
    }
    if nul.Some? && RunAt(head, t, i) {
      assert forall k :: i <= k < i + |t| ==> head[k] == t[k - i];
      assert i + |t| <= nul.value;
    }
  }

  /** The first line of a head, behind any line breaks. */
  ghost predicate FirstOf(head: seq<byte>, t: seq<byte>) {
    exists i :: RunAt(head, t, i) && Leads(head, i)
  }

  /** A later line. */
  ghost predicate LaterOf(head: seq<byte>, t: seq<byte>) {
    exists i :: RunAt(head, t, i) && !Leads(head, i)
  }

  lemma CStringHasNoNul(head: seq<byte>)
    ensures forall k :: 0 <= k < |CString(head)| ==> CString(head)[k] != 0
  {
  }

  lemma FirstOfCString(head: seq<byte>, t: seq<byte>)
    ensures FirstOf(CString(head), t) <==> FirstOf(head, t)
    ensures LaterOf(CString(head), t) <==> LaterOf(head, t)
  {
    forall i ensures RunAt(CString(head), t, i) <==> RunAt(head, t, i) {
      RunsOfCString(head, t, i);
    }
    forall i | RunAt(head, t, i) ensures Leads(CString(head), i) <==> Leads(head, i) {
      RunsOfCString(head, t, i);
    }
  }

  /** The exact meaning of a head: readable by its first line, and chunked by its later ones. */
  lemma HeadIff(head: seq<byte>)
    ensures ReadHead(head).Some? <==> exists t :: FirstOf(head, t) && StatusLine(t)
    ensures ReadHead(head).Some? ==> (ReadHead(head).value <==> exists t :: LaterOf(head, t) && CodingLine(t))
  {
    var s := CString(head);
    var lines := LinesFrom(s, 0);
    CStringHasNoNul(head);
    forall t ensures (lines != [] && lines[0] == t) <==> FirstOf(head, t) {
      FirstLine(s, t);
      FirstOfCString(head, t);
    }
    if lines != [] {
      StatusIff(lines[0]);
      forall t ensures t in lines[1..] <==> LaterOf(head, t) {
        LaterLines(s, t);
        FirstOfCString(head, t);
      }
      forall t ensures NamesChunked(t) <==> CodingLine(t) {
        CodingLineIff(t);
      }
      AnyIff(lines[1..]);
    }
    forall t ensures StatusReadable(t) <==> StatusLine(t) {
      StatusIff(t);
    }
  }

  lemma AnyIff(lines: seq<seq<byte>>)
    ensures AnyNames(lines) <==> exists t :: t in lines && NamesChunked(t)
  {
    if t :| t in lines && NamesChunked(t) {
      var k :| 0 <= k < |lines| && lines[k] == t;
    }
  }

  // ---------------------------------------------------------------- the whole response

  /** The head ends with the first empty line, and its first line is a status line. */
  ghost predicate HasHead(raw: seq<byte>, n: nat) {
    Find(raw, CRLFCRLF) == Some(n) && exists t :: FirstOf(raw[..n], t) && StatusLine(t)
  }

  ghost predicate IsChunkedHead(head: seq<byte>) {
    exists t :: LaterOf(head, t) && CodingLine(t)
  }

  lemma HeadIs(head: seq<byte>)
    requires exists t :: FirstOf(head, t) && StatusLine(t)
    ensures ReadHead(head) == Some(IsChunkedHead(head))
  {
    HeadIff(head);
  }

  lemma ParsedBy(raw: seq<byte>, n: nat, chunked: bool, body: Option<seq<byte>>)
    requires Find(raw, CRLFCRLF) == Some(n) && ReadHead(raw[..n]) == Some(chunked)
    ensures IsParsed(raw, body) <==> if chunked then IsDecoding(raw[n + 4..], body) else body == Some(raw[n + 4..])
  {
  }

  /** The exact meaning of a parsed response: refused without such a head, and otherwise told by what follows it. */
  lemma ParsedIff(raw: seq<byte>, n: nat, body: Option<seq<byte>>)
    requires HasHead(raw, n)
    ensures IsParsed(raw, body) <==>
            if IsChunkedHead(raw[..n]) then IsDecoding(raw[n + 4..], body) else body == Some(raw[n + 4..])
  {
    HeadIs(raw[..n]);
    ParsedBy(raw, n, IsChunkedHead(raw[..n]), body);
  }

  lemma HeadlessIsRefused(raw: seq<byte>, body: Option<seq<byte>>)
    requires forall n: nat :: !HasHead(raw, n)
    ensures IsParsed(raw, body) <==> body == None
  {
    var f := Find(raw, CRLFCRLF);
    if f.Some? {
      HeadIff(raw[..f.value]);
      assert !HasHead(raw, f.value);
    }
  }
}
