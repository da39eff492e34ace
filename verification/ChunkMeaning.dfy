/** What a size line and a trailer section are, by their text. */
module ChunkMeaning {
  import opened Bytes
  import opened ChunkSize
  import opened ChunkGrammar
  import opened Text

  // ---------------------------------------------------------------- size lines

  predicate HexText(s: seq<byte>) {
    s != [] && forall x :: 0 <= x < |s| ==> s[x] as char in "0123456789abcdefABCDEF"
  }

  /** Blanks, digits of this value, blanks, and nothing else or an extension behind a semicolon. */
  ghost predicate Sized(line: seq<byte>, i: nat, j: nat, k: nat) {
    && i < j <= k <= |line| && Blanks(line[..i]) && HexText(line[i..j]) && Blanks(line[j..k])
    && (k < |line| ==> line[k] as char == ';')
  }

  lemma HexTextIff(b: byte)
    ensures IsHex(b) <==> b as char in "0123456789abcdefABCDEF"
  {
    var t := "0123456789abcdefABCDEF";
    if 48 <= b <= 57 {
      assert t[b - 48] == b as char;
    } else if 97 <= b <= 102 {
      assert t[10 + b - 97] == b as char;
    } else if 65 <= b <= 70 {
      assert t[16 + b - 65] == b as char;
    }
  }

  lemma SizedIff(line: seq<byte>, i: nat, j: nat, k: nat)
    ensures SizeLine(line, i, j, k) <==> Sized(line, i, j, k)
  {
    if i < j <= k <= |line| {
      forall x | i <= x < j ensures IsHex(line[x]) <==> line[i..j][x - i] as char in "0123456789abcdefABCDEF" {
        HexTextIff(line[x]);
      }
      assert ';' as int == 59;
      assert forall x :: 0 <= x < i ==> line[x] == line[..i][x];
      assert forall x :: j <= x < k ==> line[x] == line[j..k][x - j];
    }
  }

  /** A line gives a size if and only if it is made so, and the size is at most 64 MiB. */
  lemma SizeIff(line: seq<byte>, n: nat)
    ensures ParseSize(line) == Some(n) <==>
            n <= 67108864 && exists i: nat, j: nat, k: nat :: Sized(line, i, j, k) && HexValue(line[i..j]) == n
  {
    forall i: nat, j: nat, k: nat ensures SizeLine(line, i, j, k) <==> Sized(line, i, j, k) {
      SizedIff(line, i, j, k);
    }
    if i: nat, j: nat, k: nat :| Sized(line, i, j, k) && HexValue(line[i..j]) == n {
      SizeIs(line, i, j, k);
    }
  }

  // ---------------------------------------------------------------- trailer sections

  /** A trailer section is complete if and only if it starts with a line break, or an empty line is somewhere in it. */
  lemma {:induction false} TrailersIff(s: seq<byte>)
    ensures HasTrailers(s) <==> OccursAt(s, CRLF, 0) || Find(s, CRLFCRLF).Some?
    decreases |s|
  {
    TrailerStep(s);
    match Find(s, CRLF)
    case None => NoEmptyLine(s);
    case Some(n) =>
      TrailersIff(s[n + 2..]);
      EmptyLineBehind(s, n);
  }

  lemma NoEmptyLine(s: seq<byte>)
    requires Find(s, CRLF).None?
    ensures Find(s, CRLFCRLF).None?
  {
    if i: nat :| OccursAt(s, CRLFCRLF, i) {
      TwoBreaks(s, i);
    }
  }

  lemma TwoBreaks(s: seq<byte>, i: nat)
    requires OccursAt(s, CRLFCRLF, i)
    ensures OccursAt(s, CRLF, i) && OccursAt(s, CRLF, i + 2)
  {
    assert s[i..i + 2] == s[i..i + 4][..2] && s[i + 2..i + 4] == s[i..i + 4][2..];
    assert CRLFCRLF[..2] == CRLF && CRLFCRLF[2..] == CRLF;
  }

  /** Behind the first line break the section goes on. */
  lemma EmptyLineBehind(s: seq<byte>, n: nat)
    requires FirstAt(s, CRLF, n)
    ensures n > 0 ==> (Find(s, CRLFCRLF).Some? <==> OccursAt(s[n + 2..], CRLF, 0) || Find(s[n + 2..], CRLFCRLF).Some?)
  {
    var rest := s[n + 2..];
    if OccursAt(rest, CRLF, 0) {
      assert s[n..n + 4] == s[n..n + 2] + rest[..2] && rest[0..2] == rest[..2];
      assert OccursAt(s, CRLFCRLF, n);
    }
    if i: nat :| OccursAt(rest, CRLFCRLF, i) {
      assert s[n + 2 + i..n + 2 + i + 4] == rest[i..i + 4];
      assert OccursAt(s, CRLFCRLF, n + 2 + i);
    }
    if i: nat :| OccursAt(s, CRLFCRLF, i) {
      EmptyLineAt(s, n, rest, i);
    }
  }

  lemma EmptyLineAt(s: seq<byte>, n: nat, rest: seq<byte>, i: nat)
    requires FirstAt(s, CRLF, n) && rest == s[n + 2..] && OccursAt(s, CRLFCRLF, i)
    ensures OccursAt(rest, CRLF, 0) || OccursAt(rest, CRLFCRLF, i - n - 2)
  {
    TwoBreaks(s, i);
    assert n <= i;
    if i == n {
      assert rest[0..2] == s[n + 2..n + 4];
    } else {
      assert s[n + 1] == s[n..n + 2][1] && s[i] == s[i..i + 2][0];
      assert rest[i - n - 2..i - n + 2] == s[i..i + 4];
    }
  }
}
