/** What the small text functions of the C library stand for, each stated by the pieces a text is made of. */
module Text {
  import opened Bytes
  import opened ByteRange

  // ---------------------------------------------------------------- case

  /** The same byte, or the two cases of one letter. */
  predicate SameLetter(a: byte, b: byte) {
    a == b || (65 <= a <= 90 && b == a + 32) || (65 <= b <= 90 && a == b + 32)
  }

  lemma EqualCiIff(a: seq<byte>, b: seq<byte>)
    ensures EqualCi(a, b) <==> |a| == |b| && forall i :: 0 <= i < |a| ==> SameLetter(a[i], b[i])
  {
    if EqualCi(a, b) {
      forall i | 0 <= i < |a| ensures SameLetter(a[i], b[i]) {
        assert LowerAll(a)[i] == LowerAll(b)[i];
      }
    }
    if |a| == |b| && forall i :: 0 <= i < |a| ==> SameLetter(a[i], b[i]) {
      forall i | 0 <= i < |a| ensures LowerAll(a)[i] == LowerAll(b)[i] {
        assert SameLetter(a[i], b[i]);
      }
    }
  }

  // ---------------------------------------------------------------- blanks

  /** Spaces and tabs only. */
  predicate Blanks(s: seq<byte>) {
    forall i :: 0 <= i < |s| ==> s[i] == 32 || s[i] == 9
  }

  /** Neither end is a blank. */
  predicate Bare(s: seq<byte>) {
    s != [] ==> s[0] != 32 && s[0] != 9 && s[|s| - 1] != 32 && s[|s| - 1] != 9
  }

  lemma {:induction false} TrimLeftSplits(s: seq<byte>) returns (a: seq<byte>)
    ensures s == a + TrimLeft(s) && Blanks(a) && (TrimLeft(s) != [] ==> !Blanks(TrimLeft(s)[..1]))
  {
    if s != [] && (s[0] == 32 || s[0] == 9) {
      var a' := TrimLeftSplits(s[1..]);
      a := [s[0]] + a';
    } else {
      a := [];
      assert s == [] || s[..1] == [s[0]];
    }
  }

  lemma {:induction false} TrimRightSplits(s: seq<byte>) returns (b: seq<byte>)
    ensures s == TrimRight(s) + b && Blanks(b)
    ensures TrimRight(s) != [] ==> !Blanks(TrimRight(s)[|TrimRight(s)| - 1..]) && TrimRight(s)[0] == s[0]
  {
    if s != [] && (s[|s| - 1] == 32 || s[|s| - 1] == 9) {
      var front, last := s[..|s| - 1], s[|s| - 1];
      var b' := TrimRightSplits(front);
      b := b' + [last];
      assert s == front + [last] && TrimRight(s) == TrimRight(front);
    } else {
      b := [];
      assert s == [] || s[|s| - 1..] == [s[|s| - 1]];
    }
  }

  /** Trimming leaves what stands between the blanks, and nothing else is left by it. */
  lemma TrimSplits(s: seq<byte>) returns (a: seq<byte>, b: seq<byte>)
    ensures s == a + Trim(s) + b && Blanks(a) && Blanks(b) && Bare(Trim(s))
  {
    a := TrimLeftSplits(s);
    b := TrimRightSplits(TrimLeft(s));
    var t := Trim(s);
    assert s == a + (t + b) == a + t + b;
    if t != [] {
      assert t[0] == TrimLeft(s)[0] && TrimLeft(s)[..1] == [t[0]] && t[|t| - 1..] == [t[|t| - 1]];
    }
  }

  lemma {:induction false} TrimLeftBehind(a: seq<byte>, t: seq<byte>)
    requires Blanks(a) && (t != [] ==> t[0] != 32 && t[0] != 9)
    ensures TrimLeft(a + t) == t
  {
    if a == [] {
      assert a + t == t;
    } else {
      assert (a + t)[1..] == a[1..] + t;
      TrimLeftBehind(a[1..], t);
    }
  }

  lemma {:induction false} TrimRightBefore(t: seq<byte>, b: seq<byte>)
    requires Blanks(b) && (t != [] ==> t[|t| - 1] != 32 && t[|t| - 1] != 9)
    ensures TrimRight(t + b) == t
  {
    if b == [] {
      assert t + b == t;
    } else {
      assert (t + b)[..|t + b| - 1] == t + b[..|b| - 1];
      TrimRightBefore(t, b[..|b| - 1]);
    }
  }

  lemma TrimIs(a: seq<byte>, t: seq<byte>, b: seq<byte>)
    requires Blanks(a) && Blanks(b) && Bare(t)
    ensures Trim(a + t + b) == t
  {
    if t == [] {
      assert a + t + b == a + b + [];
      TrimLeftBehind(a + b, []);
    } else {
      assert a + t + b == a + (t + b);
      TrimLeftBehind(a, t + b);
      TrimRightBefore(t, b);
    }
  }

  /** The exact meaning: `t` is what is left between blanks. */
  lemma TrimIff(s: seq<byte>, t: seq<byte>)
    ensures Trim(s) == t <==> Bare(t) && exists a, b :: Blanks(a) && Blanks(b) && s == a + t + b
  {
    if Trim(s) == t {
      var a, b := TrimSplits(s);
      assert Blanks(a) && Blanks(b) && s == a + t + b;
    }
    if Bare(t) && exists a, b :: Blanks(a) && Blanks(b) && s == a + t + b {
      var a, b :| Blanks(a) && Blanks(b) && s == a + t + b;
      TrimIs(a, t, b);
    }
  }

  // ---------------------------------------------------------------- white space and numbers

  /** The bytes isspace takes for white space. */
  predicate White(s: seq<byte>) {
    forall i :: 0 <= i < |s| ==> s[i] == 32 || 9 <= s[i] <= 13
  }

  predicate NoWhite(s: seq<byte>) {
    forall i :: 0 <= i < |s| ==> s[i] != 32 && !(9 <= s[i] <= 13)
  }

  lemma {:induction false} SkipSpacesStops(s: seq<byte>, i: nat)
    requires i <= |s|
    ensures var j := SkipSpaces(s, i); White(s[i..j]) && (j < |s| ==> NoWhite([s[j]]))
    decreases |s| - i
  {
    if i < |s| && (s[i] == 32 || 9 <= s[i] <= 13) {
      SkipSpacesStops(s, i + 1);
      assert s[i..SkipSpaces(s, i)] == [s[i]] + s[i + 1..SkipSpaces(s, i)];
    }
  }

  lemma {:induction false} SkipSpacesIs(s: seq<byte>, i: nat, j: nat)
    requires i <= j <= |s| && White(s[i..j]) && (j < |s| ==> NoWhite([s[j]]))
    ensures SkipSpaces(s, i) == j
    decreases |s| - i
  {
    if i < j {
      assert s[i] == s[i..j][0] && s[i + 1..j] == s[i..j][1..];
      SkipSpacesIs(s, i + 1, j);
    } else if j < |s| {
      assert [s[j]][0] == s[j];
    }
  }

  lemma {:induction false} SkipDigitsStops(s: seq<byte>, i: nat)
    requires i <= |s|
    ensures var j := SkipDigits(s, i); AllDigits(s[i..j]) && (j < |s| ==> !(48 <= s[j] <= 57))
    decreases |s| - i
  {
    if i < |s| && 48 <= s[i] <= 57 {
      SkipDigitsStops(s, i + 1);
      assert s[i..SkipDigits(s, i)] == [s[i]] + s[i + 1..SkipDigits(s, i)];
    }
  }

  lemma AllDigitsIff(s: seq<byte>)
    ensures AllDigits(s) <==> forall i :: 0 <= i < |s| ==> s[i] in Ascii("0123456789")
  {
    var all := Ascii("0123456789");
    assert |all| == 10 && forall d :: 0 <= d < 10 ==> all[d] == 48 + d;
    forall i | 0 <= i < |s| ensures IsDigit(s[i]) <==> s[i] in all {
      if IsDigit(s[i]) {
        assert all[s[i] - 48] == s[i];
      }
    }
  }

  /** White space, a sign, digits, and what is no digit: what strtoull reads a number from. */
  ghost predicate IsNumber(s: seq<byte>, w: seq<byte>, sign: seq<byte>, d: seq<byte>, rest: seq<byte>) {
    && s == w + sign + d + rest && White(w) && (sign == [] || sign == [43] || sign == [45])
    && d != [] && AllDigits(d) && (rest != [] ==> !(48 <= rest[0] <= 57))
  }

  /** The value of such a number: saturated at 64 bits, or taken modulo 2^64 behind a minus sign. */
  function ValueOf(sign: seq<byte>, d: seq<byte>): nat {
    var v := Decimal(d);
    if v > 0xFFFF_FFFF_FFFF_FFFF then 0xFFFF_FFFF_FFFF_FFFF
    else if sign == [45] && v > 0 then 0x1_0000_0000_0000_0000 - v
    else v
  }

  lemma NumberParts(s: seq<byte>, w: seq<byte>, sign: seq<byte>, d: seq<byte>, rest: seq<byte>)
    requires IsNumber(s, w, sign, d, rest)
    ensures var i, from := |w|, |w| + |sign|;
            var to := from + |d|;
            && to <= |s| && s[..i] == w && s[from..to] == d && (sign == [] ==> 48 <= s[i] <= 57) && (sign != [] ==> s[i] == sign[0])
            && (to < |s| ==> !(48 <= s[to] <= 57))
  {
    var i, from := |w|, |w| + |sign|;
    assert s[..i] == w && s[from..from + |d|] == d;
    assert d[0] == s[from];
    if rest != [] {
      assert s[from + |d|] == rest[0];
    }
    if sign != [] {
      assert s[i] == sign[0];
    }
  }

  lemma {:induction false} SkipDigitsIs(s: seq<byte>, i: nat, j: nat)
    requires i <= j <= |s| && AllDigits(s[i..j]) && (j < |s| ==> !(48 <= s[j] <= 57))
    ensures SkipDigits(s, i) == j
    decreases j - i
  {
    if i < j {
      assert s[i] == s[i..j][0] && s[i + 1..j] == s[i..j][1..];
      SkipDigitsIs(s, i + 1, j);
    }
  }

  /** A text that starts with a number: its value, and where it ends. */
  lemma NumberIsRead(s: seq<byte>, w: seq<byte>, sign: seq<byte>, d: seq<byte>, rest: seq<byte>)
    requires IsNumber(s, w, sign, d, rest)
    ensures StrToULL(s) == Number(ValueOf(sign, d), |w| + |sign| + |d|)
  {
    var i, from := |w|, |w| + |sign|;
    NumberParts(s, w, sign, d, rest);
    assert s[0..i] == w;
    SkipSpacesIs(s, 0, i);
    SkipDigitsIs(s, from, from + |d|);
  }

  /** Any other text is none. */
  lemma NumberIsThere(s: seq<byte>) returns (w: seq<byte>, sign: seq<byte>, d: seq<byte>, rest: seq<byte>)
    requires StrToULL(s).used != 0
    ensures IsNumber(s, w, sign, d, rest)
  {
    var i := SkipSpaces(s, 0);
    var signed := i < |s| && (s[i] == 43 || s[i] == 45);
    var from := if signed then i + 1 else i;
    var to := SkipDigits(s, from);
    SkipSpacesStops(s, 0);
    SkipDigitsStops(s, from);
    w, sign, d, rest := s[0..i], s[i..from], s[from..to], s[to..];
    CutInFour(s, i, from, to);
    assert signed ==> sign == [s[i]];
  }

  lemma CutInFour(s: seq<byte>, i: nat, j: nat, k: nat)
    requires i <= j <= k <= |s|
    ensures s == s[0..i] + s[i..j] + s[j..k] + s[k..]
  {
  }

  /** The whole text is a number of this value. */
  ghost predicate Whole(s: seq<byte>, n: nat) {
    exists w, sign, d :: IsNumber(s, w, sign, d, []) && n == ValueOf(sign, d)
  }

  lemma WholeIff(s: seq<byte>, n: nat)
    ensures s != [] && StrToULL(s) == Number(n, |s|) <==> Whole(s, n)
  {
    if s != [] && StrToULL(s) == Number(n, |s|) {
      var w, sign, d, rest := NumberIsThere(s);
      NumberIsRead(s, w, sign, d, rest);
      assert |s| == |w| + |sign| + |d| + |rest|;
      assert rest == [];
    }
    if Whole(s, n) {
      var w, sign, d :| IsNumber(s, w, sign, d, []) && n == ValueOf(sign, d);
      NumberIsRead(s, w, sign, d, []);
    }
  }

  // ---------------------------------------------------------------- range headers

  /** A number and a dash right behind it. */
  lemma NumberThenDash(t: seq<byte>, tail: seq<byte>, n: nat)
    requires t != []
    ensures StrToULL(t + [45] + tail) == Number(n, |t|) <==> Whole(t, n)
  {
    if StrToULL(t + [45] + tail) == Number(n, |t|) {
      NumberUpToDash(t, tail, n);
    }
    if w, sign, d :| IsNumber(t, w, sign, d, []) && n == ValueOf(sign, d) {
      DashEndsNumber(t, tail, w, sign, d);
      NumberIsRead(t + [45] + tail, w, sign, d, [45] + tail);
    }
  }

  lemma DashEndsNumber(t: seq<byte>, tail: seq<byte>, w: seq<byte>, sign: seq<byte>, d: seq<byte>)
    requires IsNumber(t, w, sign, d, [])
    ensures IsNumber(t + [45] + tail, w, sign, d, [45] + tail)
  {
    assert t == w + sign + d;
    assert t + [45] + tail == t + ([45] + tail);
  }

  lemma NumberUpToDash(t: seq<byte>, tail: seq<byte>, n: nat)
    requires t != [] && StrToULL(t + [45] + tail) == Number(n, |t|)
    ensures Whole(t, n)
  {
    var s := t + [45] + tail;
    var w, sign, d, rest := NumberIsThere(s);
    NumberIsRead(s, w, sign, d, rest);
    SameStart(s, t, [45] + tail, w + sign + d, rest);
    assert t == w + sign + d + [];
    assert IsNumber(t, w, sign, d, []);
  }

  lemma SameStart(s: seq<byte>, a: seq<byte>, a': seq<byte>, b: seq<byte>, b': seq<byte>)
    requires s == a + a' && s == b + b' && |a| == |b|
    ensures a == b
  {
    assert a == s[..|a|] == b;
  }

  /** What a single Range header asks for, by its text. */
  ghost predicate AsksFor(value: seq<byte>, spec: RangeSpec) {
    match spec
    case Suffix(n) => n != 0 && exists t :: value == Ascii("bytes=-") + t && 44 !in t && Whole(t, n)
    case From(a) => exists t :: value == Ascii("bytes=") + t + [45] && 44 !in t && 45 !in t && Whole(t, a)
    case FromTo(a, b) =>
      a <= b && exists t, u :: value == Ascii("bytes=") + t + [45] + u && 44 !in t && 45 !in t && 44 !in u && Whole(t, a) && Whole(u, b)
  }

  const BYTES: seq<byte> := Ascii("bytes=")

  lemma PrefixIs(value: seq<byte>, spec: seq<byte>)
    ensures value == BYTES + spec <==> BYTES <= value && value[6..] == spec
  {
    assert |BYTES| == 6;
    if BYTES <= value {
      assert value == value[..6] + value[6..];
    }
  }

  lemma DashAt(t: seq<byte>, u: seq<byte>)
    requires 45 !in t
    ensures var spec := t + [45] + u;
            FindByte(spec, DASH) == Some(|t|) && spec[..|t|] == t && spec[|t| + 1..] == u && (COMMA in spec <==> 44 in t || 44 in u)
  {
    var spec := t + [45] + u;
    assert spec[|t|] == DASH && spec[..|t|] == t && spec[|t| + 1..] == u;
    assert forall k :: 0 <= k < |t| ==> spec[k] == t[k] && t[k] in t;
  }

  /** What stands in front of the first dash and behind it. */
  lemma SpecCut(spec: seq<byte>) returns (t: seq<byte>, u: seq<byte>)
    requires FindByte(spec, DASH).Some?
    ensures spec == t + [45] + u && 45 !in t && |t| == FindByte(spec, DASH).value && u == spec[|t| + 1..]
  {
    var n := FindByte(spec, DASH).value;
    t, u := spec[..n], spec[n + 1..];
    assert spec == t + [45] + u;
  }

  lemma SpecAt(value: seq<byte>, t: seq<byte>, u: seq<byte>)
    requires value == BYTES + (t + [45] + u) && 45 !in t
    ensures ParseRangeSpec(value) ==
            if 44 in t || 44 in u then None
            else if t == [] then SuffixSpec(u)
            else IntSpec(StrToULL(t + [45] + u), |t|, u)
  {
    PrefixIs(value, t + [45] + u);
    DashAt(t, u);
  }

  lemma SuffixIff(u: seq<byte>, n: nat)
    ensures SuffixSpec(u) == Some(Suffix(n)) <==> n != 0 && Whole(u, n)
  {
    WholeIff(u, n);
  }

  lemma FromIff(t: seq<byte>, u: seq<byte>, a: nat)
    requires t != []
    ensures IntSpec(StrToULL(t + [45] + u), |t|, u) == Some(From(a)) <==> u == [] && Whole(t, a)
  {
    NumberThenDash(t, u, a);
  }

  lemma FromToIff(t: seq<byte>, u: seq<byte>, a: nat, b: nat)
    requires t != []
    ensures IntSpec(StrToULL(t + [45] + u), |t|, u) == Some(FromTo(a, b)) <==> a <= b && Whole(t, a) && Whole(u, b)
  {
    NumberThenDash(t, u, a);
    WholeIff(u, b);
  }

  lemma Regroup(t: seq<byte>, u: seq<byte>)
    ensures Ascii("bytes=-") + u == BYTES + ([] + [45] + u)
    ensures BYTES + t + [45] == BYTES + (t + [45] + [])
    ensures BYTES + t + [45] + u == BYTES + (t + [45] + u)
  {
    var a := Ascii("bytes=-");
    assert |a| == 7 && a == BYTES + [45];
  }

  /** A text asks for this range if and only if it is read so. */
  lemma SpecIff(value: seq<byte>, spec: RangeSpec)
    ensures ParseRangeSpec(value) == Some(spec) <==> AsksFor(value, spec)
  {
    if ParseRangeSpec(value) == Some(spec) {
      ReadSpecIsAsked(value, spec);
    }
    if AsksFor(value, spec) {
      AskedIsRead(value, spec);
    }
  }

  lemma ReadSpecIsAsked(value: seq<byte>, spec: RangeSpec)
    requires ParseRangeSpec(value) == Some(spec)
    ensures AsksFor(value, spec)
  {
    PrefixIs(value, value[6..]);
    var t, u := SpecCut(value[6..]);
    SpecAt(value, t, u);
    Regroup(t, u);
    match spec
    case Suffix(n) => SuffixIff(u, n);
    case From(a) =>
      if t != [] {
        FromIff(t, u, a);
      }
    case FromTo(a, b) =>
      if t != [] {
        FromToIff(t, u, a, b);
      }
  }

  lemma AskedIsRead(value: seq<byte>, spec: RangeSpec)
    requires AsksFor(value, spec)
    ensures ParseRangeSpec(value) == Some(spec)
  {
    match spec
    case Suffix(n) =>
      var u :| value == Ascii("bytes=-") + u && 44 !in u && Whole(u, n);
      Regroup([], u);
      SpecAt(value, [], u);
      SuffixIff(u, n);
    case From(a) =>
      var t :| value == Ascii("bytes=") + t + [45] && 44 !in t && 45 !in t && Whole(t, a);
      Regroup(t, []);
      SpecAt(value, t, []);
      FromIff(t, [], a);
    case FromTo(a, b) =>
      var t, u :| value == Ascii("bytes=") + t + [45] + u && 44 !in t && 45 !in t && 44 !in u && Whole(t, a) && Whole(u, b);
      Regroup(t, u);
      SpecAt(value, t, u);
      FromToIff(t, u, a, b);
  }
}
