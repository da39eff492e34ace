/** The Range header: parsing (src/http.c) and resolving it against a file (src/server.c). */
module ByteRange {
  import opened Bytes

  const ULLONG_MAX: nat := 0xFFFF_FFFF_FFFF_FFFF

  // ---------------------------------------------------------------- strtoull

  predicate IsSpace(b: byte) {
    b == SP || 9 <= b <= 13
  }

  function SkipSpaces(s: seq<byte>, i: nat): (j: nat)
    requires i <= |s|
    ensures i <= j <= |s|
    decreases |s| - i
  {
    if i < |s| && IsSpace(s[i]) then SkipSpaces(s, i + 1) else i
  }

  function SkipDigits(s: seq<byte>, i: nat): (j: nat)
    requires i <= |s|
    ensures i <= j <= |s|
    decreases |s| - i
  {
    if i < |s| && IsDigit(s[i]) then SkipDigits(s, i + 1) else i
  }

  /** What strtoull(s, &end, 10) returns, and how far `end` is past `s`. */
  datatype Number = Number(value: nat, used: nat)

  function StrToULL(s: seq<byte>): (n: Number)
    ensures n.value <= ULLONG_MAX && n.used <= |s|
  {
    var i := SkipSpaces(s, 0);
    var signed := i < |s| && (s[i] == 43 || s[i] == 45);
    var from := if signed then i + 1 else i;
    var to := SkipDigits(s, from);
    var v := Decimal(s[from..to]);
    if from == to then Number(0, 0)
    else if v > ULLONG_MAX then Number(ULLONG_MAX, to)
    else if signed && s[i] == 45 then Number((ULLONG_MAX + 1 - v) % (ULLONG_MAX + 1), to)
    else Number(v, to)
  }

  lemma {:induction false} SkipDigitsAll(s: seq<byte>, i: nat, n: nat)
    requires i <= n <= |s| && AllDigits(s[..n]) && (n < |s| ==> !IsDigit(s[n]))
    ensures SkipDigits(s, i) == n
    decreases n - i
  {
    if i < n {
      assert s[i] == s[..n][i];
      SkipDigitsAll(s, i + 1, n);
    }
  }

  /** On plain digits followed by anything else strtoull gives their value, saturated. */
  lemma PlainDigits(s: seq<byte>, n: nat)
    requires 0 < n <= |s| && AllDigits(s[..n]) && (n < |s| ==> !IsDigit(s[n]))
    ensures StrToULL(s) == Number(Min(Decimal(s[..n]), ULLONG_MAX), n)
  {
    assert s[0] == s[..n][0];
    SkipDigitsAll(s, 0, n);
    assert s[0..n] == s[..n];
  }

  // ---------------------------------------------------------------- parse_byte_range

  /** The range fields of a parsed request. */
  datatype Range = Range(present: bool, suffix: bool, hasEnd: bool, start: nat, end: nat)

  const NO_RANGE := Range(false, false, false, 0, 0)

  const COMMA: byte := 44
  const DASH: byte := 45

  /** What one Range header asks for. */
  datatype RangeSpec = Suffix(count: nat) | From(first: nat) | FromTo(first: nat, last: nat)

  function ParseRangeSpec(value: seq<byte>): Option<RangeSpec> {
    if !(Ascii("bytes=") <= value) then None
    else
      var spec := value[6..];
      var dash := FindByte(spec, DASH);
      if COMMA in spec || dash.None? then None
      else if dash.value == 0 then SuffixSpec(spec[1..])
      else IntSpec(StrToULL(spec), dash.value, spec[dash.value + 1..])
  }

  /** What stands behind the dash of a suffix range. */
  function SuffixSpec(count: seq<byte>): Option<RangeSpec> {
    var n := StrToULL(count);
    if n.used == 0 || n.used != |count| || n.value == 0 then None else Some(Suffix(n.value))
  }

  /** The number before the dash, and what stands behind it. */
  function IntSpec(first: Number, dash: nat, tail: seq<byte>): Option<RangeSpec> {
    if first.used != dash then None
    else if tail == [] then Some(From(first.value))
    else
      var last := StrToULL(tail);
      if last.used == 0 || last.used != |tail| || last.value < first.value then None
      else Some(FromTo(first.value, last.value))
  }

  /** The request fields after one more Range header: those it does not name keep their earlier value. */
  function SetRange(spec: RangeSpec, r: Range): Range {
    match spec
    case Suffix(n) => r.(present := true, suffix := true, start := n)
    case From(a) => r.(present := true, start := a)
    case FromTo(a, b) => r.(present := true, start := a, end := b, hasEnd := true)
  }

  /** parse_byte_range on a request whose range fields are `r`. */
  function ParseByteRange(value: seq<byte>, r: Range): Option<Range> {
    var spec := ParseRangeSpec(value);
    if spec.None? then None else Some(SetRange(spec.value, r))
  }

  // ---------------------------------------------------------------- send_file_fd

  /** Status 206 with an inclusive interval, or 416. */
  datatype Answer = Partial(start: nat, end: nat) | Unsatisfiable

  function Resolve(r: Range, total: nat): Answer {
    if total == 0 then Unsatisfiable
    else if r.suffix then Partial(if r.start >= total then 0 else total - r.start, total - 1)
    else if r.start >= total then Unsatisfiable
    else
      var end := if !r.hasEnd || r.end >= total then total - 1 else r.end;
      if end < r.start then Unsatisfiable else Partial(r.start, end)
  }

  /** Off_t: no file is longer. */
  const OFF_MAX: nat := 0x7FFF_FFFF_FFFF_FFFF

  // ---------------------------------------------------------------- section 14.1.2 of RFC 9110

  /** `a` names exactly the positions of a `total`-byte file that satisfy `wanted`, or says there are none. */
  ghost predicate Selects(a: Answer, total: nat, wanted: nat -> bool) {
    match a
    case Partial(start, end) =>
      start <= end < total && forall i: nat :: start <= i <= end <==> i < total && wanted(i)
    case Unsatisfiable => forall i: nat :: i < total ==> !wanted(i)
  }

  /** An int-range header: "bytes=" first "-" last, `last` possibly empty. */
  function IntRange(first: seq<byte>, last: seq<byte>): seq<byte> {
    Ascii("bytes=") + first + [DASH] + last
  }

  lemma DashAfter(first: seq<byte>, last: seq<byte>)
    requires AllDigits(first) && AllDigits(last)
    ensures var spec := first + [DASH] + last;
            FindByte(spec, DASH) == Some(|first|) && COMMA !in spec && spec[|first| + 1..] == last
  {
    var spec := first + [DASH] + last;
    assert spec[|first|] == DASH;
    assert forall i :: 0 <= i < |spec| && i != |first| ==> IsDigit(spec[i]);
  }

  /** A range header is cut at its dash. */
  lemma CutAtDash(first: seq<byte>, last: seq<byte>)
    requires AllDigits(first) && AllDigits(last)
    ensures ParseRangeSpec(IntRange(first, last)) ==
            if first == [] then SuffixSpec(last) else IntSpec(StrToULL(first + [DASH] + last), |first|, last)
  {
    var value, spec := IntRange(first, last), first + [DASH] + last;
    assert value[..6] == Ascii("bytes=") && value[6..] == spec;
    DashAfter(first, last);
  }

  lemma AllPlain(s: seq<byte>)
    requires s != [] && AllDigits(s)
    ensures StrToULL(s) == Number(Min(Decimal(s), ULLONG_MAX), |s|)
  {
    assert s[..|s|] == s;
    PlainDigits(s, |s|);
  }

  lemma PlainBeforeDash(first: seq<byte>, last: seq<byte>)
    requires first != [] && AllDigits(first)
    ensures StrToULL(first + [DASH] + last) == Number(Min(Decimal(first), ULLONG_MAX), |first|)
  {
    var spec := first + [DASH] + last;
    assert spec[..|first|] == first && spec[|first|] == DASH;
    PlainDigits(spec, |first|);
  }

  /** Parsing saturates both numbers at 64 bits. */
  lemma IntRangeParses(first: seq<byte>, last: seq<byte>)
    requires first != [] && AllDigits(first) && AllDigits(last)
    ensures var lo, hi := Min(Decimal(first), ULLONG_MAX), Min(Decimal(last), ULLONG_MAX);
            ParseByteRange(IntRange(first, last), NO_RANGE) ==
            if last == [] then Some(NO_RANGE.(present := true, start := lo))
            else if hi < lo then None
            else Some(NO_RANGE.(present := true, start := lo, end := hi, hasEnd := true))
  {
    CutAtDash(first, last);
    PlainBeforeDash(first, last);
    if last != [] {
      AllPlain(last);
    }
  }

  /**
   A header with plain digit positions is refused exactly when it runs backwards within 64 bits. Otherwise it
   selects the positions it names, with no width limit on the numbers it is written with.
   */
  lemma IntRangeMeaning(first: seq<byte>, last: seq<byte>, total: nat)
    requires first != [] && AllDigits(first) && AllDigits(last) && total <= OFF_MAX
    ensures var lo, hi := Decimal(first), Decimal(last);
            match ParseByteRange(IntRange(first, last), NO_RANGE)
            case None => last != [] && hi < lo && hi < ULLONG_MAX
            case Some(r) =>
              && (last == [] || lo <= hi || ULLONG_MAX <= hi)
              && r.present && Selects(Resolve(r, total), total, i => lo <= i && (last == [] || i <= hi))
  {
    IntRangeParses(first, last);
  }

  /** A suffix header: refused for zero, otherwise the last bytes of the file, all of it when it is shorter. */
  lemma SuffixMeaning(count: seq<byte>, total: nat)
    requires count != [] && AllDigits(count) && total <= OFF_MAX
    ensures match ParseByteRange(IntRange([], count), NO_RANGE)
            case None => Decimal(count) == 0
            case Some(r) =>
              Decimal(count) > 0 && r.present && Selects(Resolve(r, total), total, i => total <= i + Decimal(count))
  {
    CutAtDash([], count);
    AllPlain(count);
  }

  /** The interval is never empty or reversed, except after a zero suffix, which only a repeated header can leave. */
  lemma ResolveProper(r: Range, total: nat)
    requires Resolve(r, total).Partial?
    ensures var a := Resolve(r, total);
            a.end < total && (a.start <= a.end <==> !(r.suffix && r.start == 0))
  {
  }

  /** A single header never leaves a zero suffix, so its 206 interval is never empty or reversed. */
  lemma SingleHeaderProper(value: seq<byte>, total: nat)
    ensures match ParseByteRange(value, NO_RANGE)
            case None => true
            case Some(r) =>
              var a := Resolve(r, total);
              !(r.suffix && r.start == 0) && (a.Partial? ==> a.start <= a.end < total)
  {
  }

  /** After a suffix header, "bytes=0-" leaves such a zero suffix: the answer is an empty 206. */
  lemma RepeatedHeaderKeepsSuffix(r: Range, total: nat)
    requires r.suffix && total > 0
    ensures var two := ParseByteRange(IntRange([48], []), r);
            two.Some? && Resolve(two.value, total) == Partial(total, total - 1)
  {
    assert Decimal([48]) == 10 * Decimal([48][..0]) + 0;
    CutAtDash([48], []);
    PlainBeforeDash([48], []);
  }
}
