/** Bytes, byte strings and the C library searches every component relies on. */
module Bytes {

  type byte = x: int | 0 <= x < 256

  datatype Option<+T> = None | Some(value: T)

  const CR: byte := 13
  const LF: byte := 10
  const SP: byte := 32
  const TAB: byte := 9
  const SLASH: byte := 47
  const COLON: byte := 58
  const CRLF: seq<byte> := [13, 10]
  const CRLFCRLF: seq<byte> := [13, 10, 13, 10]

  function Min(a: int, b: int): int {
    if a < b then a else b
  }

  // ---------------------------------------------------------------- memmem / memchr / strstr

  predicate OccursAt<T(==)>(s: seq<T>, needle: seq<T>, i: int) {
    0 <= i && i + |needle| <= |s| && s[i..i + |needle|] == needle
  }

  /** `needle` occurs at `i` and nowhere before. */
  ghost predicate FirstAt<T>(s: seq<T>, needle: seq<T>, i: nat) {
    OccursAt(s, needle, i) && forall k :: 0 <= k < i ==> !OccursAt(s, needle, k)
  }

  /** memmem and strstr: the first occurrence of `needle` in `s`. */
  ghost function Find<T>(s: seq<T>, needle: seq<T>): (r: Option<nat>)
    ensures r.Some? ==> FirstAt(s, needle, r.value)
    ensures r.None? ==> forall i :: !OccursAt(s, needle, i)
  {
    if exists i: nat :: OccursAt(s, needle, i) then
      var i: nat :| OccursAt(s, needle, i);
      Some(First(s, needle, i))
    else None
  }

  /** The earliest match, given one. */
  ghost function First<T>(s: seq<T>, needle: seq<T>, i: nat): (r: nat)
    requires OccursAt(s, needle, i)
    ensures FirstAt(s, needle, r)
  {
    if k: nat :| k < i && OccursAt(s, needle, k) then First(s, needle, k) else i
  }

  /** A position that matches, with no match before it, is what Find returns. */
  lemma FindIs<T>(s: seq<T>, needle: seq<T>, i: nat)
    requires OccursAt(s, needle, i)
    requires forall k :: 0 <= k < i ==> !OccursAt(s, needle, k)
    ensures Find(s, needle) == Some(i)
  {
    var r := Find(s, needle);
    assert r.Some? && r.value <= i;
  }

  /** A search that succeeded inside a prefix gives the same answer on every extension. */
  lemma FindExtends<T>(s: seq<T>, t: seq<T>, needle: seq<T>)
    requires Find(s, needle).Some?
    ensures Find(s + t, needle) == Find(s, needle)
  {
    var i := Find(s, needle).value;
    forall k | 0 <= k <= i
      ensures OccursAt(s + t, needle, k) == OccursAt(s, needle, k)
    {
      assert (s + t)[k..k + |needle|] == s[k..k + |needle|];
    }
    FindIs(s + t, needle, i);
  }

  /** A search whose answer fits in a prefix succeeds on that prefix. */
  lemma FindInPrefix<T>(s: seq<T>, needle: seq<T>, n: nat)
    requires n <= |s|
    requires Find(s, needle).Some? && Find(s, needle).value + |needle| <= n
    ensures Find(s[..n], needle) == Find(s, needle)
  {
    var i := Find(s, needle).value;
    forall k | 0 <= k <= i
      ensures OccursAt(s[..n], needle, k) == OccursAt(s, needle, k)
    {
      assert s[..n][k..k + |needle|] == s[k..k + |needle|];
    }
    FindIs(s[..n], needle, i);
  }

  /** The library call itself. */
  method MemMem(s: seq<byte>, needle: seq<byte>) returns (r: Option<nat>)
    ensures r == Find(s, needle)
  {
    var i := 0;
    while i + |needle| <= |s|
      invariant forall k :: 0 <= k < i ==> !OccursAt(s, needle, k)
    {
      if OccursAt(s, needle, i) {
        FindIs(s, needle, i);
        return Some(i);
      }
      i := i + 1;
    }
    return None;
  }

  /** memchr and strchr: the first occurrence of one byte. */
  function FindByte(s: seq<byte>, b: byte): (r: Option<nat>)
    ensures r.Some? ==> r.value < |s| && s[r.value] == b
    ensures forall k :: 0 <= k < |s| && (r.Some? ==> k < r.value) ==> s[k] != b
  {
    FindByteFrom(s, b, 0)
  }

  function FindByteFrom(s: seq<byte>, b: byte, i: nat): (r: Option<nat>)
    requires i <= |s|
    ensures r.Some? ==> i <= r.value < |s| && s[r.value] == b
    ensures forall k :: i <= k < |s| && (r.Some? ==> k < r.value) ==> s[k] != b
    decreases |s| - i
  {
    if i == |s| then None
    else if s[i] == b then Some(i)
    else FindByteFrom(s, b, i + 1)
  }

  // ---------------------------------------------------------------- concatenation

  /** pieces[i], pieces[i + 1], ... one after the other. */
  function ConcatFrom<T>(pieces: seq<seq<T>>, i: nat): seq<T>
    requires i <= |pieces|
    decreases |pieces| - i
  {
    if i == |pieces| then [] else pieces[i] + ConcatFrom(pieces, i + 1)
  }

  function Concat<T>(pieces: seq<seq<T>>): seq<T> {
    ConcatFrom(pieces, 0)
  }

  lemma Associative<T>(a: seq<T>, b: seq<T>, c: seq<T>)
    ensures (a + b) + c == a + (b + c)
  {
  }

  lemma {:induction false} ConcatFromSame<T>(a: seq<seq<T>>, b: seq<seq<T>>, i: nat)
    requires i <= |a| == |b| && forall k :: i <= k < |a| ==> a[k] == b[k]
    ensures ConcatFrom(a, i) == ConcatFrom(b, i)
    decreases |a| - i
  {
    if i < |a| {
      ConcatFromSame(a, b, i + 1);
    }
  }

  lemma {:induction false} ConcatSnoc<T>(a: seq<seq<T>>, p: seq<T>, i: nat)
    requires i <= |a|
    ensures ConcatFrom(a + [p], i) == ConcatFrom(a, i) + p
    decreases |a| - i
  {
    if i < |a| {
      ConcatSnoc(a, p, i + 1);
    }
  }

  // ---------------------------------------------------------------- ASCII case

  function Lower(b: byte): byte {
    if 65 <= b <= 90 then b + 32 else b
  }

  function LowerAll(s: seq<byte>): (r: seq<byte>)
    ensures |r| == |s| && forall i :: 0 <= i < |s| ==> r[i] == Lower(s[i])
  {
    seq(|s|, i requires 0 <= i < |s| => Lower(s[i]))
  }

  /** rpsiod_streq_ci */
  predicate EqualCi(a: seq<byte>, b: seq<byte>) {
    LowerAll(a) == LowerAll(b)
  }

  // ---------------------------------------------------------------- ASCII decimal

  predicate IsDigit(b: byte) {
    48 <= b <= 57
  }

  function DigitValue(b: byte): nat {
    if IsDigit(b) then b - 48 else 0
  }

  predicate AllDigits(s: seq<byte>) {
    forall i :: 0 <= i < |s| ==> IsDigit(s[i])
  }

  /** The number a digit string denotes, with no width limit. */
  function Decimal(s: seq<byte>): nat {
    if s == [] then 0 else 10 * Decimal(s[..|s| - 1]) + DigitValue(s[|s| - 1])
  }

  lemma {:induction false} DecimalMonotone(s: seq<byte>, k: nat)
    requires k <= |s|
    ensures Decimal(s[..k]) <= Decimal(s)
  {
    if k < |s| {
      assert s[..|s| - 1][..k] == s[..k];
      DecimalMonotone(s[..|s| - 1], k);
    } else {
      assert s[..k] == s;
    }
  }

  // ---------------------------------------------------------------- literals and blanks

  /** The bytes of an ASCII literal. */
  function Ascii(s: string): (r: seq<byte>)
    ensures |r| == |s| && forall i :: 0 <= i < |s| ==> r[i] == s[i] as int % 256
  {
    seq(|s|, i requires 0 <= i < |s| => s[i] as int % 256)
  }

  predicate IsBlank(b: byte) {
    b == SP || b == TAB
  }

  function TrimLeft(s: seq<byte>): seq<byte> {
    if s != [] && IsBlank(s[0]) then TrimLeft(s[1..]) else s
  }

  function TrimRight(s: seq<byte>): seq<byte> {
    if s != [] && IsBlank(s[|s| - 1]) then TrimRight(s[..|s| - 1]) else s
  }

  /** The string without the blanks around it. */
  function Trim(s: seq<byte>): (r: seq<byte>)
  {
    TrimRight(TrimLeft(s))
  }

  /** rpsiod_safe_copy into a buffer of `size` bytes: one byte is for the terminator. */
  function Truncate(s: seq<byte>, size: nat): seq<byte>
    requires size > 0
  {
    if |s| < size then s else s[..size - 1]
  }
}
