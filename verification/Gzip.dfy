/** Words of 32 bits: the checksum's bit step, and bytes as words. */
module BitWords {
  const POLYNOMIAL: bv32 := 0xEDB88320

  /** One bit, as the table of section 8 of RFC 1952 is made: the source masks instead of branching. */
  function BitStep(crc: bv32): bv32 {
    if crc & 1 == 1 then (crc >> 1) ^ POLYNOMIAL else crc >> 1
  }

  lemma LowBit(x: bv32)
    ensures x & 1 == 0 || x & 1 == 1
  {
  }

  lemma MaskOn(p: bv32)
    ensures p & (0 - 1) == p
  {
  }

  lemma MaskOff(p: bv32, h: bv32)
    ensures h ^ (p & (0 - 0)) == h
  {
  }

  lemma MaskedStep(crc: bv32)
    ensures (crc >> 1) ^ (POLYNOMIAL & (0 - (crc & 1))) == BitStep(crc)
  {
    LowBit(crc);
    if crc & 1 == 1 {
      MaskOn(POLYNOMIAL);
    } else {
      MaskOff(POLYNOMIAL, crc >> 1);
    }
  }

  lemma ShiftXor(x: bv32, y: bv32)
    ensures (x ^ y) >> 1 == (x >> 1) ^ (y >> 1)
  {
  }

  lemma LowBitXor(x: bv32, y: bv32)
    ensures (x ^ y) & 1 == (x & 1) ^ (y & 1)
  {
  }

  lemma XorBoth(a: bv32, b: bv32, p: bv32)
    ensures (a ^ p) ^ (b ^ p) == a ^ b
  {
  }

  lemma XorLeft(a: bv32, b: bv32, p: bv32)
    ensures (a ^ p) ^ b == (a ^ b) ^ p
  {
  }

  lemma XorRight(a: bv32, b: bv32, p: bv32)
    ensures a ^ (b ^ p) == (a ^ b) ^ p
  {
  }

  lemma OddOdd(x: bv32, y: bv32)
    requires x & 1 == 1 && y & 1 == 1
    ensures BitStep(x) ^ BitStep(y) == BitStep(x ^ y)
  {
    ShiftXor(x, y);
    LowBitXor(x, y);
    XorBoth(x >> 1, y >> 1, POLYNOMIAL);
  }

  lemma OddEven(x: bv32, y: bv32)
    requires x & 1 == 1 && y & 1 == 0
    ensures BitStep(x) ^ BitStep(y) == BitStep(x ^ y)
  {
    ShiftXor(x, y);
    LowBitXor(x, y);
    XorLeft(x >> 1, y >> 1, POLYNOMIAL);
  }

  lemma EvenOdd(x: bv32, y: bv32)
    requires x & 1 == 0 && y & 1 == 1
    ensures BitStep(x) ^ BitStep(y) == BitStep(x ^ y)
  {
    ShiftXor(x, y);
    LowBitXor(x, y);
    XorRight(x >> 1, y >> 1, POLYNOMIAL);
  }

  lemma EvenEven(x: bv32, y: bv32)
    requires x & 1 == 0 && y & 1 == 0
    ensures BitStep(x) ^ BitStep(y) == BitStep(x ^ y)
  {
    ShiftXor(x, y);
    LowBitXor(x, y);
  }

  /** Stepping a sum of two words is summing their steps: the cases are their lowest bits. */
  lemma BitStepLinear(x: bv32, y: bv32)
    ensures BitStep(x) ^ BitStep(y) == BitStep(x ^ y)
  {
    LowBit(x);
    LowBit(y);
    if x & 1 == 1 && y & 1 == 1 {
      OddOdd(x, y);
    } else if x & 1 == 1 {
      OddEven(x, y);
    } else if y & 1 == 1 {
      EvenOdd(x, y);
    } else {
      EvenEven(x, y);
    }
  }

  lemma BitStepInjective(x: bv32, y: bv32)
    requires BitStep(x) == BitStep(y)
    ensures x == y
  {
  }
}

/** Numbers below 256 and words of eight bits. */
module Octets {
  function Word(a0: bool, a1: bool, a2: bool, a3: bool, a4: bool, a5: bool, a6: bool, a7: bool): bv8 {
    (((if a0 then 1 else 0) | (if a1 then 2 else 0)) | ((if a2 then 4 else 0) | (if a3 then 8 else 0))) |
    (((if a4 then 16 else 0) | (if a5 then 32 else 0)) | ((if a6 then 64 else 0) | (if a7 then 128 else 0)))
  }

  lemma WordInjective(a0: bool, a1: bool, a2: bool, a3: bool, a4: bool, a5: bool, a6: bool, a7: bool,
                      b0: bool, b1: bool, b2: bool, b3: bool, b4: bool, b5: bool, b6: bool, b7: bool)
    requires Word(a0, a1, a2, a3, a4, a5, a6, a7) == Word(b0, b1, b2, b3, b4, b5, b6, b7)
    ensures a0 == b0 && a1 == b1 && a2 == b2 && a3 == b3 && a4 == b4 && a5 == b5 && a6 == b6 && a7 == b7
  {
  }

  predicate Odd(n: int) {
    n % 2 == 1
  }

  function Half(n: int): int {
    n / 2
  }

  /** The digits of a number in base two, n of them, the lowest first. */
  function Digits(n: nat, b: int): seq<bool> {
    if n == 0 then [] else [Odd(b)] + Digits(n - 1, Half(b))
  }

  function Power(n: nat): int {
    if n == 0 then 1 else 2 * Power(n - 1)
  }

  lemma {:induction false} DigitsDecide(n: nat, b: int, c: int)
    requires 0 <= b < Power(n) && 0 <= c < Power(n) && Digits(n, b) == Digits(n, c)
    ensures b == c
  {
    if n > 0 {
      var p, q := [Odd(b)] + Digits(n - 1, Half(b)), [Odd(c)] + Digits(n - 1, Half(c));
      assert p[0] == q[0] && p[1..] == Digits(n - 1, Half(b)) && q[1..] == Digits(n - 1, Half(c));
      DigitsDecide(n - 1, Half(b), Half(c));
    }
  }

  lemma {:induction false} DigitsLength(n: nat, b: int)
    ensures |Digits(n, b)| == n
  {
    if n > 0 {
      DigitsLength(n - 1, Half(b));
    }
  }

  /** A byte as a word of eight bits. */
  function Octet(b: int): bv8
    requires 0 <= b < 256
  {
    DigitsLength(8, b);
    OfDigits(Digits(8, b))
  }

  function OfDigits(d: seq<bool>): bv8
    requires |d| == 8
  {
    Word(d[0], d[1], d[2], d[3], d[4], d[5], d[6], d[7])
  }

  lemma OfDigitsInjective(d: seq<bool>, e: seq<bool>)
    requires |d| == |e| == 8 && OfDigits(d) == OfDigits(e)
    ensures d == e
  {
    WordInjective(d[0], d[1], d[2], d[3], d[4], d[5], d[6], d[7], e[0], e[1], e[2], e[3], e[4], e[5], e[6], e[7]);
  }

  lemma OctetInjective(b: int, c: int)
    requires 0 <= b < 256 && 0 <= c < 256 && Octet(b) == Octet(c)
    ensures b == c
  {
    DigitsLength(8, b);
    DigitsLength(8, c);
    OfDigitsInjective(Digits(8, b), Digits(8, c));
    assert Power(8) == 256;
    DigitsDecide(8, b, c);
  }
}

/** A bytewise shift register over any kind of word, as a table of its laws. */
module ShiftRegister {
  import opened Bytes

  /** How a word takes one bit step, how two words mix, how one is inverted, and the word of a byte. */
  datatype Machine<!W(!new)> = Machine(step: W -> W, xor: (W, W) -> W, not: W -> W, bits: byte -> W)

  function Iterate<W(!new)>(m: Machine<W>, n: nat, x: W): W {
    if n == 0 then x else m.step(Iterate(m, n - 1, x))
  }

  function Absorb<W(!new)>(m: Machine<W>, x: W, b: byte): W {
    Iterate(m, 8, m.xor(x, m.bits(b)))
  }

  /** The register after the first n bytes. */
  function Register<W(!new)>(m: Machine<W>, start: W, data: seq<byte>, n: nat): W
    requires n <= |data|
  {
    if n == 0 then start else Absorb(m, Register(m, start, data, n - 1), data[n - 1])
  }

  /** The register is inverted before and after. */
  function Checksum<W(!new)>(m: Machine<W>, c: W, data: seq<byte>): W {
    m.not(Register(m, m.not(c), data, |data|))
  }

  ghost predicate Involutive<W(!new)>(m: Machine<W>) {
    forall x {:trigger m.not(x)} :: m.not(m.not(x)) == x
  }

  ghost predicate Linear<W(!new)>(m: Machine<W>) {
    forall x, y {:trigger m.step(m.xor(x, y))} :: LinearAt(m, x, y)
  }

  ghost predicate StepsTo<W(!new)>(m: Machine<W>, x: W, fx: W) {
    m.step(x) == fx
  }

  ghost predicate MixesTo<W(!new)>(m: Machine<W>, x: W, y: W, xy: W) {
    m.xor(x, y) == xy
  }

  ghost predicate LinearAt<W(!new)>(m: Machine<W>, x: W, y: W) {
    m.step(m.xor(x, y)) == m.xor(m.step(x), m.step(y))
  }

  lemma LinearFrom<W(!new)>(m: Machine<W>, x: W, y: W, xy: W, fx: W, fy: W, fxy: W)
    requires StepsTo(m, x, fx) && StepsTo(m, y, fy) && StepsTo(m, xy, fxy)
    requires MixesTo(m, x, y, xy) && MixesTo(m, fx, fy, fxy)
    ensures LinearAt(m, x, y)
  {
  }

  ghost predicate Injective<W(!new)>(m: Machine<W>) {
    forall x, y {:trigger m.step(x), m.step(y)} :: m.step(x) == m.step(y) ==> x == y
  }

  ghost predicate Cancels<W(!new)>(m: Machine<W>) {
    forall x, y, z {:trigger m.xor(x, z), m.xor(y, z)} :: m.xor(x, z) == m.xor(y, z) ==> x == y
  }

  lemma {:induction false} IterateLinear<W(!new)>(m: Machine<W>, n: nat, x: W, y: W)
    requires Linear(m)
    ensures Iterate(m, n, m.xor(x, y)) == m.xor(Iterate(m, n, x), Iterate(m, n, y))
  {
    if n > 0 {
      IterateLinear(m, n - 1, x, y);
    }
  }

  lemma {:induction false} IterateInjective<W(!new)>(m: Machine<W>, n: nat, x: W, y: W)
    requires Injective(m) && Iterate(m, n, x) == Iterate(m, n, y)
    ensures x == y
  {
    if n > 0 {
      IterateInjective(m, n - 1, x, y);
    }
  }

  lemma {:induction false} IterateAdds<W(!new)>(m: Machine<W>, k: nat, n: nat, x: W)
    ensures Iterate(m, k, Iterate(m, n, x)) == Iterate(m, k + n, x)
  {
    if k > 0 {
      IterateAdds(m, k - 1, n, x);
    }
  }

  lemma {:induction false} RegisterPrefix<W(!new)>(m: Machine<W>, c: W, a: seq<byte>, b: seq<byte>, n: nat)
    requires n <= |a|
    ensures Register(m, c, a + b, n) == Register(m, c, a, n)
  {
    if n > 0 {
      RegisterPrefix(m, c, a, b, n - 1);
    }
  }

  /** Feeding the parts one after the other is feeding the whole. */
  lemma {:induction false} RegisterAppend<W(!new)>(m: Machine<W>, c: W, a: seq<byte>, b: seq<byte>, n: nat)
    requires n <= |b|
    ensures Register(m, c, a + b, |a| + n) == Register(m, Register(m, c, a, |a|), b, n)
  {
    if n == 0 {
      RegisterPrefix(m, c, a, b, |a|);
    } else {
      RegisterAppend(m, c, a, b, n - 1);
      assert (a + b)[|a| + n - 1] == b[n - 1];
    }
  }

  lemma ChecksumComposes<W(!new)>(m: Machine<W>, c: W, a: seq<byte>, b: seq<byte>)
    requires Involutive(m)
    ensures Checksum(m, c, a + b) == Checksum(m, Checksum(m, c, a), b)
  {
    RegisterAppend(m, m.not(c), a, b, |b|);
  }

  /** One byte at a time, by what eight steps make of the low part and of the rest. */
  lemma TableStep<W(!new)>(m: Machine<W>, x: W, low: W, high: W, shifted: W)
    requires Linear(m) && MixesTo(m, low, high, x) && Iterate(m, 8, high) == shifted
    ensures Iterate(m, 8, x) == m.xor(Iterate(m, 8, low), shifted)
  {
    IterateLinear(m, 8, low, high);
  }

  /** Mixing a byte in after n steps is mixing a word in before them. */
  lemma MixEarlier<W(!new)>(m: Machine<W>, n: nat, x: W, b: byte, word: W)
    requires Linear(m) && Iterate(m, n, word) == m.bits(b)
    ensures Absorb(m, Iterate(m, n, x), b) == Iterate(m, 8 + n, m.xor(x, word))
  {
    IterateLinear(m, n, x, word);
    IterateAdds(m, 8, n, m.xor(x, word));
  }

  /** Four bytes in a row are one word, mixed in before 32 steps. */
  lemma FourBytes<W(!new)>(m: Machine<W>, x: W, d: seq<byte>, i: nat, w1: W, w2: W, w3: W)
    requires Linear(m) && i + 4 <= |d|
    requires Iterate(m, 8, w1) == m.bits(d[i + 1])
    requires Iterate(m, 16, w2) == m.bits(d[i + 2])
    requires Iterate(m, 24, w3) == m.bits(d[i + 3])
    ensures Register(m, x, d, i + 4) ==
            Iterate(m, 32, m.xor(m.xor(m.xor(m.xor(Register(m, x, d, i), m.bits(d[i])), w1), w2), w3))
  {
    var r0 := m.xor(Register(m, x, d, i), m.bits(d[i]));
    var r1 := m.xor(r0, w1);
    MixEarlier(m, 8, r0, d[i + 1], w1);
    MixEarlier(m, 16, r1, d[i + 2], w2);
    MixEarlier(m, 24, m.xor(r1, w2), d[i + 3], w3);
    assert Register(m, x, d, i + 1) == Iterate(m, 8, r0);
    assert Register(m, x, d, i + 2) == Iterate(m, 16, r1);
    assert Register(m, x, d, i + 3) == Iterate(m, 24, m.xor(r1, w2));
  }

  /** Equal bytes from different registers leave different registers. */
  lemma LastByte<W(!new)>(m: Machine<W>, c: W, x: seq<byte>, y: seq<byte>, n: nat)
    requires Injective(m) && Cancels(m)
    requires 0 < n <= |x| == |y| && x[n - 1] == y[n - 1] && Register(m, c, x, n) == Register(m, c, y, n)
    ensures Register(m, c, x, n - 1) == Register(m, c, y, n - 1)
  {
    var v, w, b := Register(m, c, x, n - 1), Register(m, c, y, n - 1), m.bits(x[n - 1]);
    IterateInjective(m, 8, m.xor(v, b), m.xor(w, b));
  }

  lemma SamePrefix<W(!new)>(m: Machine<W>, c: W, x: seq<byte>, y: seq<byte>, i: nat)
    requires i <= |x| == |y| && x[..i] == y[..i]
    ensures Register(m, c, x, i) == Register(m, c, y, i)
  {
    assert x == x[..i] + x[i..] && y == y[..i] + y[i..];
    RegisterPrefix(m, c, x[..i], x[i..], i);
    RegisterPrefix(m, c, y[..i], y[i..], i);
  }

  /** Equal registers at the end of equal suffixes were equal before them. */
  lemma {:induction false} SameSuffix<W(!new)>(m: Machine<W>, c: W, x: seq<byte>, y: seq<byte>, i: nat, n: nat)
    requires Injective(m) && Cancels(m)
    requires i <= n <= |x| == |y| && forall k :: i <= k < n ==> x[k] == y[k]
    requires Register(m, c, x, n) == Register(m, c, y, n)
    ensures Register(m, c, x, i) == Register(m, c, y, i)
  {
    if i < n {
      LastByte(m, c, x, y, n);
      SameSuffix(m, c, x, y, i, n - 1);
    }
  }

  const FOUR_ZEROS: seq<byte> := [0, 0, 0, 0]

  /** Equal in length, and outside the four places from i on. */
  ghost predicate DifferWithin(x: seq<byte>, y: seq<byte>, i: nat) {
    && |x| == |y| && i <= |x| && x[..i] == y[..i]
    && forall k :: i + 4 <= k < |x| ==> x[k] == y[k]
  }

  /** Equal checksums leave only the registers around the four places to look at. */
  lemma Narrow<W(!new)>(m: Machine<W>, c: W, x: seq<byte>, y: seq<byte>, i: nat)
    requires Injective(m) && Cancels(m) && Involutive(m)
    requires DifferWithin(x, y, i) && Checksum(m, c, x) == Checksum(m, c, y)
    ensures var a, b := x + FOUR_ZEROS, y + FOUR_ZEROS;
            && Register(m, m.not(c), a, i) == Register(m, m.not(c), b, i)
            && Register(m, m.not(c), a, i + 4) == Register(m, m.not(c), b, i + 4)
  {
    var a, b := x + FOUR_ZEROS, y + FOUR_ZEROS;
    ChecksumComposes(m, c, x, FOUR_ZEROS);
    ChecksumComposes(m, c, y, FOUR_ZEROS);
    assert m.not(Checksum(m, c, a)) == m.not(Checksum(m, c, b));
    assert a[..i] == x[..i] && b[..i] == y[..i];
    SamePrefix(m, m.not(c), a, b, i);
    SameSuffix(m, m.not(c), a, b, i + 4, |a|);
  }

  ghost predicate SameAround<W(!new)>(m: Machine<W>, c: W, x: seq<byte>, y: seq<byte>, i: nat)
    requires i + 4 <= |x| == |y|
  {
    Register(m, c, x, i) == Register(m, c, y, i) && Register(m, c, x, i + 4) == Register(m, c, y, i + 4)
  }

  ghost predicate SeparatedAt<W(!new)>(m: Machine<W>, c: W, x: seq<byte>, y: seq<byte>, i: nat) {
    i + 4 <= |x| == |y| && SameAround(m, c, x, y, i) ==>
      x[i] == y[i] && x[i + 1] == y[i + 1] && x[i + 2] == y[i + 2] && x[i + 3] == y[i + 3]
  }

  /** Four different bytes from the same register leave different registers. */
  ghost predicate Separates<W(!new)>(m: Machine<W>) {
    forall c, x, y, i :: SeparatedAt(m, c, x, y, i)
  }

  lemma BurstChangesChecksum<W(!new)>(m: Machine<W>, c: W, x: seq<byte>, y: seq<byte>, i: nat)
    requires Injective(m) && Cancels(m) && Involutive(m) && Separates(m)
    requires DifferWithin(x, y, i) && Checksum(m, c, x) == Checksum(m, c, y)
    ensures x == y
  {
    Narrow(m, c, x, y, i);
    assert SeparatedAt(m, m.not(c), x + FOUR_ZEROS, y + FOUR_ZEROS, i);
    SamePadded(x, y, i);
  }

  lemma SamePadded(x: seq<byte>, y: seq<byte>, i: nat)
    requires DifferWithin(x, y, i)
    requires var a, b := x + FOUR_ZEROS, y + FOUR_ZEROS; forall k :: i <= k < i + 4 ==> a[k] == b[k]
    ensures x == y
  {
    forall k | 0 <= k < |x| ensures x[k] == y[k] {
      assert k < i ==> x[..i][k] == y[..i][k];
      assert (x + FOUR_ZEROS)[k] == x[k] && (y + FOUR_ZEROS)[k] == y[k];
    }
  }
}

/** The checksum of gzip, computed bit by bit (src/compress.c). */
module Crc32 {
  import opened Bytes
  import opened BitWords
  import opened Octets
  import opened ShiftRegister

  function Xor(x: bv32, y: bv32): bv32 {
    x ^ y
  }

  function Bits(b: byte): bv32 {
    Octet(b) as bv32
  }

  function Not(x: bv32): bv32 {
    !x
  }

  function TheMachine(): Machine<bv32> {
    Machine(BitStep, Xor, Not, Bits)
  }

  function Crc(crc: bv32, data: seq<byte>): bv32 {
    Checksum(TheMachine(), crc, data)
  }

  ghost predicate IsCrc(m: Machine<bv32>) {
    && (forall x {:trigger BitStep(x)} :: m.step(x) == BitStep(x))
    && (forall x, y {:trigger Xor(x, y)} :: m.xor(x, y) == Xor(x, y))
    && (forall x {:trigger Not(x)} :: m.not(x) == Not(x))
    && (forall b {:trigger Bits(b)} :: m.bits(b) == Bits(b))
  }

  /** crc32_update */
  method Update(start: bv32, data: seq<byte>) returns (crc: bv32)
    ensures crc == Crc(start, data)
  {
    crc := UpdateRegister(TheMachine(), Not(start), data);
    crc := Not(crc);
  }

  method UpdateRegister(ghost m: Machine<bv32>, start: bv32, data: seq<byte>) returns (crc: bv32)
    requires IsCrc(m)
    ensures crc == Register(m, start, data, |data|)
  {
    crc := start;
    for i := 0 to |data|
      invariant crc == Register(m, start, data, i)
    {
      crc := Xor(crc, Bits(data[i]));
      ghost var word := crc;
      for bit := 0 to 8
        invariant crc == Iterate(m, bit, word)
      {
        MaskedStep(crc);
        crc := (crc >> 1) ^ (POLYNOMIAL & (0 - (crc & 1)));
      }
    }
  }

  // ---------------------------------------------------------------- what one bit step does

  lemma XorCancels(x: bv32, y: bv32, z: bv32)
    requires x ^ z == y ^ z
    ensures x == y
  {
    XorTwice(x, z);
    XorTwice(y, z);
  }

  lemma XorTwice(x: bv32, z: bv32)
    ensures (x ^ z) ^ z == x
  {
  }

  lemma MachineIsLinear()
    ensures Linear(TheMachine())
  {
    var m := TheMachine();
    forall x, y ensures LinearAt(m, x, y) {
      LinearHere(x, y);
    }
  }

  lemma LinearHere(x: bv32, y: bv32)
    ensures LinearAt(TheMachine(), x, y)
  {
    var fx, fy, fxy := StepValues(x, y);
    MixValue(x, y, x ^ y);
    LinearFrom(TheMachine(), x, y, x ^ y, fx, fy, fxy);
  }

  lemma StepIs(x: bv32, fx: bv32)
    requires fx == BitStep(x)
    ensures StepsTo(TheMachine(), x, fx)
  {
  }

  lemma MixValue(x: bv32, y: bv32, xy: bv32)
    requires x ^ y == xy
    ensures MixesTo(TheMachine(), x, y, xy)
  {
  }

  lemma StepValues(x: bv32, y: bv32) returns (fx: bv32, fy: bv32, fxy: bv32)
    ensures StepsTo(TheMachine(), x, fx) && StepsTo(TheMachine(), y, fy) && StepsTo(TheMachine(), x ^ y, fxy)
    ensures MixesTo(TheMachine(), fx, fy, fxy)
  {
    fx, fy, fxy := BitStep(x), BitStep(y), BitStep(x ^ y);
    StepIs(x, fx);
    StepIs(y, fy);
    StepIs(x ^ y, fxy);
    StepsMix(x, y);
  }

  lemma StepsMix(x: bv32, y: bv32)
    ensures MixesTo(TheMachine(), BitStep(x), BitStep(y), BitStep(x ^ y))
  {
    BitStepLinear(x, y);
    MixValue(BitStep(x), BitStep(y), BitStep(x ^ y));
  }

  lemma MachineIsInjective()
    ensures Injective(TheMachine())
  {
    var m := TheMachine();
    forall x: bv32, y: bv32 | m.step(x) == m.step(y) ensures x == y {
      BitStepInjective(x, y);
    }
  }

  lemma MachineCancels()
    ensures Cancels(TheMachine())
  {
    var m := TheMachine();
    forall x, y, z | m.xor(x, z) == m.xor(y, z) ensures x == y {
      XorCancels(x, y, z);
    }
  }

  /** Feeding the parts one after the other is feeding the whole. */
  lemma CrcComposes(c: bv32, a: seq<byte>, b: seq<byte>)
    ensures Crc(c, a + b) == Crc(Crc(c, a), b)
  {
    MachineIsInvolutive();
    ChecksumComposes(TheMachine(), c, a, b);
  }

  lemma MachineIsInvolutive()
    ensures Involutive(TheMachine())
  {
  }

  // ---------------------------------------------------------------- the table of section 8 of RFC 1952

  lemma StepShift(v: bv32)
    requires v < 0x8000_0000
    ensures BitStep(v << 1) == v
  {
  }

  lemma Down(n: nat, v: bv32, w: bv32)
    requires v < 0x8000_0000 && w == v << 1
    ensures Iterate(TheMachine(), n + 1, w) == Iterate(TheMachine(), n, v)
  {
    var m := TheMachine();
    StepShift(v);
    assert Iterate(m, 1, w) == m.step(Iterate(m, 0, w));
    IterateAdds(m, n, 1, w);
  }

  lemma ShiftByOnes(v: bv32, w: bv32) returns (a: bv32, b: bv32, c: bv32)
    requires v < 0x1000_0000 && w == v << 4
    ensures a == v << 1 && b == a << 1 && c == b << 1 && w == c << 1
    ensures v < 0x8000_0000 && a < 0x8000_0000 && b < 0x8000_0000 && c < 0x8000_0000
  {
    a := v << 1;
    b := a << 1;
    c := b << 1;
  }

  lemma FourShift(n: nat, v: bv32, w: bv32)
    requires v < 0x1000_0000 && w == v << 4
    ensures Iterate(TheMachine(), n + 4, w) == Iterate(TheMachine(), n, v)
  {
    var a, b, c := ShiftByOnes(v, w);
    Down(n + 3, c, w);
    Down(n + 2, b, c);
    Down(n + 1, a, b);
    Down(n, v, a);
  }

  lemma HalfWay(v: bv32, w: bv32) returns (u: bv32)
    requires v < 0x100_0000 && w == v << 8
    ensures u == v << 4 && w == u << 4 && v < 0x1000_0000 && u < 0x1000_0000
  {
    u := v << 4;
  }

  /** A word whose low byte is empty only moves down. */
  lemma EightShift(v: bv32, w: bv32)
    requires v < 0x100_0000 && w == v << 8
    ensures Iterate(TheMachine(), 8, w) == v
  {
    var u := HalfWay(v, w);
    FourShift(4, u, w);
    FourShift(0, v, u);
  }

  lemma SplitWord(x: bv32) returns (low: bv32, high: bv32, shifted: bv32)
    ensures low == x & 0xff && shifted == x >> 8 && high == shifted << 8 && shifted < 0x100_0000
    ensures MixesTo(TheMachine(), low, high, x)
  {
    low, shifted := x & 0xff, x >> 8;
    high := shifted << 8;
  }

  lemma HighPart(c: bv32, b: byte)
    ensures Xor(c, Bits(b)) >> 8 == c >> 8
  {
  }

  /** Section 8 of RFC 1952: a table indexed by a byte, one look-up a byte. */
  function Table(i: bv32): bv32 {
    Iterate(TheMachine(), 8, i)
  }

  lemma BitwiseIsTableDriven(crc: bv32, b: byte)
    ensures Absorb(TheMachine(), crc, b) == Xor(Table(Xor(crc, Bits(b)) & 0xff), crc >> 8)
  {
    var low, high, shifted := SplitWord(Xor(crc, Bits(b)));
    HighPart(crc, b);
    MachineIsLinear();
    EightShift(shifted, high);
    TableStep(TheMachine(), Xor(crc, Bits(b)), low, high, shifted);
  }

  // ---------------------------------------------------------------- what the checksum detects

  lemma ByteWords(b: byte) returns (w1: bv32, w2: bv32, w3: bv32)
    ensures w1 == Bits(b) << 8 && w2 == Bits(b) << 16 && w3 == Bits(b) << 24
    ensures Iterate(TheMachine(), 8, w1) == Bits(b)
    ensures Iterate(TheMachine(), 16, w2) == Bits(b)
    ensures Iterate(TheMachine(), 24, w3) == Bits(b)
  {
    var m := TheMachine();
    w1, w2, w3 := ByteShifts(b);
    EightShift(Bits(b), w1);
    EightShift(w1, w2);
    EightShift(w2, w3);
    IterateAdds(m, 8, 8, w2);
    IterateAdds(m, 16, 8, w3);
  }

  lemma ByteShifts(b: byte) returns (w1: bv32, w2: bv32, w3: bv32)
    ensures w1 == Bits(b) << 8 && w2 == Bits(b) << 16 && w3 == Bits(b) << 24
    ensures w2 == w1 << 8 && w3 == w2 << 8
    ensures Bits(b) < 0x100_0000 && w1 < 0x100_0000 && w2 < 0x100_0000
  {
    w1, w2, w3 := Bits(b) << 8, Bits(b) << 16, Bits(b) << 24;
  }

  function Pack(x: bv32, b0: bv8, b1: bv8, b2: bv8, b3: bv8): bv32 {
    (((x ^ (b0 as bv32)) ^ ((b1 as bv32) << 8)) ^ ((b2 as bv32) << 16)) ^ ((b3 as bv32) << 24)
  }

  lemma PackInjective(x: bv32, b0: bv8, b1: bv8, b2: bv8, b3: bv8, c0: bv8, c1: bv8, c2: bv8, c3: bv8)
    requires Pack(x, b0, b1, b2, b3) == Pack(x, c0, c1, c2, c3)
    ensures b0 == c0 && b1 == c1 && b2 == c2 && b3 == c3
  {
  }

  /** The register after four more bytes. */
  lemma FourMore(c: bv32, d: seq<byte>, i: nat) returns (word: bv32)
    requires i + 4 <= |d|
    ensures word == Pack(Register(TheMachine(), c, d, i), Octet(d[i]), Octet(d[i + 1]), Octet(d[i + 2]), Octet(d[i + 3]))
    ensures Register(TheMachine(), c, d, i + 4) == Iterate(TheMachine(), 32, word)
  {
    var m, r := TheMachine(), Register(TheMachine(), c, d, i);
    var w1, a2, a3 := ByteWords(d[i + 1]);
    var b1, w2, b3 := ByteWords(d[i + 2]);
    var c1, c2, w3 := ByteWords(d[i + 3]);
    MachineIsLinear();
    FourBytes(m, c, d, i, w1, w2, w3);
    word := MixFour(r, d[i], w1, w2, w3);
  }

  lemma MixFour(r: bv32, b: byte, w1: bv32, w2: bv32, w3: bv32) returns (word: bv32)
    ensures word == (((r ^ Bits(b)) ^ w1) ^ w2) ^ w3
    ensures var m := TheMachine(); word == m.xor(m.xor(m.xor(m.xor(r, m.bits(b)), w1), w2), w3)
  {
    var x0 := MixOne(r, Bits(b));
    var x1 := MixOne(x0, w1);
    var x2 := MixOne(x1, w2);
    word := MixOne(x2, w3);
  }

  lemma MixOne(x: bv32, w: bv32) returns (y: bv32)
    ensures y == x ^ w && y == TheMachine().xor(x, w)
  {
    y := x ^ w;
  }

  /** Four bytes from the same register leave different registers unless they are the same four bytes. */
  lemma FourMoreInjective(c: bv32, x: seq<byte>, y: seq<byte>, i: nat)
    requires i + 4 <= |x| == |y| && SameAround(TheMachine(), c, x, y, i)
    ensures x[i] == y[i] && x[i + 1] == y[i + 1] && x[i + 2] == y[i + 2] && x[i + 3] == y[i + 3]
  {
    var v := FourMore(c, x, i);
    var w := FourMore(c, y, i);
    MachineIsInjective();
    IterateInjective(TheMachine(), 32, v, w);
    SameBytes(v, Register(TheMachine(), c, x, i), x, y, i);
  }

  lemma SameBytes(word: bv32, r: bv32, x: seq<byte>, y: seq<byte>, i: nat)
    requires i + 4 <= |x| == |y|
    requires word == Pack(r, Octet(x[i]), Octet(x[i + 1]), Octet(x[i + 2]), Octet(x[i + 3]))
    requires word == Pack(r, Octet(y[i]), Octet(y[i + 1]), Octet(y[i + 2]), Octet(y[i + 3]))
    ensures x[i] == y[i] && x[i + 1] == y[i + 1] && x[i + 2] == y[i + 2] && x[i + 3] == y[i + 3]
  {
    PackInjective(r, Octet(x[i]), Octet(x[i + 1]), Octet(x[i + 2]), Octet(x[i + 3]),
                  Octet(y[i]), Octet(y[i + 1]), Octet(y[i + 2]), Octet(y[i + 3]));
    SameByte(x[i], y[i]);
    SameByte(x[i + 1], y[i + 1]);
    SameByte(x[i + 2], y[i + 2]);
    SameByte(x[i + 3], y[i + 3]);
  }

  lemma SameByte(b: byte, c: byte)
    requires Octet(b) == Octet(c)
    ensures b == c
  {
    OctetInjective(b, c);
  }

  lemma MachineSeparates()
    ensures Separates(TheMachine())
  {
    forall c: bv32, x: seq<byte>, y: seq<byte>, i: nat ensures SeparatedAt(TheMachine(), c, x, y, i) {
      if i + 4 <= |x| == |y| && SameAround(TheMachine(), c, x, y, i) {
        FourMoreInjective(c, x, y, i);
      }
    }
  }

  /** Two inputs of the same length that differ only within four bytes have different checksums. */
  lemma BurstChangesCrc(c: bv32, x: seq<byte>, y: seq<byte>, i: nat)
    requires DifferWithin(x, y, i) && Crc(c, x) == Crc(c, y)
    ensures x == y
  {
    MachineIsInjective();
    MachineCancels();
    MachineIsInvolutive();
    MachineSeparates();
    BurstChangesChecksum(TheMachine(), c, x, y, i);
  }
}

/** Stored-block gzip (src/compress.c) and a reader of what it writes. */
module Gzip {
  import opened Bytes
  import opened Crc32

  const HEADER: seq<byte> := [0x1f, 0x8b, 0x08, 0, 0, 0, 0, 0, 0, 3]
  const MAX_CHUNK: nat := 65535

  // ---------------------------------------------------------------- the reader

  /** Two bytes, least significant first. */
  function Short(s: seq<byte>, p: nat): nat
    requires p + 2 <= |s|
  {
    (s[p] as int) + 256 * (s[p + 1] as int)
  }

  /**
   * Stored blocks up to and with the first final one, by section 3.2.4 of RFC 1951: the data and where they end.
   * A stored block ends on a byte boundary, so each block header starts a byte of its own.
   */
  function ReadBlocks(s: seq<byte>, p: nat): (r: Option<(seq<byte>, nat)>)
    ensures r.Some? ==> p < r.value.1 <= |s|
    decreases |s| - p
  {
    if |s| < p + 5 || s[p] / 2 % 4 != 0 || Short(s, p + 1) + Short(s, p + 3) != MAX_CHUNK then None
    else
      var end := p + 5 + Short(s, p + 1);
      if |s| < end then None
      else if s[p] % 2 == 1 then Some((s[p + 5..end], end))
      else Prepend(s[p + 5..end], ReadBlocks(s, end))
  }

  type Reader = (seq<byte>, nat) -> Option<(seq<byte>, nat)>

  function Prepend(data: seq<byte>, rest: Option<(seq<byte>, nat)>): Option<(seq<byte>, nat)> {
    if rest.Some? then Some((data + rest.value.0, rest.value.1)) else None
  }

  /** The four bytes of a checksum, least significant first. */
  function CrcBytes(crc: bv32): (r: seq<byte>)
    ensures |r| == 4
  {
    [ToByte(crc), ToByte(crc >> 8), ToByte(crc >> 16), ToByte(crc >> 24)]
  }

  function ToByte(word: bv32): byte {
    ((word & 0xff) as bv8) as int
  }

  function SizeBytes(n: nat): (r: seq<byte>)
    ensures |r| == 4
  {
    [n % 256, n / 0x100 % 256, n / 0x1_0000 % 256, n / 0x100_0000 % 256]
  }

  function Trailer(data: seq<byte>): (r: seq<byte>)
    ensures |r| == 8
  {
    CrcBytes(Crc(0, data)) + SizeBytes(|data| % 0x1_0000_0000)
  }

  /** A member without optional header fields, by section 2.3 of RFC 1952. */
  function ReadGzip(s: seq<byte>): Option<seq<byte>> {
    if |s| < 10 || s[..4] != HEADER[..4] then None
    else
      match ReadBlocks(s, 10)
      case Some((data, end)) => if s[end..] == Trailer(data) then Some(data) else None
      case None => None
  }

  // ---------------------------------------------------------------- the writer's output

  function Block(data: seq<byte>, final: bool): (r: seq<byte>)
    requires |data| <= MAX_CHUNK
    ensures |r| == 5 + |data|
  {
    var nlen := MAX_CHUNK - |data|;
    [if final then 1 else 0, |data| % 256, |data| / 256, nlen % 256, nlen / 256] + data
  }

  function ChunkEnd(input: seq<byte>, pos: nat): nat
    requires pos <= |input|
  {
    if |input| - pos > MAX_CHUNK then pos + MAX_CHUNK else |input|
  }

  function Blocks(input: seq<byte>, pos: nat): (r: seq<byte>)
    requires pos <= |input|
    decreases |input| - pos
  {
    var end := ChunkEnd(input, pos);
    Block(input[pos..end], end == |input|) + (if end == |input| then [] else Blocks(input, end))
  }

  function Stored(input: seq<byte>): seq<byte> {
    HEADER + Blocks(input, 0) + Trailer(input)
  }

  /** The size of the buffer the writer allocates. */
  function Capacity(n: nat): nat {
    10 + (n + 65534) / 65535 * 5 + n + 8
  }

  lemma {:induction false} BlocksSize(input: seq<byte>, pos: nat)
    requires pos <= |input|
    ensures var n := |input| - pos; |Blocks(input, pos)| == n + 5 * (if n == 0 then 1 else (n + 65534) / 65535)
    decreases |input| - pos
  {
    if |input| - pos > MAX_CHUNK {
      BlocksSize(input, pos + MAX_CHUNK);
    }
  }

  /** The buffer is filled exactly, except that it is five bytes short for an empty input. */
  lemma CapacityIsExact(input: seq<byte>)
    ensures |Stored(input)| == Capacity(|input|) + (if |input| == 0 then 5 else 0)
    ensures |Stored(input)| == Capacity(|input|) <==> input != []
  {
    BlocksSize(input, 0);
  }

  lemma BlockAt(s: seq<byte>, pre: seq<byte>, data: seq<byte>, final: bool, post: seq<byte>)
    requires |data| <= MAX_CHUNK && s == pre + Block(data, final) + post
    ensures |s| == |pre| + 5 + |data| + |post| && s[|pre|] == (if final then 1 else 0)
    ensures Short(s, |pre| + 1) == |data| && Short(s, |pre| + 3) == MAX_CHUNK - |data|
    ensures s[|pre| + 5..|pre| + 5 + |data|] == data
  {
    var p, b := |pre|, Block(data, final);
    assert s[p] == b[0] && s[p + 1] == b[1] && s[p + 2] == b[2] && s[p + 3] == b[3] && s[p + 4] == b[4];
  }

  /** Names the reader, so that the proofs below do not unfold it. */
  ghost predicate IsReader(read: Reader) {
    forall s, p {:trigger ReadBlocks(s, p)} :: read(s, p) == ReadBlocks(s, p)
  }

  lemma ReadAt(read: Reader, s: seq<byte>, p: nat, data: seq<byte>, final: bool)
    requires IsReader(read)
    requires p + 5 + |data| <= |s| && s[p] == (if final then 1 else 0)
    requires Short(s, p + 1) == |data| && Short(s, p + 3) == MAX_CHUNK - |data|
    requires s[p + 5..p + 5 + |data|] == data
    ensures read(s, p) == if final then Some((data, p + 5 + |data|)) else Prepend(data, read(s, p + 5 + |data|))
  {
    ReadOne(s, p, data, final);
    assert read(s, p) == ReadBlocks(s, p);
    assert read(s, p + 5 + |data|) == ReadBlocks(s, p + 5 + |data|);
  }

  lemma ReadOne(s: seq<byte>, p: nat, data: seq<byte>, final: bool)
    requires p + 5 + |data| <= |s| && s[p] == (if final then 1 else 0)
    requires Short(s, p + 1) == |data| && Short(s, p + 3) == MAX_CHUNK - |data|
    requires s[p + 5..p + 5 + |data|] == data
    ensures ReadBlocks(s, p) ==
            if final then Some((data, p + 5 + |data|)) else Prepend(data, ReadBlocks(s, p + 5 + |data|))
  {
  }

  /** Reading one written block. */
  lemma ReadBlock(read: Reader, s: seq<byte>, pre: seq<byte>, data: seq<byte>, final: bool, post: seq<byte>)
    requires IsReader(read)
    requires |data| <= MAX_CHUNK && s == pre + Block(data, final) + post
    ensures var end := |pre| + 5 + |data|;
            read(s, |pre|) == if final then Some((data, end)) else Prepend(data, read(s, end))
  {
    BlockAt(s, pre, data, final, post);
    ReadAt(read, s, |pre|, data, final);
  }

  lemma {:induction false} ReadBlocksBack(read: Reader, pre: seq<byte>, input: seq<byte>, pos: nat, post: seq<byte>)
    requires IsReader(read) && pos <= |input|
    ensures var whole := pre + Blocks(input, pos) + post;
            read(whole, |pre|) == Some((input[pos..], |pre| + |Blocks(input, pos)|))
    decreases |input| - pos
  {
    var whole, end := pre + Blocks(input, pos) + post, ChunkEnd(input, pos);
    var data := input[pos..end];
    if end == |input| {
      assert Blocks(input, pos) == Block(data, true) && data == input[pos..];
      ReadBlock(read, whole, pre, data, true, post);
    } else {
      var block, rest := Block(data, false), Blocks(input, end);
      ReadBlocksBack(read, pre + block, input, end, post);
      Associative(pre, block, rest);
      Associative(pre + block, rest, post);
      ReadBlock(read, whole, pre, data, false, rest + post);
      assert input[pos..] == data + input[end..];
    }
  }

  /** What is written is read back, also for an empty input. */
  lemma StoredRoundTrip(input: seq<byte>)
    ensures ReadGzip(Stored(input)) == Some(input)
  {
    var s, blocks := Stored(input), Blocks(input, 0);
    assert s[..4] == HEADER[..4];
    ReadBlocksBack(ReadBlocks, HEADER, input, 0, Trailer(input));
    assert s[10 + |blocks|..] == Trailer(input);
    assert input[0..] == input;
  }

  lemma CrcBytesInjective(x: bv32, y: bv32)
    requires CrcBytes(x) == CrcBytes(y)
    ensures x == y
  {
    LowBytes(x, y);
    FourLowBytes(x, y);
  }

  lemma LowBytes(x: bv32, y: bv32)
    requires CrcBytes(x) == CrcBytes(y)
    ensures x & 0xff == y & 0xff && (x >> 8) & 0xff == (y >> 8) & 0xff
    ensures (x >> 16) & 0xff == (y >> 16) & 0xff && (x >> 24) & 0xff == (y >> 24) & 0xff
  {
    SameBytes(x, y);
    SameLowByte(x, y);
    SameLowByte(x >> 8, y >> 8);
    SameLowByte(x >> 16, y >> 16);
    SameLowByte(x >> 24, y >> 24);
  }

  lemma SameBytes(x: bv32, y: bv32)
    requires CrcBytes(x) == CrcBytes(y)
    ensures ToByte(x) == ToByte(y) && ToByte(x >> 8) == ToByte(y >> 8)
    ensures ToByte(x >> 16) == ToByte(y >> 16) && ToByte(x >> 24) == ToByte(y >> 24)
  {
    var a, b := CrcBytes(x), CrcBytes(y);
    assert a[0] == b[0] && a[1] == b[1] && a[2] == b[2] && a[3] == b[3];
  }

  lemma SameLowByte(x: bv32, y: bv32)
    requires ToByte(x) == ToByte(y)
    ensures x & 0xff == y & 0xff
  {
    var a, b := (x & 0xff) as bv8, (y & 0xff) as bv8;
    assert (a as int) as bv8 == a && (b as int) as bv8 == b;
  }

  lemma FourLowBytes(x: bv32, y: bv32)
    requires x & 0xff == y & 0xff && (x >> 8) & 0xff == (y >> 8) & 0xff
    requires (x >> 16) & 0xff == (y >> 16) & 0xff && (x >> 24) & 0xff == (y >> 24) & 0xff
    ensures x == y
  {
  }

  /** Data damaged within four adjacent bytes is refused by the reader. */
  lemma DamageIsRefused(input: seq<byte>, damaged: seq<byte>, i: nat)
    requires ShiftRegister.DifferWithin(input, damaged, i) && damaged != input
    ensures ReadGzip(HEADER + Blocks(damaged, 0) + Trailer(input)) == None
  {
    var s, blocks := HEADER + Blocks(damaged, 0) + Trailer(input), Blocks(damaged, 0);
    ReadBlocksBack(ReadBlocks, HEADER, damaged, 0, Trailer(input));
    assert damaged[0..] == damaged;
    assert s[10 + |blocks|..] == Trailer(input);
    if Trailer(input) == Trailer(damaged) {
      assert CrcBytes(Crc(0, input)) == Trailer(input)[..4];
      assert CrcBytes(Crc(0, damaged)) == Trailer(damaged)[..4];
      CrcBytesInjective(Crc(0, input), Crc(0, damaged));
      BurstChangesCrc(0, input, damaged, i);
      assert false;
    }
  }

  // ---------------------------------------------------------------- the writer

  /** buf[p++] = b */
  method Put(out: array<byte>, p: nat, b: byte) returns (next: nat)
    requires p < out.Length
    modifies out
    ensures next == p + 1 && out[..next] == old(out[..p]) + [b]
  {
    out[p] := b;
    next := p + 1;
  }

  /** memcpy(buf + p, in + pos, chunk); p += chunk */
  method PutAll(out: array<byte>, p: nat, data: seq<byte>) returns (next: nat)
    requires p + |data| <= out.Length
    modifies out
    ensures next == p + |data| && out[..next] == old(out[..p]) + data
  {
    next := p;
    for i := 0 to |data|
      invariant next == p + i && out[..next] == old(out[..p]) + data[..i]
    {
      next := Put(out, next, data[i]);
    }
  }

  /** One stored block. */
  method PutBlock(out: array<byte>, p: nat, input: seq<byte>, pos: nat, chunk: nat) returns (next: nat)
    requires chunk <= MAX_CHUNK && pos + chunk <= |input| && p + 5 + chunk <= out.Length
    modifies out
    ensures next == p + 5 + chunk
    ensures out[..next] == old(out[..p]) + Block(input[pos..pos + chunk], pos + chunk == |input|)
  {
    var final := pos + chunk >= |input|;
    next := Put(out, p, if final then 1 else 0);
    var nlen := 65535 - chunk;
    next := Put(out, next, chunk % 256);
    next := Put(out, next, chunk / 256);
    next := Put(out, next, nlen % 256);
    next := Put(out, next, nlen / 256);
    next := PutAll(out, next, input[pos..pos + chunk]);
  }

  /**
   rpsiod_gzip_store. Everything up to the trailer always fits the buffer; the trailer fits for exactly the non-empty
   inputs. For the empty one the model stops where the C code writes past the end.
   */
  method GzipStore(input: seq<byte>) returns (fits: bool, out: array<byte>, outLen: nat)
    ensures fresh(out) && out.Length == Capacity(|input|) && (fits <==> input != [])
    ensures fits ==> outLen == out.Length && out[..] == Stored(input) && ReadGzip(out[..]) == Some(input)
    ensures !fits ==> outLen <= out.Length < |Stored(input)| && out[..outLen] <= Stored(input)
  {
    CapacityIsExact(input);
    BlocksSize(input, 0);
    var blocks := (|input| + 65534) / 65535;
    out := new byte[10 + blocks * 5 + |input| + 8];
    outLen := PutAll(out, 0, HEADER);
    assert out[..outLen] == HEADER;
    outLen := PutBlocks(out, outLen, input);
    fits := outLen + 8 <= out.Length;
    if fits {
      outLen := PutTrailer(out, outLen, input);
      StoredRoundTrip(input);
      assert out[..] == out[..outLen];
    }
  }

  method PutBlocks(out: array<byte>, p: nat, input: seq<byte>) returns (next: nat)
    requires p + |Blocks(input, 0)| <= out.Length
    modifies out
    ensures next == p + |Blocks(input, 0)| && out[..next] == old(out[..p]) + Blocks(input, 0)
  {
    if input == [] {
      // the loop's one turn for an empty input, which it then leaves
      next := PutBlock(out, p, input, 0, 0);
      return;
    }
    next := p;
    var pos: nat := 0;
    while pos < |input|
      invariant next <= out.Length && Filling(out[..next], old(out[..p]), input, pos)
      decreases |input| - pos
    {
      next, pos := PutNext(out, next, input, pos, old(out[..p]));
    }
  }

  /** One turn: the next chunk of at most 65535 bytes. */
  method PutNext(out: array<byte>, p: nat, input: seq<byte>, pos: nat, ghost before: seq<byte>) returns (next: nat, end: nat)
    requires p <= out.Length && pos < |input| && Filling(out[..p], before, input, pos)
    requires |before| + |Blocks(input, 0)| <= out.Length
    modifies out
    ensures next <= out.Length && pos < end && Filling(out[..next], before, input, end)
  {
    var chunk := |input| - pos;
    if chunk > 65535 {
      chunk := 65535;
    }
    ghost var done, e := out[..p], ChunkEnd(input, pos);
    assert e == pos + chunk && |done| == p;
    FillingNext(done, before, input, pos);
    next := PutBlock(out, p, input, pos, chunk);
    end := pos + chunk;
  }

  /** What is written and the blocks still to come are what was there and all the blocks. */
  ghost predicate Filling(done: seq<byte>, before: seq<byte>, input: seq<byte>, pos: nat) {
    pos <= |input| && done + Rest(input, pos) == before + Blocks(input, 0)
  }

  lemma FillingNext(done: seq<byte>, before: seq<byte>, input: seq<byte>, pos: nat)
    requires pos < |input| && Filling(done, before, input, pos)
    ensures var end := ChunkEnd(input, pos);
            && Filling(done + Block(input[pos..end], end == |input|), before, input, end)
            && |done| + 5 + (end - pos) <= |before| + |Blocks(input, 0)|
  {
    RestIs(input, pos, done);
  }

  method PutTrailer(out: array<byte>, p: nat, input: seq<byte>) returns (next: nat)
    requires p + 8 <= out.Length
    modifies out
    ensures next == p + 8 && out[..next] == old(out[..p]) + Trailer(input)
  {
    var crc := Update(0, input);
    var crcBytes := CrcBytes(crc);
    next := PutAll(out, p, crcBytes);
    var isize := |input| % 0x1_0000_0000;
    next := PutAll(out, next, SizeBytes(isize));
  }

  function Rest(input: seq<byte>, pos: nat): seq<byte>
    requires pos <= |input|
  {
    if pos == |input| then [] else Blocks(input, pos)
  }

  lemma RestIs(input: seq<byte>, pos: nat, done: seq<byte>)
    requires pos < |input|
    ensures var end := ChunkEnd(input, pos); var block := Block(input[pos..end], end == |input|);
            && done + Rest(input, pos) == (done + block) + Rest(input, end)
            && 5 + (end - pos) <= |Rest(input, pos)|
  {
  }
}
