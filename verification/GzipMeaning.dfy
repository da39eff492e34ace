/** The words of a gzip trailer, least significant byte first, and the checksum at a known value. */
module TrailerWords {
  import opened Bytes
  import opened Gzip

  /** A byte as the low part of a word. */
  function Low(b: byte): bv32 {
    (b as bv8) as bv32
  }

  /** Four bytes, least significant first. */
  function Little(t: seq<byte>): bv32
    requires |t| == 4
  {
    Low(t[0]) | (Low(t[1]) << 8) | (Low(t[2]) << 16) | (Low(t[3]) << 24)
  }

  lemma ByteBack(a: bv8)
    ensures (a as int) as bv8 == a
  {
  }

  lemma Widened(x: bv32)
    ensures ((x & 0xff) as bv8) as bv32 == x & 0xff
  {
  }

  lemma LowIs(b: byte, a: bv8)
    requires b == a as int
    ensures Low(b) == a as bv32
  {
    ByteBack(a);
  }

  lemma LowOfByte(x: bv32)
    ensures Low(ToByte(x)) == x & 0xff
  {
    LowIs(ToByte(x), (x & 0xff) as bv8);
    Widened(x);
  }

  lemma FourParts(x: bv32)
    ensures x == (x & 0xff) | (((x >> 8) & 0xff) << 8) | (((x >> 16) & 0xff) << 16) | (((x >> 24) & 0xff) << 24)
  {
  }

  /** The checksum's bytes stand least significant first. */
  lemma CrcBytesMean(crc: bv32)
    ensures Little(CrcBytes(crc)) == crc
  {
    var t := CrcBytes(crc);
    assert t[0] == ToByte(crc) && t[1] == ToByte(crc >> 8) && t[2] == ToByte(crc >> 16) && t[3] == ToByte(crc >> 24);
    LowOfByte(crc);
    LowOfByte(crc >> 8);
    LowOfByte(crc >> 16);
    LowOfByte(crc >> 24);
    FourParts(crc);
  }

  /** And so do the bytes of the size. */
  lemma SizeBytesMean(n: nat)
    requires n < 0x1_0000_0000
    ensures var t := SizeBytes(n); (t[0] as int) + 0x100 * (t[1] as int) + 0x1_0000 * (t[2] as int) + 0x100_0000 * (t[3] as int) == n
  {
    var a, b, c := n / 0x100, n / 0x1_0000, n / 0x100_0000;
    assert n == 0x100 * a + n % 0x100 && a / 0x100 == b && b / 0x100 == c && c < 0x100;
    assert a == 0x100 * b + a % 0x100 && b == 0x100 * c + b % 0x100;
  }
}

/** The checksum of one letter, as every CRC-32 gives it. */
module CrcExample {
  import opened Bytes
  import opened BitWords
  import opened Octets
  import opened ShiftRegister
  import opened Crc32

  lemma Letter()
    ensures Octet(97) == 0x61
  {
    DigitsLength(8, 97);
    assert Digits(1, 0) == [false];
    assert Digits(2, 1) == [true, false];
    assert Digits(3, 3) == [true, true, false];
    assert Digits(4, 6) == [false, true, true, false];
    assert Digits(5, 12) == [false, false, true, true, false];
    assert Digits(6, 24) == [false, false, false, true, true, false];
    assert Digits(7, 48) == [false, false, false, false, true, true, false];
    assert Digits(8, 97) == [true, false, false, false, false, true, true, false];
  }

  lemma EightSteps()
    ensures BitStep(BitStep(BitStep(BitStep(BitStep(BitStep(BitStep(BitStep(0xffffff9e)))))))) == 0x174841bc
  {
    assert BitStep(0xffffff9e) == 0x7fffffcf;
    assert BitStep(0x7fffffcf) == 0xd2477cc7;
    assert BitStep(0xd2477cc7) == 0x849b3d43;
    assert BitStep(0x849b3d43) == 0xaff51d81;
    assert BitStep(0xaff51d81) == 0xba420de0;
    assert BitStep(0xba420de0) == 0x5d2106f0;
    assert BitStep(0x5d2106f0) == 0x2e908378;
    assert BitStep(0x2e908378) == 0x174841bc;
  }

  lemma EightTurns(m: Machine<bv32>, x: bv32)
    ensures Iterate(m, 8, x) == m.step(m.step(m.step(m.step(m.step(m.step(m.step(m.step(x))))))))
  {
    assert Iterate(m, 1, x) == m.step(Iterate(m, 0, x)) && Iterate(m, 2, x) == m.step(Iterate(m, 1, x));
    assert Iterate(m, 3, x) == m.step(Iterate(m, 2, x)) && Iterate(m, 4, x) == m.step(Iterate(m, 3, x));
    assert Iterate(m, 5, x) == m.step(Iterate(m, 4, x)) && Iterate(m, 6, x) == m.step(Iterate(m, 5, x));
    assert Iterate(m, 7, x) == m.step(Iterate(m, 6, x)) && Iterate(m, 8, x) == m.step(Iterate(m, 7, x));
  }

  /** CRC-32 of "a" */
  lemma CrcOfLetter()
    ensures Crc(0, [97]) == 0xe8b7be43
  {
    var m := TheMachine();
    Letter();
    EightTurns(m, 0xffffff9e);
    EightSteps();
    assert m.xor(m.not(0), m.bits(97)) == 0xffffff9e;
    assert Register(m, m.not(0), [97], 0) == m.not(0);
    assert Register(m, m.not(0), [97], 1) == 0x174841bc;
    assert m.not(0x174841bc) == 0xe8b7be43;
  }
}

/** What the reader accepts, and with it what the writer writes. */
module GzipMeaning {
  import opened Bytes
  import opened Crc32
  import opened Gzip
  import opened TrailerWords

  /** ID1, ID2, the deflate method and no flags; then time, extra flags and system; then blocks; then checksum and size. */
  ghost predicate IsMember(s: seq<byte>, data: seq<byte>, end: nat) {
    && 10 <= end && |s| == end + 8 && s[0] == 31 && s[1] == 139 && s[2] == 8 && s[3] == 0
    && ReadBlocks(s, 10) == Some((data, end))
    && Little(s[end..end + 4]) == Crc(0, data)
    && (s[end + 4] as int) + 0x100 * (s[end + 5] as int) + 0x1_0000 * (s[end + 6] as int) + 0x100_0000 * (s[end + 7] as int) ==
       |data| % 0x1_0000_0000
  }

  /** What the reader accepts is a member in the terms of section 2.3 of RFC 1952. */
  lemma ReadIsMember(s: seq<byte>, data: seq<byte>) returns (end: nat)
    requires ReadGzip(s) == Some(data)
    ensures IsMember(s, data, end)
  {
    end := ReadBlocks(s, 10).value.1;
    var t, crc := Trailer(data), CrcBytes(Crc(0, data));
    assert s[..4] == HEADER[..4] == [31, 139, 8, 0];
    assert s[0] == s[..4][0] && s[1] == s[..4][1] && s[2] == s[..4][2] && s[3] == s[..4][3];
    TrailerAt(s, end, data);
    CrcBytesMean(Crc(0, data));
    SizeBytesMean(|data| % 0x1_0000_0000);
  }

  lemma TrailerAt(s: seq<byte>, end: nat, data: seq<byte>)
    requires end <= |s| && s[end..] == Trailer(data)
    ensures |s| == end + 8 && s[end..end + 4] == CrcBytes(Crc(0, data))
    ensures var t := SizeBytes(|data| % 0x1_0000_0000);
            s[end + 4] == t[0] && s[end + 5] == t[1] && s[end + 6] == t[2] && s[end + 7] == t[3]
  {
    var t := s[end..];
    assert t[..4] == CrcBytes(Crc(0, data)) && t[4..] == SizeBytes(|data| % 0x1_0000_0000);
    assert s[end..end + 4] == t[..4];
    assert s[end + 4] == t[4..][0] && s[end + 5] == t[4..][1] && s[end + 6] == t[4..][2] && s[end + 7] == t[4..][3];
  }

  /** The stored form is a member of its input. */
  lemma StoredIsMember(input: seq<byte>) returns (end: nat)
    ensures IsMember(Stored(input), input, end)
  {
    StoredRoundTrip(input);
    end := ReadIsMember(Stored(input), input);
  }
}
