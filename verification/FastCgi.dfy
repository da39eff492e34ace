/** FastCGI records and name-value pairs (sections 3.3 and 3.4 of the FastCGI specification), as src/server.c codes them. */
module FastCgi {
  import opened Bytes
  import opened Wire

  // ---------------------------------------------------------------- records

  datatype Record = Record(kind: byte, content: seq<byte>)

  const STDOUT: byte := 6
  const END_REQUEST: byte := 3

  function Padding(len: nat): (p: nat)
    ensures p < 8 && (8 + len + p) % 8 == 0
  {
    (8 - len % 8) % 8
  }

  function Zeros(n: nat): seq<byte> {
    seq(n, _ => 0)
  }

  /** The bytes fcgi_write_record sends. */
  function EncodeRecord(kind: byte, id: nat, content: seq<byte>): seq<byte>
    requires id < 0x1_0000 && |content| < 0x1_0000
  {
    var n := |content|;
    [1, kind, id / 256, id % 256, n / 256, n % 256, Padding(n), 0] + content + Zeros(Padding(n))
  }

  /** fcgi_write_record */
  method WriteRecord(sock: Socket, kind: byte, id: nat, content: seq<byte>) returns (ok: bool)
    requires id < 0x1_0000 && |content| < 0x1_0000
    modifies sock
    ensures ok ==> sock.sent == old(sock.sent) + EncodeRecord(kind, id, content)
    ensures old(sock.sent) <= sock.sent <= old(sock.sent) + EncodeRecord(kind, id, content)
    ensures !ok ==> GaveUp(old(sock.answers), sock.answers)
  {
    ghost var start, whole := sock.sent, EncodeRecord(kind, id, content);
    var padding := (8 - |content| % 8) % 8;
    var hdr := [1, kind, id / 256, id % 256, |content| / 256, |content| % 256, padding, 0];
    ok := sock.WriteAll(hdr);
    if !ok {
      return;
    }
    ghost var left := sock.answers;
    if |content| > 0 {
      ok := sock.WriteAll(content);
      UsedThen(old(sock.answers), left, sock.answers);
      if !ok {
        return;
      }
    }
    Associative(start, hdr, content);
    Associative(start, hdr + content, Zeros(padding));
    assert sock.sent == start + (hdr + content);
    left := sock.answers;
    if padding > 0 {
      ok := sock.WriteAll(Zeros(padding));
      UsedThen(old(sock.answers), left, sock.answers);
    }
  }

  /** A record read off a stream, and what is left of it. */
  datatype Taken = Taken(record: Record, rest: seq<byte>)

  /** One record, whatever its version, request id and padding bytes say. */
  function DecodeRecord(s: seq<byte>): (r: Option<Taken>)
    ensures r.Some? ==> |r.value.rest| < |s|
  {
    if |s| < 8 then None
    else
      var n, p := (s[4] as int) * 256 + s[5] as int, s[6] as int;
      if |s| < 8 + n + p then None else Some(Taken(Record(s[1], s[8..8 + n]), s[8 + n + p..]))
  }

  /** A written record is read back, and the next one starts right behind it, on a multiple of 8 bytes. */
  lemma RecordRoundTrip(kind: byte, id: nat, content: seq<byte>, rest: seq<byte>)
    requires id < 0x1_0000 && |content| < 0x1_0000
    ensures DecodeRecord(EncodeRecord(kind, id, content) + rest) == Some(Taken(Record(kind, content), rest))
    ensures |EncodeRecord(kind, id, content)| % 8 == 0
  {
    var n := |content|;
    var hdr := [1, kind, id / 256, id % 256, n / 256, n % 256, Padding(n), 0];
    var s := hdr + content + Zeros(Padding(n)) + rest;
    assert s[8..8 + n] == content && s[8 + n + Padding(n)..] == rest;
    assert s[4] == n / 256 && s[5] == n % 256 && s[6] == Padding(n) && s[1] == kind;
  }

  function EncodeRecords(rs: seq<Record>, id: nat, i: nat): seq<byte>
    requires i <= |rs| && id < 0x1_0000 && forall k :: 0 <= k < |rs| ==> |rs[k].content| < 0x1_0000
    decreases |rs| - i
  {
    if i == |rs| then [] else EncodeRecord(rs[i].kind, id, rs[i].content) + EncodeRecords(rs, id, i + 1)
  }

  /** All records of a stream, up to the first incomplete one. */
  function DecodeRecords(s: seq<byte>): seq<Record>
    decreases |s|
  {
    var t := DecodeRecord(s);
    if t.None? then [] else [t.value.record] + DecodeRecords(t.value.rest)
  }

  lemma FirstRecord(decode: RecordsDecoder, r: Record, id: nat, rest: seq<byte>)
    requires IsRecordsDecoder(decode) && id < 0x1_0000 && |r.content| < 0x1_0000
    ensures decode(EncodeRecord(r.kind, id, r.content) + rest) == [r] + decode(rest)
  {
    RecordRoundTrip(r.kind, id, r.content, rest);
    assert decode(rest) == DecodeRecords(rest);
    var s := EncodeRecord(r.kind, id, r.content) + rest;
    assert decode(s) == DecodeRecords(s);
  }

  /** Names the reader of whole streams, so that the induction below does not unfold it. */
  type RecordsDecoder = seq<byte> -> seq<Record>

  ghost predicate IsRecordsDecoder(decode: RecordsDecoder) {
    forall s {:trigger DecodeRecords(s)} :: decode(s) == DecodeRecords(s)
  }

  lemma {:induction false} RecordsComeBack(decode: RecordsDecoder, rs: seq<Record>, id: nat, i: nat)
    requires IsRecordsDecoder(decode)
    requires i <= |rs| && id < 0x1_0000 && forall k :: 0 <= k < |rs| ==> |rs[k].content| < 0x1_0000
    ensures decode(EncodeRecords(rs, id, i)) == rs[i..]
    decreases |rs| - i
  {
    if i < |rs| {
      FirstRecord(decode, rs[i], id, EncodeRecords(rs, id, i + 1));
      RecordsComeBack(decode, rs, id, i + 1);
      assert rs[i..] == [rs[i]] + rs[i + 1..];
    } else {
      assert decode([]) == DecodeRecords([]);
    }
  }

  /** Any sequence of written records is recovered, in order and complete. */
  lemma RecordsRoundTrip(rs: seq<Record>, id: nat)
    requires id < 0x1_0000 && forall k :: 0 <= k < |rs| ==> |rs[k].content| < 0x1_0000
    ensures DecodeRecords(EncodeRecords(rs, id, 0)) == rs
  {
    RecordsComeBack(DecodeRecords, rs, id, 0);
    assert rs[0..] == rs;
  }

  // ---------------------------------------------------------------- name-value pairs

  datatype Pair = Pair(name: seq<byte>, value: seq<byte>)

  const MAX_LENGTH: nat := 0x8000_0000

  /** One byte below 128, four bytes with the top bit set from there on. */
  function EncodeLength(n: nat): (r: seq<byte>)
    ensures |r| == if n < 128 then 1 else 4
  {
    if n < 128 then [n]
    else [128 + (n / 0x100_0000) % 128, (n / 0x1_0000) % 256, (n / 0x100) % 256, n % 256]
  }

  function EncodePair(p: Pair): seq<byte> {
    EncodeLength(|p.name|) + EncodeLength(|p.value|) + p.name + p.value
  }

  function EncodePairs(ps: seq<Pair>, i: nat): seq<byte>
    requires i <= |ps|
    decreases |ps| - i
  {
    if i == |ps| then [] else EncodePair(ps[i]) + EncodePairs(ps, i + 1)
  }

  datatype Length = Length(value: nat, size: nat)

  function DecodeLength(s: seq<byte>): (r: Option<Length>)
    ensures r.Some? ==> 0 < r.value.size <= |s|
  {
    if s == [] then None
    else if s[0] < 128 then Some(Length(s[0], 1))
    else if |s| < 4 then None
    else Some(Length((s[0] as int - 128) * 0x100_0000 + (s[1] as int) * 0x1_0000 + (s[2] as int) * 0x100 + s[3] as int, 4))
  }

  /** The pairs a stream of parameters holds. */
  function DecodePairs(s: seq<byte>): Option<seq<Pair>>
    decreases |s|
  {
    if s == [] then Some([])
    else
      var nl := DecodeLength(s);
      if nl.None? then None
      else
        var s1 := s[nl.value.size..];
        var vl := DecodeLength(s1);
        if vl.None? then None
        else
          var s2, n, v := s1[vl.value.size..], nl.value.value, vl.value.value;
          if |s2| < n + v then None
          else
            var more := DecodePairs(s2[n + v..]);
            if more.None? then None else Some([Pair(s2[..n], s2[n..n + v])] + more.value)
  }

  /** A length below 2^31 is read back from either form. */
  lemma LengthRoundTrip(n: nat, rest: seq<byte>)
    requires n < MAX_LENGTH
    ensures DecodeLength(EncodeLength(n) + rest) == Some(Length(n, |EncodeLength(n)|))
    ensures (EncodeLength(n) + rest)[|EncodeLength(n)|..] == rest
  {
    var a, b, c := n / 0x100_0000, n / 0x1_0000, n / 0x100;
    assert a < 128 && b / 256 == a && c / 256 == b;
  }

  lemma PairRoundTrip(p: Pair, rest: seq<byte>)
    requires |p.name| < MAX_LENGTH && |p.value| < MAX_LENGTH
    ensures DecodePairs(EncodePair(p) + rest) ==
            (var more := DecodePairs(rest); if more.None? then None else Some([p] + more.value))
  {
    var nl, vl := EncodeLength(|p.name|), EncodeLength(|p.value|);
    var s2 := p.name + p.value + rest;
    assert EncodePair(p) + rest == nl + (vl + s2);
    LengthRoundTrip(|p.name|, vl + s2);
    LengthRoundTrip(|p.value|, s2);
    assert s2[..|p.name|] == p.name && s2[|p.name|..|p.name| + |p.value|] == p.value;
    assert s2[|p.name| + |p.value|..] == rest;
  }

  /** Names the reader of whole blocks, so that the induction below does not unfold it. */
  type PairsDecoder = seq<byte> -> Option<seq<Pair>>

  ghost predicate IsPairsDecoder(decode: PairsDecoder) {
    forall s {:trigger DecodePairs(s)} :: decode(s) == DecodePairs(s)
  }

  lemma FirstPair(decode: PairsDecoder, p: Pair, rest: seq<byte>)
    requires IsPairsDecoder(decode) && |p.name| < MAX_LENGTH && |p.value| < MAX_LENGTH
    ensures decode(EncodePair(p) + rest) == (if decode(rest).None? then None else Some([p] + decode(rest).value))
  {
    PairRoundTrip(p, rest);
    assert decode(rest) == DecodePairs(rest);
    var s := EncodePair(p) + rest;
    assert decode(s) == DecodePairs(s);
  }

  lemma {:induction false} PairsComeBack(decode: PairsDecoder, ps: seq<Pair>, i: nat)
    requires IsPairsDecoder(decode)
    requires i <= |ps| && forall k :: 0 <= k < |ps| ==> |ps[k].name| < MAX_LENGTH && |ps[k].value| < MAX_LENGTH
    ensures decode(EncodePairs(ps, i)) == Some(ps[i..])
    decreases |ps| - i
  {
    if i < |ps| {
      FirstPair(decode, ps[i], EncodePairs(ps, i + 1));
      PairsComeBack(decode, ps, i + 1);
      assert ps[i..] == [ps[i]] + ps[i + 1..];
    } else {
      assert decode([]) == DecodePairs([]);
    }
  }

  /** Any list of pairs with lengths below 2^31 is recovered. */
  lemma PairsRoundTrip(ps: seq<Pair>)
    requires forall k :: 0 <= k < |ps| ==> |ps[k].name| < MAX_LENGTH && |ps[k].value| < MAX_LENGTH
    ensures DecodePairs(EncodePairs(ps, 0)) == Some(ps)
  {
    PairsComeBack(DecodePairs, ps, 0);
    assert ps[0..] == ps;
  }

  /** From 128 on, what comes back is the length without its bits above the 31st. */
  lemma LengthIsCut(n: nat)
    requires n >= 128
    ensures DecodeLength(EncodeLength(n)) == Some(Length(n % MAX_LENGTH, 4))
  {
    var a, b, c := n / 0x100_0000, n / 0x1_0000, n / 0x100;
    assert b / 256 == a && c / 256 == b;
    var r := (a % 128) * 0x100_0000 + (b % 256) * 0x1_0000 + (c % 256) * 0x100 + n % 256;
    assert n == (a / 128) * MAX_LENGTH + r && 0 <= r < MAX_LENGTH;
    Remainder(n, a / 128, r);
  }

  lemma Remainder(n: nat, q: nat, r: nat)
    requires n == q * MAX_LENGTH + r && r < MAX_LENGTH
    ensures n % MAX_LENGTH == r
  {
  }

  /** The exact condition for a length to come back: that it fits 31 bits. */
  lemma LengthRoundTripIff(n: nat)
    ensures DecodeLength(EncodeLength(n)) == Some(Length(n, |EncodeLength(n)|)) <==> n < MAX_LENGTH
  {
    if n >= 128 {
      LengthIsCut(n);
    }
  }

  /** The parameter buffer of send_php_fpm. */
  class ParamBuffer {
    const buf: array<byte>
    var used: nat

    constructor (size: nat)
      ensures fresh(buf) && buf.Length == size && used == 0 && Contents() == []
    {
      buf, used := new byte[size], 0;
    }

    ghost function Contents(): seq<byte>
      requires used <= buf.Length
      reads this, buf
    {
      buf[..used]
    }

    /** fcgi_add_param: the pair behind what is there, or nothing changed when it does not fit. */
    method AddParam(p: Pair) returns (ok: bool)
      requires used <= buf.Length
      modifies this, buf
      ensures used <= buf.Length
      ensures ok <==> old(used) + |EncodePair(p)| <= buf.Length
      ensures Contents() == if ok then old(Contents()) + EncodePair(p) else old(Contents())
    {
      var need := |p.name| + |p.value| + (if |p.name| < 128 then 1 else 4) + (if |p.value| < 128 then 1 else 4);
      if need > buf.Length - used {
        return false;
      }
      ghost var before := buf[..used];
      var nl, vl := EncodeLength(|p.name|), EncodeLength(|p.value|);
      Put(nl);
      Put(vl);
      Put(p.name);
      Put(p.value);
      Associative(before, nl, vl);
      Associative(before, nl + vl, p.name);
      Associative(before, nl + vl + p.name, p.value);
      return true;
    }

    /** Bytes written at the cursor. */
    method Put(s: seq<byte>)
      requires used + |s| <= buf.Length
      modifies this, buf
      ensures used == old(used) + |s| <= buf.Length && buf[..used] == old(buf[..used]) + s
    {
      forall i | 0 <= i < |s| {
        buf[used + i] := s[i];
      }
      used := used + |s|;
    }
  }

  /** A whole parameter block: what fits decodes to the very pairs that were added. */
  method EncodeParams(ps: seq<Pair>, size: nat) returns (block: Option<seq<byte>>)
    requires forall k :: 0 <= k < |ps| ==> |ps[k].name| < MAX_LENGTH && |ps[k].value| < MAX_LENGTH
    ensures block.Some? <==> |EncodePairs(ps, 0)| <= size
    ensures block.Some? ==> |block.value| <= size && DecodePairs(block.value) == Some(ps)
  {
    var params := new ParamBuffer(size);
    ghost var done := [];
    for i := 0 to |ps|
      invariant fresh(params) && fresh(params.buf) && params.buf.Length == size && params.used <= size
      invariant params.Contents() == done && done + EncodePairs(ps, i) == EncodePairs(ps, 0)
    {
      NextPair(ps, i, done);
      var ok := params.AddParam(ps[i]);
      if !ok {
        return None;
      }
      done := done + EncodePair(ps[i]);
    }
    PairsRoundTrip(ps);
    assert done + [] == done;
    return Some(params.buf[..params.used]);
  }

  lemma NextPair(ps: seq<Pair>, i: nat, done: seq<byte>)
    requires i < |ps|
    ensures done + EncodePairs(ps, i) == (done + EncodePair(ps[i])) + EncodePairs(ps, i + 1)
    ensures |done| + |EncodePair(ps[i])| <= |done + EncodePairs(ps, i)|
  {
  }
}
