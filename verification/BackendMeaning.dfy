/** What the answers of the kernel make of a backend connection: counted up to the first answer that ends the transfer. */
module BackendMeaning {
  import opened Bytes
  import opened ChunkSize
  import opened Wire
  import opened Streams

  // ---------------------------------------------------------------- writes

  /** An answer that ends the writes of an event: not ready, an error, or nothing taken. */
  predicate EndsWrites(a: Answer) {
    a.WouldBlock? || a.Broken? || a == Moved(0)
  }

  /** What the kernel takes before the first such answer. */
  function TakenBefore(writes: seq<Answer>): nat {
    if writes == [] || EndsWrites(writes[0]) then 0
    else (if writes[0].Moved? then writes[0].n else 0) + TakenBefore(writes[1..])
  }

  /** That answer. */
  function FirstEnd(writes: seq<Answer>): Option<Answer> {
    if writes == [] then None else if EndsWrites(writes[0]) then Some(writes[0]) else FirstEnd(writes[1..])
  }

  /** Reading once all is taken; failed when an error comes before that; otherwise writing, with the rest left. */
  lemma {:induction false} AfterWritesIff(left: nat, writes: seq<Answer>)
    ensures var (rest, state) := AfterWrites(left, writes);
            var taken := TakenBefore(writes);
            && (state == Reading <==> left <= taken)
            && (state == Failed <==> taken < left && FirstEnd(writes) == Some(Broken))
            && (state == Writing <==> taken < left && FirstEnd(writes) != Some(Broken))
            && rest == if left <= taken then 0 else left - taken
    decreases |writes|
  {
    if left > 0 && writes != [] && !EndsWrites(writes[0]) {
      var n := if writes[0].Moved? then Min(writes[0].n, left) else 0;
      AfterWritesIff(left - n, writes[1..]);
    }
  }

  // ---------------------------------------------------------------- reads

  /** An answer that ends the reads of an event: nothing there, an error, or the end of the stream. */
  predicate EndsReads(a: ReadAnswer) {
    a.ReadWouldBlock? || a.ReadBroken? || a == Got([])
  }

  function BroughtBefore(input: seq<ReadAnswer>): seq<byte> {
    if input == [] || EndsReads(input[0]) then []
    else (if input[0].Got? then input[0].data else []) + BroughtBefore(input[1..])
  }

  function FirstReadEnd(input: seq<ReadAnswer>): Option<ReadAnswer> {
    if input == [] then None else if EndsReads(input[0]) then Some(input[0]) else FirstReadEnd(input[1..])
  }

  /** Failed when it becomes too much or an error ends it; done when the end of the stream does; otherwise reading on. */
  lemma {:induction false} AfterReadsIff(raw: seq<byte>, input: seq<ReadAnswer>)
    requires |raw| <= MAX_RESPONSE
    ensures var (all, state) := AfterReads(raw, input);
            var fits := |raw| + |BroughtBefore(input)| <= 67108864;
            && (state == Failed <==> !fits || FirstReadEnd(input) == Some(ReadBroken))
            && (state == Done <==> fits && FirstReadEnd(input) == Some(Got([])))
            && (state == Reading <==> fits && FirstReadEnd(input) != Some(ReadBroken) && FirstReadEnd(input) != Some(Got([])))
            && (fits ==> all == raw + BroughtBefore(input))
    decreases |input|
  {
    assert raw + [] == raw;
    if input != [] && !EndsReads(input[0]) {
      if input[0].Got? {
        var data := input[0].data;
        if |raw| + |data| <= MAX_RESPONSE {
          AfterReadsIff(raw + data, input[1..]);
          Associative(raw, data, BroughtBefore(input[1..]));
        }
      } else {
        AfterReadsIff(raw, input[1..]);
        assert [] + BroughtBefore(input[1..]) == BroughtBefore(input[1..]);
      }
    }
  }

  // ---------------------------------------------------------------- a whole readiness event

  /** What an event makes of a stream, told by what the kernel takes and brings. */
  ghost predicate EventMakes(state: State, left: nat, raw: seq<byte>, signalled: bool, socketError: bool,
                             writes: seq<Answer>, input: seq<ReadAnswer>, state': State, left': nat, raw': seq<byte>)
  {
    var taken, end := TakenBefore(writes), FirstEnd(writes);
    var writing := state == Writing || (state == Connecting && signalled && !socketError);
    var reading := state == Reading || (writing && left <= taken);
    var fits, last := |raw| + |BroughtBefore(input)| <= 67108864, FirstReadEnd(input);
    if state == Connecting && !writing then state' == (if signalled then Failed else Connecting) && left' == left && raw' == raw
    else if reading then
      && left' == (if writing then 0 else left)
      && (state' == Failed <==> !fits || last == Some(ReadBroken)) && (state' == Done <==> fits && last == Some(Got([])))
      && (state' == Reading <==> fits && last != Some(ReadBroken) && last != Some(Got([])))
      && (fits ==> raw' == raw + BroughtBefore(input))
    else if writing then
      state' == (if end == Some(Broken) then Failed else Writing) && left' == left - taken && raw' == raw
    else state' == state && left' == left && raw' == raw
  }

  lemma AfterProgressIs(state: State, left: nat, raw: seq<byte>, signalled: bool, socketError: bool,
                        writes: seq<Answer>, input: seq<ReadAnswer>)
    requires |raw| <= MAX_RESPONSE
    ensures var (state', left', raw') := AfterProgress(state, left, raw, signalled, socketError, writes, input);
            EventMakes(state, left, raw, signalled, socketError, writes, input, state', left', raw')
  {
    AfterWritesIff(left, writes);
    AfterReadsIff(raw, input);
  }

  // ---------------------------------------------------------------- starting, and starting again

  /** The state after a start, by what it meets. */
  lemma StartedIff(e: Start)
    ensures Started(e) == Writing <==> e.routed && e.socketOk && |e.request| < 8192 && e.connect == Connected
    ensures Started(e) == Connecting <==> e.routed && e.socketOk && |e.request| < 8192 && e.connect == InProgress
    ensures Started(e) == Failed <==> !e.routed || !e.socketOk || 8192 <= |e.request| || e.connect == Connect.Refused
  {
  }

  /** A stream is tried again exactly while it waits for a silent backend, 50 ms after a start and at most seven times. */
  lemma DueIff(a: Attempt, now: nat)
    ensures Due(a, now) <==>
            && (a.state == Connecting || a.state == Writing || a.state == Reading) && a.silent
            && a.attempts < 8 && 50 <= now - a.startedAt
  {
  }
}
