/**
 The streams of one HTTP/2 connection (src/http2.c): a linked list, and for every stream a backend connection
 that is opened, written, read, retried and closed while the response is waited for.
 */
module Streams {
  import opened Bytes
  import opened ChunkSize
  import opened Wire

  const MAX_ATTEMPTS: nat := 8
  const RETRY_MS: nat := 50
  const REQUEST_BUFFER: nat := 8192

  datatype State = Idle | Connecting | Writing | Reading | Done | Failed

  predicate Busy(s: State) {
    s.Connecting? || s.Writing? || s.Reading?
  }

  /** What starting a backend connection meets: routing, the socket calls, the printed request, connect. */
  datatype Start = Start(routed: bool, socketOk: bool, request: seq<byte>, connect: Connect, now: nat)
  datatype Connect = Connected | InProgress | Refused

  /** The attempt gets as far as connect. */
  predicate Reaches(e: Start) {
    e.routed && e.socketOk && |e.request| < REQUEST_BUFFER
  }

  /** The state a start leaves. */
  function Started(e: Start): State {
    if !Reaches(e) || e.connect.Refused? then Failed else if e.connect.Connected? then Writing else Connecting
  }

  /** How much of a request is left, and the state, once the kernel's answers to its writes are used up. */
  function AfterWrites(left: nat, writes: seq<Answer>): (r: (nat, State))
    ensures r.0 <= left && (r.1.Reading? <==> r.0 == 0) && (r.1.Reading? || r.1.Writing? || r.1.Failed?)
  {
    if left == 0 then (0, Reading)
    else if writes == [] then (left, Writing)
    else
      match writes[0]
      case Interrupted => AfterWrites(left, writes[1..])
      case WouldBlock(_) => (left, Writing)
      case Broken => (left, Failed)
      case Moved(k) => if k == 0 then (left, Writing) else AfterWrites(left - Min(k, left), writes[1..])
  }

  /** The collected response and the state after the answers to the reads. */
  function AfterReads(raw: seq<byte>, input: seq<ReadAnswer>): (r: (seq<byte>, State))
    decreases |input|
    ensures raw <= r.0 && (r.1.Reading? || r.1.Done? || r.1.Failed?)
  {
    if input == [] then (raw, Reading)
    else
      match input[0]
      case ReadInterrupted => AfterReads(raw, input[1..])
      case ReadWouldBlock => (raw, Reading)
      case ReadBroken => (raw, Failed)
      case Got(data) =>
        if data == [] then (raw, Done)
        else if |raw| > MAX_RESPONSE - |data| then (raw, Failed)
        else AfterReads(raw + data, input[1..])
  }

  /** What the reads bring up to the end of the stream, if they get there. */
  function UpToEnd(input: seq<ReadAnswer>): Option<seq<byte>> {
    if input == [] then None
    else
      match input[0]
      case ReadInterrupted => UpToEnd(input[1..])
      case Got(data) =>
        if data == [] then Some([])
        else if UpToEnd(input[1..]).None? then None
        else Some(data + UpToEnd(input[1..]).value)
      case _ => None
  }

  /** A backend is done exactly when everything up to its end was read and fits; then that is what was collected. */
  lemma {:induction false} DoneIff(raw: seq<byte>, input: seq<ReadAnswer>)
    requires |raw| <= MAX_RESPONSE
    ensures AfterReads(raw, input).1.Done? <==> UpToEnd(input).Some? && |raw| + |UpToEnd(input).value| <= MAX_RESPONSE
    ensures AfterReads(raw, input).1.Done? ==> AfterReads(raw, input).0 == raw + UpToEnd(input).value
    decreases |input|
  {
    assert raw + [] == raw;
    if input != [] {
      match input[0]
      case ReadInterrupted => DoneIff(raw, input[1..]);
      case Got(data) =>
        if data != [] && |raw| + |data| <= MAX_RESPONSE {
          DoneIff(raw + data, input[1..]);
          if UpToEnd(input[1..]).Some? {
            Associative(raw, data, UpToEnd(input[1..]).value);
          }
        }
      case _ =>
    }
  }

  /** The writing and the reading part of one readiness event. */
  function AfterTransfer(state: State, left: nat, raw: seq<byte>, writes: seq<Answer>, input: seq<ReadAnswer>)
    : (State, nat, seq<byte>)
  {
    if state.Writing? then
      var w := AfterWrites(left, writes);
      if w.1.Reading? then (AfterReads(raw, input).1, w.0, AfterReads(raw, input).0) else (w.1, w.0, raw)
    else if state.Reading? then (AfterReads(raw, input).1, left, AfterReads(raw, input).0)
    else (state, left, raw)
  }

  /** The state after the connecting part. */
  function AfterConnect(state: State, signalled: bool, socketError: bool): State {
    if !state.Connecting? || !signalled then state else if socketError then Failed else Writing
  }

  /** One readiness event: the state, what is left of the request, and the collected response. */
  function AfterProgress(state: State, left: nat, raw: seq<byte>, signalled: bool, socketError: bool,
                         writes: seq<Answer>, input: seq<ReadAnswer>): (State, nat, seq<byte>)
  {
    AfterTransfer(AfterConnect(state, signalled, socketError), left, raw, writes, input)
  }

  class Stream {
    const id: int
    var fdOpen: bool
    var state: State
    var request: seq<byte>
    var requestOff: nat
    var raw: seq<byte>
    var attempts: nat
    var submitted: bool
    var startedAt: nat
    var next: Stream?
    /** What went to the backend on the current attempt, and how many responses were submitted. */
    ghost var written: seq<byte>
    ghost var submissions: nat

    constructor (id: int, next: Stream?)
      ensures this.id == id && this.next == next && Ok() && state == Idle && attempts == 0 && !submitted
    {
      this.id, this.next := id, next;
      fdOpen, state, request, requestOff, raw := false, Idle, [], 0, [];
      attempts, submitted, startedAt, written, submissions := 0, false, 0, [], 0;
    }

    ghost predicate Ok()
      reads this
    {
      && (fdOpen <==> Busy(state))
      && attempts <= MAX_ATTEMPTS
      && requestOff <= |request| && written == request[..requestOff]
      && (state.Connecting? ==> requestOff == 0) && (state.Reading? ==> requestOff == |request|)
      && submissions == (if submitted then 1 else 0)
      && (submitted ==> !Busy(state))
      && (raw != [] ==> state.Reading? || state.Done? || state.Failed?) && |raw| <= MAX_RESPONSE
    }

    /** A connection attempt begins. */
    method Begin(e: Start)
      requires Ok() && state.Idle? && !submitted && attempts < MAX_ATTEMPTS && raw == []
      modifies this`fdOpen, this`state, this`request, this`requestOff, this`written, this`attempts, this`startedAt
      ensures Ok() && fdOpen && attempts == old(attempts) + 1
      ensures request == e.request && requestOff == 0 && startedAt == e.now
      ensures state == if e.connect.Connected? then Writing else Connecting
    {
      request, requestOff, written := e.request, 0, [];
      fdOpen, state, attempts, startedAt := true, Connecting, attempts + 1, e.now;
      if e.connect.Connected? {
        state := Writing;
      }
    }

    /** The descriptor, if any, is closed and the state set. */
    method End(state: State)
      requires Ok() && !submitted && !Busy(state) && (raw != [] ==> state.Done? || state.Failed?)
      modifies this`fdOpen, this`state
      ensures Ok() && this.state == state && !fdOpen
    {
      this.fdOpen, this.state := false, state;
    }

    /** What was prepared for the last attempt is dropped. */
    method Reset()
      requires Ok() && state.Idle?
      modifies this`request, this`requestOff, this`written
      ensures Ok() && requestOff == 0 && request == []
    {
      request, requestOff, written := [], 0, [];
    }

    /** nghttp2 accepted the response; the collected backend bytes are released. */
    method Submit()
      requires Ok() && !submitted && !Busy(state)
      modifies this`submitted, this`submissions, this`raw
      ensures Ok() && submitted && submissions == 1
    {
      submitted, submissions, raw := true, submissions + 1, [];
    }

    /** The whole request is out. */
    method StartReading()
      requires Ok() && state.Writing? && requestOff == |request|
      modifies this`state
      ensures Ok() && state.Reading?
    {
      state := Reading;
    }

    /** Part of the request went out. */
    method Wrote(n: nat)
      requires Ok() && state.Writing? && requestOff + n <= |request|
      modifies this`requestOff, this`written
      ensures Ok() && requestOff == old(requestOff) + n && old(written) <= written
    {
      written := written + request[requestOff..requestOff + n];
      requestOff := requestOff + n;
    }
  }

  /** What no step takes back: a finished backend stays finished, and a response stays the only one. */
  twostate predicate Kept(s: Stream)
    reads s
  {
    && (old(s.state).Done? ==> s.state.Done?) && (old(s.state).Failed? ==> s.state.Failed?)
    && (old(s.submitted) ==> s.submitted && s.state == old(s.state) && s.submissions == old(s.submissions))
    && old(s.attempts) <= s.attempts
  }

  /** What a retry looks at and changes. */
  datatype Attempt = Attempt(state: State, attempts: nat, request: seq<byte>, requestOff: nat, startedAt: nat, silent: bool)

  function AttemptOf(s: Stream): Attempt
    reads s
  {
    Attempt(s.state, s.attempts, s.request, s.requestOff, s.startedAt, s.raw == [])
  }

  /** A backend that has been silent for too long and may be tried again. */
  predicate Due(a: Attempt, now: nat) {
    a.attempts < MAX_ATTEMPTS && a.silent && Busy(a.state) && now >= a.startedAt + RETRY_MS
  }

  /** A stream that is due starts again from the first byte of its request; any other is left alone. */
  predicate RetriedTo(a: Attempt, b: Attempt, now: nat, e: Start) {
    if Due(a, now) then
      && b.state == Started(e) && b.attempts == (if Reaches(e) then a.attempts + 1 else a.attempts)
      && b.requestOff == 0 && (Reaches(e) ==> b.request == e.request && b.startedAt == e.now)
    else b == a
  }

  twostate predicate Retried(s: Stream, now: nat, e: Start)
    reads s
  {
    RetriedTo(old(AttemptOf(s)), AttemptOf(s), now, e)
  }

  class Connection {
    var streams: Stream?
    var active: nat
    var maxSeen: nat
    ghost var nodes: seq<Stream>
    /** The streams that hold an open backend descriptor. */
    ghost var open: set<Stream>

    constructor ()
      ensures Valid() && nodes == []
    {
      streams, active, maxSeen, nodes, open := null, 0, 0, [], {};
    }

    ghost predicate Linked()
      reads this`streams, this`nodes, nodes`next
    {
      && streams == (if nodes == [] then null else nodes[0])
      && (forall i {:trigger nodes[i].next} :: 0 <= i < |nodes| ==> nodes[i].next == (if i + 1 < |nodes| then nodes[i + 1] else null))
      && (forall i, j :: 0 <= i < j < |nodes| ==> nodes[i].id != nodes[j].id)
    }

    ghost predicate Valid()
      reads this, nodes
    {
      && Linked()
      && (forall s :: s in nodes ==> s.Ok())
      && (forall s :: s in open ==> s in nodes) && (forall s :: s in nodes ==> (s in open <==> s.fdOpen))
      && active == |open|
    }

    // -------------------------------------------------------------- the list

    method FindStream(id: int) returns (s: Stream?)
      requires Valid()
      ensures s != null ==> s in nodes && s.id == id
      ensures s == null ==> forall n :: n in nodes ==> n.id != id
    {
      s := streams;
      ghost var i := 0;
      while s != null
        invariant 0 <= i <= |nodes| && s == (if i < |nodes| then nodes[i] else null)
        invariant forall k :: 0 <= k < i ==> nodes[k].id != id
        decreases |nodes| - i
      {
        if s.id == id {
          return;
        }
        s, i := s.next, i + 1;
      }
    }

    method GetOrCreateStream(id: int) returns (s: Stream)
      requires Valid()
      modifies this
      ensures Valid() && s in nodes && s.id == id
      ensures (exists n :: n in old(nodes) && n.id == id) ==> nodes == old(nodes)
      ensures (forall n :: n in old(nodes) ==> n.id != id) ==>
              fresh(s) && nodes == [s] + old(nodes) && s.state.Idle? && s.attempts == 0 && !s.submitted
      ensures forall n :: n in old(nodes) ==> n in nodes
    {
      var found := FindStream(id);
      if found != null {
        return found;
      }
      s := new Stream(id, streams);
      streams, nodes := s, [s] + nodes;
      Prepended(s);
      var count := CountStreams();
      if count > maxSeen {
        maxSeen := count;
      }
    }

    /** A new stream at the front. */
    twostate lemma Prepended(new s: Stream)
      requires old(Valid()) && nodes == [s] + old(nodes) && streams == s && s.next == old(streams)
      requires s !in old(nodes) && s.Ok() && !s.fdOpen && open == old(open) && active == old(active)
      requires forall n :: n in old(nodes) ==>
                 n.next == old(n.next) && n.Ok() && n.fdOpen == old(n.fdOpen) && n.id != s.id
      ensures Valid() && s in nodes && forall n :: n in old(nodes) ==> n in nodes
    {
      assert forall n :: n in nodes <==> n == s || n in old(nodes);
    }

    method CountStreams() returns (n: nat)
      requires Linked()
      ensures n == |nodes|
    {
      n := 0;
      var cur := streams;
      while cur != null
        invariant n <= |nodes| && cur == (if n < |nodes| then nodes[n] else null)
        decreases |nodes| - n
      {
        n, cur := n + 1, cur.next;
      }
    }

    /** remove_stream: unlinks the stream, closing its descriptor if it has one. */
    method RemoveStream(id: int)
      requires Valid()
      modifies this, nodes
      ensures Valid()
      ensures (forall n :: n in old(nodes) ==> n.id != id) ==> nodes == old(nodes)
      ensures forall i :: 0 <= i < |old(nodes)| && old(nodes)[i].id == id ==>
                nodes == old(nodes)[..i] + old(nodes)[i + 1..] && !old(nodes)[i].fdOpen
      ensures forall n :: n in nodes ==> n in old(nodes)
      ensures forall n :: n in old(nodes) ==> Kept(n) && n.state == old(n.state) && n.submitted == old(n.submitted)
    {
      var prev, cur, i := FindWithPrevious(id);
      if cur == null {
        return;
      }
      Unlink(prev, cur, i);
    }

    /** The stream with the id, and the one before it. */
    method FindWithPrevious(id: int) returns (prev: Stream?, cur: Stream?, ghost i: nat)
      requires Linked()
      ensures cur == null ==> forall k :: 0 <= k < |nodes| ==> nodes[k].id != id
      ensures cur != null ==> i < |nodes| && cur == nodes[i] && cur.id == id && prev == (if i > 0 then nodes[i - 1] else null)
    {
      prev, cur, i := null, streams, 0;
      while cur != null && cur.id != id
        invariant 0 <= i <= |nodes| && cur == (if i < |nodes| then nodes[i] else null)
        invariant prev == (if i > 0 then nodes[i - 1] else null)
        invariant forall k :: 0 <= k < i ==> nodes[k].id != id
        decreases |nodes| - i
      {
        prev, cur, i := cur, cur.next, i + 1;
      }
    }

    method Unlink(prev: Stream?, cur: Stream, ghost i: nat)
      requires Valid() && i < |nodes| && cur == nodes[i] && prev == (if i > 0 then nodes[i - 1] else null)
      modifies this`streams, this`nodes, this`active, this`open, (if prev == null then {} else {prev})`next, cur`fdOpen
      ensures Valid() && nodes == old(nodes)[..i] + old(nodes)[i + 1..] && !cur.fdOpen
    {
      Relink(prev, cur, i);
      DropDescriptor(cur);
    }

    /** Closing the descriptor of a stream that has left the list. */
    method DropDescriptor(cur: Stream)
      requires Linked() && cur !in nodes && forall s :: s in nodes ==> s.Ok()
      requires (forall s :: s in open ==> s in nodes || s == cur) && active == |open|
      requires (forall s :: s in nodes ==> (s in open <==> s.fdOpen)) && (cur in open <==> cur.fdOpen)
      modifies this`active, this`open, cur`fdOpen
      ensures Valid() && !cur.fdOpen
    {
      assert |open - {cur}| == if cur in open then |open| - 1 else |open|;
      open := open - {cur};
      if cur.fdOpen {
        cur.fdOpen := false;
        if active > 0 {
          active := active - 1;
        }
      }
    }

    /** The pointer surgery. */
    method Relink(prev: Stream?, cur: Stream, ghost i: nat)
      requires Linked() && i < |nodes| && cur == nodes[i] && prev == (if i > 0 then nodes[i - 1] else null)
      modifies this`streams, this`nodes, (if prev == null then {} else {prev})`next
      ensures Linked() && nodes == old(nodes)[..i] + old(nodes)[i + 1..]
      ensures forall n :: n in nodes <==> n in old(nodes) && n != cur
    {
      if prev == null {
        streams := cur.next;
      } else {
        prev.next := cur.next;
      }
      ghost var before := nodes;
      nodes := nodes[..i] + nodes[i + 1..];
      forall k | 0 <= k < |nodes|
        ensures nodes[k].next == (if k + 1 < |nodes| then nodes[k + 1] else null)
      {
        assert nodes[k] == before[if k < i then k else k + 1];
        assert before[k] != prev ==> before[k].next == old(before[k].next);
      }
    }

    method FreeAllStreams()
      requires Valid()
      modifies this, nodes
      ensures Valid() && nodes == [] && active == 0
    {
      ghost var all := nodes;
      while streams != null
        invariant Valid() && forall i :: 0 <= i < |nodes| ==> nodes[i] in all
        decreases |nodes|
      {
        RemoveStream(streams.id);
      }
    }

    /** count_backend_fds agrees with the counter. */
    method CountBackendFds() returns (count: nat)
      requires Valid()
      ensures count == active
    {
      count := 0;
      var cur := streams;
      ghost var i, seen: set<Stream> := 0, {};
      while cur != null
        invariant 0 <= i <= |nodes| && cur == (if i < |nodes| then nodes[i] else null)
        invariant seen <= open && count == |seen|
        invariant forall k :: 0 <= k < i && nodes[k] in open ==> nodes[k] in seen
        invariant forall k :: i <= k < |nodes| ==> nodes[k] !in seen
        decreases |nodes| - i
      {
        if cur.fdOpen {
          count, seen := count + 1, seen + {cur};
        }
        cur, i := cur.next, i + 1;
      }
      assert seen == open;
    }

    // -------------------------------------------------------------- one backend

    twostate lemma StillLinked()
      requires old(Linked()) && nodes == old(nodes) && streams == old(streams)
      requires forall n :: n in nodes ==> n.next == old(n.next)
      ensures Linked()
    {
    }

    /** Only `s` changed, and its descriptor with it. */
    twostate lemma StillValid(s: Stream)
      requires old(Valid()) && nodes == old(nodes) && streams == old(streams) && s in nodes && s.Ok()
      requires forall n :: n in nodes ==> n.next == old(n.next)
      requires forall n :: n in nodes && n != s ==> n.Ok() && n.fdOpen == old(n.fdOpen)
      requires open == (if s.fdOpen then old(open) + {s} else old(open) - {s}) && active == |open|
      ensures Valid()
    {
      StillLinked();
    }

    /** close_backend_stream, followed by the state it is closed into. */
    method CloseBackend(s: Stream, state: State)
      requires Valid() && s in nodes && !s.submitted && !Busy(state)
      requires s.raw != [] ==> state.Done? || state.Failed?
      modifies this`active, this`open, s`fdOpen, s`state
      ensures Valid() && s.state == state && !s.fdOpen
    {
      if s.fdOpen {
        if active > 0 {
          active := active - 1;
        }
      }
      open := open - {s};
      s.End(state);
      StillValid(s);
    }

    method OpenBackend(s: Stream, e: Start)
      requires Valid() && s in nodes && s.state.Idle? && !s.submitted && s.attempts < MAX_ATTEMPTS && s.raw == []
      modifies this`active, this`open
      modifies s`fdOpen, s`state, s`request, s`requestOff, s`attempts, s`startedAt, s`written
      ensures Valid() && s.attempts == old(s.attempts) + 1
      ensures s.request == e.request && s.requestOff == 0 && s.startedAt == e.now
      ensures s.state == if e.connect.Connected? then Writing else Connecting
    {
      assert s !in open && |open + {s}| == |open| + 1;
      active, open := active + 1, open + {s};
      s.Begin(e);
      StillValid(s);
    }

    /** start_loopback_request_async */
    method StartLoopback(s: Stream, e: Start)
      requires Valid() && s in nodes && s.state.Idle? && !s.submitted && s.attempts < MAX_ATTEMPTS && s.raw == []
      modifies this`active, this`open, s`fdOpen, s`state, s`request, s`requestOff, s`attempts, s`startedAt, s`written
      ensures Valid() && s.state == Started(e)
      ensures s.attempts == if Reaches(e) then old(s.attempts) + 1 else old(s.attempts)
      ensures Reaches(e) ==> s.request == e.request && s.requestOff == 0 && s.startedAt == e.now
      ensures !Reaches(e) ==> s.request == old(s.request) && s.requestOff == old(s.requestOff)
    {
      if !e.routed || !e.socketOk || |e.request| >= REQUEST_BUFFER {
        s.End(Failed);
        return;
      }
      OpenBackend(s, e);
      if e.connect.Refused? {
        CloseBackend(s, Failed);
      }
    }

    /** retry_delayed_loopback: a backend that stays silent for too long gets a fresh connection. */
    method RetryDelayed(s: Stream, now: nat, e: Start)
      requires Valid() && s in nodes
      modifies this`active, this`open, s`fdOpen, s`state, s`request, s`requestOff, s`attempts, s`startedAt, s`written
      ensures Valid() && Retried(s, now, e)
    {
      if s.attempts >= MAX_ATTEMPTS || |s.raw| > 0 || !Busy(s.state) {
        return;
      }
      if now < s.startedAt + RETRY_MS {
        return;
      }
      CloseBackend(s, Idle);
      s.Reset();
      StartLoopback(s, e);
    }

    /** The kernel's answer to one write; `stop` when the loop ends without the request being out. */
    method WriteOnce(s: Stream, writes: seq<Answer>) returns (stop: bool)
      requires Valid() && s in nodes && s.state.Writing? && s.raw == [] && s.requestOff < |s.request| && writes != []
      modifies this`active, this`open, s`fdOpen, s`state, s`requestOff, s`written
      ensures Valid() && old(s.written) <= s.written <= s.request && (!stop ==> s.state.Writing?)
      ensures AfterWrites(|s.request| - old(s.requestOff), writes) ==
              if stop then (|s.request| - s.requestOff, s.state) else AfterWrites(|s.request| - s.requestOff, writes[1..])
    {
      match writes[0]
      case Interrupted =>
        stop := false;
      case WouldBlock(_) =>
        stop := true;
      case Broken =>
        CloseBackend(s, Failed);
        stop := true;
      case Moved(k) =>
        var n := Min(k, |s.request| - s.requestOff);
        stop := n == 0;
        if n > 0 {
          s.Wrote(n);
        }
    }

    /** The writing part of h2_progress_backend_stream: one attempt writes a prefix of the request, in order. */
    method ProgressWriting(s: Stream, writes: seq<Answer>)
      requires Valid() && s in nodes && s.state.Writing? && s.raw == []
      modifies this`active, this`open, s`fdOpen, s`state, s`requestOff, s`written
      ensures Valid() && old(s.written) <= s.written <= s.request
      ensures (|s.request| - s.requestOff, s.state) == AfterWrites(|s.request| - old(s.requestOff), writes)
    {
      var left := writes;
      ghost var goal := AfterWrites(|s.request| - s.requestOff, writes);
      while s.requestOff < |s.request|
        invariant Valid() && s.state.Writing? && s.raw == []
        invariant old(s.written) <= s.written
        invariant AfterWrites(|s.request| - s.requestOff, left) == goal
        decreases |left|
      {
        if left == [] {
          return;
        }
        var stop := WriteOnce(s, left);
        if stop {
          return;
        }
        left := left[1..];
      }
      s.StartReading();
    }

    /** The reading part: everything the backend says, until it closes or says too much. */
    method ProgressReading(s: Stream, input: seq<ReadAnswer>)
      requires Valid() && s in nodes && s.state.Reading?
      modifies this`active, this`open, s`fdOpen, s`state, s`raw
      ensures Valid() && (s.raw, s.state) == AfterReads(old(s.raw), input)
    {
      var left := input;
      while true
        invariant Valid() && s.state.Reading? && AfterReads(s.raw, left) == AfterReads(old(s.raw), input)
        decreases |left|
      {
        if left == [] {
          return;
        }
        var a := left[0];
        left := left[1..];
        match a
        case ReadInterrupted =>
        case ReadWouldBlock => return;
        case ReadBroken =>
          CloseBackend(s, Failed);
          return;
        case Got(data) =>
          if data == [] {
            CloseBackend(s, Done);
            return;
          }
          if |s.raw| > MAX_RESPONSE - |data| {
            CloseBackend(s, Failed);
            return;
          }
          s.raw := s.raw + data;
      }
    }

    /** The connecting part: nothing, the failure of the connect, or its success. */
    method FinishConnect(s: Stream, signalled: bool, socketError: bool)
      requires Valid() && s in nodes && s.state.Connecting?
      modifies this`active, this`open, s`fdOpen, s`state
      ensures Valid() && s.state == if !signalled then Connecting else if socketError then Failed else Writing
    {
      if !signalled {
        return;
      }
      if socketError {
        CloseBackend(s, Failed);
        return;
      }
      s.state := Writing;
    }

    /** The writing and the reading part. */
    method Transfer(s: Stream, writes: seq<Answer>, input: seq<ReadAnswer>)
      requires Valid() && s in nodes
      modifies this`active, this`open, s`fdOpen, s`state, s`requestOff, s`written, s`raw
      ensures Valid() && (Busy(s.state) ==> old(s.written) <= s.written)
      ensures (s.state, |s.request| - s.requestOff, s.raw) ==
              AfterTransfer(old(s.state), |s.request| - old(s.requestOff), old(s.raw), writes, input)
    {
      ghost var raw := s.raw;
      if s.state.Writing? {
        ProgressWriting(s, writes);
      }
      assert s.raw == raw == old(s.raw);
      if s.state.Reading? {
        ProgressReading(s, input);
      }
    }

    /** h2_progress_backend_stream, for a stream of the list. `signalled`: POLLOUT, POLLERR or POLLHUP. */
    method Progress(s: Stream, signalled: bool, socketError: bool, writes: seq<Answer>, input: seq<ReadAnswer>)
      requires Valid() && s in nodes
      modifies this`active, this`open, s`fdOpen, s`state, s`requestOff, s`written, s`raw
      ensures Valid() && Kept(s)
      ensures (s.state, |s.request| - s.requestOff, s.raw) ==
              AfterProgress(old(s.state), |s.request| - old(s.requestOff), old(s.raw), signalled, socketError, writes, input)
      ensures Busy(s.state) ==> old(s.written) <= s.written
    {
      if s.state.Connecting? {
        FinishConnect(s, signalled, socketError);
      }
      Transfer(s, writes, input);
    }

    // -------------------------------------------------------------- the session's steps

    /** Every stream has a response once its backend is finished. */
    ghost predicate AllAnswered()
      reads this`nodes, nodes
    {
      forall s :: s in nodes && (s.state.Done? || s.state.Failed?) ==> s.submitted
    }

    predicate Answerable(s: Stream, accepts: int -> bool)
      reads s`state
    {
      (s.state.Done? || s.state.Failed?) && accepts(s.id)
    }

    /** One turn of the loop below. */
    method SubmitOne(s: Stream, accepts: int -> bool) returns (ok: bool)
      requires Valid() && s in nodes
      modifies s`submitted, s`submissions, s`raw
      ensures Valid() && Kept(s)
      ensures s.submitted <==> old(s.submitted) || Answerable(s, accepts)
      ensures s.state.Done? || s.state.Failed? ==> (ok <==> s.submitted) && (!ok ==> !accepts(s.id))
      ensures !ok ==> s.state.Done? || s.state.Failed?
    {
      if !s.submitted && (s.state.Done? || s.state.Failed?) {
        if !accepts(s.id) {
          return false;
        }
        s.Submit();
      }
      return true;
    }

    /** submit_ready_streams; `accepts` is nghttp2's answer for each stream. */
    method SubmitReady(accepts: int -> bool) returns (ok: bool)
      requires Valid()
      modifies nodes`submitted, nodes`submissions, nodes`raw
      ensures Valid() && (ok ==> AllAnswered())
      ensures forall s :: s in nodes ==> Kept(s) && (s.submitted ==> old(s.submitted) || Answerable(s, accepts))
      ensures !ok ==> exists s :: s in nodes && !s.submitted && (s.state.Done? || s.state.Failed?) && !accepts(s.id)
    {
      var cur := streams;
      ghost var i := 0;
      while cur != null
        invariant Valid() && 0 <= i <= |nodes| && cur == (if i < |nodes| then nodes[i] else null)
        invariant forall k :: 0 <= k < i ==> (nodes[k].submitted <==> old(nodes[k].submitted) || Answerable(nodes[k], accepts))
        invariant forall k :: i <= k < |nodes| ==> nodes[k].submitted == old(nodes[k].submitted)
        invariant forall k :: 0 <= k < i ==> (nodes[k].state.Done? || nodes[k].state.Failed? ==> nodes[k].submitted)
        decreases |nodes| - i
      {
        assert forall k :: 0 <= k < |nodes| && k != i ==> nodes[k] != cur;
        var sent := SubmitOne(cur, accepts);
        if !sent {
          OnlySubmitted();
          return false;
        }
        cur, i := cur.next, i + 1;
      }
      OnlySubmitted();
      return true;
    }

    /** Streams that only got a response keep what no step takes back. */
    twostate lemma OnlySubmitted()
      requires old(Valid()) && Valid() && nodes == old(nodes)
      requires forall s :: s in nodes ==> s.state == old(s.state) && s.attempts == old(s.attempts)
      requires forall s :: s in nodes && old(s.submitted) ==> s.submitted
      ensures forall s :: s in nodes ==> Kept(s)
    {
    }

    /** retry_delayed_loopbacks */
    method RetryAll(now: nat, starts: int -> Start)
      requires Valid()
      modifies this`active, this`open
      modifies nodes`fdOpen, nodes`state, nodes`request, nodes`requestOff, nodes`attempts, nodes`startedAt, nodes`written
      ensures Valid()
      ensures forall s :: s in nodes ==> Retried(s, now, starts(s.id))
    {
      var cur := streams;
      ghost var all, i := nodes, 0;
      ghost var before := seq(|all|, k requires 0 <= k < |all| reads all => AttemptOf(all[k]));
      while cur != null
        invariant Valid() && nodes == all && 0 <= i <= |nodes| && cur == (if i < |nodes| then nodes[i] else null)
        invariant forall k :: 0 <= k < i ==> RetriedTo(before[k], AttemptOf(nodes[k]), now, starts(nodes[k].id))
        invariant forall k :: i <= k < |nodes| ==> AttemptOf(nodes[k]) == before[k]
        decreases |nodes| - i
      {
        RetryAt(cur, i, now, starts(cur.id));
        cur, i := cur.next, i + 1;
      }
      assert forall k :: 0 <= k < |nodes| ==> Retried(nodes[k], now, starts(nodes[k].id));
    }

    /** One turn: the streams before and behind are not touched. */
    method RetryAt(cur: Stream, ghost i: nat, now: nat, e: Start)
      requires Valid() && i < |nodes| && cur == nodes[i]
      modifies this`active, this`open
      modifies cur`fdOpen, cur`state, cur`request, cur`requestOff, cur`attempts, cur`startedAt, cur`written
      ensures Valid() && RetriedTo(old(AttemptOf(cur)), AttemptOf(cur), now, e)
      ensures forall k :: 0 <= k < |nodes| && k != i ==> AttemptOf(nodes[k]) == old(AttemptOf(nodes[k]))
    {
      assert forall k :: 0 <= k < |nodes| && k != i ==> nodes[k] != cur;
      RetryDelayed(cur, now, e);
    }

    /**
     on_frame_recv_callback for the end of a request. nghttp2 delivers it once per stream, so the stream is still
     untouched.
     */
    method EndRequest(s: Stream, allowed: bool, accepted: bool, e: Start)
      requires Valid() && s in nodes && s.state.Idle? && s.attempts == 0 && !s.submitted
      modifies this`active, this`open, s`submitted, s`submissions
      modifies s`fdOpen, s`state, s`request, s`requestOff, s`attempts, s`startedAt, s`written, s`raw
      ensures Valid() && Kept(s)
      ensures !allowed ==> s.state.Idle? && s.submitted == accepted
      ensures allowed ==> !s.state.Idle? && !s.submitted
    {
      if !allowed {
        if accepted {
          s.Submit();
        }
        return;
      }
      StartLoopback(s, e);
    }

    /** One step of the session: a callback, a readiness event or a pass over the streams. */
    method Step(e: Event)
      requires Valid()
      modifies this, nodes
      ensures Valid()
      ensures forall s :: s in old(nodes) ==> Kept(s)
      ensures forall s :: s in nodes ==> s in old(nodes) || fresh(s)
    {
      match e
      case BeginHeaders(id) =>
        var s := GetOrCreateStream(id);
      case EndOfRequest(id, allowed, accepted, start) =>
        OnEndOfRequest(id, allowed, accepted, start);
      case CloseStream(id) =>
        RemoveStream(id);
      case Retry(now, starts) =>
        RetryAll(now, starts);
      case SubmitResponses(accepts) =>
        var ok := SubmitReady(accepts);
      case BackendReady(id, signalled, socketError, writes, input) =>
        OnBackendReady(id, signalled, socketError, writes, input);
    }

    /** The end of a request, for the stream that has the id. */
    method OnEndOfRequest(id: int, allowed: bool, accepted: bool, start: Start)
      requires Valid()
      modifies this`active, this`open, nodes
      ensures Valid() && nodes == old(nodes) && forall s :: s in nodes ==> Kept(s)
    {
      var s := FindStream(id);
      if s != null && s.state.Idle? && s.attempts == 0 && !s.submitted {
        EndRequest(s, allowed, accepted, start);
      }
    }

    /** A readiness event, for the stream that has the id. */
    method OnBackendReady(id: int, signalled: bool, socketError: bool, writes: seq<Answer>, input: seq<ReadAnswer>)
      requires Valid()
      modifies this`active, this`open, nodes
      ensures Valid() && nodes == old(nodes) && forall s :: s in nodes ==> Kept(s)
    {
      var s := FindStream(id);
      if s != null {
        Progress(s, signalled, socketError, writes, input);
      }
    }
  }

  datatype Event =
    | BeginHeaders(id: int)
    | EndOfRequest(id: int, allowed: bool, accepted: bool, start: Start)
    | CloseStream(id: int)
    | Retry(now: nat, starts: int -> Start)
    | SubmitResponses(accepts: int -> bool)
    | BackendReady(id: int, signalled: bool, socketError: bool, writes: seq<Answer>, input: seq<ReadAnswer>)

  /**
   Every run: whatever the peer, the backends and the clock do, the connection is valid after each step, and when
   all streams are gone no descriptor is left open.
   */
  method Run(events: seq<Event>) returns (c: Connection)
    ensures fresh(c) && c.Valid() && forall k :: 0 <= k < |c.nodes| ==> fresh(c.nodes[k])
    ensures c.nodes == [] ==> c.active == 0
  {
    c := new Connection();
    for i := 0 to |events|
      invariant fresh(c) && c.Valid()
      invariant forall k :: 0 <= k < |c.nodes| ==> fresh(c.nodes[k])
    {
      c.Step(events[i]);
      assert forall k :: 0 <= k < |c.nodes| ==> c.nodes[k] in c.nodes;
    }
    if c.nodes == [] {
      assert c.open == {};
    }
  }

  /** A whole session: whatever happened before, the end of it closes every descriptor and frees every stream. */
  method RunAndClose(events: seq<Event>) returns (c: Connection)
    ensures c.Valid() && c.nodes == [] && c.active == 0 && c.open == {}
  {
    c := Run(events);
    c.FreeAllStreams();
  }
}
