/**
 The HTTP/1.1 connection loop (handle_client_event): one fixed buffer, pipelined requests, bodies framed by
 Content-Length, leftovers moved to the front.
 */
module Connection {
  import opened Bytes
  import opened Wire
  import opened HttpRequest
  import opened HttpHead
  import opened HttpTheorems
  import opened HttpParser
  import opened SmallestRequest

  /** RPSIOD_CLIENT_BUFFER */
  const CAPACITY: nat := 32768

  /** What the loop needs to know about the site a request is for. */
  datatype SiteView = SiteView(maxBody: nat, proxy: bool)

  /** Settings, routing, and whether serving the k-th request of a connection succeeds. */
  datatype Config = Config(
    keepAlive: bool, maxRequests: int,
    site: Request -> Option<SiteView>,
    handlerOk: (nat, Request, seq<byte>) -> bool)

  /** One call of serve_request. */
  datatype Dispatch = Dispatch(req: Request, body: seq<byte>)

  /** Bytes of the messages served: header block and body each. */
  function Sizes(ds: seq<Dispatch>): nat {
    if ds == [] then 0
    else Sizes(ds[..|ds| - 1]) + ds[|ds| - 1].req.headerLen + |ds[|ds| - 1].body|
  }

  lemma OneMoreSize(ds: seq<Dispatch>, d: Dispatch)
    ensures Sizes(ds + [d]) == Sizes(ds) + d.req.headerLen + |d.body|
  {
    assert (ds + [d])[..|ds|] == ds;
  }

  lemma MessageLeaves(messages: seq<byte>, buffered: seq<byte>, n: nat)
    requires n <= |buffered|
    ensures messages + buffered == messages + buffered[..n] + buffered[n..]
  {
    assert buffered == buffered[..n] + buffered[n..];
  }

  /** (unsigned)keep_alive_max_requests */
  function MaxRequests(cfg: Config): nat {
    cfg.maxRequests % 0x1_0000_0000
  }

  /** The two 413 answers: the site's limit, and a message that can never fit the buffer. */
  predicate Refused(cfg: Config, r: Request) {
    var site := cfg.site(r);
    || (site.Some? && r.contentLength > site.value.maxBody)
    || r.headerLen + r.contentLength > CAPACITY
  }

  predicate KeepsAlive(cfg: Config, r: Request, k: nat) {
    var site := cfg.site(r);
    && cfg.keepAlive && r.keepAlive
    && (k + 1) % 0x1_0000_0000 < MaxRequests(cfg)
    && !(site.Some? && site.value.proxy)
  }

  /** The request as serve_request sees it. */
  function Served(cfg: Config, r: Request, k: nat): Request {
    r.(keepAlive := KeepsAlive(cfg, r, k))
  }

  /** A parser of request heads; the server's is IsServerParser below. */
  type Parser = seq<byte> -> Parsed

  /** `s` starts with a whole message. */
  ghost predicate Complete(parse: Parser, s: seq<byte>) {
    var p := parse(s);
    p.Good? && 0 < p.req.headerLen && p.req.headerLen + p.req.contentLength <= |s|
  }

  /** buffered_request_ready */
  ghost predicate Ready(parse: Parser, s: seq<byte>) {
    parse(s) == Bad || Complete(parse, s)
  }

  /** rpsiod_http_parse_request */
  ghost predicate IsServerParser(parse: Parser) {
    forall s {:trigger Parse(Http11(), s)} :: parse(s) == Parse(Http11(), s)
  }

  lemma ServerParserStable(parse: Parser, s: seq<byte>, t: seq<byte>)
    requires IsServerParser(parse)
    ensures parse(s) != Incomplete ==> parse(s + t) == parse(s)
  {
    var p, q := Parse(Http11(), s), Parse(Http11(), s + t);
    if p != Incomplete {
      ParseStable(Http11(), s, t);
    }
  }

  method ReadRequest(buf: seq<byte>, ghost parse: Parser) returns (p: Parsed)
    requires IsServerParser(parse)
    ensures p == parse(buf)
    ensures p.Good? ==> 4 <= p.req.headerLen <= |buf|
  {
    p := ParseRequest(buf, Http11());
    if p.Good? {
      HeadLength(Http11(), buf);
    }
  }

  // ---------------------------------------------------------------- the stream's own framing

  /**
   The requests a byte stream makes the server serve when it has served `k` before, with no mention of reads
   or buffers.
   */
  ghost function Requests(parse: Parser, cfg: Config, s: seq<byte>, k: nat): seq<Dispatch>
    decreases |s|
  {
    if !Complete(parse, s) then []
    else
      var r := parse(s).req;
      var size := r.headerLen + r.contentLength;
      var d := Dispatch(Served(cfg, r, k), s[r.headerLen..size]);
      if Refused(cfg, r) then []
      else if !GoesOn(cfg, d, k) then [d]
      else [d] + Requests(parse, cfg, s[size..], k + 1)
  }

  /** Whether the connection stays open after serving `d` as its k-th request. */
  predicate GoesOn(cfg: Config, d: Dispatch, k: nat) {
    d.req.keepAlive && cfg.handlerOk(k, d.req, d.body)
  }

  /** At most max(1, limit) requests are served on one connection. */
  lemma {:induction false} RequestsBounded(parse: Parser, cfg: Config, s: seq<byte>, k: nat)
    requires k < 0xFFFF_FFFF
    ensures var n := k + |Requests(parse, cfg, s, k)|; n <= MaxRequests(cfg) || n <= k + 1
    decreases |s|
  {
    if Complete(parse, s) {
      var r := parse(s).req;
      if KeepsAlive(cfg, r, k) {
        RequestsBounded(parse, cfg, s[r.headerLen + r.contentLength..], k + 1);
      }
    }
  }

  /**
   What was served and what `buffered` will serve is what the stream serves, however it goes on: the promise
   that makes the framing independent of the reads.
   */
  ghost predicate Tracks(parse: Parser, cfg: Config, received: seq<byte>, served: seq<Dispatch>,
                         buffered: seq<byte>, k: nat)
  {
    && (forall t {:trigger Requests(parse, cfg, buffered + t, k)} ::
          Requests(parse, cfg, received + t, 0) == served + Requests(parse, cfg, buffered + t, k))
    && LeavesSame(parse, cfg, received, buffered, k)
  }

  /** However the stream goes on, it leaves what the buffer and the rest leave. */
  ghost predicate LeavesSame(parse: Parser, cfg: Config, received: seq<byte>, buffered: seq<byte>, k: nat) {
    forall t {:trigger Left(parse, cfg, buffered + t, k)} ::
      Left(parse, cfg, received + t, 0) == Left(parse, cfg, buffered + t, k)
  }

  lemma TracksStart(parse: Parser, cfg: Config)
    ensures Tracks(parse, cfg, [], [], [], 0)
  {
    forall t: seq<byte> ensures [] + t == t {}
    assert forall t: seq<byte> {:trigger Requests(parse, cfg, [] + t, 0)} ::
        Requests(parse, cfg, [] + t, 0) == [] + Requests(parse, cfg, [] + t, 0);
  }

  /** What stays unserved in a stream while the connection goes on; nothing once it is closed after a request. */
  ghost function Left(parse: Parser, cfg: Config, s: seq<byte>, k: nat): Option<seq<byte>>
    decreases |s|
  {
    if !Servable(parse, cfg, s) then Some(s)
    else
      var r := parse(s).req;
      var size := r.headerLen + r.contentLength;
      if GoesOn(cfg, Dispatch(Served(cfg, r, k), s[r.headerLen..size]), k) then Left(parse, cfg, s[size..], k + 1) else None
  }

  /** `s` starts with a whole message that is not refused. */
  ghost predicate Servable(parse: Parser, cfg: Config, s: seq<byte>) {
    Complete(parse, s) && !Refused(cfg, parse(s).req)
  }

  lemma NothingServed(parse: Parser, cfg: Config, s: seq<byte>, k: nat)
    ensures Requests(parse, cfg, s, k) == [] <==> !Servable(parse, cfg, s)
  {
  }

  /** `n` and then what follows a start that left `left`. */
  ghost function AndThen(parse: Parser, cfg: Config, n: seq<Dispatch>, left: Option<seq<byte>>, t: seq<byte>, k: nat): seq<Dispatch> {
    if left.None? then n else n + Requests(parse, cfg, left.value + t, k + |n|)
  }

  /** The requests of a longer stream: those of its start, then those of what the start left and the rest. */
  lemma {:induction false} RequestsSplit(parse: Parser, cfg: Config, s: seq<byte>, t: seq<byte>, k: nat)
    requires IsServerParser(parse)
    ensures Requests(parse, cfg, s + t, k) == AndThen(parse, cfg, Requests(parse, cfg, s, k), Left(parse, cfg, s, k), t, k)
    decreases |s|
  {
    if !Servable(parse, cfg, s) {
      NothingFirst(parse, cfg, s, t, k);
    } else {
      var d, size := FirstOf(parse, cfg, s, k);
      ServerParserStable(parse, s, t);
      RequestsStep(parse, cfg, s, t, k, d, size);
      if GoesOn(cfg, d, k) {
        RequestsSplit(parse, cfg, s[size..], t, k + 1);
        OneMore(parse, cfg, d, Requests(parse, cfg, s[size..], k + 1), Left(parse, cfg, s[size..], k + 1), t, k);
      }
    }
  }

  lemma NothingFirst(parse: Parser, cfg: Config, s: seq<byte>, t: seq<byte>, k: nat)
    requires !Servable(parse, cfg, s)
    ensures Requests(parse, cfg, s + t, k) == AndThen(parse, cfg, Requests(parse, cfg, s, k), Left(parse, cfg, s, k), t, k)
  {
    NothingServed(parse, cfg, s, k);
    AfterNothing(parse, cfg, s, t, k);
  }

  lemma AfterNothing(parse: Parser, cfg: Config, left: seq<byte>, t: seq<byte>, k: nat)
    ensures AndThen(parse, cfg, [], Some(left), t, k) == Requests(parse, cfg, left + t, k)
  {
    var rs := Requests(parse, cfg, left + t, k);
    assert [] + rs == rs;
  }

  lemma OneMore(parse: Parser, cfg: Config, d: Dispatch, n: seq<Dispatch>, left: Option<seq<byte>>, t: seq<byte>, k: nat)
    ensures AndThen(parse, cfg, [d] + n, left, t, k) == [d] + AndThen(parse, cfg, n, left, t, k + 1)
  {
    if left.Some? {
      Associative([d], n, Requests(parse, cfg, left.value + t, k + 1 + |n|));
    }
  }

  /** The message at the front, and what the stream's own framing makes of it. */
  lemma FirstOf(parse: Parser, cfg: Config, s: seq<byte>, k: nat) returns (d: Dispatch, size: nat)
    requires Servable(parse, cfg, s)
    ensures IsFirst(parse, cfg, s, k, d, size) && 0 < size <= |s|
    ensures Requests(parse, cfg, s, k) == if GoesOn(cfg, d, k) then [d] + Requests(parse, cfg, s[size..], k + 1) else [d]
    ensures Left(parse, cfg, s, k) == if GoesOn(cfg, d, k) then Left(parse, cfg, s[size..], k + 1) else None
  {
    var r := parse(s).req;
    size := r.headerLen + r.contentLength;
    d := Dispatch(Served(cfg, r, k), s[r.headerLen..size]);
  }

  /** Bytes that arrive are added to both sides. */
  lemma TracksRead(parse: Parser, cfg: Config, received: seq<byte>, served: seq<Dispatch>,
                   buffered: seq<byte>, k: nat, data: seq<byte>)
    requires Tracks(parse, cfg, received, served, buffered, k)
    ensures Tracks(parse, cfg, received + data, served, buffered + data, k)
  {
    LeavesRead(parse, cfg, received, buffered, k, data);
    forall t
      ensures Requests(parse, cfg, received + data + t, 0) == served + Requests(parse, cfg, buffered + data + t, k)
    {
      assert received + data + t == received + (data + t) && buffered + data + t == buffered + (data + t);
    }
  }

  lemma LeavesRead(parse: Parser, cfg: Config, received: seq<byte>, buffered: seq<byte>, k: nat, data: seq<byte>)
    requires LeavesSame(parse, cfg, received, buffered, k)
    ensures LeavesSame(parse, cfg, received + data, buffered + data, k)
  {
    forall t
      ensures Left(parse, cfg, received + data + t, 0) == Left(parse, cfg, buffered + data + t, k)
    {
      Associative(received, data, t);
      Associative(buffered, data, t);
    }
  }

  lemma LeavesNow(parse: Parser, cfg: Config, received: seq<byte>, buffered: seq<byte>, k: nat)
    requires LeavesSame(parse, cfg, received, buffered, k)
    ensures Left(parse, cfg, received, 0) == Left(parse, cfg, buffered, k)
  {
    assert received + [] == received && buffered + [] == buffered;
  }

  /** Serving the message at the front leaves what the rest leaves. */
  lemma LeavesServe(parse: Parser, cfg: Config, received: seq<byte>, buffered: seq<byte>, k: nat, d: Dispatch, size: nat)
    requires IsServerParser(parse) && LeavesSame(parse, cfg, received, buffered, k)
    requires IsFirst(parse, cfg, buffered, k, d, size) && GoesOn(cfg, d, k)
    ensures LeavesSame(parse, cfg, received, buffered[size..], k + 1)
  {
    forall t
      ensures Left(parse, cfg, received + t, 0) == Left(parse, cfg, buffered[size..] + t, k + 1)
    {
      ServerParserStable(parse, buffered, t);
      LeftStep(parse, cfg, buffered, t, k, d, size);
    }
  }

  lemma LeftStep(parse: Parser, cfg: Config, s: seq<byte>, t: seq<byte>, k: nat, d: Dispatch, size: nat)
    requires IsFirst(parse, cfg, s, k, d, size) && GoesOn(cfg, d, k) && parse(s + t) == parse(s)
    ensures Left(parse, cfg, s + t, k) == Left(parse, cfg, s[size..] + t, k + 1)
  {
    assert (s + t)[parse(s).req.headerLen..size] == d.body;
    assert (s + t)[size..] == s[size..] + t;
  }

  /** What is served is a prefix of what the stream serves, and all of it when the buffer serves nothing. */
  lemma TracksNow(parse: Parser, cfg: Config, received: seq<byte>, served: seq<Dispatch>, buffered: seq<byte>, k: nat)
    requires Tracks(parse, cfg, received, served, buffered, k)
    ensures Requests(parse, cfg, received, 0) == served + Requests(parse, cfg, buffered, k)
  {
    assert received + [] == received && buffered + [] == buffered;
  }

  /** A message that is there is served first, whatever follows. */
  lemma RequestsStep(parse: Parser, cfg: Config, s: seq<byte>, t: seq<byte>, k: nat, d: Dispatch, size: nat)
    requires IsFirst(parse, cfg, s, k, d, size) && parse(s + t) == parse(s)
    ensures Requests(parse, cfg, s + t, k) ==
            if GoesOn(cfg, d, k) then [d] + Requests(parse, cfg, s[size..] + t, k + 1) else [d]
  {
    assert (s + t)[parse(s).req.headerLen..size] == d.body;
    assert (s + t)[size..] == s[size..] + t;
  }

  /** `d` is the message at the front of `s`, `size` bytes long, as the k-th request. */
  ghost predicate IsFirst(parse: Parser, cfg: Config, s: seq<byte>, k: nat, d: Dispatch, size: nat) {
    && Complete(parse, s) && !Refused(cfg, parse(s).req)
    && size == parse(s).req.headerLen + parse(s).req.contentLength
    && d == Dispatch(Served(cfg, parse(s).req, k), s[parse(s).req.headerLen..size])
  }

  lemma ServeThenRest(parse: Parser, cfg: Config, served: seq<Dispatch>, s: seq<byte>, t: seq<byte>, k: nat,
                      d: Dispatch, size: nat)
    requires IsServerParser(parse) && IsFirst(parse, cfg, s, k, d, size)
    ensures served + Requests(parse, cfg, s + t, k) ==
            if GoesOn(cfg, d, k) then served + [d] + Requests(parse, cfg, s[size..] + t, k + 1) else served + [d]
  {
    ServerParserStable(parse, s, t);
    RequestsStep(parse, cfg, s, t, k, d, size);
    Associative(served, [d], Requests(parse, cfg, s[size..] + t, k + 1));
  }

  /** Serving the message at the front of the buffer. */
  lemma TracksServe(parse: Parser, cfg: Config, received: seq<byte>, served: seq<Dispatch>, buffered: seq<byte>,
                    k: nat, d: Dispatch, size: nat)
    requires IsServerParser(parse) && Tracks(parse, cfg, received, served, buffered, k)
    requires IsFirst(parse, cfg, buffered, k, d, size)
    ensures GoesOn(cfg, d, k) ==> Tracks(parse, cfg, received, served + [d], buffered[size..], k + 1)
    ensures !GoesOn(cfg, d, k) ==> Settled(parse, cfg, received, served + [d])
  {
    if GoesOn(cfg, d, k) {
      LeavesServe(parse, cfg, received, buffered, k, d, size);
    }
    forall t
      ensures Requests(parse, cfg, received + t, 0) ==
              if GoesOn(cfg, d, k) then served + [d] + Requests(parse, cfg, buffered[size..] + t, k + 1)
              else served + [d]
    {
      ServeThenRest(parse, cfg, served, buffered, t, k, d, size);
    }
  }

  /** Nothing that could still arrive would change what is served. */
  ghost predicate Settled(parse: Parser, cfg: Config, received: seq<byte>, served: seq<Dispatch>) {
    forall t {:trigger Requests(parse, cfg, received + t, 0)} :: Requests(parse, cfg, received + t, 0) == served
  }

  lemma SettledAt(parse: Parser, cfg: Config, received: seq<byte>, served: seq<Dispatch>, all: seq<byte>)
    requires Settled(parse, cfg, received, served) && received <= all
    ensures Requests(parse, cfg, all, 0) == served
  {
    var t := all[|received|..];
    assert all == received + t;
    assert Requests(parse, cfg, received + t, 0) == served;
  }

  /** A bad or refused head settles the connection. */
  lemma TracksRefuse(parse: Parser, cfg: Config, received: seq<byte>, served: seq<Dispatch>, buffered: seq<byte>, k: nat)
    requires IsServerParser(parse) && Tracks(parse, cfg, received, served, buffered, k)
    requires parse(buffered) == Bad || (parse(buffered).Good? && Refused(cfg, parse(buffered).req))
    ensures Settled(parse, cfg, received, served)
  {
    forall t
      ensures Requests(parse, cfg, received + t, 0) == served
    {
      ServerParserStable(parse, buffered, t);
      assert Requests(parse, cfg, buffered + t, k) == [];
    }
  }

  // ---------------------------------------------------------------- the reads of a connection

  /**
   What the kernel does next: it answers a read, or the next epoll_wait reports a hang-up and the worker closes the
   client between two events without reading; the sweep of idle clients closes in the same way.
   */
  datatype Turn = Read(answer: ReadAnswer) | HangUp

  /** No read of this event can succeed. */
  predicate Waits(answers: seq<Turn>) {
    answers == [] || answers[0].HangUp?
  }

  /** The bytes the peer sends before its end; what stands behind a hang-up has arrived by then and is never read. */
  function BeforeEnd(answers: seq<Turn>): seq<byte> {
    if answers == [] then []
    else
      match answers[0]
      case Read(Got(data)) => if data == [] then [] else data + BeforeEnd(answers[1..])
      case Read(ReadBroken) => []
      case _ => BeforeEnd(answers[1..])
  }

  /** What the stream left before the next read, if that read fills the buffer. */
  ghost predicate Fills(parse: Parser, cfg: Config, received: seq<byte>, data: seq<byte>) {
    var left := Left(parse, cfg, received, 0);
    left.Some? && |left.value| + |data| >= CAPACITY
  }

  /** The requests served when the reads answer so: a read that fills the buffer or a hang-up is the last, and serves nothing. */
  ghost function Dispatched(parse: Parser, cfg: Config, received: seq<byte>, answers: seq<Turn>): seq<Dispatch>
    decreases |answers|
  {
    if answers == [] then Requests(parse, cfg, received, 0)
    else
      match answers[0]
      case Read(Got(data)) =>
        if data == [] || Fills(parse, cfg, received, data) then Requests(parse, cfg, received, 0)
        else Dispatched(parse, cfg, received + data, answers[1..])
      case Read(ReadBroken) => Requests(parse, cfg, received, 0)
      case HangUp => Requests(parse, cfg, received, 0)
      case _ => Dispatched(parse, cfg, received, answers[1..])
  }

  /** A whole servable message lies ahead in what the stream left and what follows. */
  ghost predicate Ahead(parse: Parser, cfg: Config, received: seq<byte>, more: seq<byte>) {
    var left := Left(parse, cfg, received, 0);
    left.Some? && Servable(parse, cfg, left.value + more)
  }

  /** Some read fills the buffer, or a hang-up is reported, while a whole servable message lies ahead in the stream. */
  ghost predicate Loses(parse: Parser, cfg: Config, received: seq<byte>, answers: seq<Turn>)
    decreases |answers|
  {
    answers != [] &&
    match answers[0]
    case Read(Got(data)) =>
      data != [] &&
      if Fills(parse, cfg, received, data) then Ahead(parse, cfg, received, BeforeEnd(answers))
      else Loses(parse, cfg, received + data, answers[1..])
    case Read(ReadBroken) => false
    case HangUp => Ahead(parse, cfg, received, BeforeEnd(answers))
    case _ => Loses(parse, cfg, received, answers[1..])
  }

  /** The requests of a stream are those of its start just when no message lies ahead. */
  lemma AheadIff(parse: Parser, cfg: Config, received: seq<byte>, more: seq<byte>)
    requires IsServerParser(parse)
    ensures Requests(parse, cfg, received, 0) == Requests(parse, cfg, received + more, 0) <==> !Ahead(parse, cfg, received, more)
  {
    var n, left := Requests(parse, cfg, received, 0), Left(parse, cfg, received, 0);
    RequestsSplit(parse, cfg, received, more, 0);
    if left.Some? {
      NothingServed(parse, cfg, left.value + more, |n|);
    }
  }

  /** The exact condition: all requests of the stream are served if and only if no filling read and no hang-up loses one. */
  lemma {:induction false} DispatchedIff(parse: Parser, cfg: Config, received: seq<byte>, answers: seq<Turn>)
    requires IsServerParser(parse)
    ensures Dispatched(parse, cfg, received, answers) == Requests(parse, cfg, received + BeforeEnd(answers), 0) <==>
            !Loses(parse, cfg, received, answers)
    decreases |answers|
  {
    assert received + [] == received;
    if answers != [] {
      match answers[0]
      case Read(Got(data)) =>
        if data != [] && Fills(parse, cfg, received, data) {
          AheadIff(parse, cfg, received, BeforeEnd(answers));
        } else if data != [] {
          Associative(received, data, BeforeEnd(answers[1..]));
          DispatchedIff(parse, cfg, received + data, answers[1..]);
        }
      case Read(ReadBroken) =>
      case HangUp =>
        AheadIff(parse, cfg, received, BeforeEnd(answers));
      case _ =>
        DispatchedIff(parse, cfg, received, answers[1..]);
    }
  }

  /** Once settled, no read changes what is served. */
  lemma {:induction false} SettledDispatched(parse: Parser, cfg: Config, received: seq<byte>, served: seq<Dispatch>,
                                             answers: seq<Turn>)
    requires Settled(parse, cfg, received, served)
    ensures Dispatched(parse, cfg, received, answers) == served
    decreases |answers|
  {
    SettledAt(parse, cfg, received, served, received);
    if answers != [] {
      match answers[0]
      case Read(Got(data)) =>
        if data != [] {
          SettledMore(parse, cfg, received, served, data);
          SettledDispatched(parse, cfg, received + data, served, answers[1..]);
        }
      case Read(ReadBroken) =>
      case HangUp =>
      case _ =>
        SettledDispatched(parse, cfg, received, served, answers[1..]);
    }
  }

  lemma SettledMore(parse: Parser, cfg: Config, received: seq<byte>, served: seq<Dispatch>, data: seq<byte>)
    requires Settled(parse, cfg, received, served)
    ensures Settled(parse, cfg, received + data, served)
  {
    forall t ensures Requests(parse, cfg, received + data + t, 0) == served {
      Associative(received, data, t);
      assert Requests(parse, cfg, received + (data + t), 0) == served;
    }
  }

  // ---------------------------------------------------------------- when no read can fill the buffer

  /** Every message of the stream, and what is left at its end, is at most `m` bytes long. */
  ghost predicate MessagesWithin(parse: Parser, cfg: Config, s: seq<byte>, k: nat, m: nat)
    decreases |s|
  {
    if !Servable(parse, cfg, s) then |s| <= m
    else
      var r := parse(s).req;
      var size := r.headerLen + r.contentLength;
      && size <= m
      && (GoesOn(cfg, Dispatch(Served(cfg, r, k), s[r.headerLen..size]), k) ==> MessagesWithin(parse, cfg, s[size..], k + 1, m))
  }

  /** Then no start of the stream leaves more than `m` bytes. */
  lemma {:induction false} LeftWithin(parse: Parser, cfg: Config, s: seq<byte>, t: seq<byte>, k: nat, m: nat)
    requires IsServerParser(parse) && MessagesWithin(parse, cfg, s + t, k, m)
    ensures Left(parse, cfg, s, k).Some? ==> |Left(parse, cfg, s, k).value| <= m
    decreases |s|
  {
    ServerParserStable(parse, s, t);
    if Servable(parse, cfg, s) {
      var r := parse(s).req;
      var size := r.headerLen + r.contentLength;
      assert (s + t)[r.headerLen..size] == s[r.headerLen..size] && (s + t)[size..] == s[size..] + t;
      if GoesOn(cfg, Dispatch(Served(cfg, r, k), s[r.headerLen..size]), k) {
        LeftWithin(parse, cfg, s[size..], t, k + 1, m);
      }
    } else {
      HeadNotThere(parse, s, t);
    }
  }

  /** As long as nothing is decided, the head is longer than what is there. */
  lemma HeadNotThere(parse: Parser, s: seq<byte>, t: seq<byte>)
    requires IsServerParser(parse)
    ensures parse(s) == Incomplete && parse(s + t).Good? ==> |s| < parse(s + t).req.headerLen
  {
    var p, q := Parse(Http11(), s), Parse(Http11(), s + t);
    if p == Incomplete && q.Good? {
      HeadLength(Http11(), s + t);
      ParseAtHeadEnd(Http11(), s + t, |s|);
      assert (s + t)[..|s|] == s;
    }
  }

  /** What a stream left is not servable by itself. */
  lemma {:induction false} LeftUnservable(parse: Parser, cfg: Config, s: seq<byte>, k: nat)
    ensures Left(parse, cfg, s, k).Some? ==> !Servable(parse, cfg, Left(parse, cfg, s, k).value)
    decreases |s|
  {
    if Servable(parse, cfg, s) {
      var r := parse(s).req;
      var size := r.headerLen + r.contentLength;
      if GoesOn(cfg, Dispatch(Served(cfg, r, k), s[r.headerLen..size]), k) {
        LeftUnservable(parse, cfg, s[size..], k + 1);
      }
    }
  }

  /** Messages of at most `m` bytes, read to their end in pieces shorter than the rest of the buffer, are never lost. */
  lemma {:induction false} ShortMessagesNeverLost(parse: Parser, cfg: Config, received: seq<byte>, answers: seq<Turn>, m: nat)
    requires IsServerParser(parse) && MessagesWithin(parse, cfg, received + BeforeEnd(answers), 0, m)
    requires forall i :: 0 <= i < |answers| && answers[i].Read? && answers[i].answer.Got? ==> |answers[i].answer.data| + m < CAPACITY
    requires forall i :: 0 <= i < |answers| && answers[i].HangUp? ==> BeforeEnd(answers[i..]) == []
    ensures !Loses(parse, cfg, received, answers)
    decreases |answers|
  {
    if answers != [] {
      match answers[0]
      case Read(Got(data)) =>
        if data != [] {
          LeftWithin(parse, cfg, received, BeforeEnd(answers), 0, m);
          Associative(received, data, BeforeEnd(answers[1..]));
          ReadToTheEnd(answers);
          ShortMessagesNeverLost(parse, cfg, received + data, answers[1..], m);
        }
      case Read(ReadBroken) =>
      case HangUp =>
        LeftUnservable(parse, cfg, received, 0);
        assert answers[0..] == answers && forall left: seq<byte> :: left + [] == left;
      case _ =>
        ReadToTheEnd(answers);
        ShortMessagesNeverLost(parse, cfg, received, answers[1..], m);
    }
  }

  lemma ReadToTheEnd(answers: seq<Turn>)
    requires answers != [] && forall i :: 0 <= i < |answers| && answers[i].HangUp? ==> BeforeEnd(answers[i..]) == []
    ensures forall i :: 0 <= i < |answers[1..]| && answers[1..][i].HangUp? ==> BeforeEnd(answers[1..][i..]) == []
  {
    forall i | 0 <= i < |answers[1..]| && answers[1..][i].HangUp?
      ensures BeforeEnd(answers[1..][i..]) == []
    {
      assert answers[1..][i..] == answers[i + 1..] && answers[i + 1].HangUp?;
    }
  }

  // ---------------------------------------------------------------- the client object

  /** Open, closed by the server's own decision, at the end of the stream, by a full buffer, or between two events. */
  datatype Status = Open | Ended | PeerGone | Filled | Dropped

  class Client {
    const buf: array<byte>
    var used: nat
    var keepAliveRequests: nat
    var idle: bool
    var status: Status
    /** The kernel's answers to the reads still to come in this event. */
    var inbox: seq<Turn>
    /** The serve_request calls so far. */
    var dispatched: seq<Dispatch>
    ghost var received: seq<byte>
    ghost var messages: seq<byte>

    constructor ()
      ensures fresh(buf) && buf.Length == CAPACITY && used == 0 && keepAliveRequests == 0 && status == Open
      ensures dispatched == [] && received == [] && messages == []
    {
      buf := new byte[CAPACITY];
      used, keepAliveRequests, idle, status := 0, 0, false, Open;
      inbox, dispatched, received, messages := [], [], [], [];
    }

    ghost function Buffered(): seq<byte>
      requires used <= buf.Length
      reads this, buf
    {
      buf[..used]
    }

    ghost predicate Valid(parse: Parser, cfg: Config)
      reads this, buf
    {
      && buf.Length == CAPACITY && used <= CAPACITY
      && (status == Open ==>
            && used < CAPACITY && received == messages + Buffered() && |messages| == Sizes(dispatched)
            && |dispatched| == keepAliveRequests
            && Tracks(parse, cfg, received, dispatched, Buffered(), keepAliveRequests))
      && (status == Ended ==> Settled(parse, cfg, received, dispatched))
      && (status == PeerGone || status == Dropped ==> dispatched == Requests(parse, cfg, received, 0))
      && (status == Filled ==>
            && used == CAPACITY && |dispatched| == keepAliveRequests
            && Requests(parse, cfg, received, 0) == dispatched + Requests(parse, cfg, Buffered(), keepAliveRequests))
    }

    /** Nothing more can be served before more bytes arrive. */
    ghost predicate Quiet(parse: Parser)
      requires used <= buf.Length
      reads this, buf
    {
      !Ready(parse, Buffered())
    }

    method BufferedRequestReady(ghost parse: Parser) returns (ready: bool)
      requires used <= buf.Length && IsServerParser(parse)
      ensures ready <==> Ready(parse, Buffered())
    {
      var p := ReadRequest(buf[..used], parse);
      if used == 0 {
        EmptyUndecided(parse);
        return false;
      }
      match p
      case Bad => return true;
      case Incomplete => return false;
      case Good(r) =>
        var have := if used > r.headerLen then used - r.headerLen else 0;
        return have >= r.contentLength;
    }

    /** End of file or a read error, with nothing left to serve. */
    method PeerClosed(ghost parse: Parser, ghost cfg: Config)
      requires Valid(parse, cfg) && status == Open && Quiet(parse)
      modifies this`status
      ensures Valid(parse, cfg) && status == PeerGone && dispatched == Requests(parse, cfg, received, 0)
    {
      TracksNow(parse, cfg, received, dispatched, Buffered(), keepAliveRequests);
      status := PeerGone;
    }

    /** 400 or 413: the connection is closed by what is buffered. */
    method Refuse(ghost parse: Parser, ghost cfg: Config)
      requires Valid(parse, cfg) && status == Open && IsServerParser(parse)
      requires parse(Buffered()) == Bad || (parse(Buffered()).Good? && Refused(cfg, parse(Buffered()).req))
      modifies this`status
      ensures Valid(parse, cfg) && status == Ended
    {
      TracksRefuse(parse, cfg, received, dispatched, Buffered(), keepAliveRequests);
      status := Ended;
    }

    /** client_read into the free part of the buffer; a full buffer ends the connection. */
    method Receive(data: seq<byte>, ghost parse: Parser, ghost cfg: Config)
      requires Valid(parse, cfg) && status == Open && data != []
      modifies this`used, this`status, this`received, buf
      ensures Valid(parse, cfg) && (status == Open || status == Filled)
      ensures received == old(received) + data[..Min(|data|, CAPACITY - old(used))]
      ensures status == Open ==> received == old(received) + data
      ensures status == Filled <==> old(used) + |data| >= CAPACITY
    {
      var n := Min(|data|, CAPACITY - used);
      ghost var before := Buffered();
      TracksRead(parse, cfg, received, dispatched, before, keepAliveRequests, data[..n]);
      forall i | 0 <= i < n {
        buf[used + i] := data[i];
      }
      used := used + n;
      received := received + data[..n];
      assert Buffered() == before + data[..n];
      if used == CAPACITY {
        TracksNow(parse, cfg, received, dispatched, Buffered(), keepAliveRequests);
        status := Filled;
      } else {
        assert data[..n] == data;
      }
    }

    /** serve_request for the message at the front, and what becomes of the connection after it. */
    method Serve(r: Request, ghost parse: Parser, cfg: Config)
      requires Valid(parse, cfg) && status == Open && IsServerParser(parse)
      requires Complete(parse, Buffered()) && parse(Buffered()) == Good(r) && !Refused(cfg, r)
      modifies this`used, this`keepAliveRequests, this`idle, this`status, this`dispatched, this`messages, buf
      ensures Valid(parse, cfg) && (status == Open || status == Ended)
      ensures status == Open ==> used < old(used)
    {
      var consumed := r.headerLen + r.contentLength;
      var d := Dispatch(Served(cfg, r, keepAliveRequests), buf[r.headerLen..consumed]);
      assert d.body == Buffered()[r.headerLen..consumed];
      TracksServe(parse, cfg, received, dispatched, Buffered(), keepAliveRequests, d, consumed);
      if GoesOn(cfg, d, keepAliveRequests) {
        KeepAlive(d, consumed, parse, cfg);
      } else {
        Close(d, parse, cfg);
      }
    }

    /** The connection goes on with what follows the message. */
    method KeepAlive(d: Dispatch, consumed: nat, ghost parse: Parser, ghost cfg: Config)
      requires Valid(parse, cfg) && status == Open && 0 < consumed == d.req.headerLen + |d.body| <= used
      requires Tracks(parse, cfg, received, dispatched + [d], Buffered()[consumed..], keepAliveRequests + 1)
      modifies this`used, this`keepAliveRequests, this`idle, this`dispatched, this`messages, buf
      ensures Valid(parse, cfg) && used < old(used)
    {
      OneMoreSize(dispatched, d);
      MessageLeaves(messages, Buffered(), consumed);
      dispatched := dispatched + [d];
      Consume(consumed);
      keepAliveRequests, idle := keepAliveRequests + 1, true;
    }

    /** The message was the last one of the connection. */
    method Close(d: Dispatch, ghost parse: Parser, ghost cfg: Config)
      requires Valid(parse, cfg) && Settled(parse, cfg, received, dispatched + [d])
      modifies this`status, this`dispatched
      ensures Valid(parse, cfg) && status == Ended
    {
      dispatched := dispatched + [d];
      status := Ended;
    }

    /** The leftover bytes move to the front of the buffer. */
    method Consume(n: nat)
      requires n <= used <= buf.Length
      modifies this`used, this`messages, buf
      ensures used == old(used) - n && Buffered() == old(Buffered())[n..]
      ensures messages == old(messages) + old(Buffered())[..n]
    {
      messages := messages + buf[..n];
      assert buf[..n] == buf[..used][..n];
      forall i | 0 <= i < used - n {
        buf[i] := buf[i + n];
      }
      used := used - n;
    }

    /** One request attempt on what is buffered: wait, refuse, or serve. */
    method Attempt(ghost parse: Parser, cfg: Config) returns (served: bool)
      requires Valid(parse, cfg) && status == Open && IsServerParser(parse)
      modifies this`used, this`keepAliveRequests, this`idle, this`status, this`dispatched, this`messages, buf
      ensures Valid(parse, cfg) && (status == Open || status == Ended)
      ensures status == Open && served ==> used < old(used)
      ensures status == Open && !served ==> used == old(used) && !old(Ready(parse, Buffered())) && Quiet(parse)
    {
      served := false;
      var p := ReadRequest(buf[..used], parse);
      match p
      case Incomplete =>
      case Bad => Refuse(parse, cfg);
      case Good(r) =>
        var site := cfg.site(r);
        if site.Some? && r.contentLength > site.value.maxBody {
          Refuse(parse, cfg);
          return;
        }
        var have := if used > r.headerLen then used - r.headerLen else 0;
        if have < r.contentLength {
          if r.contentLength > CAPACITY - r.headerLen {
            Refuse(parse, cfg);
          }
          return;
        }
        Serve(r, parse, cfg);
        served := true;
    }

    /** What will have been served when the reads still to come are over. */
    ghost function Outlook(parse: Parser, cfg: Config): seq<Dispatch>
      reads this`received, this`inbox
    {
      Dispatched(parse, cfg, received, inbox)
    }

    /** All bytes of the stream: those received and those the reads still bring. */
    ghost function Stream(): seq<byte>
      reads this`received, this`inbox
    {
      received + BeforeEnd(inbox)
    }

    /** One read of the event: more data, a retry, a pause or the end. */
    method ReadMore(ghost parse: Parser, ghost cfg: Config) returns (pause: bool, got: bool)
      requires Valid(parse, cfg) && status == Open && Quiet(parse)
      modifies this`used, this`status, this`received, this`inbox, buf
      ensures Valid(parse, cfg) && status != Ended && status != Dropped
      ensures status == Open ==> Outlook(parse, cfg) == old(Outlook(parse, cfg)) && Stream() == old(Stream())
      ensures status != Open ==> dispatched == old(Outlook(parse, cfg)) && received <= old(Stream())
      ensures status == PeerGone ==> received == old(Stream())
      ensures status == Open && !got ==> Quiet(parse)
      ensures pause ==> !got
      ensures |inbox| < |old(inbox)| || (inbox == old(inbox) && Waits(inbox) && pause && status == Open)
      ensures HangUp in inbox ==> HangUp in old(inbox)
    {
      if inbox == [] || inbox[0].HangUp? {
        return true, false;
      }
      var a := inbox[0].answer;
      assert received + [] == received;
      match a
      case ReadInterrupted =>
        inbox := inbox[1..];
        return false, false;
      case ReadWouldBlock =>
        inbox := inbox[1..];
        return true, false;
      case ReadBroken =>
        inbox := inbox[1..];
        PeerClosed(parse, cfg);
        return true, false;
      case Got(data) =>
        if data == [] {
          inbox := inbox[1..];
          PeerClosed(parse, cfg);
          return true, false;
        }
        ReadData(data, parse, cfg);
        return false, true;
    }

    /** close_client without a read: a hang-up, or the sweep. */
    method Drop(ghost parse: Parser, ghost cfg: Config)
      requires Valid(parse, cfg) && status == Open && Quiet(parse) && inbox != [] && inbox[0].HangUp?
      modifies this`status, this`inbox
      ensures Valid(parse, cfg) && status == Dropped && inbox == old(inbox[1..])
      ensures dispatched == old(Outlook(parse, cfg)) && received <= old(Stream())
    {
      TracksNow(parse, cfg, received, dispatched, Buffered(), keepAliveRequests);
      inbox := inbox[1..];
      status := Dropped;
    }

    /** The read brings data. */
    method ReadData(data: seq<byte>, ghost parse: Parser, ghost cfg: Config)
      requires Valid(parse, cfg) && status == Open && Quiet(parse) && data != [] && inbox != [] && inbox[0] == Read(Got(data))
      modifies this`used, this`status, this`received, this`inbox, buf
      ensures Valid(parse, cfg) && (status == Open || status == Filled) && inbox == old(inbox[1..])
      ensures status == Open ==> Outlook(parse, cfg) == old(Outlook(parse, cfg)) && Stream() == old(Stream())
      ensures status != Open ==> dispatched == old(Outlook(parse, cfg)) && received <= old(Stream())
    {
      QuietLeaves(parse, cfg, received, dispatched, Buffered(), keepAliveRequests);
      Associative(received, data, BeforeEnd(inbox[1..]));
      inbox := inbox[1..];
      Receive(data, parse, cfg);
    }

    /** handle_client_event: runs until the kernel has nothing more or the connection is closed. */
    method HandleEvent(ghost parse: Parser, cfg: Config)
      requires Valid(parse, cfg) && status == Open && Quiet(parse) && IsServerParser(parse)
      modifies this, buf
      ensures Valid(parse, cfg)
      ensures status == Open ==> Quiet(parse) && Outlook(parse, cfg) == old(Outlook(parse, cfg)) && Stream() == old(Stream())
      ensures status != Open ==> dispatched == old(Outlook(parse, cfg)) && received <= old(Stream())
      ensures status == PeerGone ==> received == old(Stream())
      ensures |inbox| < |old(inbox)| || (inbox == old(inbox) && Waits(inbox) && status == Open)
      ensures status != Dropped && (HangUp in inbox ==> HangUp in old(inbox))
    {
      ghost var outlook, stream := Outlook(parse, cfg), Stream();
      var stop := false;
      while !stop
        invariant Valid(parse, cfg) && (status == Open || stop) && (stop && status == Open ==> Quiet(parse))
        invariant status == Open ==> Outlook(parse, cfg) == outlook && Stream() == stream
        invariant status != Open ==> dispatched == outlook && received <= stream
        invariant status == PeerGone ==> received == stream
        invariant |inbox| < |old(inbox)| || (inbox == old(inbox) && status == Open && Quiet(parse) && (stop ==> Waits(inbox)))
        invariant status != Dropped && (HangUp in inbox ==> HangUp in old(inbox))
        decreases !stop, |inbox|, used
      {
        stop := Turn(parse, cfg);
      }
    }

    /** One turn of the loop: `stop` when the event is over. */
    method Turn(ghost parse: Parser, cfg: Config) returns (stop: bool)
      requires Valid(parse, cfg) && status == Open && IsServerParser(parse)
      modifies this, buf
      ensures Valid(parse, cfg) && (status == Open || stop) && (stop && status == Open ==> Quiet(parse))
      ensures status == Open ==> Outlook(parse, cfg) == old(Outlook(parse, cfg)) && Stream() == old(Stream())
      ensures status != Open ==> dispatched == old(Outlook(parse, cfg)) && received <= old(Stream())
      ensures status == PeerGone ==> received == old(Stream())
      ensures |inbox| < |old(inbox)| ||
              (inbox == old(inbox) && if old(Quiet(parse)) then stop && Waits(inbox) && status == Open else stop || used < old(used))
      ensures status != Dropped && (HangUp in inbox ==> HangUp in old(inbox))
    {
      var ready := BufferedRequestReady(parse);
      if !ready {
        var pause, got := ReadMore(parse, cfg);
        if pause || status != Open {
          return true;
        }
        if !got {
          return false;
        }
      }
      stop := AttemptOne(parse, cfg);
    }

    /** The request attempt of a turn. */
    method AttemptOne(ghost parse: Parser, cfg: Config) returns (stop: bool)
      requires Valid(parse, cfg) && status == Open && IsServerParser(parse)
      modifies this`used, this`keepAliveRequests, this`idle, this`status, this`dispatched, this`messages, buf
      ensures Valid(parse, cfg) && (status == Open || (stop && status == Ended))
      ensures stop && status == Open ==> Quiet(parse)
      ensures status == Ended ==> dispatched == Outlook(parse, cfg)
      ensures stop || used < old(used) || !old(Ready(parse, Buffered()))
    {
      var served := Attempt(parse, cfg);
      if status != Open {
        SettledDispatched(parse, cfg, received, dispatched, inbox);
        return true;
      }
      stop := false;
      if served {
        var ready := BufferedRequestReady(parse);
        stop := !ready;
      }
    }
  }

  /** With nothing servable in the buffer, the buffer is what the stream left. */
  lemma QuietLeaves(parse: Parser, cfg: Config, received: seq<byte>, served: seq<Dispatch>, buffered: seq<byte>, k: nat)
    requires Tracks(parse, cfg, received, served, buffered, k) && !Ready(parse, buffered)
    ensures Left(parse, cfg, received, 0) == Some(buffered)
    ensures Requests(parse, cfg, received, 0) == served
  {
    LeavesNow(parse, cfg, received, buffered, k);
    TracksNow(parse, cfg, received, served, buffered, k);
  }

  lemma EmptyUndecided(parse: Parser)
    requires IsServerParser(parse)
    ensures parse([]) == Incomplete
  {
    var p := Parse(Http11(), []);
    assert Find<byte>([], CRLFCRLF).None?;
  }

  // ---------------------------------------------------------------- whole connections

  /**
   A whole connection: events until the kernel's answers run out or the connection is closed. The requests served
   are those of the bytes sent before the peer left, however they were cut into reads and events, if and only if no
   read fills the buffer and no hang-up is reported with a whole message still to serve. While the connection is open,
   every byte is in a served message or in the buffer.
   */
  method RunConnection(answers: seq<Turn>, ghost parse: Parser, cfg: Config) returns (client: Client)
    requires IsServerParser(parse)
    ensures client.dispatched == Dispatched(parse, cfg, [], answers)
    ensures client.dispatched == Requests(parse, cfg, BeforeEnd(answers), 0) <==> !Loses(parse, cfg, [], answers)
    ensures client.status != Filled && client.status != Dropped ==>
              client.dispatched == Requests(parse, cfg, BeforeEnd(answers), 0)
    ensures client.status == Dropped ==>
              HangUp in answers && client.received <= BeforeEnd(answers) && client.dispatched == Requests(parse, cfg, client.received, 0)
    ensures client.status == Filled ==>
            && client.used == CAPACITY == client.buf.Length
            && client.received <= BeforeEnd(answers)
            && (client.dispatched == Requests(parse, cfg, client.received, 0) <==> !Servable(parse, cfg, client.buf[..]))
    ensures client.status == PeerGone ==> client.received == BeforeEnd(answers)
    ensures client.status == Open ==>
            client.used <= client.buf.Length && BeforeEnd(answers) == client.messages + client.buf[..client.used] &&
            |client.messages| == Sizes(client.dispatched)
    ensures |client.dispatched| <= if MaxRequests(cfg) < 1 then 1 else MaxRequests(cfg)
  {
    client := new Client();
    client.inbox := answers;
    TracksStart(parse, cfg);
    EmptyUndecided(parse);
    assert client.Buffered() == [] && client.Stream() == BeforeEnd(answers);
    while client.status == Open && client.inbox != []
      invariant fresh(client) && fresh(client.buf) && client.Valid(parse, cfg)
      invariant client.status == Open ==>
                && client.Quiet(parse) && client.Stream() == BeforeEnd(answers)
                && client.Outlook(parse, cfg) == Dispatched(parse, cfg, [], answers)
      invariant client.status != Open ==>
                client.dispatched == Dispatched(parse, cfg, [], answers) && client.received <= BeforeEnd(answers)
      invariant client.status == PeerGone ==> client.received == BeforeEnd(answers)
      invariant (client.status == Dropped || HangUp in client.inbox) ==> HangUp in answers
      decreases |client.inbox|
    {
      if client.inbox[0].HangUp? {
        client.Drop(parse, cfg);
      } else {
        client.HandleEvent(parse, cfg);
      }
    }
    DispatchedIff(parse, cfg, [], answers);
    assert [] + BeforeEnd(answers) == BeforeEnd(answers);
    RequestsBounded(parse, cfg, client.received, 0);
    if client.status == Open {
      assert client.received + [] == client.received;
      QuietLeaves(parse, cfg, client.received, client.dispatched, client.Buffered(), client.keepAliveRequests);
    } else if client.status == Ended {
      SettledAt(parse, cfg, client.received, client.dispatched, BeforeEnd(answers));
      SettledAt(parse, cfg, client.received, client.dispatched, client.received);
    } else if client.status == Filled {
      assert client.buf[..] == client.Buffered();
      NothingServed(parse, cfg, client.Buffered(), client.keepAliveRequests);
    }
  }

  lemma SmallestIsServable(parse: Parser, cfg: Config, more: seq<byte>)
    requires IsServerParser(parse)
    ensures Servable(parse, cfg, SMALLEST + more)
  {
    var p := Parse(Http11(), SMALLEST);
    SmallestIsServed();
    ServerParserStable(parse, SMALLEST, more);
  }

  /** An input that is lost: a whole request and a body's worth of other bytes, all in one read, of which nothing is served. */
  method OneBigRead(ghost parse: Parser, cfg: Config) returns (data: seq<byte>, client: Client)
    requires IsServerParser(parse)
    ensures client.status == Filled && client.dispatched == []
    ensures Requests(parse, cfg, data, 0) != []
  {
    data := SMALLEST + seq(CAPACITY, _ => 0);
    SmallestIsServable(parse, cfg, seq(CAPACITY, _ => 0));
    NothingServed(parse, cfg, data, 0);
    EmptyUndecided(parse);
    var answers := [Read(Got(data))];
    assert answers[1..] == [] && data + [] == data;
    client := RunConnection(answers, parse, cfg);
    ghost var left := Left(parse, cfg, [], 0);
    assert left == Some([]);
  }

  /** Another: the peer sends a whole request and closes its side before the server's next epoll_wait. */
  method SentAndClosed(ghost parse: Parser, cfg: Config) returns (client: Client)
    requires IsServerParser(parse)
    ensures client.dispatched == [] && Requests(parse, cfg, SMALLEST, 0) != []
  {
    SmallestIsServable(parse, cfg, []);
    assert SMALLEST + [] == SMALLEST;
    NothingServed(parse, cfg, SMALLEST, 0);
    EmptyUndecided(parse);
    NothingServed(parse, cfg, [], 0);
    client := RunConnection([HangUp, Read(Got(SMALLEST))], parse, cfg);
  }
}
