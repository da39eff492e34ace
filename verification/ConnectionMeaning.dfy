/** What the requests served on a connection are, message by message, and what keeps it open. */
module ConnectionMeaning {
  import opened Bytes
  import opened Wire
  import opened HttpRequest
  import opened Connection

  /** The bytes start with a whole message. */
  ghost predicate Whole(parse: Parser, s: seq<byte>) {
    parse(s).Good? && 0 < parse(s).req.headerLen && parse(s).req.headerLen + parse(s).req.contentLength <= |s|
  }

  /** It fits the buffer of 32768 bytes, and its body the limit of its site. */
  predicate Admitted(cfg: Config, r: Request) {
    && r.headerLen + r.contentLength <= 32768
    && (cfg.site(r).Some? ==> r.contentLength <= cfg.site(r).value.maxBody)
  }

  /** The peer wants more, the server keeps connections, the count allows it, and no proxy takes the connection over. */
  predicate MayGoOn(cfg: Config, r: Request, k: nat) {
    && r.keepAlive && cfg.keepAlive && (k + 1) % 0x1_0000_0000 < cfg.maxRequests % 0x1_0000_0000
    && (cfg.site(r).Some? ==> !cfg.site(r).value.proxy)
  }

  /** `d` is the k-th request, made of the message at the front of `s`. */
  ghost predicate MadeOf(parse: Parser, cfg: Config, s: seq<byte>, k: nat, d: Dispatch) {
    && Whole(parse, s) && Admitted(cfg, parse(s).req)
    && d.req == parse(s).req.(keepAlive := MayGoOn(cfg, parse(s).req, k))
    && d.body == s[parse(s).req.headerLen..parse(s).req.headerLen + parse(s).req.contentLength]
  }

  /** The connection is open after it. */
  ghost predicate OpenAfter(parse: Parser, cfg: Config, s: seq<byte>, k: nat, d: Dispatch) {
    parse(s).Good? && MayGoOn(cfg, parse(s).req, k) && cfg.handlerOk(k, d.req, d.body)
  }

  /** Where the i-th message starts. */
  function Start(ds: seq<Dispatch>, i: nat): nat
    requires i <= |ds|
  {
    Sizes(ds[..i])
  }

  ghost predicate EntryOk(parse: Parser, cfg: Config, s: seq<byte>, k: nat, ds: seq<Dispatch>, i: nat)
    requires i < |ds|
  {
    && Start(ds, i) <= |s| && MadeOf(parse, cfg, s[Start(ds, i)..], k + i, ds[i])
    && (i + 1 < |ds| ==> OpenAfter(parse, cfg, s[Start(ds, i)..], k + i, ds[i]))
  }

  /** Behind the last one the connection is closed, or no whole message stands that is admitted. */
  ghost predicate EndOk(parse: Parser, cfg: Config, s: seq<byte>, k: nat, ds: seq<Dispatch>) {
    var n := |ds|;
    Start(ds, n) <= |s| &&
    ((n > 0 ==> Start(ds, n - 1) <= |s| && OpenAfter(parse, cfg, s[Start(ds, n - 1)..], k + n - 1, ds[n - 1])) ==>
       !(Whole(parse, s[Start(ds, n)..]) && Admitted(cfg, parse(s[Start(ds, n)..]).req)))
  }

  /** `ds` are the requests that the stream `s` makes the server serve when it has served `k` before. */
  ghost predicate IsLog(parse: Parser, cfg: Config, s: seq<byte>, k: nat, ds: seq<Dispatch>) {
    (forall i :: 0 <= i < |ds| ==> EntryOk(parse, cfg, s, k, ds, i)) && EndOk(parse, cfg, s, k, ds)
  }

  lemma {:induction false} SizesCons(d: Dispatch, ds: seq<Dispatch>)
    ensures Sizes([d] + ds) == d.req.headerLen + |d.body| + Sizes(ds)
  {
    if ds == [] {
      assert [d] + ds == [] + [d];
      OneMoreSize([], d);
    } else {
      var n := |ds| - 1;
      assert ds == ds[..n] + [ds[n]] && [d] + ds == ([d] + ds[..n]) + [ds[n]];
      SizesCons(d, ds[..n]);
      OneMoreSize(ds[..n], ds[n]);
      OneMoreSize([d] + ds[..n], ds[n]);
    }
  }

  lemma StartShift(ds: seq<Dispatch>, i: nat)
    requires i < |ds|
    ensures Start(ds, i + 1) == ds[0].req.headerLen + |ds[0].body| + Start(ds[1..], i) && Start(ds, 0) == 0
  {
    assert ds[..i + 1] == [ds[0]] + ds[1..][..i];
    SizesCons(ds[0], ds[1..][..i]);
  }

  /** A later entry is an entry of the rest. */
  lemma EntryShift(parse: Parser, cfg: Config, s: seq<byte>, k: nat, ds: seq<Dispatch>, i: nat, size: nat)
    requires i + 1 < |ds| && size == ds[0].req.headerLen + |ds[0].body| <= |s|
    ensures EntryOk(parse, cfg, s, k, ds, i + 1) <==> EntryOk(parse, cfg, s[size..], k + 1, ds[1..], i)
  {
    StartShift(ds, i);
    var off := Start(ds[1..], i);
    if size + off <= |s| {
      assert s[size..][off..] == s[size + off..];
    }
  }

  lemma EndShift(parse: Parser, cfg: Config, s: seq<byte>, k: nat, ds: seq<Dispatch>, size: nat)
    requires 0 < |ds| && size == ds[0].req.headerLen + |ds[0].body| <= |s| && OpenAfter(parse, cfg, s, k, ds[0])
    ensures EndOk(parse, cfg, s, k, ds) <==> EndOk(parse, cfg, s[size..], k + 1, ds[1..])
  {
    var n := |ds|;
    StartShift(ds, n - 1);
    var off := Start(ds[1..], n - 1);
    if size + off <= |s| {
      assert s[size..][off..] == s[size + off..];
    }
    assert s[0..] == s;
    if n > 1 {
      StartShift(ds, n - 2);
      var before := Start(ds[1..], n - 2);
      if size + before <= |s| {
        assert s[size..][before..] == s[size + before..];
      }
    }
  }

  lemma NothingToServe(parse: Parser, cfg: Config, s: seq<byte>, k: nat, ds: seq<Dispatch>)
    requires !(Whole(parse, s) && Admitted(cfg, parse(s).req))
    ensures IsLog(parse, cfg, s, k, ds) <==> ds == []
  {
    assert s[0..] == s;
    if ds != [] {
      assert ds[..0] == [];
      assert !EntryOk(parse, cfg, s, k, ds, 0);
    }
  }

  /** The first request, and whether the connection goes on after it. */
  lemma FirstEntry(parse: Parser, cfg: Config, s: seq<byte>, k: nat, ds: seq<Dispatch>)
    requires Whole(parse, s) && Admitted(cfg, parse(s).req) && IsLog(parse, cfg, s, k, ds)
    ensures ds != [] && MadeOf(parse, cfg, s, k, ds[0]) && (|ds| > 1 ==> OpenAfter(parse, cfg, s, k, ds[0]))
  {
    assert s[0..] == s;
    if ds != [] {
      assert ds[..0] == [];
      assert EntryOk(parse, cfg, s, k, ds, 0);
    }
  }

  lemma OneEntry(parse: Parser, cfg: Config, s: seq<byte>, k: nat, d: Dispatch)
    requires MadeOf(parse, cfg, s, k, d) && !OpenAfter(parse, cfg, s, k, d)
    ensures IsLog(parse, cfg, s, k, [d])
  {
    var ds := [d];
    assert s[0..] == s && ds[..0] == [] && ds[..1] == [] + [d];
    OneMoreSize([], d);
    assert EntryOk(parse, cfg, s, k, ds, 0);
  }

  /** A log goes on with the log of what follows the first message. */
  lemma LogShift(parse: Parser, cfg: Config, s: seq<byte>, k: nat, ds: seq<Dispatch>, size: nat)
    requires 0 < |ds| && size == ds[0].req.headerLen + |ds[0].body| <= |s|
    requires MadeOf(parse, cfg, s, k, ds[0]) && OpenAfter(parse, cfg, s, k, ds[0])
    ensures IsLog(parse, cfg, s, k, ds) <==> IsLog(parse, cfg, s[size..], k + 1, ds[1..])
  {
    assert s[0..] == s && ds[..0] == [];
    assert EntryOk(parse, cfg, s, k, ds, 0);
    EndShift(parse, cfg, s, k, ds, size);
    var rest, s', k' := ds[1..], s[size..], k + 1;
    if IsLog(parse, cfg, s, k, ds) {
      forall i | 0 <= i < |rest| ensures EntryOk(parse, cfg, s', k', rest, i) {
        assert EntryOk(parse, cfg, s, k, ds, i + 1);
        EntryShift(parse, cfg, s, k, ds, i, size);
      }
    }
    if IsLog(parse, cfg, s', k', rest) {
      forall i | 0 <= i < |ds| ensures EntryOk(parse, cfg, s, k, ds, i) {
        if i > 0 {
          assert EntryOk(parse, cfg, s', k', rest, i - 1);
          EntryShift(parse, cfg, s, k, ds, i - 1, size);
        }
      }
    }
  }

  /** The first step of Requests, told without its helpers. */
  lemma RequestsUnfold(parse: Parser, cfg: Config, s: seq<byte>, k: nat)
    ensures var rs := Requests(parse, cfg, s, k);
            if !(Whole(parse, s) && Admitted(cfg, parse(s).req)) then rs == []
            else
              && rs != [] && MadeOf(parse, cfg, s, k, rs[0])
              && var size := rs[0].req.headerLen + |rs[0].body|;
                 && 0 < size <= |s|
                 && rs == if OpenAfter(parse, cfg, s, k, rs[0]) then [rs[0]] + Requests(parse, cfg, s[size..], k + 1) else [rs[0]]
  {
  }

  lemma MadeOnce(parse: Parser, cfg: Config, s: seq<byte>, k: nat, d: Dispatch, d': Dispatch)
    requires MadeOf(parse, cfg, s, k, d) && MadeOf(parse, cfg, s, k, d')
    ensures d == d'
  {
  }

  /** The exact meaning: the requests of a stream are its only log. */
  lemma {:induction false} RequestsIff(parse: Parser, cfg: Config, s: seq<byte>, k: nat, ds: seq<Dispatch>)
    ensures IsLog(parse, cfg, s, k, ds) <==> ds == Requests(parse, cfg, s, k)
    decreases |s|, 1
  {
    RequestsUnfold(parse, cfg, s, k);
    var rs := Requests(parse, cfg, s, k);
    if !(Whole(parse, s) && Admitted(cfg, parse(s).req)) {
      NothingToServe(parse, cfg, s, k, ds);
    } else {
      RequestsIffStep(parse, cfg, s, k, ds, rs, rs[0]);
    }
  }

  lemma {:induction false} RequestsIffStep(parse: Parser, cfg: Config, s: seq<byte>, k: nat, ds: seq<Dispatch>, rs: seq<Dispatch>, d: Dispatch)
    requires Whole(parse, s) && Admitted(cfg, parse(s).req) && MadeOf(parse, cfg, s, k, d)
    requires 0 < d.req.headerLen + |d.body| <= |s|
    requires rs == if OpenAfter(parse, cfg, s, k, d) then [d] + Requests(parse, cfg, s[d.req.headerLen + |d.body|..], k + 1) else [d]
    ensures IsLog(parse, cfg, s, k, ds) <==> ds == rs
    decreases |s|, 0
  {
    var size := d.req.headerLen + |d.body|;
    if OpenAfter(parse, cfg, s, k, d) {
      if ds != [] && ds[0] == d {
        LogShift(parse, cfg, s, k, ds, size);
        RequestsIff(parse, cfg, s[size..], k + 1, ds[1..]);
        assert ds == [d] + ds[1..];
      }
    } else {
      OneEntry(parse, cfg, s, k, d);
    }
    if IsLog(parse, cfg, s, k, ds) {
      FirstEntry(parse, cfg, s, k, ds);
      MadeOnce(parse, cfg, s, k, d, ds[0]);
    }
  }

  // ---------------------------------------------------------------- what the peer sends

  /** The peer has ended: its end of file, or an error. */
  predicate Ends(t: Turn) {
    t == Read(Got([])) || t == Read(ReadBroken)
  }

  /** All the bytes of the reads, wherever they stand. */
  function Brought(turns: seq<Turn>): seq<byte> {
    if turns == [] then []
    else Brought(turns[..|turns| - 1]) + (if turns[|turns| - 1].Read? && turns[|turns| - 1].answer.Got? then turns[|turns| - 1].answer.data else [])
  }

  lemma {:induction false} BytesCons(t: Turn, turns: seq<Turn>)
    ensures Brought([t] + turns) == (if t.Read? && t.answer.Got? then t.answer.data else []) + Brought(turns)
  {
    if turns == [] {
      assert ([t] + turns)[..0] == [];
    } else {
      var n := |turns| - 1;
      assert ([t] + turns)[..n + 1] == [t] + turns[..n];
      BytesCons(t, turns[..n]);
    }
  }

  /** What is sent are the bytes of all reads before the first end; hang-ups and pauses do not matter. */
  lemma {:induction false} SentBeforeEnd(turns: seq<Turn>, end: Turn, more: seq<Turn>)
    requires (forall i :: 0 <= i < |turns| ==> !Ends(turns[i])) && Ends(end)
    ensures BeforeEnd(turns) == Brought(turns) == BeforeEnd(turns + [end] + more)
  {
    if turns == [] {
      assert (turns + [end] + more)[0] == end;
    } else {
      assert (turns + [end] + more)[1..] == turns[1..] + [end] + more && turns == [turns[0]] + turns[1..];
      SentBeforeEnd(turns[1..], end, more);
      BytesCons(turns[0], turns[1..]);
    }
  }
}
