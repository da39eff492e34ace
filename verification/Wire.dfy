/**
 A connected socket seen from the server. The kernel's answers are a finite script fixed in advance,
 so a contract that holds here holds for every way the kernel may split, delay or refuse the transfers;
 a call beyond the end of the script fails.
 */
module Wire {
  import opened Bytes

  datatype Answer =
    | Moved(n: nat)              // bytes moved; clipped to what was asked for
    | Interrupted                // EINTR
    | WouldBlock(ready: bool)    // EAGAIN, and whether the following poll reports readiness
    | Broken                     // any other error

  /** What a non-blocking read(2) says; no data is the end of the stream. */
  datatype ReadAnswer = Got(data: seq<byte>) | ReadInterrupted | ReadWouldBlock | ReadBroken

  /** An answer that does not end a transfer. */
  predicate Willing(a: Answer) {
    a.Interrupted? || a == WouldBlock(true) || (a.Moved? && a.n > 0)
  }

  /** `after` is what is left of the script `before`. */
  ghost predicate Used(before: seq<Answer>, after: seq<Answer>) {
    |after| <= |before| && after == before[|before| - |after|..]
  }

  /** The script ended, or the last answer used was an unwilling one: the only reasons for a transfer to fail. */
  ghost predicate GaveUp(before: seq<Answer>, after: seq<Answer>) {
    && Used(before, after)
    && (after == [] || (|after| < |before| && !Willing(before[|before| - |after| - 1])))
  }

  /** What the kernel takes, if it is offered enough, before its first refusal. */
  function Takes(answers: seq<Answer>): nat {
    if answers == [] || answers[0] == Broken || answers[0] == WouldBlock(false) || answers[0] == Moved(0) then 0
    else (if answers[0].Moved? then answers[0].n else 0) + Takes(answers[1..])
  }

  /** One answer of the script, clipped to what was asked for. */
  ghost predicate Answered(before: seq<Answer>, after: seq<Answer>, a: Answer, asked: nat) {
    if before == [] then a == Broken
    else after == before[1..] && a == if before[0].Moved? then Moved(Min(before[0].n, asked)) else before[0]
  }

  /** `done` of `len` bytes are out, and the answers to come take the rest or not. */
  ghost predicate Going(done: nat, len: nat, answers: seq<Answer>, takes: nat) {
    done <= len && if done < len then done + Takes(answers) == takes else len <= takes
  }

  lemma GoingOn(done: nat, len: nat, before: seq<Answer>, after: seq<Answer>, a: Answer, takes: nat)
    requires Going(done, len, before, takes) && done < len && Answered(before, after, a, len - done)
    ensures a == Interrupted || a == WouldBlock(true) ==> Going(done, len, after, takes)
    ensures a.Moved? && a.n > 0 ==> a.n <= len - done && Going(done + a.n, len, after, takes)
    ensures a == Broken || a == WouldBlock(false) || a == Moved(0) ==> takes == done
  {
  }

  lemma OneUsed(before: seq<Answer>)
    requires before != []
    ensures Used(before, before[1..]) && (!Willing(before[0]) ==> GaveUp(before, before[1..]))
  {
  }

  lemma UsedThen(a: seq<Answer>, b: seq<Answer>, c: seq<Answer>)
    requires Used(a, b) && Used(b, c)
    ensures Used(a, c) && (GaveUp(b, c) ==> GaveUp(a, c))
  {
  }

  class Socket {
    var sent: seq<byte>
    var answers: seq<Answer>

    constructor (answers: seq<Answer>)
      ensures sent == [] && this.answers == answers
    {
      this.sent, this.answers := [], answers;
    }

    /** write(2) and writev(2) */
    method Write(data: seq<byte>) returns (a: Answer)
      modifies this
      ensures a.Moved? ==> a.n <= |data| && sent == old(sent) + data[..a.n]
      ensures !a.Moved? ==> sent == old(sent)
      ensures a != Broken ==> |answers| < |old(answers)|
      ensures Answered(old(answers), answers, a, |data|)
      ensures Used(old(answers), answers) && (data != [] && !Willing(a) ==> GaveUp(old(answers), answers))
    {
      if answers == [] {
        return Broken;
      }
      OneUsed(answers);
      a, answers := answers[0], answers[1..];
      if a.Moved? {
        a := Moved(Min(a.n, |data|));
        sent := sent + data[..a.n];
      }
    }

    /** client_write_all: all of `data` if the kernel takes that much, or failure after the strict prefix it takes. */
    method WriteAll(data: seq<byte>) returns (ok: bool)
      modifies this
      ensures ok <==> |data| <= Takes(old(answers))
      ensures !ok ==> sent == old(sent) + data[..Takes(old(answers))]
      ensures ok ==> sent == old(sent) + data
      ensures !ok ==> exists k :: 0 <= k < |data| && sent == old(sent) + data[..k]
      ensures Used(old(answers), answers) && (!ok ==> GaveUp(old(answers), answers))
    {
      var done := 0;
      ghost var takes := Takes(answers);
      while done < |data|
        invariant Used(old(answers), answers)
        invariant Going(done, |data|, answers, takes)
        invariant done <= |data| && sent == old(sent) + data[..done]
        decreases |answers|
      {
        ghost var before := answers;
        var a := Write(data[done..]);
        GoingOn(done, |data|, before, answers, a, takes);
        UsedThen(old(answers), before, answers);
        match a
        case Interrupted =>
        case WouldBlock(ready) =>
          if !ready {
            return false;
          }
        case Broken =>
          return false;
        case Moved(n) =>
          assert data[..done] + data[done..][..n] == data[..done + n];
          if n == 0 {
            return false;
          }
          done := done + n;
      }
      assert data[..done] == data;
      return true;
    }

    /** client_writev_all: the pieces one after the other, or failure before the last byte. */
    method WritevAll(tls: bool, iov: seq<seq<byte>>) returns (ok: bool)
      modifies this
      ensures ok ==> sent == old(sent) + Concat(iov)
      ensures !ok ==> exists k :: StoppedAt(old(sent), sent, Concat(iov), k)
      ensures Used(old(answers), answers) && (!ok && Concat(iov) != [] ==> GaveUp(old(answers), answers) || (!tls && |iov| > 8))
      ensures !tls && |iov| <= 8 && Concat(iov) != [] ==> (ok <==> |Concat(iov)| <= Takes(old(answers)))
    {
      if iov == [] {
        return true;
      }
      if tls {
        ok := WriteEach(iov);
        return;
      }
      if |iov| > 8 {
        assert StoppedAt(old(sent), sent, Concat(iov), 0);
        return false;
      }
      ok := WriteVector(iov);
    }

    /** The TLS path: one client_write_all per piece. */
    method WriteEach(iov: seq<seq<byte>>) returns (ok: bool)
      modifies this
      ensures ok ==> sent == old(sent) + Concat(iov)
      ensures !ok ==> exists k :: StoppedAt(old(sent), sent, Concat(iov), k)
      ensures Used(old(answers), answers) && (!ok ==> GaveUp(old(answers), answers))
    {
      ghost var all, done := Concat(iov), [];
      for i := 0 to |iov|
        invariant Used(old(answers), answers)
        invariant sent == old(sent) + done && done + ConcatFrom(iov, i) == all
      {
        ghost var before := answers;
        var piece := WriteAll(iov[i]);
        UsedThen(old(answers), before, answers);
        if !piece {
          ghost var k :| 0 <= k < |iov[i]| && sent == old(sent) + done + iov[i][..k];
          StoppedInPart(old(sent), sent, done, iov[i], ConcatFrom(iov, i + 1), k);
          return false;
        }
        done := done + iov[i];
      }
      return true;
    }

    /** The plain path: writev over what is left, dropping and shortening entries as bytes go out. */
    method WriteVector(iov: seq<seq<byte>>) returns (ok: bool)
      modifies this
      ensures Concat(iov) != [] ==> (ok <==> |Concat(iov)| <= Takes(old(answers)))
      ensures ok ==> sent == old(sent) + Concat(iov)
      ensures !ok ==> exists k :: StoppedAt(old(sent), sent, Concat(iov), k)
      ensures Used(old(answers), answers) && (!ok && Concat(iov) != [] ==> GaveUp(old(answers), answers))
    {
      var local, first := iov, 0;
      ghost var all, done: nat, takes := Concat(iov), 0, Takes(answers);
      while first < |local|
        invariant 0 <= first <= |local| && Used(old(answers), answers)
        invariant Sending(old(sent), sent, all, ConcatFrom(local, first), done)
        invariant first < |local| && all != [] ==> done < |all|
        invariant Going(done, |all|, answers, takes)
        decreases |answers|
      {
        ghost var before, rest := answers, ConcatFrom(local, first);
        var a := Write(ConcatFrom(local, first));
        UsedThen(old(answers), before, answers);
        if all != [] {
          GoingOn(done, |all|, before, answers, a, takes);
        }
        if a == Broken || a == WouldBlock(false) || a == Moved(0) {
          SendingStopped(old(sent), sent, all, rest, done);
          return false;
        }
        if a.Moved? {
          SendingMore(old(sent), sent, all, rest, done, a.n);
          done := done + a.n;
          local, first := Advance(local, first, a.n);
        }
      }
      assert all[..done] == all;
      return true;
    }
  }

  /** What is left of `all` behind the `done` bytes that are out. */
  ghost predicate Sending(start: seq<byte>, now: seq<byte>, all: seq<byte>, rest: seq<byte>, done: nat) {
    done <= |all| && now == start + all[..done] && rest == all[done..]
  }

  lemma SendingMore(start: seq<byte>, now: seq<byte>, all: seq<byte>, rest: seq<byte>, done: nat, n: nat)
    requires n <= |rest| && done <= |all| && rest == all[done..] && now == start + all[..done] + rest[..n]
    ensures Sending(start, now, all, rest[n..], done + n)
  {
    assert all[..done] + rest[..n] == all[..done + n];
  }

  lemma SendingStopped(start: seq<byte>, now: seq<byte>, all: seq<byte>, rest: seq<byte>, done: nat)
    requires done <= |all| && (all != [] ==> done < |all|) && (now == start + all[..done] || now == start + all[..done] + rest[..0])
    ensures exists k :: StoppedAt(start, now, all, k)
  {
    assert now == start + all[..done];
    assert StoppedAt(start, now, all, done);
  }

  /** `after` is `before` and the first `k` bytes of `all`, and not all of them unless there were none. */
  ghost predicate StoppedAt(before: seq<byte>, after: seq<byte>, all: seq<byte>, k: nat) {
    k <= |all| && (all != [] ==> k < |all|) && after == before + all[..k]
  }

  /** Stopping inside a part is stopping inside the whole. */
  lemma StoppedInPart(before: seq<byte>, after: seq<byte>, done: seq<byte>, part: seq<byte>, rest: seq<byte>, k: nat)
    requires StoppedAt(before + done, after, part, k) && part != []
    ensures StoppedAt(before, after, done + (part + rest), |done| + k)
  {
    assert (done + (part + rest))[..|done| + k] == done + part[..k];
  }

  /** Drops the entries that `moved` bytes cover and shortens the next one. */
  method Advance(iov: seq<seq<byte>>, start: nat, moved: nat) returns (local: seq<seq<byte>>, first: nat)
    requires start < |iov| && 0 < moved <= |ConcatFrom(iov, start)|
    ensures first <= |local| == |iov| && ConcatFrom(local, first) == ConcatFrom(iov, start)[moved..]
    ensures first < |local| ==> local[first] != []
  {
    local, first := iov, start;
    ghost var left := ConcatFrom(iov, start)[moved..];
    var n := moved;
    while first < |local| && n >= |local[first]|
      invariant first <= |local| && 0 <= n <= |ConcatFrom(local, first)|
      invariant ConcatFrom(local, first)[n..] == left
    {
      ghost var rest := ConcatFrom(local, first + 1);
      assert ConcatFrom(local, first) == local[first] + rest;
      assert (local[first] + rest)[n..] == rest[n - |local[first]|..];
      n, first := n - |local[first]|, first + 1;
    }
    if first < |local| {
      ghost var before, rest := local, ConcatFrom(local, first + 1);
      assert ConcatFrom(local, first) == local[first] + rest;
      assert (local[first] + rest)[n..] == local[first][n..] + rest;
      local := local[first := local[first][n..]];
      ConcatFromSame(before, local, first + 1);
    }
  }
}
