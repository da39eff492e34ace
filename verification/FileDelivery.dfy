/** Sending a slice of a file: sendfile, and the copying loop it may fall back to at any point. */
module FileDelivery {
  import opened Bytes
  import opened Wire

  class FileSender {
    const file: seq<byte>
    const sock: Socket
    /** The kernel's answers to sendfile and read, in order. */
    var answers: seq<Answer>

    constructor (file: seq<byte>, sock: Socket, answers: seq<Answer>)
      ensures this.file == file && this.sock == sock && this.answers == answers
    {
      this.file, this.sock, this.answers := file, sock, answers;
    }

    /** The next answer to a request for up to `want` bytes at `pos`; nothing is there past the end of the file. */
    method Next(pos: nat, want: nat) returns (a: Answer)
      modifies this
      ensures a.Moved? ==> a.n <= want && (a.n == 0 || pos + a.n <= |file|)
      ensures a != Broken ==> |answers| < |old(answers)|
      ensures Used(old(answers), answers)
      ensures want > 0 && pos < |file| && !a.Interrupted? && (a.Moved? ==> a.n == 0) ==> Stopped(old(answers), answers)
    {
      if answers == [] {
        return Broken;
      }
      a, answers := answers[0], answers[1..];
      assert Used(old(answers), answers);
      assert !a.Interrupted? && (a.Moved? ==> a.n == 0) ==> Stopped(old(answers), answers);
      if a.Moved? {
        var there := if pos <= |file| then |file| - pos else 0;
        a := Moved(Min(Min(a.n, want), there));
      }
    }

    /** `k` bytes from `offset` on. */
    function Slice(offset: nat, k: nat): seq<byte>
      requires k == 0 || offset + k <= |file|
    {
      if k == 0 then [] else file[offset..offset + k]
    }

    lemma SliceJoin(before: seq<byte>, offset: nat, k: nat, n: nat)
      requires (k == 0 || offset + k <= |file|) && (n == 0 || offset + k + n <= |file|)
      ensures before + Slice(offset, k) + Slice(offset + k, n) == before + Slice(offset, k + n)
    {
    }

    /** Exactly `k` bytes of the slice at `offset` have been added to the wire. */
    ghost predicate Sent(before: seq<byte>, after: seq<byte>, offset: nat, k: nat) {
      (k == 0 || offset + k <= |file|) && after == before + Slice(offset, k)
    }

    lemma SentNothing(wire: seq<byte>, offset: nat)
      ensures Sent(wire, wire, offset, 0)
    {
      assert wire + [] == wire;
    }

    lemma SentThen(before: seq<byte>, mid: seq<byte>, after: seq<byte>, offset: nat, k: nat, n: nat)
      requires Sent(before, mid, offset, k) && Sent(mid, after, offset + k, n)
      ensures Sent(before, after, offset, k + n)
    {
      SliceJoin(before, offset, k, n);
    }

    /** The only reasons for a transfer to stop early: the kernel, the client's socket, or a file that is too short. */
    ghost predicate Excused(before: seq<Answer>, sockBefore: seq<Answer>, offset: nat, length: nat)
      reads this, sock
    {
      Stopped(before, answers) || GaveUp(sockBefore, sock.answers) || |file| < offset + length
    }

    /** The script ended, or its last answer moved nothing and was no interruption: a file is always ready to be read. */
    ghost predicate Stopped(before: seq<Answer>, after: seq<Answer>) {
      && Used(before, after)
      && (after == [] ||
          (|after| < |before| && var a := before[|before| - |after| - 1]; !a.Interrupted? && (a.Moved? ==> a.n == 0)))
    }

    lemma StoppedThen(a: seq<Answer>, b: seq<Answer>, c: seq<Answer>)
      requires Used(a, b) && Used(b, c)
      ensures Used(a, c) && (Stopped(b, c) ==> Stopped(a, c))
    {
    }

    /** One buffer full, on its way to the client. */
    method CopyPiece(from: nat, n: nat) returns (ok: bool, ghost k: nat)
      requires from + n <= |file|
      modifies sock
      ensures k <= n && sock.sent == old(sock.sent) + Slice(from, k) && (ok <==> k == n)
      ensures Used(old(sock.answers), sock.answers) && (!ok ==> GaveUp(old(sock.answers), sock.answers))
    {
      ok := sock.WriteAll(file[from..from + n]);
      k := n;
      if !ok {
        k :| k < n && sock.sent == old(sock.sent) + file[from..from + n][..k];
        assert file[from..from + n][..k] == Slice(from, k);
      }
    }

    /** One read and the write of what it gave; nothing after an interruption. */
    method CopyTurn(from: nat, remaining: nat) returns (ok: bool, n: nat, ghost k: nat)
      requires remaining > 0
      modifies this, sock
      ensures k <= n <= remaining && Sent(old(sock.sent), sock.sent, from, k)
      ensures Used(old(answers), answers) && Used(old(sock.answers), sock.answers)
      ensures if ok then k == n && |answers| < |old(answers)|
              else k < remaining && (Stopped(old(answers), answers) || GaveUp(old(sock.answers), sock.answers) || |file| <= from)
    {
      ok, n, k := true, 0, 0;
      SentNothing(sock.sent, from);
      var a := Next(from, if remaining > 65536 then 65536 else remaining);
      match a
      case Interrupted =>
      case WouldBlock(_) =>
        ok := false;
      case Broken =>
        ok := false;
      case Moved(moved) =>
        if moved == 0 {
          ok := false;
        } else {
          n := moved;
          ok, k := CopyPiece(from, n);
        }
    }

    /** copy_file_read_write */
    method CopyReadWrite(offset: nat, length: nat) returns (ok: bool, ghost sent: nat)
      requires length > 0
      modifies this, sock
      ensures Used(old(answers), answers)
      ensures Sent(old(sock.sent), sock.sent, offset, sent)
      ensures ok <==> sent == length
      ensures sent <= length
      ensures !ok ==> Excused(old(answers), old(sock.answers), offset, length)
    {
      var remaining := length;
      ghost var before := sock.sent;
      sent := 0;
      SentNothing(sock.sent, offset);
      while remaining > 0
        invariant 0 <= remaining && sent == length - remaining && Sent(before, sock.sent, offset, sent)
        invariant Used(old(answers), answers) && Used(old(sock.answers), sock.answers)
        decreases |answers|
      {
        var from := offset + length - remaining;
        assert from == offset + sent;
        ghost var mine, theirs, mid := answers, sock.answers, sock.sent;
        var n;
        ghost var k;
        ok, n, k := CopyTurn(from, remaining);
        StoppedThen(old(answers), mine, answers);
        UsedThen(old(sock.answers), theirs, sock.answers);
        SentThen(before, mid, sock.sent, offset, sent, k);
        sent := sent + k;
        if !ok {
          return;
        }
        remaining := remaining - n;
      }
      ok := true;
    }

    /** send_file_body: exactly the slice, or failure before its last byte. */
    method SendFileBody(useSendfile: bool, offset: nat, length: nat) returns (ok: bool, ghost sent: nat)
      modifies this, sock
      ensures Sent(old(sock.sent), sock.sent, offset, sent)
      ensures ok <==> sent == length
      ensures sent <= length
      ensures !ok ==> Excused(old(answers), old(sock.answers), offset, length)
    {
      sent := 0;
      SentNothing(sock.sent, offset);
      if length <= 0 {
        return true, sent;
      }
      if !useSendfile {
        ok, sent := CopyReadWrite(offset, length);
        return;
      }
      var stop, fallBack, done := SendfileLoop(offset, length);
      ok, sent := !stop, done;
      if fallBack {
        ok, sent := FallBack(offset, length, done, old(sock.sent), old(answers));
      }
    }

    /** The copying loop takes over behind what sendfile has sent. */
    method FallBack(offset: nat, length: nat, done: nat, ghost before: seq<byte>, ghost start: seq<Answer>)
      returns (ok: bool, ghost sent: nat)
      requires done < length && Sent(before, sock.sent, offset, done) && Used(start, answers)
      modifies this, sock
      ensures Sent(before, sock.sent, offset, sent) && sent <= length && (ok <==> sent == length)
      ensures !ok ==> Excused(start, old(sock.answers), offset, length)
    {
      ghost var k, mine, mid := 0, answers, sock.sent;
      ok, k := CopyReadWrite(offset + done, length - done);
      StoppedThen(start, mine, answers);
      SentThen(before, mid, sock.sent, offset, done, k);
      sent := done + k;
    }

    /** The sendfile loop, up to its end or to the error that starts the copying loop. */
    method SendfileLoop(offset: nat, length: nat) returns (stop: bool, fallBack: bool, done: nat)
      requires length > 0
      modifies this, sock`sent
      ensures Sent(old(sock.sent), sock.sent, offset, done) && Used(old(answers), answers)
      ensures if stop || fallBack then done < length else done == length
      ensures stop ==> !fallBack && (Stopped(old(answers), answers) || |file| < offset + length)
    {
      var current, remaining := offset, length;
      stop, fallBack, done := false, false, 0;
      SentNothing(sock.sent, offset);
      while remaining > 0
        invariant 0 <= remaining && done == length - remaining && current == offset + done
        invariant Sent(old(sock.sent), sock.sent, offset, done) && Used(old(answers), answers)
        decreases |answers|
      {
        ghost var mine, mid := answers, sock.sent;
        var n;
        n, stop, fallBack := SendfileTurn(current, remaining);
        StoppedThen(old(answers), mine, answers);
        SentThen(old(sock.sent), mid, sock.sent, offset, done, n);
        if stop || fallBack {
          return;
        }
        current, remaining, done := current + n, remaining - n, done + n;
      }
      stop, fallBack := false, false;
    }

    /** One sendfile call: the bytes it moved, and whether the loop stops or the copying loop takes over. */
    method SendfileTurn(current: nat, remaining: nat) returns (n: nat, stop: bool, fallBack: bool)
      requires remaining > 0
      modifies this, sock`sent
      ensures n <= remaining && Sent(old(sock.sent), sock.sent, current, n)
      ensures Used(old(answers), answers)
      ensures stop ==> !fallBack && n == 0 && (Stopped(old(answers), answers) || |file| <= current)
      ensures fallBack ==> n == 0
      ensures !stop && !fallBack ==> |answers| < |old(answers)|
    {
      n, stop, fallBack := 0, false, false;
      SentNothing(sock.sent, current);
      var a := Next(current, remaining);
      match a
      case Interrupted =>
      case WouldBlock(ready) =>
        stop := !ready;
      case Broken =>
        fallBack := true;
      case Moved(moved) =>
        n, stop := moved, moved == 0;
        sock.sent := sock.sent + Slice(current, n);
    }
  }
}
