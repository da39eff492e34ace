/** The list of open clients, the idle sweep, and the connection counters (src/server.c). */
module ClientList {

  class Client {
    var prev: Client?
    var next: Client?
    var used: nat
    var idle: bool
    var lastActive: int
    /** Nanoseconds part, 0 <= nsec < 10^9. */
    var lastActiveNsec: int

    constructor ()
      ensures prev == null && next == null
    {
      prev, next, used, idle, lastActive, lastActiveNsec := null, null, 0, false, 0, 0;
    }
  }

  /** timespec_elapsed_sec: whole seconds, and never for a clock that was not set. */
  predicate Elapsed(start: int, startNsec: int, now: int, nowNsec: int, seconds: int) {
    seconds > 0 && start != 0 && now - start - (if nowNsec < startNsec then 1 else 0) >= seconds
  }

  predicate Expired(c: Client, now: int, nowNsec: int, timeout: int)
    reads c`used, c`idle, c`lastActive, c`lastActiveNsec
  {
    c.idle && c.used == 0 && Elapsed(c.lastActive, c.lastActiveNsec, now, nowNsec, timeout)
  }

  /** A client expires when it is idle, has sent nothing, and so many seconds of the clock's nanoseconds have passed. */
  lemma ExpiredIff(c: Client, now: int, nowNsec: int, timeout: int)
    requires 0 <= nowNsec < 1_000_000_000 && 0 <= c.lastActiveNsec < 1_000_000_000
    ensures Expired(c, now, nowNsec, timeout) <==>
            && c.idle && c.used == 0 && timeout > 0 && c.lastActive != 0
            && (now * 1_000_000_000 + nowNsec) - (c.lastActive * 1_000_000_000 + c.lastActiveNsec) >= timeout * 1_000_000_000
  {
    var d := now - c.lastActive;
    if nowNsec < c.lastActiveNsec {
      assert d - 1 >= timeout <==> d * 1_000_000_000 - 1_000_000_000 >= timeout * 1_000_000_000;
    }
  }

  class Worker {
    var head: Client?
    var accepted: nat
    var closed: nat
    var active: nat
    ghost var clients: seq<Client>

    constructor ()
      ensures Valid() && clients == [] && accepted == 0
    {
      head, accepted, closed, active, clients := null, 0, 0, 0, [];
    }

    /** The pointers spell out `clients`, forwards and backwards. */
    ghost predicate Linked()
      reads this`head, this`clients, clients`prev, clients`next
    {
      && head == (if clients == [] then null else clients[0])
      && (forall i {:trigger clients[i].next} :: 0 <= i < |clients| ==>
            clients[i].next == (if i + 1 < |clients| then clients[i + 1] else null))
      && (forall i {:trigger clients[i].prev} :: 0 <= i < |clients| ==>
            clients[i].prev == (if i > 0 then clients[i - 1] else null))
      && (forall i, j :: 0 <= i < j < |clients| ==> clients[i] != clients[j])
    }

    /** Between events: every accepted connection is closed or in the list. */
    ghost predicate Valid()
      reads this, clients`prev, clients`next
    {
      Linked() && active == |clients| && accepted == closed + active
    }

    /** client_list_add */
    method Add(c: Client)
      requires Linked() && c !in clients
      modifies this`head, this`clients, c`prev, c`next, clients`prev
      ensures Linked() && clients == [c] + old(clients)
    {
      c.prev := null;
      c.next := head;
      if head != null {
        head.prev := c;
      }
      head := c;
      clients := [c] + clients;
    }

    /** client_list_remove */
    method Remove(c: Client, ghost i: nat)
      requires Linked() && i < |clients| && clients[i] == c
      modifies this`head, this`clients, clients`prev, clients`next
      ensures Linked() && clients == old(clients)[..i] + old(clients)[i + 1..]
      ensures c.prev == null && c.next == null
    {
      if c.prev != null {
        c.prev.next := c.next;
      } else if head == c {
        head := c.next;
      }
      if c.next != null {
        c.next.prev := c.prev;
      }
      c.prev := null;
      c.next := null;
      ghost var before := clients;
      clients := clients[..i] + clients[i + 1..];
      assert forall k :: 0 <= k < |clients| ==> clients[k] == before[if k < i then k else k + 1];
    }

    /** close_client */
    method CloseClient(c: Client, ghost i: nat)
      requires Valid() && i < |clients| && clients[i] == c
      modifies this`head, this`clients, this`closed, this`active, clients`prev, clients`next
      ensures Valid() && clients == old(clients)[..i] + old(clients)[i + 1..]
      ensures closed == old(closed) + 1
    {
      Remove(c, i);
      closed := closed + 1;
      if active > 0 {
        active := active - 1;
      }
    }

    /** accept_clients, for one connection: counted at once, then either listed or discarded again. */
    method Accept(keep: bool)
      requires Valid()
      modifies this, clients`prev
      ensures Valid() && accepted == old(accepted) + 1
      ensures keep ==> |clients| > 0 && fresh(clients[0]) && clients[1..] == old(clients) && closed == old(closed)
      ensures !keep ==> clients == old(clients) && closed == old(closed) + 1
    {
      var c := new Client();
      accepted := accepted + 1;
      active := active + 1;
      if keep {
        Add(c);
      } else {
        closed := closed + 1;
        if active > 0 {
          active := active - 1;
        }
      }
    }

    /** sweep_idle_keep_alive_clients: closes exactly the expired clients and keeps the others in order. */
    method Sweep(enabled: bool, timeout: int, now: int, nowNsec: int)
      requires Valid()
      modifies this`head, this`clients, this`closed, this`active, clients`prev, clients`next
      ensures Valid()
      ensures clients == old(Survivors(clients, Doomed(clients, now, nowNsec, if enabled then timeout else 0), 0))
      ensures closed == old(closed) + (|old(clients)| - |clients|)
    {
      ghost var dead := Doomed(clients, now, nowNsec, if enabled then timeout else 0);
      if !enabled || timeout <= 0 {
        NobodyDies(clients, dead, 0);
        return;
      }
      ghost var all, i, was := clients, 0, closed;
      ghost var kept: seq<Client> := [];
      var client := head;
      StartSweep(dead);
      while client != null
        invariant Sweeping(client, kept, all, dead, i, was)
        invariant Marked(all, dead, now, nowNsec, timeout)
        decreases |all| - i
      {
        client, kept := SweepOne(client, now, nowNsec, timeout, kept, all, dead, i, was);
        i := i + 1;
      }
      EndSweep(kept, all, dead, i, was);
    }

    lemma StartSweep(dead: seq<bool>)
      requires Valid() && |dead| == |clients|
      ensures Sweeping(head, [], clients, dead, 0, closed)
    {
    }

    lemma EndSweep(kept: seq<Client>, all: seq<Client>, dead: seq<bool>, i: nat, was: nat)
      requires Sweeping(null, kept, all, dead, i, was)
      ensures Valid() && clients == Survivors(all, dead, 0) && closed == was + (|all| - |clients|)
    {
    }

    /** The cursor of the sweep stands at the i-th of `all`; of those before it `kept` are still listed. */
    ghost predicate Sweeping(client: Client?, kept: seq<Client>, all: seq<Client>, dead: seq<bool>, i: nat, was: nat)
      reads this, clients`prev, clients`next
    {
      && i <= |all| == |dead| && Valid() && clients == kept + all[i..]
      && client == (if i < |all| then all[i] else null)
      && (forall k :: 0 <= k < |clients| ==> clients[k] in all)
      && kept + Survivors(all, dead, i) == Survivors(all, dead, 0)
      && closed == was + (i - |kept|)
    }

    /** One turn of the sweep: the successor is read before the client may be closed. */
    method SweepOne(client: Client, now: int, nowNsec: int, timeout: int,
                    ghost kept: seq<Client>, ghost all: seq<Client>, ghost dead: seq<bool>, ghost i: nat, ghost was: nat)
      returns (next: Client?, ghost kept': seq<Client>)
      requires Sweeping(client, kept, all, dead, i, was)
      requires Marked(all, dead, now, nowNsec, timeout)
      modifies this`head, this`clients, this`closed, this`active, all`prev, all`next
      ensures i < |all| && Sweeping(next, kept', all, dead, i + 1, was)
      ensures Marked(all, dead, now, nowNsec, timeout)
    {
      Middle(kept, all, i);
      KeepOrNot(kept, all, dead, i);
      assert clients[|kept|] == client;
      next, kept' := client.next, kept;
      if Expired(client, now, nowNsec, timeout) {
        CloseClient(client, |kept|);
      } else {
        kept' := kept + [client];
      }
    }
  }

  /** The element under the cursor, between what was kept and what is still to be looked at. */
  lemma Middle(kept: seq<Client>, all: seq<Client>, i: nat)
    requires i < |all|
    ensures var s := kept + all[i..];
            && s[|kept|] == all[i] && s == kept + [all[i]] + all[i + 1..]
            && s[..|kept|] + s[|kept| + 1..] == kept + all[i + 1..]
            && (i + 1 < |all| ==> s[|kept| + 1] == all[i + 1])
  {
  }

  /** Which of the clients have expired by now. */
  ghost function Doomed(cs: seq<Client>, now: int, nowNsec: int, timeout: int): (r: seq<bool>)
    reads cs`used, cs`idle, cs`lastActive, cs`lastActiveNsec
    ensures Marked(cs, r, now, nowNsec, timeout)
  {
    if cs == [] then [] else Doomed(cs[..|cs| - 1], now, nowNsec, timeout) + [Expired(cs[|cs| - 1], now, nowNsec, timeout)]
  }

  ghost predicate Marked(cs: seq<Client>, dead: seq<bool>, now: int, nowNsec: int, timeout: int)
    reads cs`used, cs`idle, cs`lastActive, cs`lastActiveNsec
  {
    && |dead| == |cs|
    && forall k {:trigger dead[k]} :: 0 <= k < |cs| ==> dead[k] == Expired(cs[k], now, nowNsec, timeout)
  }

  /** The clients from the i-th on that are not marked dead, in their order. */
  function Survivors(cs: seq<Client>, dead: seq<bool>, i: nat): seq<Client>
    requires i <= |cs| == |dead|
    decreases |cs| - i
  {
    if i == |cs| then []
    else (if dead[i] then [] else [cs[i]]) + Survivors(cs, dead, i + 1)
  }

  /** What the event loop can meet. */
  datatype Event =
    | Connection(keep: bool)
    | Activity(at: nat, used: nat, idle: bool, now: int, nsec: int)
    | Gone(at: nat)
    | SweepNow(enabled: bool, timeout: int, now: int, nsec: int)

  function Connections(events: seq<Event>, n: nat): nat
    requires n <= |events|
  {
    if n == 0 then 0 else Connections(events, n - 1) + (if events[n - 1].Connection? then 1 else 0)
  }

  method Step(w: Worker, e: Event)
    requires w.Valid()
    modifies w, w.clients
    ensures w.Valid() && w.accepted == old(w.accepted) + (if e.Connection? then 1 else 0)
    ensures forall c :: c in w.clients ==> c in old(w.clients) || fresh(c)
  {
    match e {
      case Connection(keep) =>
        w.Accept(keep);
        assert keep ==> w.clients == [w.clients[0]] + w.clients[1..];
      case Activity(at, used, idle, now, nsec) =>
        if at < w.active {
          var c := Nth(w, at);
          c.used, c.idle, c.lastActive, c.lastActiveNsec := used, idle, now, nsec;
        }
      case Gone(at) =>
        if at < w.active {
          var c := Nth(w, at);
          w.CloseClient(c, at);
        }
      case SweepNow(enabled, timeout, now, nsec) =>
        SurvivorsAreTheLiving(w.clients, Doomed(w.clients, now, nsec, if enabled then timeout else 0), 0);
        w.Sweep(enabled, timeout, now, nsec);
    }
  }

  /** Every run of the event loop: the list and the counters agree after each event, whatever happens. */
  method Run(events: seq<Event>) returns (w: Worker)
    ensures w.Valid() && w.accepted == Connections(events, |events|)
  {
    w := new Worker();
    for n := 0 to |events|
      invariant fresh(w) && w.Valid() && w.accepted == Connections(events, n)
      invariant forall k :: 0 <= k < |w.clients| ==> fresh(w.clients[k])
    {
      Step(w, events[n]);
      assert forall k :: 0 <= k < |w.clients| ==> w.clients[k] in w.clients;
    }
  }

  /** The n-th client by walking the list. */
  method Nth(w: Worker, n: nat) returns (c: Client)
    requires w.Linked() && n < |w.clients|
    ensures c == w.clients[n]
  {
    c := w.head;
    for i := 0 to n
      invariant c == w.clients[i]
    {
      c := c.next;
    }
  }

  lemma {:induction false} SurvivorsAreTheLiving(cs: seq<Client>, dead: seq<bool>, i: nat)
    requires i <= |cs| == |dead|
    ensures forall c :: c in Survivors(cs, dead, i) <==> exists k: nat :: i <= k < |cs| && cs[k] == c && !dead[k]
    decreases |cs| - i
  {
    if i < |cs| {
      SurvivorsAreTheLiving(cs, dead, i + 1);
      forall c ensures c in Survivors(cs, dead, i) <==> exists k: nat :: i <= k < |cs| && cs[k] == c && !dead[k] {
        if c == cs[i] && !dead[i] {
          assert c in Survivors(cs, dead, i);
        }
      }
    }
  }

  lemma KeepOrNot(kept: seq<Client>, cs: seq<Client>, dead: seq<bool>, i: nat)
    requires i < |cs| == |dead|
    ensures (if dead[i] then kept else kept + [cs[i]]) + Survivors(cs, dead, i + 1) == kept + Survivors(cs, dead, i)
  {
  }

  lemma {:induction false} NobodyDies(cs: seq<Client>, dead: seq<bool>, i: nat)
    requires i <= |cs| == |dead| && forall k :: 0 <= k < |dead| ==> !dead[k]
    ensures Survivors(cs, dead, i) == cs[i..]
    decreases |cs| - i
  {
    if i < |cs| {
      NobodyDies(cs, dead, i + 1);
    }
  }
}
