/** The fixed-window rate limiter over hashed buckets (src/rate_limit.c). */
module RateLimit {
  import opened Bytes

  /** RPSIOD_RATE_BUCKETS */
  const BUCKETS: nat := 1024

  datatype Bucket = Bucket(ip: nat, start: nat, count: nat)

  /** One limit: at most `limit` requests per `window` seconds. */
  datatype Rule = Rule(limit: nat, window: nat)

  predicate Starts(b: Bucket, ip: nat, now: nat, r: Rule) {
    b.ip != ip || now >= b.start + r.window
  }

  predicate Accepts(b: Bucket, ip: nat, now: nat, r: Rule) {
    Starts(b, ip, now, r) || b.count < r.limit
  }

  function Next(b: Bucket, ip: nat, now: nat, r: Rule): Bucket {
    if Starts(b, ip, now, r) then Bucket(ip, now, 1)
    else if b.count < r.limit then b.(count := b.count + 1)
    else b
  }

  class Limiter {
    const rule: Rule
    const enabled: bool
    const buckets: array<Bucket>

    constructor (enabled: bool, rule: Rule)
      ensures this.enabled == enabled && this.rule == rule
      ensures fresh(buckets) && buckets.Length == BUCKETS && forall i :: 0 <= i < BUCKETS ==> buckets[i] == Bucket(0, 0, 0)
    {
      this.enabled, this.rule := enabled, rule;
      buckets := new Bucket[BUCKETS](_ => Bucket(0, 0, 0));
    }

    /**
     rpsiod_rate_limit_exceeded; `address` is the client's IPv4 address, if inet_pton can read one: other clients are
     let through. `retryAfter` is 0 unless the request is refused.
     */
    method Exceeded(address: Option<nat>, now: nat) returns (refused: bool, retryAfter: nat)
      requires buckets.Length == BUCKETS
      modifies buckets
      ensures !enabled || rule.limit == 0 || rule.window == 0 || address.None? ==>
                !refused && buckets[..] == old(buckets[..])
      ensures enabled && rule.limit > 0 && rule.window > 0 && address.Some? ==>
                var ip := address.value;
                var b := old(buckets[ip % BUCKETS]);
                && refused == !Accepts(b, ip, now, rule)
                && buckets[..] == old(buckets[..])[ip % BUCKETS := Next(b, ip, now, rule)]
                && (refused ==> 1 <= retryAfter <= rule.window + (b.start - now) && now + retryAfter == b.start + rule.window)
      ensures !refused ==> retryAfter == 0
    {
      refused, retryAfter := false, 0;
      if !enabled || rule.limit == 0 || rule.window <= 0 {
        return;
      }
      if address.None? {
        return;
      }
      var ip := address.value;
      var i := ip % BUCKETS;
      var b := buckets[i];
      if b.ip != ip || now >= b.start + rule.window {
        buckets[i] := Bucket(ip, now, 1);
        return;
      }
      if b.count >= rule.limit {
        var reset := b.start + rule.window;
        refused := true;
        if reset > now {
          retryAfter := reset - now;
        } else {
          assert false;
        }
        return;
      }
      buckets[i] := b.(count := b.count + 1);
    }
  }

  // ---------------------------------------------------------------- runs of one bucket

  /** A request that reaches the bucket. */
  datatype Call = Call(ip: nat, now: nat)

  const EMPTY := Bucket(0, 0, 0)

  /** The bucket after the first `n` calls. */
  function After(cs: seq<Call>, n: nat, r: Rule): Bucket
    requires n <= |cs|
  {
    if n == 0 then EMPTY else Next(After(cs, n - 1, r), cs[n - 1].ip, cs[n - 1].now, r)
  }

  predicate Passed(cs: seq<Call>, n: nat, r: Rule)
    requires n < |cs|
  {
    Accepts(After(cs, n, r), cs[n].ip, cs[n].now, r)
  }

  /** The clock does not run backwards. */
  predicate Monotone(cs: seq<Call>) {
    forall i, j :: 0 <= i <= j < |cs| ==> cs[i].now <= cs[j].now
  }

  /** How many of the calls from the k-th to the n-th passed. */
  function PassedFrom(cs: seq<Call>, k: nat, n: nat, r: Rule): nat
    requires k <= n <= |cs|
  {
    if n == k then 0 else PassedFrom(cs, k, n - 1, r) + if Passed(cs, n - 1, r) then 1 else 0
  }

  /** Where the current window began: the calls since then are the holder's, and the count tells how many passed. */
  lemma {:induction false} WindowStart(cs: seq<Call>, n: nat, r: Rule) returns (k: nat)
    requires n <= |cs| && r.limit > 0 && r.window > 0
    ensures k <= n
    ensures var b := After(cs, n, r);
            && (forall i :: k <= i < n ==> cs[i].ip == b.ip && cs[i].now < b.start + r.window)
            && b.count == PassedFrom(cs, k, n, r) <= r.limit
            && (if k < n then b.start == cs[k].now || (k == 0 && b.start == 0) else b == EMPTY)
  {
    if n == 0 {
      return 0;
    }
    var b, c := After(cs, n - 1, r), cs[n - 1];
    if Starts(b, c.ip, c.now, r) {
      assert PassedFrom(cs, n - 1, n - 1, r) == 0;
      return n - 1;
    }
    k := WindowStart(cs, n - 1, r);
  }

  /**
   A refusal means that this very client already had exactly `limit` requests accepted in the window that is still
   running; and it is told to come back when that window ends, which is between 1 second and a window away.
   */
  lemma RefusalIsDeserved(cs: seq<Call>, n: nat, r: Rule) returns (k: nat)
    requires n < |cs| && r.limit > 0 && r.window > 0 && Monotone(cs) && !Passed(cs, n, r)
    ensures k < n && PassedFrom(cs, k, n, r) == r.limit
    ensures forall i :: k <= i < n ==> cs[i].ip == cs[n].ip
    ensures var b := After(cs, n, r);
            && b.ip == cs[n].ip && cs[n].now < b.start + r.window
            && (b.start == cs[k].now || b.start == 0)
            && var retry := b.start + r.window - cs[n].now;
               1 <= retry <= r.window && Accepts(b, cs[n].ip, cs[n].now + retry, r)
  {
    k := WindowStart(cs, n, r);
  }

  // ---------------------------------------------------------------- one client alone in its bucket

  /** Calls among the first `n` that passed at a time in [lo, hi). */
  function PassedIn(cs: seq<Call>, n: nat, r: Rule, lo: int, hi: int): nat
    requires n <= |cs|
  {
    if n == 0 then 0
    else PassedIn(cs, n - 1, r, lo, hi) + if Passed(cs, n - 1, r) && lo <= cs[n - 1].now < hi then 1 else 0
  }

  lemma {:induction false} PassedInSplits(cs: seq<Call>, n: nat, r: Rule, lo: int, mid: int, hi: int)
    requires n <= |cs| && lo <= mid <= hi
    ensures PassedIn(cs, n, r, lo, hi) == PassedIn(cs, n, r, lo, mid) + PassedIn(cs, n, r, mid, hi)
  {
    if n > 0 {
      PassedInSplits(cs, n - 1, r, lo, mid, hi);
    }
  }

  lemma {:induction false} PassedInMonotone(cs: seq<Call>, n: nat, r: Rule, lo: int, hi: int, lo': int, hi': int)
    requires n <= |cs| && lo' <= lo && hi <= hi'
    ensures PassedIn(cs, n, r, lo, hi) <= PassedIn(cs, n, r, lo', hi')
  {
    if n > 0 {
      PassedInMonotone(cs, n - 1, r, lo, hi, lo', hi');
    }
  }

  /** No call of the first `n` is at or after `lo`. */
  lemma {:induction false} PassedInNone(cs: seq<Call>, n: nat, r: Rule, lo: int, hi: int)
    requires n <= |cs| && forall i :: 0 <= i < n ==> cs[i].now < lo
    ensures PassedIn(cs, n, r, lo, hi) == 0
  {
    if n > 0 {
      PassedInNone(cs, n - 1, r, lo, hi);
    }
  }

  /** How many passed in the window-long interval from `t` on. */
  function PassedWithin(cs: seq<Call>, n: nat, r: Rule, t: int): nat
    requires n <= |cs|
  {
    PassedIn(cs, n, r, t, t + r.window)
  }

  /** All calls come from one client. */
  predicate Alone(cs: seq<Call>) {
    forall i, j :: 0 <= i < j < |cs| ==> cs[i].ip == cs[j].ip
  }

  /** The window has begun by the last call and is still open at it. */
  lemma {:induction false} WindowAround(cs: seq<Call>, n: nat, r: Rule)
    requires 0 < n <= |cs| && r.window > 0 && Monotone(cs) && Alone(cs)
    ensures var b := After(cs, n, r); b.ip == cs[n - 1].ip && b.start <= cs[n - 1].now < b.start + r.window
  {
    if n > 1 {
      WindowAround(cs, n - 1, r);
      assert cs[n - 2].now <= cs[n - 1].now;
    }
  }

  /**
   What holds after `n` calls of one client: the running window's count covers everything from its start on, and
   the window before it was within the limit too.
   */
  ghost predicate Bounded(cs: seq<Call>, n: nat, r: Rule)
    requires n <= |cs|
  {
    var b := After(cs, n, r);
    && b.count <= r.limit
    && (forall hi :: PassedIn(cs, n, r, b.start, hi) <= b.count)
    && PassedIn(cs, n, r, b.start - r.window + 1, b.start) <= r.limit
    && forall t :: PassedWithin(cs, n, r, t) <= 2 * r.limit
  }

  /** When a new window opens, what passed less than a window ago passed in the one before. */
  lemma Recent(cs: seq<Call>, n: nat, r: Rule, lo: int, hi: int)
    requires 0 < n <= |cs| && r.limit > 0 && r.window > 0 && Monotone(cs) && Alone(cs) && Bounded(cs, n - 1, r)
    requires Starts(After(cs, n - 1, r), cs[n - 1].ip, cs[n - 1].now, r) && cs[n - 1].now - r.window < lo
    ensures PassedIn(cs, n - 1, r, lo, hi) <= r.limit
  {
    if n > 1 {
      WindowAround(cs, n - 1, r);
      var start := After(cs, n - 1, r).start;
      PassedInMonotone(cs, n - 1, r, lo, hi, start, hi);
    }
  }

  /** A call that opens a new window. */
  lemma NewWindow(cs: seq<Call>, n: nat, r: Rule)
    requires 0 < n <= |cs| && r.limit > 0 && r.window > 0 && Monotone(cs) && Alone(cs) && Bounded(cs, n - 1, r)
    requires Starts(After(cs, n - 1, r), cs[n - 1].ip, cs[n - 1].now, r)
    ensures Bounded(cs, n, r)
  {
    var b, now := After(cs, n - 1, r), cs[n - 1].now;
    if n > 1 {
      WindowAround(cs, n - 1, r);
    }
    Recent(cs, n, r, now - r.window + 1, now);
    forall hi ensures PassedIn(cs, n, r, now, hi) <= 1 {
      PassedInNone(cs, n - 1, r, now, hi);
    }
    forall t ensures PassedWithin(cs, n, r, t) <= 2 * r.limit {
      assert PassedWithin(cs, n - 1, r, t) <= 2 * r.limit;
      if now - r.window < t {
        Recent(cs, n, r, t, t + r.window);
      }
    }
  }

  /** A call that is counted in the running window. */
  lemma SameWindow(cs: seq<Call>, n: nat, r: Rule)
    requires 1 < n <= |cs| && r.limit > 0 && r.window > 0 && Monotone(cs) && Alone(cs) && Bounded(cs, n - 1, r)
    requires !Starts(After(cs, n - 1, r), cs[n - 1].ip, cs[n - 1].now, r)
    ensures Bounded(cs, n, r)
  {
    var b, now := After(cs, n - 1, r), cs[n - 1].now;
    WindowAround(cs, n - 1, r);
    assert cs[n - 2].now <= now;
    forall hi ensures PassedIn(cs, n, r, b.start, hi) <= After(cs, n, r).count {
      assert PassedIn(cs, n - 1, r, b.start, hi) <= b.count;
    }
    forall t ensures PassedWithin(cs, n, r, t) <= 2 * r.limit {
      assert PassedWithin(cs, n - 1, r, t) <= 2 * r.limit;
      var end := t + r.window;
      if t <= now < end {
        assert PassedIn(cs, n, r, b.start, end) <= r.limit;
        if t < b.start {
          PassedInSplits(cs, n, r, t, b.start, end);
          PassedInMonotone(cs, n, r, t, b.start, b.start - r.window + 1, b.start);
        } else {
          PassedInMonotone(cs, n, r, t, end, b.start, end);
        }
      }
    }
  }

  /** The very first call of a client whose address is the empty bucket's, in the first window of the clock. */
  lemma FirstCall(cs: seq<Call>, r: Rule)
    requires 1 <= |cs| && r.limit > 0 && r.window > 0
    ensures Bounded(cs, 1, r)
  {
    assert forall lo, hi :: PassedIn(cs, 0, r, lo, hi) == 0;
    assert forall lo, hi :: PassedIn(cs, 1, r, lo, hi) <= 1;
    assert forall t :: PassedWithin(cs, 1, r, t) <= 1;
  }

  /** A client alone in its bucket gets at most twice the limit through in any interval of one window's length. */
  lemma {:induction false} TwiceTheLimit(cs: seq<Call>, n: nat, r: Rule)
    requires n <= |cs| && r.limit > 0 && r.window > 0 && Monotone(cs) && Alone(cs)
    ensures Bounded(cs, n, r)
    ensures forall t :: PassedWithin(cs, n, r, t) <= 2 * r.limit
  {
    if n == 1 {
      FirstCall(cs, r);
    } else if n > 1 {
      TwiceTheLimit(cs, n - 1, r);
      if Starts(After(cs, n - 1, r), cs[n - 1].ip, cs[n - 1].now, r) {
        NewWindow(cs, n, r);
      } else {
        SameWindow(cs, n, r);
      }
    }
  }

  // ---------------------------------------------------------------- whole runs of the limiter

  /** The calls among the first `n` that reach bucket `i`, in order. */
  function Reaching(cs: seq<Call>, n: nat, i: nat): seq<Call>
    requires n <= |cs|
  {
    if n == 0 then []
    else if cs[n - 1].ip % BUCKETS == i then Reaching(cs, n - 1, i) + [cs[n - 1]]
    else Reaching(cs, n - 1, i)
  }

  lemma {:induction false} AfterPrefix(a: seq<Call>, b: seq<Call>, n: nat, r: Rule)
    requires n <= |a|
    ensures After(a + b, n, r) == After(a, n, r)
  {
    if n > 0 {
      AfterPrefix(a, b, n - 1, r);
    }
  }

  lemma AfterSnoc(a: seq<Call>, c: Call, r: Rule)
    ensures After(a + [c], |a| + 1, r) == Next(After(a, |a|, r), c.ip, c.now, r)
    ensures Passed(a + [c], |a|, r) == Accepts(After(a, |a|, r), c.ip, c.now, r)
  {
    AfterPrefix(a, [c], |a|, r);
  }

  /** A bucket sees its calls in the order of the clock, so the lemmas above apply to it. */
  lemma {:induction false} ReachingMonotone(cs: seq<Call>, n: nat, i: nat)
    requires n <= |cs| && Monotone(cs)
    ensures Monotone(Reaching(cs, n, i))
    ensures forall c :: c in Reaching(cs, n, i) ==> c.ip % BUCKETS == i && (n > 0 ==> c.now <= cs[n - 1].now)
  {
    if n > 0 {
      ReachingMonotone(cs, n - 1, i);
      assert n > 1 ==> cs[n - 2].now <= cs[n - 1].now;
    }
  }

  /** Every bucket holds what its own calls have made of it. */
  ghost predicate BucketsAre(bs: seq<Bucket>, cs: seq<Call>, n: nat, r: Rule)
    requires n <= |cs|
  {
    |bs| == BUCKETS && forall i :: 0 <= i < BUCKETS ==> bs[i] == BucketOf(cs, n, i, r)
  }

  function BucketOf(cs: seq<Call>, n: nat, i: nat, r: Rule): Bucket
    requires n <= |cs|
  {
    After(Reaching(cs, n, i), |Reaching(cs, n, i)|, r)
  }

  /** Refused or not by the history of its own bucket, as the last call of it. */
  predicate Judged(cs: seq<Call>, n: nat, r: Rule, refused: bool)
    requires n < |cs|
  {
    var mine := Reaching(cs, n + 1, cs[n].ip % BUCKETS);
    |mine| > 0 && mine[|mine| - 1] == cs[n] && refused == !Passed(mine, |mine| - 1, r)
  }

  lemma BucketsNext(bs: seq<Bucket>, cs: seq<Call>, n: nat, r: Rule)
    requires n < |cs| && BucketsAre(bs, cs, n, r)
    ensures var c, b := cs[n], bs[cs[n].ip % BUCKETS];
            && BucketsAre(bs[c.ip % BUCKETS := Next(b, c.ip, c.now, r)], cs, n + 1, r)
            && Judged(cs, n, r, !Accepts(b, c.ip, c.now, r))
  {
    var home := cs[n].ip % BUCKETS;
    AfterSnoc(Reaching(cs, n, home), cs[n], r);
    forall i | 0 <= i < BUCKETS && i != home ensures BucketOf(cs, n + 1, i, r) == BucketOf(cs, n, i, r) {
    }
  }

  // ---------------------------------------------------------------- what a client gets in a whole run

  /** How many of the first `n` calls of the run came from `ip` at a time in [lo, hi) and were let through. */
  function AcceptedIn(cs: seq<Call>, refused: seq<bool>, n: nat, ip: nat, lo: int, hi: int): nat
    requires n <= |cs| && n <= |refused|
  {
    if n == 0 then 0
    else AcceptedIn(cs, refused, n - 1, ip, lo, hi) +
         if cs[n - 1].ip == ip && !refused[n - 1] && lo <= cs[n - 1].now < hi then 1 else 0
  }

  /** How many of its calls were let through in the window-long interval from `t` on. */
  function AcceptedWithin(cs: seq<Call>, refused: seq<bool>, r: Rule, ip: nat, t: int): nat
    requires |refused| == |cs|
  {
    AcceptedIn(cs, refused, |cs|, ip, t, t + r.window)
  }

  /** Before its n-th call, in the window-long interval up to it, this client was let through as often as is allowed. */
  ghost predicate HadItsShare(cs: seq<Call>, refused: seq<bool>, r: Rule, n: nat)
    requires n < |cs| == |refused|
  {
    AcceptedIn(cs, refused, n, cs[n].ip, cs[n].now - r.window + 1, cs[n].now + 1) >= r.limit
  }

  /** The same count over the calls of one bucket. */
  function PassedOf(cs: seq<Call>, n: nat, r: Rule, ip: nat, lo: int, hi: int): nat
    requires n <= |cs|
  {
    if n == 0 then 0
    else PassedOf(cs, n - 1, r, ip, lo, hi) +
         if cs[n - 1].ip == ip && Passed(cs, n - 1, r) && lo <= cs[n - 1].now < hi then 1 else 0
  }

  ghost predicate AllJudged(cs: seq<Call>, n: nat, r: Rule, refused: seq<bool>)
    requires n <= |cs| && n <= |refused|
  {
    forall m :: 0 <= m < n ==> Judged(cs, m, r, refused[m])
  }

  /** No other address of the run falls into the client's bucket. */
  ghost predicate Own(cs: seq<Call>, ip: nat) {
    forall m :: 0 <= m < |cs| && cs[m].ip % BUCKETS == ip % BUCKETS ==> cs[m].ip == ip
  }

  lemma {:induction false} PassedOfPrefix(a: seq<Call>, b: seq<Call>, n: nat, r: Rule, ip: nat, lo: int, hi: int)
    requires n <= |a|
    ensures PassedOf(a + b, n, r, ip, lo, hi) == PassedOf(a, n, r, ip, lo, hi)
  {
    if n > 0 {
      PassedOfPrefix(a, b, n - 1, r, ip, lo, hi);
      AfterPrefix(a, b, n - 1, r);
    }
  }

  /** What the run lets through is what the client's bucket lets through. */
  lemma {:induction false} AcceptedByBucket(cs: seq<Call>, refused: seq<bool>, n: nat, r: Rule, ip: nat, lo: int, hi: int)
    requires n <= |cs| && n <= |refused| && AllJudged(cs, n, r, refused)
    ensures var mine := Reaching(cs, n, ip % BUCKETS);
            AcceptedIn(cs, refused, n, ip, lo, hi) == PassedOf(mine, |mine|, r, ip, lo, hi)
  {
    if n > 0 {
      AcceptedByBucket(cs, refused, n - 1, r, ip, lo, hi);
      assert Judged(cs, n - 1, r, refused[n - 1]);
      var before := Reaching(cs, n - 1, ip % BUCKETS);
      PassedOfPrefix(before, [cs[n - 1]], |before|, r, ip, lo, hi);
    }
  }

  lemma {:induction false} PassedOfAll(cs: seq<Call>, n: nat, r: Rule, ip: nat, lo: int, hi: int)
    requires n <= |cs| && forall i :: 0 <= i < n ==> cs[i].ip == ip
    ensures PassedOf(cs, n, r, ip, lo, hi) == PassedIn(cs, n, r, lo, hi)
  {
    if n > 0 {
      PassedOfAll(cs, n - 1, r, ip, lo, hi);
    }
  }

  lemma {:induction false} PassedOfSome(cs: seq<Call>, k: nat, n: nat, r: Rule, ip: nat, lo: int, hi: int)
    requires k <= n <= |cs| && forall i :: k <= i < n ==> cs[i].ip == ip && lo <= cs[i].now < hi
    ensures PassedFrom(cs, k, n, r) <= PassedOf(cs, n, r, ip, lo, hi)
  {
    if k < n {
      PassedOfSome(cs, k, n - 1, r, ip, lo, hi);
    }
  }

  lemma {:induction false} ReachingFrom(cs: seq<Call>, n: nat, i: nat)
    requires n <= |cs|
    ensures forall c :: c in Reaching(cs, n, i) ==> c.ip % BUCKETS == i && c in cs
  {
    if n > 0 {
      ReachingFrom(cs, n - 1, i);
    }
  }

  /** A client with a bucket of its own gets at most twice the limit through in any interval of one window's length. */
  lemma TwiceTheLimitInARun(cs: seq<Call>, refused: seq<bool>, r: Rule, ip: nat, t: int)
    requires r.limit > 0 && r.window > 0 && Monotone(cs) && Own(cs, ip)
    requires |refused| == |cs| && AllJudged(cs, |cs|, r, refused)
    ensures AcceptedWithin(cs, refused, r, ip, t) <= 2 * r.limit
  {
    var mine := Reaching(cs, |cs|, ip % BUCKETS);
    AcceptedByBucket(cs, refused, |cs|, r, ip, t, t + r.window);
    ReachingMonotone(cs, |cs|, ip % BUCKETS);
    ReachingFrom(cs, |cs|, ip % BUCKETS);
    forall i | 0 <= i < |mine| ensures mine[i].ip == ip {
      assert mine[i] in mine;
    }
    PassedOfAll(mine, |mine|, r, ip, t, t + r.window);
    TwiceTheLimit(mine, |mine|, r);
    assert PassedWithin(mine, |mine|, r, t) <= 2 * r.limit;
  }

  /** Whoever is refused was let through at least `limit` times in the window-long interval up to now. */
  lemma RefusedInARun(cs: seq<Call>, refused: seq<bool>, r: Rule, n: nat)
    requires r.limit > 0 && r.window > 0 && Monotone(cs)
    requires |refused| == |cs| && AllJudged(cs, |cs|, r, refused) && n < |cs| && refused[n]
    ensures HadItsShare(cs, refused, r, n)
  {
    var ip, lo, hi := cs[n].ip, cs[n].now - r.window + 1, cs[n].now + 1;
    assert Judged(cs, n, r, refused[n]);
    ReachingMonotone(cs, n + 1, ip % BUCKETS);
    AcceptedByBucket(cs, refused, n, r, ip, lo, hi);
    BeforeLast(cs, n, r, ip, lo, hi);
    var mine := Reaching(cs, n + 1, ip % BUCKETS);
    RefusedLast(mine, |mine| - 1, r);
  }

  /** Up to its last call, a bucket's history is the one before that call. */
  lemma BeforeLast(cs: seq<Call>, n: nat, r: Rule, ip: nat, lo: int, hi: int)
    requires n < |cs| && cs[n].ip == ip
    ensures var mine, before := Reaching(cs, n + 1, ip % BUCKETS), Reaching(cs, n, ip % BUCKETS);
            |mine| == |before| + 1 && PassedOf(mine, |mine| - 1, r, ip, lo, hi) == PassedOf(before, |before|, r, ip, lo, hi)
  {
    var before := Reaching(cs, n, ip % BUCKETS);
    PassedOfPrefix(before, [cs[n]], |before|, r, ip, lo, hi);
  }

  lemma RefusedLast(cs: seq<Call>, n: nat, r: Rule)
    requires n < |cs| && r.limit > 0 && r.window > 0 && Monotone(cs) && !Passed(cs, n, r)
    ensures PassedOf(cs, n, r, cs[n].ip, cs[n].now - r.window + 1, cs[n].now + 1) >= r.limit
  {
    var k := RefusedInTime(cs, n, r);
    PassedOfSome(cs, k, n, r, cs[n].ip, cs[n].now - r.window + 1, cs[n].now + 1);
  }

  lemma RefusedInTime(cs: seq<Call>, n: nat, r: Rule) returns (k: nat)
    requires n < |cs| && r.limit > 0 && r.window > 0 && Monotone(cs) && !Passed(cs, n, r)
    ensures k < n && PassedFrom(cs, k, n, r) == r.limit
    ensures forall i :: k <= i < n ==> cs[i].ip == cs[n].ip && cs[n].now - r.window < cs[i].now <= cs[n].now
  {
    k := RefusalIsDeserved(cs, n, r);
    forall i | k <= i < n ensures cs[n].now - r.window < cs[i].now <= cs[n].now {
      assert cs[k].now <= cs[i].now <= cs[n].now;
    }
  }

  /**
   A whole run. Each call is judged by the history of its own bucket alone; so, with a clock that does not run
   backwards, a client with a bucket of its own gets at most twice the limit through in any interval of one window's
   length, and nobody is refused who was not let through `limit` times in the last window.
   */
  method RunLimiter(cs: seq<Call>, r: Rule) returns (refused: seq<bool>)
    requires r.limit > 0 && r.window > 0
    ensures |refused| == |cs|
    ensures AllJudged(cs, |cs|, r, refused)
    ensures Monotone(cs) ==>
              forall ip: nat, t: int :: Own(cs, ip) ==> AcceptedWithin(cs, refused, r, ip, t) <= 2 * r.limit
    ensures Monotone(cs) ==> forall n :: 0 <= n < |cs| && refused[n] ==> HadItsShare(cs, refused, r, n)
  {
    var limiter := new Limiter(true, r);
    refused := [];
    assert forall i :: 0 <= i < BUCKETS ==> BucketOf(cs, 0, i, r) == EMPTY;
    for n := 0 to |cs|
      invariant fresh(limiter.buckets) && limiter.enabled && limiter.rule == r
      invariant BucketsAre(limiter.buckets[..], cs, n, r)
      invariant |refused| == n && AllJudged(cs, n, r, refused)
    {
      BucketsNext(limiter.buckets[..], cs, n, r);
      var no, _ := limiter.Exceeded(Some(cs[n].ip), cs[n].now);
      refused := refused + [no];
    }
    if Monotone(cs) {
      RunIsFair(cs, refused, r);
    }
  }

  lemma RunIsFair(cs: seq<Call>, refused: seq<bool>, r: Rule)
    requires r.limit > 0 && r.window > 0 && Monotone(cs)
    requires |refused| == |cs| && AllJudged(cs, |cs|, r, refused)
    ensures forall ip: nat, t: int :: Own(cs, ip) ==> AcceptedWithin(cs, refused, r, ip, t) <= 2 * r.limit
    ensures forall n :: 0 <= n < |cs| && refused[n] ==> HadItsShare(cs, refused, r, n)
  {
    forall ip: nat, t: int | Own(cs, ip)
      ensures AcceptedWithin(cs, refused, r, ip, t) <= 2 * r.limit
    {
      TwiceTheLimitInARun(cs, refused, r, ip, t);
    }
    forall n | 0 <= n < |cs| && refused[n]
      ensures HadItsShare(cs, refused, r, n)
    {
      RefusedInARun(cs, refused, r, n);
    }
  }
}
