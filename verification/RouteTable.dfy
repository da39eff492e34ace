/** The open-addressed route table (src/config.c): linear probing over a fixed array refines a map. */
module RouteTable {
  import opened Bytes

  /** RPSIOD_ROUTE_TABLE_SIZE */
  const SIZE: nat := 4096

  const HOST_SIZE: nat := 256

  /** What a route is for: a lower-cased host, or the default site, of one port and listen address. */
  datatype Key = Key(host: seq<byte>, port: nat, ip: seq<byte>, isDefault: bool)

  /** normalize_route_host */
  function Normalize(host: seq<byte>): seq<byte> {
    LowerAll(Truncate(host, HOST_SIZE))
  }

  /** The key add_route_entry and lookup_route work with. */
  function KeyOf(host: seq<byte>, port: nat, ip: seq<byte>, isDefault: bool): (k: Key)
    ensures Normal(k)
  {
    Key(if isDefault then [] else Normalize(host), port, ip, isDefault)
  }

  /** Stored hosts are lower case, and default routes have none. */
  predicate Normal(k: Key) {
    LowerAll(k.host) == k.host && (k.isDefault ==> k.host == [])
  }

  datatype Slot = Empty | Used(key: Key, site: nat)

  /** route_entry_matches */
  predicate Matches(s: Slot, k: Key) {
    && s.Used? && s.key.isDefault == k.isDefault && s.key.port == k.port && s.key.ip == k.ip
    && (k.isDefault || EqualCi(s.key.host, k.host))
  }

  /** Comparing field by field is comparing keys. */
  lemma MatchesIsEquality(s: Slot, k: Key)
    requires Normal(k) && (s.Used? ==> Normal(s.key))
    ensures Matches(s, k) <==> s.Used? && s.key == k
  {
  }

  /** The slot looked at on the p-th probe. */
  function Probe(h: nat, p: nat): (i: nat)
    ensures i < SIZE
  {
    (h + p) % SIZE
  }

  /** Probing all along the table meets every slot. */
  lemma ProbeOnto(h: nat, i: nat) returns (p: nat)
    requires i < SIZE
    ensures p < SIZE && Probe(h, p) == i
  {
    var r := h % SIZE;
    p := if r <= i then i - r else i + SIZE - r;
    assert h == h / SIZE * SIZE + r;
    if r <= i {
      assert h + p == h / SIZE * SIZE + i;
    } else {
      assert h + p == (h / SIZE + 1) * SIZE + i;
    }
  }

  ghost function Below(n: nat): (s: set<nat>)
    ensures forall i: nat :: i in s <==> i < n
    ensures |s| == n
  {
    if n == 0 then {} else Below(n - 1) + {n - 1}
  }

  /** As many distinct numbers below n as there are: all of them. */
  lemma FullSet(s: set<nat>, n: nat)
    requires forall i :: i in s ==> i < n
    ensures |s| <= n && (|s| == n ==> s == Below(n))
  {
    var all := Below(n);
    assert s <= all;
    assert |all - s| == |all| - |s|;
  }

  /** `k` is found on its home probe, past used slots only. */
  ghost predicate Found(s: seq<Slot>, hash: Key -> nat, routes: map<Key, nat>, home: map<Key, nat>, k: Key)
    requires |s| == SIZE
  {
    && k in routes && k in home && home[k] < SIZE
    && s[Probe(hash(k), home[k])] == Used(k, routes[k])
    && forall q :: 0 <= q < home[k] ==> s[Probe(hash(k), q)].Used?
  }

  /** A used slot is the one its key is found on, so no key has two. */
  ghost predicate AtHome(s: seq<Slot>, hash: Key -> nat, routes: map<Key, nat>, home: map<Key, nat>, i: nat)
    requires i < SIZE == |s| && s[i].Used?
  {
    var k := s[i].key;
    Normal(k) && k in routes && k in home && Probe(hash(k), home[k]) == i
  }

  /** The array holds exactly the map, each key where linear probing finds it. */
  ghost predicate Represents(s: seq<Slot>, hash: Key -> nat, routes: map<Key, nat>, home: map<Key, nat>, inUse: set<nat>)
    requires |s| == SIZE
  {
    && (forall i :: 0 <= i < SIZE && s[i].Used? ==> AtHome(s, hash, routes, home, i))
    && (forall k :: k in routes ==> Found(s, hash, routes, home, k))
    && (forall i: nat :: i in inUse ==> i < SIZE)
    && (forall i: nat :: i < SIZE ==> (i in inUse <==> s[i].Used?))
  }

  /** Filling the first empty slot on a new key's probe sequence adds the key to the map. */
  lemma InsertRepresents(s: seq<Slot>, hash: Key -> nat, routes: map<Key, nat>, home: map<Key, nat>, inUse: set<nat>,
                         k: Key, p: nat, site: nat)
    requires |s| == SIZE && Represents(s, hash, routes, home, inUse)
    requires Normal(k) && k !in routes && p < SIZE && s[Probe(hash(k), p)].Empty?
    requires forall q :: 0 <= q < p ==> s[Probe(hash(k), q)].Used?
    ensures var i := Probe(hash(k), p);
            Represents(s[i := Used(k, site)], hash, routes[k := site], home[k := p], inUse + {i})
  {
    var i := Probe(hash(k), p);
    var s', routes', home' := s[i := Used(k, site)], routes[k := site], home[k := p];
    forall other | other in routes'
      ensures Found(s', hash, routes', home', other)
    {
      assert other != k ==> Found(s, hash, routes, home, other);
    }
    forall j | 0 <= j < SIZE && s'[j].Used?
      ensures AtHome(s', hash, routes', home', j)
    {
      assert j != i ==> AtHome(s, hash, routes, home, j);
    }
  }

  /** A free slot means the table is not full, and filling it counts as one slot and one route. */
  lemma OneMore(s: seq<Slot>, inUse: set<nat>, i: nat, routes: map<Key, nat>, k: Key, site: nat)
    requires |s| == SIZE && i < SIZE && s[i].Empty? && k !in routes
    requires forall j: nat :: j in inUse ==> j < SIZE && s[j].Used?
    ensures |inUse| < SIZE && |inUse + {i}| == |inUse| + 1 && |routes[k := site]| == |routes| + 1
  {
    assert i !in inUse;
    FullSet(inUse, SIZE);
    assert routes[k := site].Keys == routes.Keys + {k};
  }

  datatype Outcome = Ok | Duplicate | Full

  class Table {
    const slots: array<Slot>
    /** Any hash of the key; the table's meaning does not depend on it. */
    const hash: Key -> nat
    var count: nat

    /** The map the table stands for. */
    ghost var routes: map<Key, nat>
    /** On which probe each key is found, and which slots are in use. */
    ghost var home: map<Key, nat>
    ghost var inUse: set<nat>

    constructor (hash: Key -> nat)
      ensures Valid() && routes == map[] && fresh(slots) && this.hash == hash
    {
      slots := new Slot[SIZE](_ => Empty);
      this.hash, count, routes, home, inUse := hash, 0, map[], map[], {};
    }

    ghost predicate Valid()
      reads this, slots
    {
      && slots.Length == SIZE
      && Represents(slots[..], hash, routes, home, inUse)
      && count == |inUse| == |routes|
    }

    /** The used slot reached for a key holds what the map says. */
    lemma SlotIsRoute(k: Key, p: nat)
      requires Valid() && p < SIZE && slots[Probe(hash(k), p)].Used? && slots[Probe(hash(k), p)].key == k
      ensures k in routes && slots[Probe(hash(k), p)].site == routes[k]
    {
      assert Found(slots[..], hash, routes, home, k) && AtHome(slots[..], hash, routes, home, Probe(hash(k), p));
    }

    /** Having probed past used slots of other keys up to an empty one, or all along the table, the key is absent. */
    lemma Absent(k: Key, p: nat)
      requires Valid() && p <= SIZE && (p < SIZE ==> slots[Probe(hash(k), p)].Empty?)
      requires forall q :: 0 <= q < p ==> slots[Probe(hash(k), q)].Used? && slots[Probe(hash(k), q)].key != k
      ensures k !in routes
    {
      assert k in routes ==> Found(slots[..], hash, routes, home, k);
    }

    /** The probing loop: the first slot that is empty or holds the key, or SIZE. */
    method Search(k: Key) returns (p: nat)
      requires Valid() && Normal(k)
      ensures p <= SIZE
      ensures forall q :: 0 <= q < p ==> slots[Probe(hash(k), q)].Used?
      ensures p < SIZE && slots[Probe(hash(k), p)].Used? ==> k in routes && slots[Probe(hash(k), p)] == Used(k, routes[k])
      ensures p == SIZE || slots[Probe(hash(k), p)].Empty? ==> k !in routes
    {
      p := 0;
      while p < SIZE && slots[Probe(hash(k), p)].Used?
        invariant p <= SIZE
        invariant forall q :: 0 <= q < p ==> slots[Probe(hash(k), q)].Used? && slots[Probe(hash(k), q)].key != k
      {
        MatchesIsEquality(slots[Probe(hash(k), p)], k);
        if Matches(slots[Probe(hash(k), p)], k) {
          SlotIsRoute(k, p);
          return;
        }
        p := p + 1;
      }
      Absent(k, p);
    }

    /** lookup_route */
    method Lookup(host: seq<byte>, port: nat, ip: seq<byte>, isDefault: bool) returns (site: Option<nat>)
      requires Valid()
      ensures var k := KeyOf(host, port, ip, isDefault);
              site == if k in routes then Some(routes[k]) else None
    {
      var k := KeyOf(host, port, ip, isDefault);
      var p := Search(k);
      if p == SIZE || slots[Probe(hash(k), p)].Empty? {
        return None;
      }
      return Some(slots[Probe(hash(k), p)].site);
    }

    /** add_route_entry: inserts, accepts a repetition, or reports the conflict or the full table. */
    method Add(host: seq<byte>, port: nat, ip: seq<byte>, site: nat, isDefault: bool) returns (r: Outcome)
      requires Valid()
      modifies this, slots
      ensures Valid()
      ensures var k := KeyOf(host, port, ip, isDefault);
              && (port == 0 ==> r == Ok && routes == old(routes))
              && (port != 0 && k in old(routes) ==>
                    r == (if old(routes)[k] == site then Ok else Duplicate) && routes == old(routes))
              && (port != 0 && k !in old(routes) ==>
                    r == (if |old(routes)| < SIZE then Ok else Full) &&
                    routes == if r == Ok then old(routes)[k := site] else old(routes))
    {
      if port == 0 {
        return Ok;
      }
      r := AddKey(KeyOf(host, port, ip, isDefault), site);
    }

    method AddKey(k: Key, site: nat) returns (r: Outcome)
      requires Valid() && Normal(k)
      modifies this, slots
      ensures Valid()
      ensures k in old(routes) ==> r == (if old(routes)[k] == site then Ok else Duplicate) && routes == old(routes)
      ensures k !in old(routes) ==>
                r == (if |old(routes)| < SIZE then Ok else Full) &&
                routes == if r == Ok then old(routes)[k := site] else old(routes)
    {
      var p := Search(k);
      if p == SIZE {
        AllUsed(k);
        return Full;
      }
      var slot := slots[Probe(hash(k), p)];
      if slot.Used? {
        return if slot.site == site then Ok else Duplicate;
      }
      Insert(k, p, site);
      return Ok;
    }

    /** A failed probe all along the table means every slot is taken. */
    lemma AllUsed(k: Key)
      requires Valid() && forall q :: 0 <= q < SIZE ==> slots[Probe(hash(k), q)].Used?
      ensures |routes| == SIZE
    {
      forall i: nat | i < SIZE
        ensures i in inUse
      {
        var p := ProbeOnto(hash(k), i);
      }
      assert inUse == Below(SIZE);
    }

    lemma AtMostSize()
      requires Valid()
      ensures |routes| <= SIZE
    {
      FullSet(inUse, SIZE);
    }

    method Insert(k: Key, p: nat, site: nat)
      requires Valid() && Normal(k) && k !in routes && p < SIZE && slots[Probe(hash(k), p)].Empty?
      requires forall q :: 0 <= q < p ==> slots[Probe(hash(k), q)].Used?
      modifies this, slots
      ensures Valid() && routes == old(routes)[k := site] && |old(routes)| < SIZE
    {
      var i := Probe(hash(k), p);
      ghost var s, m, h, u := slots[..], routes, home, inUse;
      OneMore(s, u, i, m, k, site);
      Write(i, Used(k, site));
      count, inUse, routes, home := count + 1, inUse + {i}, routes[k := site], home[k := p];
      Inserted(s, m, h, u, k, p, site);
    }

    /** The table after the slot and the map have been updated. */
    lemma Inserted(s: seq<Slot>, m: map<Key, nat>, h: map<Key, nat>, u: set<nat>, k: Key, p: nat, site: nat)
      requires |s| == SIZE && Represents(s, hash, m, h, u)
      requires Normal(k) && k !in m && p < SIZE && s[Probe(hash(k), p)].Empty?
      requires forall q :: 0 <= q < p ==> s[Probe(hash(k), q)].Used?
      requires slots.Length == SIZE && slots[..] == s[Probe(hash(k), p) := Used(k, site)]
      requires routes == m[k := site] && home == h[k := p] && inUse == u + {Probe(hash(k), p)}
      requires count == |inUse| == |routes|
      ensures Valid()
    {
      InsertRepresents(s, hash, m, h, u, k, p, site);
    }

    method Write(i: nat, slot: Slot)
      requires i < slots.Length
      modifies slots
      ensures slots[..] == old(slots[..])[i := slot]
    {
      slots[i] := slot;
    }
  }
}
