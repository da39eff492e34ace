/** Building the route table from the site list and looking sites up in it (src/config.c). */
module RouteBuild {
  import opened Bytes
  import opened RouteTable

  datatype WwwMode = ApexToWww | WwwToApex

  /** The parts of rpsiod_site_config that routing and redirects use. */
  datatype Site = Site(
    enabled: bool, domains: seq<seq<byte>>, ip: seq<byte>, httpPort: nat, httpsPort: nat, servesHttps: bool,
    httpToHttps: bool, wwwRedirect: bool, wwwMode: WwwMode, wwwStatus: nat)

  const WWW: seq<byte> := [119, 119, 119, 46]
  const ANY_IP: seq<byte> := [48, 46, 48, 46, 48, 46, 48]
  const STAR: seq<byte> := [42]

  /** One route a site asks for: host, port, default flag. */
  datatype Want = Want(host: seq<byte>, port: nat, isDefault: bool)

  /** explicit_default_domain */
  predicate IsDefaultDomain(domain: seq<byte>) {
    domain == STAR || EqualCi(domain, Ascii("default"))
  }

  /** The other spelling a www redirect also serves. */
  function OtherHost(site: Site, domain: seq<byte>): Option<seq<byte>> {
    if !site.wwwRedirect || IsDefaultDomain(domain) then None
    else if site.wwwMode.ApexToWww? && !(WWW <= domain) && |domain| + 4 < HOST_SIZE then Some(WWW + domain)
    else if site.wwwMode.WwwToApex? && WWW <= domain then Some(Truncate(domain[4..], HOST_SIZE))
    else None
  }

  /** The routes of one domain, in the order they are added. */
  function DomainWants(site: Site, domain: seq<byte>): seq<Want> {
    var d := IsDefaultDomain(domain);
    var other := OtherHost(site, domain);
    [Want(domain, site.httpPort, d), Want(domain, site.httpsPort, d)] +
    if other.Some? then [Want(other.value, site.httpPort, false), Want(other.value, site.httpsPort, false)] else []
  }

  /** The keys of a list of routes; a zero port asks for nothing. */
  function KeysOf(ip: seq<byte>, ws: seq<Want>): seq<Key> {
    if ws == [] then []
    else
      KeysOf(ip, ws[..|ws| - 1]) +
      var w := ws[|ws| - 1];
      if w.port == 0 then [] else [KeyOf(w.host, w.port, ip, w.isDefault)]
  }

  /** Everything one domain of a site asks for. */
  function DomainKeys(site: Site, domain: seq<byte>): seq<Key> {
    KeysOf(site.ip, DomainWants(site, domain))
  }

  /** Which keys a domain asks for; the server's rule is DomainKeys. The claims below hold for any rule. */
  type Rule = (Site, seq<byte>) -> seq<Key>

  ghost predicate IsServerRule(rule: Rule) {
    forall s, d {:trigger DomainKeys(s, d)} :: rule(s, d) == DomainKeys(s, d)
  }

  /** Some domain of the enabled site `i` asks for `k`. */
  ghost predicate Claims(rule: Rule, sites: seq<Site>, i: nat, k: Key) {
    i < |sites| && sites[i].enabled && exists d :: d in sites[i].domains && k in rule(sites[i], d)
  }

  ghost predicate Claimed(rule: Rule, sites: seq<Site>, k: Key) {
    exists i: nat :: Claims(rule, sites, i, k)
  }

  /** No key is claimed by two sites. */
  ghost predicate Consistent(rule: Rule, sites: seq<Site>) {
    forall i: nat, j: nat, k :: Claims(rule, sites, i, k) && Claims(rule, sites, j, k) ==> i == j
  }

  /** Every set of claimed keys fits the table. */
  ghost predicate Fits(rule: Rule, sites: seq<Site>) {
    forall keys: set<Key> :: (forall k :: k in keys ==> Claimed(rule, sites, k)) ==> |keys| <= SIZE
  }

  /** Every route so far was claimed. */
  ghost predicate Sound(rule: Rule, m: map<Key, nat>, sites: seq<Site>) {
    forall k :: k in m ==> Claims(rule, sites, m[k], k)
  }

  /** `m` holds exactly the claimed keys, each with its claimant. */
  ghost predicate Answers(rule: Rule, m: map<Key, nat>, sites: seq<Site>) {
    Sound(rule, m, sites) && forall i: nat, k :: Claims(rule, sites, i, k) ==> k in m && m[k] == i
  }

  // ---------------------------------------------------------------- adding lists of keys

  /** `m` gives all of `keys` to site `i`. */
  ghost predicate Covers(m: map<Key, nat>, keys: seq<Key>, i: nat) {
    forall k :: k in keys ==> k in m && m[k] == i
  }

  ghost predicate Extends(m: map<Key, nat>, m': map<Key, nat>) {
    forall k :: k in m ==> k in m' && m'[k] == m[k]
  }

  /** Going from `m` to `m'` added only keys of the list, for site `i`, and `r` says how it ended. */
  ghost predicate Added(m: map<Key, nat>, m': map<Key, nat>, keys: seq<Key>, i: nat, r: Outcome) {
    && Extends(m, m')
    && (forall k :: k in m' ==> k in m || (k in keys && m'[k] == i))
    && match r
       case Ok => Covers(m', keys, i)
       case Duplicate => exists k :: k in keys && k in m' && m'[k] != i
       case Full => |m'| == SIZE && exists k :: k in keys && k !in m'
  }

  /** One key added to routes that already cover `keys`, all of it part of the list `all`. */
  lemma AddedStep(m: map<Key, nat>, m1: map<Key, nat>, m2: map<Key, nat>, keys: seq<Key>, all: seq<Key>, k: Key,
                  i: nat, r: Outcome)
    requires Added(m, m1, keys, i, Ok) && k in all && forall x :: x in keys ==> x in all
    requires k in m1 ==> r == (if m1[k] == i then Ok else Duplicate) && m2 == m1
    requires k !in m1 ==> r == (if |m1| < SIZE then Ok else Full) && m2 == if r == Ok then m1[k := i] else m1
    requires |m1| <= SIZE
    ensures if r == Ok then Added(m, m2, keys + [k], i, Ok) else Added(m, m2, all, i, r)
  {
    assert k in keys + [k];
  }

  /** The add_route_entry calls for one domain, stopping at the first failure. */
  method AddWants(table: Table, ip: seq<byte>, ws: seq<Want>, i: nat) returns (r: Outcome)
    requires table.Valid()
    modifies table, table.slots
    ensures table.Valid() && Added(old(table.routes), table.routes, KeysOf(ip, ws), i, r)
  {
    ghost var m, all := table.routes, KeysOf(ip, ws);
    for n := 0 to |ws|
      invariant table.Valid() && Added(m, table.routes, KeysOf(ip, ws[..n]), i, Ok)
    {
      var w := ws[n];
      ghost var m1, keys := table.routes, KeysOf(ip, ws[..n]);
      WantStep(ip, ws, n);
      table.AtMostSize();
      r := table.Add(w.host, w.port, ip, i, w.isDefault);
      if w.port != 0 {
        AddedStep(m, m1, table.routes, keys, all, KeyOf(w.host, w.port, ip, w.isDefault), i, r);
      } else {
        assert keys + [] == keys;
      }
      if r != Ok {
        return;
      }
    }
    assert ws[..|ws|] == ws;
    return Ok;
  }

  lemma WantStep(ip: seq<byte>, ws: seq<Want>, n: nat)
    requires n < |ws|
    ensures KeysOf(ip, ws[..n + 1]) ==
            KeysOf(ip, ws[..n]) + (if ws[n].port == 0 then [] else [KeyOf(ws[n].host, ws[n].port, ip, ws[n].isDefault)])
    ensures forall k :: k in KeysOf(ip, ws[..n + 1]) ==> k in KeysOf(ip, ws)
  {
    assert ws[..n + 1][..n] == ws[..n];
    KeysPrefix(ip, ws, n + 1);
  }

  lemma {:induction false} KeysPrefix(ip: seq<byte>, ws: seq<Want>, n: nat)
    requires n <= |ws|
    ensures KeysOf(ip, ws[..n]) <= KeysOf(ip, ws)
  {
    if n < |ws| {
      assert ws[..|ws| - 1][..n] == ws[..n];
      KeysPrefix(ip, ws[..|ws| - 1], n);
    } else {
      assert ws[..n] == ws;
    }
  }

  method AddDomain(table: Table, site: Site, i: nat, domain: seq<byte>, ghost rule: Rule) returns (r: Outcome)
    requires table.Valid() && IsServerRule(rule)
    modifies table, table.slots
    ensures table.Valid() && Added(old(table.routes), table.routes, rule(site, domain), i, r)
  {
    ghost var keys := DomainKeys(site, domain);
    r := AddWants(table, site.ip, DomainWants(site, domain), i);
  }

  // ---------------------------------------------------------------- building

  /** A domain's additions keep the routes claimed; a failure shows that the sites cannot all be routed. */
  lemma DomainAdded(rule: Rule, m: map<Key, nat>, m': map<Key, nat>, sites: seq<Site>, i: nat, d: seq<byte>, r: Outcome)
    requires Sound(rule, m, sites) && i < |sites| && sites[i].enabled && d in sites[i].domains
    requires Added(m, m', rule(sites[i], d), i, r)
    ensures Sound(rule, m', sites)
    ensures r == Duplicate ==> !Consistent(rule, sites)
    ensures r == Full ==> !Fits(rule, sites)
  {
    forall k | k in rule(sites[i], d)
      ensures Claims(rule, sites, i, k)
    {
    }
    if r == Full {
      var k :| k in rule(sites[i], d) && k !in m';
      OneTooMany(rule, m', sites, i, k);
    }
  }

  lemma OneTooMany(rule: Rule, m: map<Key, nat>, sites: seq<Site>, i: nat, k: Key)
    requires Sound(rule, m, sites) && |m| == SIZE && k !in m && Claims(rule, sites, i, k)
    ensures !Fits(rule, sites)
  {
    var keys := m.Keys + {k};
    assert |keys| == SIZE + 1;
    assert forall x :: x in keys ==> Claimed(rule, sites, x);
  }

  /** Everything the first `n` domains of site `i` ask for is routed. */
  ghost predicate SiteDone(rule: Rule, m: map<Key, nat>, sites: seq<Site>, i: nat, n: nat)
    requires i < |sites| && n <= |sites[i].domains|
  {
    forall d :: 0 <= d < n ==> Covers(m, rule(sites[i], sites[i].domains[d]), i)
  }

  ghost predicate SitesDone(rule: Rule, m: map<Key, nat>, sites: seq<Site>, n: nat)
    requires n <= |sites|
  {
    forall i: nat :: i < n && sites[i].enabled ==> SiteDone(rule, m, sites, i, |sites[i].domains|)
  }

  lemma SiteStep(rule: Rule, m: map<Key, nat>, m': map<Key, nat>, sites: seq<Site>, i: nat, n: nat)
    requires i < |sites| && n < |sites[i].domains| && SiteDone(rule, m, sites, i, n) && Extends(m, m')
    requires Covers(m', rule(sites[i], sites[i].domains[n]), i)
    ensures SiteDone(rule, m', sites, i, n + 1)
  {
    forall d | 0 <= d < n
      ensures Covers(m', rule(sites[i], sites[i].domains[d]), i)
    {
      assert Covers(m, rule(sites[i], sites[i].domains[d]), i);
    }
  }

  method AddSite(table: Table, sites: seq<Site>, i: nat, ghost rule: Rule) returns (r: Outcome)
    requires table.Valid() && Sound(rule, table.routes, sites) && i < |sites| && sites[i].enabled && IsServerRule(rule)
    modifies table, table.slots
    ensures table.Valid() && Sound(rule, table.routes, sites) && Extends(old(table.routes), table.routes)
    ensures r == Ok ==> SiteDone(rule, table.routes, sites, i, |sites[i].domains|)
    ensures r == Duplicate ==> !Consistent(rule, sites)
    ensures r == Full ==> !Fits(rule, sites)
  {
    for d := 0 to |sites[i].domains|
      invariant table.Valid() && Sound(rule, table.routes, sites) && Extends(old(table.routes), table.routes)
      invariant SiteDone(rule, table.routes, sites, i, d)
    {
      ghost var before := table.routes;
      r := AddDomain(table, sites[i], i, sites[i].domains[d], rule);
      DomainAdded(rule, before, table.routes, sites, i, sites[i].domains[d], r);
      if r != Ok {
        return;
      }
      SiteStep(rule, before, table.routes, sites, i, d);
    }
    return Ok;
  }

  /**
   build_route_table: succeeds exactly when no key is claimed twice and all keys fit, and then the table maps every
   claimed key to its site and nothing else. Neither side mentions the order of the sites.
   */
  method BuildRouteTable(sites: seq<Site>, hash: Key -> nat, ghost rule: Rule) returns (table: Table, ok: bool)
    requires IsServerRule(rule)
    ensures fresh(table) && table.Valid()
    ensures ok <==> Consistent(rule, sites) && Fits(rule, sites)
    ensures ok ==> Answers(rule, table.routes, sites)
  {
    table := new Table(hash);
    for i := 0 to |sites|
      invariant fresh(table) && fresh(table.slots) && table.Valid()
      invariant Sound(rule, table.routes, sites) && SitesDone(rule, table.routes, sites, i)
    {
      ghost var before := table.routes;
      if sites[i].enabled {
        var r := AddSite(table, sites, i, rule);
        if r != Ok {
          return table, false;
        }
      }
      SitesStep(rule, before, table.routes, sites, i);
    }
    table.AtMostSize();
    AllRouted(rule, table.routes, sites);
    return table, true;
  }

  lemma SitesStep(rule: Rule, m: map<Key, nat>, m': map<Key, nat>, sites: seq<Site>, n: nat)
    requires n < |sites| && Extends(m, m') && SitesDone(rule, m, sites, n)
    requires sites[n].enabled ==> SiteDone(rule, m', sites, n, |sites[n].domains|)
    ensures SitesDone(rule, m', sites, n + 1)
  {
    forall i: nat | i < n && sites[i].enabled
      ensures SiteDone(rule, m', sites, i, |sites[i].domains|)
    {
      assert SiteDone(rule, m, sites, i, |sites[i].domains|);
    }
  }

  lemma AllRouted(rule: Rule, m: map<Key, nat>, sites: seq<Site>)
    requires Sound(rule, m, sites) && SitesDone(rule, m, sites, |sites|) && |m| <= SIZE
    ensures Answers(rule, m, sites) && Consistent(rule, sites) && Fits(rule, sites)
  {
    forall i: nat, k | Claims(rule, sites, i, k)
      ensures k in m && m[k] == i
    {
      var d :| d in sites[i].domains && k in rule(sites[i], d);
      var n :| 0 <= n < |sites[i].domains| && sites[i].domains[n] == d;
      assert SiteDone(rule, m, sites, i, |sites[i].domains|);
      assert Covers(m, rule(sites[i], sites[i].domains[n]), i);
    }
    forall keys: set<Key> | forall k :: k in keys ==> Claimed(rule, sites, k)
      ensures |keys| <= SIZE
    {
      assert keys <= m.Keys;
      assert |m.Keys - keys| == |m.Keys| - |keys|;
    }
  }

  // ---------------------------------------------------------------- order independence

  /** `other` lists the same sites: the one at `i` is `sites[at[i]]`, and `at` hits every index once. */
  ghost predicate Reordered(sites: seq<Site>, other: seq<Site>, at: seq<nat>, back: seq<nat>) {
    && |at| == |back| == |other| == |sites|
    && (forall i: nat :: i < |at| ==> at[i] < |sites| && other[i] == sites[at[i]] && back[at[i]] == i)
    && (forall j: nat :: j < |at| ==> back[j] < |sites| && at[back[j]] == j)
  }

  lemma ReorderedClaims(rule: Rule, sites: seq<Site>, other: seq<Site>, at: seq<nat>, back: seq<nat>)
    requires Reordered(sites, other, at, back)
    ensures forall i: nat, k :: i < |at| ==> (Claims(rule, other, i, k) <==> Claims(rule, sites, at[i], k))
    ensures forall k :: Claimed(rule, sites, k) <==> Claimed(rule, other, k)
  {
    forall k
      ensures Claimed(rule, sites, k) <==> Claimed(rule, other, k)
    {
      if i: nat :| Claims(rule, sites, i, k) {
        assert other[back[i]] == sites[at[back[i]]];
        assert Claims(rule, other, back[i], k);
      }
      if i: nat :| Claims(rule, other, i, k) {
        assert Claims(rule, sites, at[i], k);
      }
    }
  }

  lemma BuildableReordered(rule: Rule, sites: seq<Site>, other: seq<Site>, at: seq<nat>, back: seq<nat>)
    requires Reordered(sites, other, at, back) && Consistent(rule, sites) && Fits(rule, sites)
    ensures Consistent(rule, other) && Fits(rule, other)
  {
    ReorderedClaims(rule, sites, other, at, back);
    forall i: nat, j: nat, k | Claims(rule, other, i, k) && Claims(rule, other, j, k)
      ensures i == j
    {
      assert Claims(rule, sites, at[i], k) && Claims(rule, sites, at[j], k);
      assert back[at[i]] == i && back[at[j]] == j;
    }
  }

  /** Reordering the sites does not change whether the table can be built. */
  lemma BuildOrderIndependent(rule: Rule, sites: seq<Site>, other: seq<Site>, at: seq<nat>, back: seq<nat>)
    requires Reordered(sites, other, at, back)
    ensures Consistent(rule, sites) && Fits(rule, sites) <==> Consistent(rule, other) && Fits(rule, other)
  {
    assert Reordered(other, sites, back, at);
    if Consistent(rule, sites) && Fits(rule, sites) {
      BuildableReordered(rule, sites, other, at, back);
    }
    if Consistent(rule, other) && Fits(rule, other) {
      BuildableReordered(rule, other, sites, back, at);
    }
  }

  /** Nor does it change which site a key leads to. */
  lemma LookupOrderIndependent(rule: Rule, sites: seq<Site>, other: seq<Site>, at: seq<nat>, back: seq<nat>,
                               m: map<Key, nat>, m': map<Key, nat>, k: Key)
    requires Reordered(sites, other, at, back) && Answers(rule, m, sites) && Answers(rule, m', other)
    ensures k in m <==> k in m'
    ensures k in m ==> m[k] < |sites| && m'[k] < |other| && sites[m[k]] == other[m'[k]]
  {
    ReorderedClaims(rule, sites, other, at, back);
    if k in m' {
      assert Claims(rule, other, m'[k], k);
      assert Claims(rule, sites, at[m'[k]], k);
    }
    if k in m {
      assert Claims(rule, sites, m[k], k);
      assert Claimed(rule, other, k);
      var i: nat :| Claims(rule, other, i, k);
    }
  }

  // ---------------------------------------------------------------- lookup

  /** The listen address a lookup for `ip` uses first. */
  function Specific(ip: seq<byte>): seq<byte> {
    if ip == [] then ANY_IP else ip
  }

  /** Keys from the most to the least specific. */
  function Candidates(host: seq<byte>, port: nat, ip: seq<byte>): seq<Key> {
    var s := Specific(ip);
    [KeyOf(host, port, s, false), KeyOf(host, port, ANY_IP, false), KeyOf([], port, s, true), KeyOf([], port, ANY_IP, true)]
  }

  /** `r` is the site of the first candidate that has a route. */
  ghost predicate IsBest(m: map<Key, nat>, ks: seq<Key>, r: Option<nat>) {
    match r
    case None => forall i :: 0 <= i < |ks| ==> ks[i] !in m
    case Some(site) => exists i :: 0 <= i < |ks| && ks[i] in m && m[ks[i]] == site && forall j :: 0 <= j < i ==> ks[j] !in m
  }

  /** rpsiod_config_find_site_for_listener */
  method FindSiteForListener(table: Table, host: seq<byte>, port: nat, ip: seq<byte>) returns (site: Option<nat>)
    requires table.Valid()
    ensures IsBest(table.routes, Candidates(host, port, ip), site)
    ensures var own := if ip == [] then ANY_IP else ip;
            var routes := table.routes;
            if KeyOf(host, port, own, false) in routes then site == Some(routes[KeyOf(host, port, own, false)])
            else if KeyOf(host, port, ANY_IP, false) in routes then site == Some(routes[KeyOf(host, port, ANY_IP, false)])
            else if KeyOf([], port, own, true) in routes then site == Some(routes[KeyOf([], port, own, true)])
            else if KeyOf([], port, ANY_IP, true) in routes then site == Some(routes[KeyOf([], port, ANY_IP, true)])
            else site == None
  {
    var specific := Specific(ip);
    ghost var ks := Candidates(host, port, ip);
    assert ks[0] == KeyOf(host, port, specific, false) && ks[1] == KeyOf(host, port, ANY_IP, false);
    assert ks[2] == KeyOf([], port, specific, true) && ks[3] == KeyOf([], port, ANY_IP, true);
    site := LookupOnListener(table, host, port, specific, false);
    if site.None? {
      site := LookupOnListener(table, [], port, specific, true);
    }
  }

  /** The route of a name at the listener's own address, or else at every address. */
  method LookupOnListener(table: Table, host: seq<byte>, port: nat, ip: seq<byte>, isDefault: bool) returns (site: Option<nat>)
    requires table.Valid()
    ensures var k, any := KeyOf(host, port, ip, isDefault), KeyOf(host, port, ANY_IP, isDefault);
            site == if k in table.routes then Some(table.routes[k])
                    else if any in table.routes then Some(table.routes[any]) else None
  {
    site := table.Lookup(host, port, ip, isDefault);
    if site.None? && ip != ANY_IP {
      site := table.Lookup(host, port, ANY_IP, isDefault);
    }
  }

  /** The listen-address guard of serve_request. */
  predicate GuardFires(site: Site, serverIp: seq<byte>) {
    site.ip != ANY_IP && site.ip != serverIp
  }

  lemma {:induction false} KeysKeepIp(ip: seq<byte>, ws: seq<Want>, k: Key)
    requires k in KeysOf(ip, ws)
    ensures k.ip == ip
  {
    if k in KeysOf(ip, ws[..|ws| - 1]) {
      KeysKeepIp(ip, ws[..|ws| - 1], k);
    }
  }

  ghost predicate KeepsIp(rule: Rule) {
    forall s, d, k :: k in rule(s, d) ==> k.ip == s.ip
  }

  lemma ServerRuleKeepsIp()
    ensures KeepsIp(DomainKeys)
  {
    forall s, d, k | k in DomainKeys(s, d)
      ensures k.ip == s.ip
    {
      KeysKeepIp(s.ip, DomainWants(s, d), k);
    }
  }

  lemma ClaimantListens(rule: Rule, sites: seq<Site>, i: nat, k: Key)
    requires KeepsIp(rule) && Claims(rule, sites, i, k)
    ensures i < |sites| && sites[i].enabled && sites[i].ip == k.ip
  {
  }

  /** A site found for a listener listens there or everywhere, so the 400 guard never fires. */
  lemma FoundSiteListens(m: map<Key, nat>, sites: seq<Site>, host: seq<byte>, port: nat, ip: seq<byte>, r: nat)
    requires Answers(DomainKeys, m, sites) && IsBest(m, Candidates(host, port, ip), Some(r))
    ensures r < |sites| && sites[r].enabled && !GuardFires(sites[r], ip)
  {
    ServerRuleKeepsIp();
    var ks := Candidates(host, port, ip);
    var i :| 0 <= i < |ks| && ks[i] in m && m[ks[i]] == r;
    ClaimantListens(DomainKeys, sites, r, ks[i]);
  }
}
