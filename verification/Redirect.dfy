/** Redirects (src/route.c): one step, and what following them leads to. */
module Redirect {
  import opened Bytes
  import opened RouteTable
  import opened RouteBuild

  const LOCATION_SIZE: nat := 1024

  /** Where a request goes: host and port. */
  datatype Address = Address(host: seq<byte>, port: nat)

  /** A redirect answer, and the address its Location leads to. */
  datatype Answer = Answer(location: seq<byte>, status: nat, to: Address)

  function Digits(n: nat): seq<byte> {
    if n < 10 then [48 + n] else Digits(n / 10) + [48 + n % 10]
  }

  /** The Location text; the port is left out when it is the scheme's own. */
  function LocationText(https: bool, host: seq<byte>, port: nat, path: seq<byte>): seq<byte> {
    (if https then Ascii("https://") else Ascii("http://")) + host +
    (if port == (if https then 443 else 80) then [] else [COLON] + Digits(port)) + path
  }

  /** A plain request on a site that wants HTTPS. */
  predicate Upgrades(site: Site, port: nat, suppress: bool) {
    !suppress && site.httpToHttps && port == site.httpPort && site.httpsPort != 0
  }

  /** The host the www rule turns `host` into, if it applies. */
  function OtherName(site: Site, host: seq<byte>): Option<seq<byte>> {
    if !site.wwwRedirect then None
    else if site.wwwMode.ApexToWww? then (if !(WWW <= host) && |host| + 4 < HOST_SIZE then Some(WWW + host) else None)
    else if WWW <= host then Some(host[4..])
    else None
  }

  /** Where a request at `a` is sent, before the Location is printed. */
  function Target(site: Site, a: Address, suppress: bool): Option<(Address, bool)> {
    var up, other := Upgrades(site, a.port, suppress), OtherName(site, a.host);
    if !up && other.None? then None
    else
      var https := up || site.servesHttps;
      Some((Address(if other.Some? then other.value else a.host, if https then site.httpsPort else site.httpPort), https))
  }

  /** The whole step: no redirect either because no rule applies or because the Location is too long. */
  function Redirected(site: Site, a: Address, suppress: bool, path: seq<byte>): Option<Answer> {
    var t := Target(site, a, suppress);
    if t.None? then None
    else
      var text := LocationText(t.value.1, t.value.0.host, t.value.0.port, path);
      if |text| >= LOCATION_SIZE then None
      else Some(Answer(text, if OtherName(site, a.host).Some? then site.wwwStatus else 301, t.value.0))
  }

  /** rpsiod_route_build_redirect_location */
  method BuildRedirectLocation(site: Site, reqHost: seq<byte>, port: nat, suppress: bool, path: seq<byte>, status0: nat)
    returns (location: Option<seq<byte>>, status: nat)
    requires reqHost == [] ==> site.domains != []
    requires |reqHost| < HOST_SIZE
    ensures var host := if reqHost != [] then reqHost else Truncate(site.domains[0], HOST_SIZE);
            match Redirected(site, Address(host, port), suppress, path)
            case None => location == None
            case Some(a) => location == Some(a.location) && status == a.status
  {
    var target := Truncate(if reqHost != [] then reqHost else site.domains[0], HOST_SIZE);
    var changed, https := false, false;
    status := status0;
    if !suppress && site.httpToHttps && port == site.httpPort && site.httpsPort != 0 {
      https, status, changed := true, 301, true;
    }
    var renamed: bool;
    target, renamed := ApplyWwwRule(site, target);
    if renamed {
      status, changed := site.wwwStatus, true;
    }
    if !changed {
      return None, status;
    }
    var scheme := https || site.servesHttps;
    var outPort := if scheme then site.httpsPort else site.httpPort;
    var text := LocationText(scheme, target, outPort, path);
    return if |text| < LOCATION_SIZE then Some(text) else None, status;
  }

  /** The www rule. */
  method ApplyWwwRule(site: Site, host: seq<byte>) returns (target: seq<byte>, applies: bool)
    ensures OtherName(site, host) == if applies then Some(target) else None
    ensures !applies ==> target == host
  {
    target, applies := host, false;
    if site.wwwRedirect {
      if site.wwwMode.ApexToWww? && !(WWW <= target) {
        var tmp := WWW + target;
        if |tmp| < HOST_SIZE {
          target, applies := tmp, true;
        }
      } else if site.wwwMode.WwwToApex? && WWW <= target {
        target, applies := target[4..], true;
      }
    }
  }

  // ---------------------------------------------------------------- following redirects

  ghost predicate Hop(site: Site, path: seq<byte>, a: Address, suppress: bool, b: Address) {
    var r := Redirected(site, a, suppress, path);
    a.host != [] && r.Some? && r.value.to == b
  }

  /** `chain` follows redirects of one site; the peer sends only real hosts, and each hop may be suppressed or not. */
  ghost predicate Follows(site: Site, path: seq<byte>, chain: seq<Address>, suppress: seq<bool>) {
    |suppress| == |chain| && forall i, j :: 0 <= i && j == i + 1 < |chain| ==> Hop(site, path, chain[i], suppress[i], chain[j])
  }

  /** How often a host can lose a leading "www.". */
  function WwwDepth(host: seq<byte>): nat {
    if WWW <= host then 1 + WwwDepth(host[4..]) else 0
  }

  /** How many redirects can still follow at `a`. */
  function Bound(site: Site, a: Address): nat {
    if !site.wwwRedirect || OtherName(site, a.host).None? then (if a.port == site.httpPort then 1 else 0)
    else if site.wwwMode.ApexToWww? then 2
    else WwwDepth(a.host) + 1
  }

  /** An upgrading site whose ports are the same. */
  predicate Loops(site: Site) {
    site.httpToHttps && site.httpPort == site.httpsPort != 0
  }

  lemma HopLowersBound(site: Site, a: Address, suppress: bool)
    requires !Loops(site) && Target(site, a, suppress).Some?
    ensures Bound(site, Target(site, a, suppress).value.0) < Bound(site, a)
  {
    var other := OtherName(site, a.host);
    if other.Some? && site.wwwMode.ApexToWww? {
      assert WWW <= WWW + a.host;
    }
  }

  /**
   Unless the site loops, every chain of redirects ends: after two hops towards www, and away from it after one more
   than the leading "www."s of its start.
   */
  lemma {:induction false} ChainEnds(site: Site, path: seq<byte>, chain: seq<Address>, suppress: seq<bool>)
    requires !Loops(site) && chain != [] && Follows(site, path, chain, suppress)
    ensures |chain| - 1 <= Bound(site, chain[0])
    ensures |chain| - 1 <= if !site.wwwRedirect then 1 else if site.wwwMode.ApexToWww? then 2 else WwwDepth(chain[0].host) + 1
  {
    if |chain| > 1 {
      assert Hop(site, path, chain[0], suppress[0], chain[1]);
      HopLowersBound(site, chain[0], suppress[0]);
      ChainEnds(site, path, chain[1..], suppress[1..]);
    }
  }

  /** With equal ports an upgrading site redirects such a request to itself, for ever. */
  lemma EqualPortsLoop(site: Site, a: Address, path: seq<byte>)
    requires Loops(site) && a.port == site.httpPort
    requires OtherName(site, a.host).None? && |LocationText(true, a.host, a.port, path)| < LOCATION_SIZE
    ensures Redirected(site, a, false, path).Some? && Redirected(site, a, false, path).value.to == a
  {
  }

  lemma {:induction false} FiveDigits(n: nat)
    requires n < 65536
    ensures |Digits(n)| <= 5
  {
    var a, b, c, d := n / 10, n / 100, n / 1000, n / 10000;
    assert a / 10 == b && b / 10 == c && c / 10 == d && d < 10;
    assert |Digits(d)| == 1;
    assert |Digits(c)| <= 2;
    assert |Digits(b)| <= 3;
    assert |Digits(a)| <= 4;
  }

  /** Where a looping site sends a request to itself: a host the www rule leaves alone. */
  function Fixed(site: Site): Address {
    Address(if site.wwwRedirect && site.wwwMode.ApexToWww? then WWW + [97] else [97], site.httpPort)
  }

  lemma LoopsForEver(site: Site)
    requires Loops(site) && site.httpPort < 65536
    ensures Hop(site, [SLASH], Fixed(site), false, Fixed(site))
  {
    var a := Fixed(site);
    FiveDigits(a.port);
    assert WWW <= WWW + [97] && !(WWW <= [97]);
    assert OtherName(site, a.host).None?;
    EqualPortsLoop(site, a, [SLASH]);
  }

  /** The exact condition for the chains to end within the bound: that the site is not an upgrading one with equal ports. */
  lemma ChainsEndIff(site: Site)
    requires site.httpPort < 65536
    ensures !Loops(site) <==>
            forall path, chain, suppress :: chain != [] && Follows(site, path, chain, suppress) ==> |chain| - 1 <= Bound(site, chain[0])
  {
    if Loops(site) {
      LoopsForEver(site);
      var a := Fixed(site);
      var n := Bound(site, a) + 2;
      var chain, suppress := seq(n, _ => a), seq(n, _ => false);
      assert Follows(site, [SLASH], chain, suppress);
    } else {
      forall path, chain, suppress | chain != [] && Follows(site, path, chain, suppress)
        ensures |chain| - 1 <= Bound(site, chain[0])
      {
        ChainEnds(site, path, chain, suppress);
      }
    }
  }

  // ---------------------------------------------------------------- the target is served by the same site

  lemma {:induction false} WantedKey(ip: seq<byte>, ws: seq<Want>, n: nat)
    requires n < |ws| && ws[n].port != 0
    ensures KeyOf(ws[n].host, ws[n].port, ip, ws[n].isDefault) in KeysOf(ip, ws)
  {
    if n < |ws| - 1 {
      assert ws[..|ws| - 1][n] == ws[n];
      WantedKey(ip, ws[..|ws| - 1], n);
    }
  }

  lemma NormalizeWww(host: seq<byte>, domain: seq<byte>)
    requires EqualCi(host, domain) && |host| + 4 < HOST_SIZE
    ensures Normalize(WWW + host) == Normalize(WWW + domain)
  {
    assert |LowerAll(host)| == |host| && |LowerAll(domain)| == |domain|;
    assert LowerAll(WWW + host) == LowerAll(WWW) + LowerAll(host);
    assert LowerAll(WWW + domain) == LowerAll(WWW) + LowerAll(domain);
  }

  /**
   The www target of a configured apex domain, in whatever case the client wrote it, is routed to the very site
   that redirects there, on both of its ports.
   */
  lemma WwwTargetIsRouted(m: map<Key, nat>, sites: seq<Site>, i: nat, n: nat, host: seq<byte>, port: nat)
    requires Answers(DomainKeys, m, sites) && i < |sites| && sites[i].enabled && n < |sites[i].domains|
    requires sites[i].wwwRedirect && sites[i].wwwMode.ApexToWww?
    requires EqualCi(host, sites[i].domains[n]) && !IsDefaultDomain(sites[i].domains[n])
    requires !(WWW <= sites[i].domains[n]) && |host| + 4 < HOST_SIZE
    requires port != 0 && (port == sites[i].httpPort || port == sites[i].httpsPort)
    ensures KeyOf(WWW + host, port, sites[i].ip, false) in m && m[KeyOf(WWW + host, port, sites[i].ip, false)] == i
    ensures sites[i].ip != [] ==> IsBest(m, Candidates(WWW + host, port, sites[i].ip), Some(i))
  {
    var site, domain := sites[i], sites[i].domains[n];
    assert |LowerAll(host)| == |host| && |LowerAll(domain)| == |domain|;
    NormalizeWww(host, domain);
    var ws := DomainWants(site, domain);
    var w := if port == site.httpPort then 2 else 3;
    assert ws[w] == Want(WWW + domain, port, false);
    WantedKey(site.ip, ws, w);
    var k := KeyOf(WWW + host, port, site.ip, false);
    assert k in DomainKeys(site, domain);
    assert Claims(DomainKeys, sites, i, k);
    if site.ip != [] {
      assert Candidates(WWW + host, port, site.ip)[0] == k;
    }
  }
}
