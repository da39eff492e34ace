/** Which routes a site list asks for, which site a request leads to, and where a redirect points, in the sites' own terms. */
module RouteMeaning {
  import opened Bytes
  import opened Text
  import opened RouteTable
  import opened RouteBuild

  // ---------------------------------------------------------------- keys

  /** `n` is `host` in lower case, cut to 255 bytes. */
  predicate Lowered(host: seq<byte>, n: seq<byte>) {
    && |n| == (if |host| < 256 then |host| else 255)
    && forall i :: 0 <= i < |n| ==> n[i] == if 'A' <= host[i] as char <= 'Z' then host[i] + 32 else host[i]
  }

  lemma NormalizeIff(host: seq<byte>, n: seq<byte>)
    ensures Normalize(host) == n <==> Lowered(host, n)
  {
    var m := Normalize(host);
    assert 'A' as int == 65 && 'Z' as int == 90;
    assert forall i :: 0 <= i < |m| ==> m[i] == Lower(host[i]);
    if Lowered(host, n) {
      assert n == m;
    }
  }

  /** The key of a name, or of the default site, at a port and address. */
  predicate IsKey(k: Key, host: seq<byte>, port: nat, ip: seq<byte>, isDefault: bool) {
    && k.port == port && k.ip == ip && k.isDefault == isDefault
    && if isDefault then k.host == [] else Lowered(host, k.host)
  }

  lemma KeyIff(k: Key, host: seq<byte>, port: nat, ip: seq<byte>, isDefault: bool)
    ensures KeyOf(host, port, ip, isDefault) == k <==> IsKey(k, host, port, ip, isDefault)
  {
    NormalizeIff(host, k.host);
  }

  /** Slots are compared field by field, names in any case. */
  lemma MatchesIff(s: Slot, k: Key)
    ensures Matches(s, k) <==>
            && s != Empty && s.key.port == k.port && s.key.ip == k.ip && (s.key.isDefault <==> k.isDefault)
            && (!k.isDefault ==> |s.key.host| == |k.host| && forall i :: 0 <= i < |k.host| ==> SameLetter(s.key.host[i], k.host[i]))
  {
    if s.Used? {
      EqualCiIff(s.key.host, k.host);
    }
  }

  // ---------------------------------------------------------------- what a site asks for

  /** "*" or "default" in any case. */
  predicate ForAll(domain: seq<byte>) {
    domain == Ascii("*") || EqualCi(domain, Ascii("default"))
  }

  /** A host that the site serves because of this domain: the domain, or the other spelling of a redirected name. */
  predicate Serves(site: Site, domain: seq<byte>, host: seq<byte>, isDefault: bool) {
    || (host == domain && (isDefault <==> ForAll(domain)))
    || (!isDefault && site.wwwRedirect && !ForAll(domain) &&
        match site.wwwMode
        case ApexToWww => host == Ascii("www.") + domain && !(Ascii("www.") <= domain) && |domain| < 252
        case WwwToApex => |domain| < 260 && domain == Ascii("www.") + host)
    || (!isDefault && site.wwwRedirect && !ForAll(domain) && site.wwwMode.WwwToApex? &&
        Ascii("www.") <= domain && 260 <= |domain| && host == domain[4..259])
  }

  /** A route the site asks for. */
  ghost predicate Asks(site: Site, host: seq<byte>, port: nat, isDefault: bool) {
    && site.enabled && port != 0 && (port == site.httpPort || port == site.httpsPort)
    && exists domain :: domain in site.domains && Serves(site, domain, host, isDefault)
  }

  lemma WwwIs()
    ensures Ascii("www.") == WWW && |WWW| == 4 && Ascii("*") == STAR
  {
  }

  lemma OtherHostIff(site: Site, domain: seq<byte>, host: seq<byte>)
    ensures OtherHost(site, domain) == Some(host) <==> !(host == domain && !ForAll(domain)) && Serves(site, domain, host, false)
  {
    WwwIs();
    if WWW <= domain {
      assert domain == WWW + domain[4..];
      assert |domain| >= 260 ==> domain[4..][..255] == domain[4..259];
    }
    if domain == WWW + host {
      assert domain[4..] == host;
    }
  }

  lemma DefaultIff(domain: seq<byte>)
    ensures IsDefaultDomain(domain) <==> ForAll(domain)
  {
    WwwIs();
  }

  lemma WantIff(site: Site, domain: seq<byte>, w: Want)
    ensures w in DomainWants(site, domain) <==>
            (w.port == site.httpPort || w.port == site.httpsPort) && Serves(site, domain, w.host, w.isDefault)
  {
    DefaultIff(domain);
    OtherHostIff(site, domain, w.host);
    var d, other := IsDefaultDomain(domain), OtherHost(site, domain);
    if other.Some? {
      assert DomainWants(site, domain) == [Want(domain, site.httpPort, d), Want(domain, site.httpsPort, d),
                                           Want(other.value, site.httpPort, false), Want(other.value, site.httpsPort, false)];
    } else {
      assert DomainWants(site, domain) == [Want(domain, site.httpPort, d), Want(domain, site.httpsPort, d)];
    }
  }

  lemma {:induction false} KeysOfIff(ip: seq<byte>, ws: seq<Want>, k: Key)
    ensures k in KeysOf(ip, ws) <==> exists w :: w in ws && w.port != 0 && IsKey(k, w.host, w.port, ip, w.isDefault)
  {
    if ws != [] {
      var rest, w := ws[..|ws| - 1], ws[|ws| - 1];
      assert ws == rest + [w];
      KeysOfIff(ip, rest, k);
      KeyIff(k, w.host, w.port, ip, w.isDefault);
      assert forall v :: v in ws <==> v in rest || v == w;
    }
  }

  /** A route that some domain of the i-th site asks for has this key. */
  ghost predicate Wanted(sites: seq<Site>, i: nat, k: Key) {
    i < |sites| && exists host :: Asks(sites[i], host, k.port, k.isDefault) && IsKey(k, host, k.port, sites[i].ip, k.isDefault)
  }

  lemma DomainKeysIff(site: Site, domain: seq<byte>, k: Key)
    ensures k in DomainKeys(site, domain) <==>
            && k.port != 0 && (k.port == site.httpPort || k.port == site.httpsPort)
            && exists host :: Serves(site, domain, host, k.isDefault) && IsKey(k, host, k.port, site.ip, k.isDefault)
  {
    var ws := DomainWants(site, domain);
    KeysOfIff(site.ip, ws, k);
    if w :| w in ws && w.port != 0 && IsKey(k, w.host, w.port, site.ip, w.isDefault) {
      WantIff(site, domain, w);
    }
    if k.port == site.httpPort || k.port == site.httpsPort {
      if host :| Serves(site, domain, host, k.isDefault) && IsKey(k, host, k.port, site.ip, k.isDefault) {
        WantIff(site, domain, Want(host, k.port, k.isDefault));
      }
    }
  }

  lemma ClaimsIff(sites: seq<Site>, i: nat, k: Key)
    ensures Claims(DomainKeys, sites, i, k) <==> Wanted(sites, i, k)
  {
    if i < |sites| {
      forall d ensures k in DomainKeys(sites[i], d) <==>
                       (k.port != 0 && (k.port == sites[i].httpPort || k.port == sites[i].httpsPort) &&
                        exists host :: Serves(sites[i], d, host, k.isDefault) && IsKey(k, host, k.port, sites[i].ip, k.isDefault))
      {
        DomainKeysIff(sites[i], d, k);
      }
    }
  }

  /** The exact meaning of the table: a key leads to a site if and only if the site asks for a route of that key. */
  lemma RoutesIff(m: map<Key, nat>, sites: seq<Site>, k: Key, i: nat)
    requires Answers(DomainKeys, m, sites)
    ensures k in m && m[k] == i <==> Wanted(sites, i, k)
  {
    ClaimsIff(sites, i, k);
  }

  /** No key is asked for by two sites, and all of them fit. */
  ghost predicate Buildable(sites: seq<Site>) {
    && (forall i: nat, j: nat, k :: Wanted(sites, i, k) && Wanted(sites, j, k) ==> i == j)
    && forall keys: set<Key> :: (forall k :: k in keys ==> exists i: nat :: Wanted(sites, i, k)) ==> |keys| <= 4096
  }

  /** The exact condition for the table to be built. */
  lemma BuildableIff(sites: seq<Site>)
    ensures Consistent(DomainKeys, sites) && Fits(DomainKeys, sites) <==> Buildable(sites)
  {
    forall i: nat, k ensures Claims(DomainKeys, sites, i, k) <==> Wanted(sites, i, k) {
      ClaimsIff(sites, i, k);
    }
    assert forall k :: Claimed(DomainKeys, sites, k) <==> exists i: nat :: Wanted(sites, i, k);
  }

  // ---------------------------------------------------------------- finding a site

  lemma SameKey(host: seq<byte>, served: seq<byte>, port: nat, ip: seq<byte>, isDefault: bool)
    requires EqualCi(host, served)
    ensures KeyOf(host, port, ip, isDefault) == KeyOf(served, port, ip, isDefault)
  {
    EqualCiIff(host, served);
    var a, b := Normalize(host), Normalize(served);
    NormalizeIff(host, a);
    NormalizeIff(served, b);
    assert forall i :: 0 <= i < |a| ==> SameLetter(host[i], served[i]) && a[i] == b[i];
    assert a == b;
  }

  /** Every enabled site is found by every name it serves, in any case, on both of its ports at its own address. */
  lemma SiteIsFound(m: map<Key, nat>, sites: seq<Site>, i: nat, host: seq<byte>, served: seq<byte>, port: nat)
    requires Answers(DomainKeys, m, sites) && i < |sites| && Asks(sites[i], served, port, false) && EqualCi(host, served)
    requires sites[i].ip != []
    ensures IsBest(m, Candidates(host, port, sites[i].ip), Some(i))
  {
    var ip := sites[i].ip;
    var k := KeyOf(served, port, ip, false);
    KeyIff(k, served, port, ip, false);
    SameKey(host, served, port, ip, false);
    RoutesIff(m, sites, k, i);
    assert Candidates(host, port, ip)[0] == k;
  }
}
