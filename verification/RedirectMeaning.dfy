/** Where a redirect points, in the text of its Location and in the terms of the site. */
module RedirectMeaning {
  import opened Bytes
  import opened Text
  import opened RouteBuild
  import opened Redirect

  /** The decimal numeral of `n`: digits of that value, without a leading zero. */
  predicate Numeral(d: seq<byte>, n: nat) {
    d != [] && AllDigits(d) && Decimal(d) == n && (|d| > 1 ==> d[0] != 48)
  }

  lemma {:induction false} DigitsAreNumeral(n: nat)
    ensures Numeral(Digits(n), n)
  {
    var d := Digits(n);
    assert d[..|d| - 1] == (if n < 10 then [] else Digits(n / 10));
    if n >= 10 {
      DigitsAreNumeral(n / 10);
      assert d[0] == Digits(n / 10)[0];
      if |Digits(n / 10)| == 1 {
        assert Decimal(Digits(n / 10)) == 10 * Decimal(Digits(n / 10)[..0]) + DigitValue(Digits(n / 10)[0]);
      }
    }
  }

  lemma {:induction false} DecimalIsPositive(d: seq<byte>)
    requires d != [] && AllDigits(d) && d[0] != 48
    ensures Decimal(d) > 0
  {
    if |d| > 1 {
      DecimalIsPositive(d[..|d| - 1]);
    }
  }

  lemma {:induction false} NumeralIsDigits(d: seq<byte>, n: nat)
    requires Numeral(d, n)
    ensures d == Digits(n)
  {
    var rest, last := d[..|d| - 1], d[|d| - 1];
    assert d == rest + [last] && n == 10 * Decimal(rest) + (last - 48);
    if rest == [] {
      assert n < 10;
    } else {
      DecimalIsPositive(rest);
      NumeralIsDigits(rest, Decimal(rest));
      assert n / 10 == Decimal(rest) && n % 10 == last - 48;
    }
  }

  /** A Location: scheme, host, the port unless it is the scheme's own, path. */
  ghost predicate LocationIs(text: seq<byte>, https: bool, host: seq<byte>, port: nat, path: seq<byte>) {
    if https then
      if port == 443 then text == Ascii("https://") + host + path
      else exists d :: Numeral(d, port) && text == Ascii("https://") + host + Ascii(":") + d + path
    else
      if port == 80 then text == Ascii("http://") + host + path
      else exists d :: Numeral(d, port) && text == Ascii("http://") + host + Ascii(":") + d + path
  }

  lemma LocationIff(text: seq<byte>, https: bool, host: seq<byte>, port: nat, path: seq<byte>)
    ensures LocationText(https, host, port, path) == text <==> LocationIs(text, https, host, port, path)
  {
    var scheme := if https then Ascii("https://") else Ascii("http://");
    var d := Digits(port);
    DigitsAreNumeral(port);
    assert Ascii(":") == [COLON];
    Associative(scheme + host, [COLON], d);
    assert scheme + host + [] == scheme + host;
    forall d' | Numeral(d', port) ensures d' == d {
      NumeralIsDigits(d', port);
    }
  }

  /** The name the www rule of the site sends this one to. */
  predicate Renames(site: Site, host: seq<byte>, to: seq<byte>) {
    site.wwwRedirect &&
    match site.wwwMode
    case ApexToWww => to == Ascii("www.") + host && !(Ascii("www.") <= host) && |host| < 252
    case WwwToApex => host == Ascii("www.") + to
  }

  lemma RenamesIff(site: Site, host: seq<byte>, to: seq<byte>)
    ensures OtherName(site, host) == Some(to) <==> Renames(site, host, to)
  {
    assert Ascii("www.") == WWW && |WWW| == 4;
    if WWW <= host {
      assert host == WWW + host[4..];
    }
    if host == WWW + to {
      assert host[4..] == to;
    }
  }

  /** A plain request where the site wants HTTPS. */
  predicate WantsHttps(site: Site, port: nat, suppress: bool) {
    site.httpToHttps && !suppress && port == site.httpPort && site.httpsPort > 0
  }

  /** The answer to a request at `a`, told by the rules of the site. */
  ghost predicate IsAnswer(site: Site, a: Address, suppress: bool, path: seq<byte>, r: Answer) {
    var https := WantsHttps(site, a.port, suppress) || site.servesHttps;
    && |r.location| < 1024 && LocationIs(r.location, https, r.to.host, r.to.port, path)
    && r.to.port == (if https then site.httpsPort else site.httpPort)
    && if exists to :: Renames(site, a.host, to) then Renames(site, a.host, r.to.host) && r.status == site.wwwStatus
       else r.to.host == a.host && r.status == 301 && WantsHttps(site, a.port, suppress)
  }

  /** The exact meaning of a redirect. */
  lemma RedirectedIff(site: Site, a: Address, suppress: bool, path: seq<byte>, r: Answer)
    ensures Redirected(site, a, suppress, path) == Some(r) <==> IsAnswer(site, a, suppress, path, r)
  {
    var other, https := OtherName(site, a.host), Upgrades(site, a.port, suppress) || site.servesHttps;
    forall to ensures other == Some(to) <==> Renames(site, a.host, to) {
      RenamesIff(site, a.host, to);
    }
    var host, port := if other.Some? then other.value else a.host, if https then site.httpsPort else site.httpPort;
    LocationIff(r.location, https, host, port, path);
    LocationIff(LocationText(https, host, port, path), https, host, port, path);
  }
}
