/** Hosts and ports: normalisation before dialling and the pool key built on it. */
module Hosts {
  import opened Strings

  /** Everything from the second colon on is ignored. */
  function SplitHostAndPort(hostWithPort: string): (string, string) {
    var s := Split(hostWithPort, ':');
    (s[0], if |s| >= 2 then s[1] else "")
  }

  function DefaultPort(scheme: string): string {
    if scheme == "https" then "443" else "80"
  }

  /** The port a URL is dialled at. */
  function EffectivePort(scheme: string, host: string): string {
    var port := SplitHostAndPort(host).1;
    if port == "" then DefaultPort(scheme) else port
  }

  /** The host that `InsertPort` leaves behind. */
  function WithPort(scheme: string, host: string): string {
    SplitHostAndPort(host).0 + ":" + EffectivePort(scheme, host)
  }

  predicate Redundant(scheme: string, port: string) {
    (scheme == "http" && port == "80") || (scheme == "https" && port == "443")
  }

  /** The host that `RemoveRedundantPort` leaves behind. */
  function WithoutRedundantPort(scheme: string, host: string): string {
    var (h, port) := SplitHostAndPort(host);
    if Redundant(scheme, port) then h else host
  }

  class URL {
    var scheme: string
    var host: string

    constructor (scheme: string, host: string)
      ensures this.scheme == scheme && this.host == host
    {
      this.scheme, this.host := scheme, host;
    }

    method InsertPort()
      modifies this`host
      ensures host == WithPort(scheme, old(host))
      ensures ':' !in old(host) ==> host == old(host) + if scheme == "https" then ":443" else ":80"
    {
      if ':' !in host { SplitOfPair(host, ""); }
      var (h, port) := SplitHostAndPort(host);
      if port == "" {
        if scheme == "https" {
          port := "443";
        } else {
          port := "80";
        }
      }
      host := h + ":" + port;
    }

    method RemoveRedundantPort()
      modifies this`host
      ensures host == WithoutRedundantPort(scheme, old(host))
      ensures host == old(host) || (host == SplitHostAndPort(old(host)).0 && WithPort(scheme, host) == WithPort(scheme, old(host)))
    {
      var (h, port) := SplitHostAndPort(host);
      if scheme == "http" && port == "80" {
        host := h;
      } else if scheme == "https" && port == "443" {
        host := h;
      }
      RedundantPortHarmless(scheme, old(host));
    }
  }

  lemma SplitOfPair(h: string, port: string)
    requires ':' !in h && ':' !in port
    ensures SplitHostAndPort(h + ":" + port) == (h, port) && SplitHostAndPort(h) == (h, "")
  {
    SplitConcat(h, port, ':');
    OneField(h, ':');
    OneField(port, ':');
  }

  lemma PartsAreClean(scheme: string, host: string)
    ensures ':' !in SplitHostAndPort(host).0 && ':' !in SplitHostAndPort(host).1
    ensures ':' !in EffectivePort(scheme, host) && EffectivePort(scheme, host) != ""
  {
    var s := Split(host, ':');
    FieldIsClean(host, ':', s[0]);
    if |s| >= 2 { FieldIsClean(host, ':', s[1]); }
  }

  /** Inserting the port twice is inserting it once. */
  lemma InsertPortIdempotent(scheme: string, host: string)
    ensures WithPort(scheme, WithPort(scheme, host)) == WithPort(scheme, host)
  {
    PartsAreClean(scheme, host);
    SplitOfPair(SplitHostAndPort(host).0, EffectivePort(scheme, host));
  }

  /** The clean-up of redundant ports is undone by inserting the port. */
  lemma RedundantPortHarmless(scheme: string, host: string)
    ensures WithPort(scheme, WithoutRedundantPort(scheme, host)) == WithPort(scheme, host)
  {
    var (h, port) := SplitHostAndPort(host);
    PartsAreClean(scheme, host);
    SplitOfPair(h, port);
  }

  /** Two hosts are normalised alike exactly when they name the same host and port. */
  lemma SameDestination(scheme: string, a: string, b: string)
    ensures WithPort(scheme, a) == WithPort(scheme, b)
       <==> SplitHostAndPort(a).0 == SplitHostAndPort(b).0 && EffectivePort(scheme, a) == EffectivePort(scheme, b)
  {
    PartsAreClean(scheme, a);
    PartsAreClean(scheme, b);
    SplitOfPair(SplitHostAndPort(a).0, EffectivePort(scheme, a));
    SplitOfPair(SplitHostAndPort(b).0, EffectivePort(scheme, b));
  }

  /** The port is removed exactly if it is the one that the scheme has by default, and
      then the rest of the host stays; any other host stays as a whole. */
  lemma RedundantPortExact(scheme: string, h: string, port: string)
    requires ':' !in h && ':' !in port
    ensures WithoutRedundantPort(scheme, h) == h
    ensures WithoutRedundantPort(scheme, h + ":" + port) ==
              if (scheme == "http" || scheme == "https") && WithPort(scheme, h) == h + ":" + port then h
              else h + ":" + port
  {
    SplitOfPair(h, port);
    assert DefaultPort(scheme) == if scheme == "https" then "443" else "80";
    SamePort(h, port, DefaultPort(scheme));
  }

  lemma SamePort(h: string, a: string, b: string)
    ensures h + ":" + a == h + ":" + b <==> a == b
  {
    assert (h + ":" + a)[|h| + 1..] == a && (h + ":" + b)[|h| + 1..] == b;
  }

  // ------------------------------------------------------------- pool keys

  /** The key under which `Open` files a connection. */
  function PoolKey(scheme: string, host: string): string {
    scheme + "://" + WithPort(scheme, host)
  }

  lemma SchemeEnds(s: string, t: string, a: string, b: string)
    requires ':' !in s && ':' !in t && s + ":" + a == t + ":" + b
    ensures s == t && a == b
  {
    SplitConcat(s, a, ':');
    SplitConcat(t, b, ':');
    OneField(s, ':');
    OneField(t, ':');
    assert Split(s + ":" + a, ':')[0] == s && Split(t + ":" + b, ':')[0] == t;
    assert (s + ":" + a)[|s| + 1..] == a && (t + ":" + b)[|t| + 1..] == b;
  }

  /** A scheme contains no colon, so a key decodes to one scheme, host and port:
      connections filed under it are never shared between destinations. */
  lemma KeyIsInjective(s: string, a: string, t: string, b: string)
    requires ':' !in s && ':' !in t
    ensures PoolKey(s, a) == PoolKey(t, b)
       <==> s == t && SplitHostAndPort(a).0 == SplitHostAndPort(b).0 && EffectivePort(s, a) == EffectivePort(t, b)
  {
    assert PoolKey(s, a) == s + ":" + ("//" + WithPort(s, a));
    assert PoolKey(t, b) == t + ":" + ("//" + WithPort(t, b));
    if PoolKey(s, a) == PoolKey(t, b) {
      SchemeEnds(s, t, "//" + WithPort(s, a), "//" + WithPort(t, b));
      assert ("//" + WithPort(s, a))[2..] == WithPort(s, a) && ("//" + WithPort(t, b))[2..] == WithPort(t, b);
    }
    if s == t { SameDestination(s, a, b); }
  }

  /** The host of a request: the Host header, completed from the URL. */
  function RealHost(scheme: string, urlHost: string, headerHost: string): string {
    var url := WithPort(scheme, urlHost);
    if headerHost == "" then url
    else
      var (h, port) := SplitHostAndPort(headerHost);
      var (urlH, urlPort) := SplitHostAndPort(url);
      (if h == "" then urlH else h) + ":" + (if port == "" then urlPort else port)
  }

  /** A host or port that the Host header names is taken from there, and what it lacks
      from the URL. */
  lemma HeaderDecides(scheme: string, urlHost: string, h: string, port: string)
    requires ':' !in h && ':' !in port
    ensures RealHost(scheme, urlHost, "") == WithPort(scheme, urlHost)
    ensures h != "" && port != "" ==> RealHost(scheme, urlHost, h + ":" + port) == h + ":" + port
    ensures h != "" ==> RealHost(scheme, urlHost, h) == h + ":" + EffectivePort(scheme, urlHost)
    ensures port != "" ==> RealHost(scheme, urlHost, ":" + port) == SplitHostAndPort(urlHost).0 + ":" + port
  {
    PartsAreClean(scheme, urlHost);
    SplitOfPair(SplitHostAndPort(urlHost).0, EffectivePort(scheme, urlHost));
    SplitOfPair(h, port);
    SplitOfPair("", port);
    assert "" + ":" + port == ":" + port;
  }

  /** From the client's request to the pool: the key is exactly the resolved host,
      whatever `RemoveRedundantPort` and `InsertPort` do in between. */
  lemma KeyOfRequest(scheme: string, urlHost: string, headerHost: string)
    ensures var resolved := RealHost(scheme, urlHost, headerHost);
            && PoolKey(scheme, WithoutRedundantPort(scheme, resolved)) == scheme + "://" + resolved
            && WithPort(scheme, resolved) == resolved
  {
    var resolved := RealHost(scheme, urlHost, headerHost);
    var url := WithPort(scheme, urlHost);
    PartsAreClean(scheme, urlHost);
    PartsAreClean(scheme, headerHost);
    InsertPortIdempotent(scheme, urlHost);
    SplitOfPair(SplitHostAndPort(urlHost).0, EffectivePort(scheme, urlHost));
    if headerHost != "" {
      var (h, port) := SplitHostAndPort(headerHost);
      var (urlH, urlPort) := SplitHostAndPort(url);
      SplitOfPair(if h == "" then urlH else h, if port == "" then urlPort else port);
    }
    RedundantPortHarmless(scheme, resolved);
  }

  // --------------------------------------------- when splitting loses nothing

  function Colons(s: string): nat {
    if s == "" then 0 else (if s[0] == ':' then 1 else 0) + Colons(s[1..])
  }

  lemma {:induction false} NoColons(s: string)
    ensures Colons(s) == 0 <==> ':' !in s
  {
    if s != "" {
      NoColons(s[1..]);
      assert s == [s[0]] + s[1..];
    }
  }

  lemma {:induction false} ColonsConcat(a: string, b: string)
    ensures Colons(a + b) == Colons(a) + Colons(b)
    decreases |a|
  {
    if a == "" {
      assert a + b == b;
    } else {
      assert (a + b)[1..] == a[1..] + b;
      ColonsConcat(a[1..], b);
    }
  }

  lemma {:induction false} FirstColon(s: string) returns (a: string, b: string)
    requires Colons(s) > 0
    ensures s == a + ":" + b && ':' !in a && Colons(b) == Colons(s) - 1
  {
    if s[0] == ':' {
      a, b := "", s[1..];
    } else {
      a, b := FirstColon(s[1..]);
      a := [s[0]] + a;
    }
  }

  /** Host and port put together again. */
  function Rejoined(host: string): string {
    var (h, port) := SplitHostAndPort(host);
    if port == "" then h else h + ":" + port
  }

  predicate EndsWithColon(host: string) {
    host != "" && host[|host| - 1] == ':'
  }

  /** With at most one colon the parts are what stands on its two sides. */
  lemma AtMostOneColon(host: string)
    requires Colons(host) <= 1
    ensures var (h, port) := SplitHostAndPort(host);
            host == if Colons(host) == 0 then h else h + ":" + port
    ensures Colons(host) == 0 ==> SplitHostAndPort(host).1 == ""
  {
    NoColons(host);
    if Colons(host) == 0 {
      SplitOfPair(host, "");
    } else {
      var a, b := FirstColon(host);
      NoColons(b);
      SplitOfPair(a, b);
    }
  }

  /** Splitting loses nothing exactly if there is at most one colon, and a port after it. */
  lemma SplitLosesNothing(host: string)
    ensures Rejoined(host) == host <==> Colons(host) <= 1 && !EndsWithColon(host)
  {
    var (h, port) := SplitHostAndPort(host);
    PartsAreClean("", host);
    NoColons(h);
    JoinedColons(h, port);
    if Colons(host) <= 1 { AtMostOneColon(host); }
  }

  /** Inserting the port changes nothing exactly for the hosts that have one. */
  lemma PortIsKept(scheme: string, host: string)
    ensures WithPort(scheme, host) == host <==> Colons(host) == 1 && !EndsWithColon(host)
  {
    PartsAreClean(scheme, host);
    JoinedColons(SplitHostAndPort(host).0, SplitHostAndPort(host).1);
    JoinedColons(SplitHostAndPort(host).0, EffectivePort(scheme, host));
    if Colons(host) == 1 { AtMostOneColon(host); }
  }

  lemma JoinedColons(h: string, port: string)
    requires ':' !in h && ':' !in port
    ensures Colons(h + ":" + port) == 1 && (port != "" ==> !EndsWithColon(h + ":" + port))
  {
    ColonsConcat(h + ":", port);
    ColonsConcat(h, ":");
    NoColons(h);
    NoColons(port);
    if port != "" {
      var last := port[|port| - 1];
      assert (h + ":" + port)[|h + ":" + port| - 1] == last && last in port;
    }
  }

  /** Otherwise everything from the second colon on is lost. */
  lemma SecondColonCuts(scheme: string, a: string, b: string, rest: string)
    requires ':' !in a && ':' !in b
    ensures SplitHostAndPort(a + ":" + (b + ":" + rest)) == (a, b)
    ensures WithPort(scheme, a + ":" + (b + ":" + rest)) == WithPort(scheme, a + ":" + b)
  {
    SplitConcat(a, b + ":" + rest, ':');
    SplitConcat(b, rest, ':');
    OneField(a, ':');
    OneField(b, ':');
    SplitOfPair(a, b);
  }

  /** So every bracketed address that starts with two colons becomes the same host. */
  lemma BracketedAddressIsCut(scheme: string, rest: string)
    ensures WithPort(scheme, "[" + ":" + ("" + ":" + rest)) == "[:" + DefaultPort(scheme)
  {
    SecondColonCuts(scheme, "[", "", rest);
    SplitOfPair("[", "");
  }
}
