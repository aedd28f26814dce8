/** The pool of upstream connections: `Open`, `Close` and what they keep. */
module Pool {
  import opened Wrappers
  import Hosts

  type ConnId = nat

  /** Where a connection was dialled to. */
  datatype Dest = Dest(scheme: string, hostPort: string)

  /** The pool together with the history of the network: every connection ever
      dialled, and those that have been closed. */
  datatype Pool = Pool(conns: map<string, ConnId>, conn: Option<ConnId>, dialled: map<ConnId, Dest>, closed: set<ConnId>)

  function KeyOf(d: Dest): string {
    d.scheme + "://" + d.hostPort
  }

  function DestOf(scheme: string, host: string): Dest {
    Dest(scheme, Hosts.WithPort(scheme, host))
  }

  /** Two hosts of one scheme are dialled alike, and filed under the same key, exactly if
      they name the same host and, said or unsaid, the same port. */
  lemma SameDest(scheme: string, a: string, b: string)
    ensures DestOf(scheme, a) == DestOf(scheme, b)
       <==> Hosts.SplitHostAndPort(a).0 == Hosts.SplitHostAndPort(b).0 && Hosts.EffectivePort(scheme, a) == Hosts.EffectivePort(scheme, b)
    ensures KeyOf(DestOf(scheme, a)) == Hosts.PoolKey(scheme, a)
  {
    Hosts.SameDestination(scheme, a, b);
  }

  function Closed(p: Pool): Pool {
    p.(conns := map[], conn := None, closed := p.closed + p.conns.Values)
  }

  /** The effect of `Open`; `dial` is the new connection's identity, if dialling succeeds. */
  function Opened(p: Pool, maxConns: nat, d: Dest, dial: Option<ConnId>): Pool {
    if KeyOf(d) in p.conns then p.(conn := Some(p.conns[KeyOf(d)]))
    else
      var q := if |p.conns| > maxConns then Closed(p) else p;
      match dial
      case None => q.(conn := None)
      case Some(id) => q.(conns := q.conns[KeyOf(d) := id], conn := Some(id), dialled := q.dialled[id := d])
  }

  /** At most MaxConns + 1 entries; the current connection is pooled; nothing dialled
      is lost; every entry was dialled for exactly what its key says. */
  ghost predicate Inv(p: Pool, maxConns: nat) {
    && |p.conns| <= maxConns + 1
    && (p.conn.Some? ==> p.conn.value in p.conns.Values)
    && (forall id :: id in p.dialled ==> id in p.conns.Values || id in p.closed)
    && (forall key :: key in p.conns ==>
          p.conns[key] in p.dialled && KeyOf(p.dialled[p.conns[key]]) == key && ':' !in p.dialled[p.conns[key]].scheme)
  }

  /** No dialled connection is left open. */
  ghost predicate AllClosed(p: Pool) {
    p.conns == map[] && forall id :: id in p.dialled ==> id in p.closed
  }

  lemma CloseKeepsInv(p: Pool, maxConns: nat)
    requires Inv(p, maxConns)
    ensures Inv(Closed(p), maxConns) && AllClosed(Closed(p))
  {
  }

  lemma UpdateSize(m: map<string, ConnId>, k: string, v: ConnId)
    ensures |m[k := v]| == |m| + if k in m then 0 else 1
  {
    var n := m[k := v];
    assert n.Keys == m.Keys + {k};
    assert |n| == |n.Keys| && |m| == |m.Keys|;
    if k in m { assert n.Keys == m.Keys; }
  }

  lemma OpenKeepsInv(p: Pool, maxConns: nat, d: Dest, dial: Option<ConnId>)
    requires Inv(p, maxConns) && ':' !in d.scheme && (dial.Some? ==> dial.value !in p.dialled)
    ensures Inv(Opened(p, maxConns, d, dial), maxConns)
  {
    if KeyOf(d) !in p.conns {
      CloseKeepsInv(p, maxConns);
      if dial.Some? {
        var q := if |p.conns| > maxConns then Closed(p) else p;
        var t := Opened(p, maxConns, d, dial);
        UpdateSize(q.conns, KeyOf(d), dial.value);
        assert t.conns[KeyOf(d)] == dial.value;
        forall id | id in t.dialled
          ensures id in t.conns.Values || id in t.closed
        {
          if id != dial.value && id in q.conns.Values {
            var k :| k in q.conns && q.conns[k] == id;
            assert t.conns[k] == id;
          }
        }
      }
    }
  }

  /** A connection handed out by `Open` was dialled for the scheme, host and port
      of this very request: reuse never crosses destinations. */
  lemma OpenedForRequest(p: Pool, maxConns: nat, d: Dest, dial: Option<ConnId>)
    requires Inv(p, maxConns) && ':' !in d.scheme
    ensures var t := Opened(p, maxConns, d, dial);
            t.conn.Some? ==> t.conn.value in t.dialled && t.dialled[t.conn.value] == d
  {
    if KeyOf(d) in p.conns {
      var e := p.dialled[p.conns[KeyOf(d)]];
      assert KeyOf(e) == e.scheme + ":" + ("//" + e.hostPort) && KeyOf(d) == d.scheme + ":" + ("//" + d.hostPort);
      Hosts.SchemeEnds(e.scheme, d.scheme, "//" + e.hostPort, "//" + d.hostPort);
      assert ("//" + e.hostPort)[2..] == e.hostPort && ("//" + d.hostPort)[2..] == d.hostPort;
    }
  }

  /** A pooled connection that was dialled for `d`. */
  predicate Pooled(p: Pool, d: Dest, id: ConnId) {
    id in p.conns.Values && id in p.dialled && p.dialled[id] == d
  }

  /** What opening does to the rest of the pool when the destination is not pooled: a
      pool over its limit is closed as a whole, and otherwise every connection stays. */
  predicate Spared(p: Pool, maxConns: nat, t: Pool) {
    if |p.conns| > maxConns then t.closed == p.closed + p.conns.Values && |t.conns| <= 1
    else t.closed == p.closed && forall key :: key in p.conns ==> key in t.conns && t.conns[key] == p.conns[key]
  }

  /** Opening `d` turns `p` into `t`: a connection that is pooled for the destination is
      reused, and nothing else happens; if none is, only a new one can be handed out,
      and it is pooled. */
  ghost predicate Serves(p: Pool, maxConns: nat, d: Dest, t: Pool) {
    && (forall id: ConnId :: Pooled(p, d, id) ==> t == p.(conn := Some(id)))
    && ((forall id: ConnId :: !Pooled(p, d, id)) ==>
          && Spared(p, maxConns, t)
          && match t.conn
             case None => t.dialled == p.dialled
             case Some(id) => Pooled(t, d, id) && id !in p.dialled && t.dialled == p.dialled[id := d])
  }

  lemma OpenServes(p: Pool, maxConns: nat, d: Dest, dial: Option<ConnId>)
    requires Inv(p, maxConns) && ':' !in d.scheme && (dial.Some? ==> dial.value !in p.dialled)
    ensures Serves(p, maxConns, d, Opened(p, maxConns, d, dial))
    ensures dial.Some? || (exists id: ConnId :: Pooled(p, d, id)) ==> Opened(p, maxConns, d, dial).conn.Some?
  {
    PooledIsFiled(p, maxConns, d);
    var t := Opened(p, maxConns, d, dial);
    if KeyOf(d) !in p.conns && dial.Some? { assert t.conns[KeyOf(d)] == dial.value; }
  }

  lemma PooledIsFiled(p: Pool, maxConns: nat, d: Dest)
    requires Inv(p, maxConns) && ':' !in d.scheme
    ensures KeyOf(d) in p.conns ==> Pooled(p, d, p.conns[KeyOf(d)])
    ensures forall id :: Pooled(p, d, id) ==> KeyOf(d) in p.conns && p.conns[KeyOf(d)] == id
  {
    if KeyOf(d) in p.conns { OpenedForRequest(p, maxConns, d, None); }
    forall id | Pooled(p, d, id)
      ensures KeyOf(d) in p.conns && p.conns[KeyOf(d)] == id
    {
      var key :| key in p.conns && p.conns[key] == id;
      assert key == KeyOf(d);
    }
  }

  lemma OpenIsRight(p: Pool, maxConns: nat, d: Dest, dial: Option<ConnId>, t: Pool)
    requires Inv(p, maxConns) && ':' !in d.scheme && (dial.Some? ==> dial.value !in p.dialled)
    requires t == Opened(p, maxConns, d, dial)
    ensures Inv(t, maxConns) && Serves(p, maxConns, d, t)
    ensures t.conn.Some? ==> t.conn.value in t.dialled && t.dialled[t.conn.value] == d
  {
    OpenKeepsInv(p, maxConns, d, dial);
    OpenedForRequest(p, maxConns, d, dial);
    OpenServes(p, maxConns, d, dial);
  }

  // ----------------------------------------------------- the imperative form

  /** The outside world: identities of connections, dialled and closed. */
  class Network {
    var dialled: map<ConnId, Dest>
    var closed: set<ConnId>
    var next: ConnId

    ghost predicate Valid()
      reads this
    {
      forall id :: id in dialled ==> id < next
    }

    constructor ()
      ensures Valid() && dialled == map[] && closed == {}
    {
      dialled, closed, next := map[], {}, 0;
    }

    /** Dialling may fail. */
    method Dial(d: Dest) returns (id: Option<ConnId>)
      requires Valid()
      modifies this
      ensures Valid() && closed == old(closed)
      ensures id.Some? ==> id.value !in old(dialled) && dialled == old(dialled)[id.value := d]
      ensures id.None? ==> dialled == old(dialled)
    {
      var ok: bool := *;
      if ok {
        id := Some(next);
        dialled, next := dialled[next := d], next + 1;
      } else {
        id := None;
      }
    }

    method Close(id: ConnId)
      requires Valid()
      modifies this`closed
      ensures Valid() && closed == old(closed) + {id}
    {
      closed := closed + {id};
    }
  }

  ghost function ValuesAt(m: map<string, ConnId>, keys: set<string>): set<ConnId> {
    set k | k in keys && k in m :: m[k]
  }

  lemma ValuesAtAdd(m: map<string, ConnId>, keys: set<string>, k: string)
    requires k in m
    ensures ValuesAt(m, keys + {k}) == ValuesAt(m, keys) + {m[k]}
  {
  }

  class ServerConnProps {
    const MaxConns: nat
    const net: Network
    var Conns: map<string, ConnId>
    var Conn: Option<ConnId>

    constructor (MaxConns: nat, net: Network)
      ensures this.MaxConns == MaxConns && this.net == net && Conns == map[] && Conn == None
    {
      this.MaxConns, this.net, this.Conns, this.Conn := MaxConns, net, map[], None;
    }

    ghost function State(): Pool
      reads this, net
    {
      Pool(Conns, Conn, net.dialled, net.closed)
    }

    ghost predicate Valid()
      reads this, net
    {
      net.Valid() && Inv(State(), MaxConns)
    }

    /** Closes every pooled connection, in any order. */
    method CloseAll()
      requires net.Valid()
      modifies net
      ensures net.Valid() && net.dialled == old(net.dialled) && net.closed == old(net.closed) + Conns.Values
    {
      var left := Conns.Keys;
      while left != {}
        invariant net.Valid() && left <= Conns.Keys && net.dialled == old(net.dialled)
        invariant net.closed == old(net.closed) + ValuesAt(Conns, Conns.Keys - left)
      {
        var k :| k in left;
        net.Close(Conns[k]);
        ValuesAtAdd(Conns, Conns.Keys - left, k);
        assert Conns.Keys - (left - {k}) == Conns.Keys - left + {k};
        left := left - {k};
      }
      assert ValuesAt(Conns, Conns.Keys - left) == Conns.Values;
    }

    method Close()
      requires Valid()
      modifies this, net
      ensures Valid() && State() == Closed(old(State())) && AllClosed(State())
    {
      CloseKeepsInv(State(), MaxConns);
      CloseAll();
      Conns, Conn := map[], None;
    }

    method CreateConn(dst: Hosts.URL) returns (server: Option<ConnId>)
      requires net.Valid()
      modifies net
      ensures net.Valid() && net.closed == old(net.closed)
      ensures server.Some? ==> server.value !in old(net.dialled)
                               && net.dialled == old(net.dialled)[server.value := DestOf(dst.scheme, dst.host)]
      ensures server.None? ==> net.dialled == old(net.dialled)
    {
      var dstWithPort := new Hosts.URL(dst.scheme, dst.host);
      dstWithPort.InsertPort();
      server := net.Dial(Dest(dstWithPort.scheme, dstWithPort.host));
    }

    /** After success the current connection was dialled for this request's
        scheme, host and port, now or earlier. */
    method Open(url: Hosts.URL) returns (ok: bool, ghost dial: Option<ConnId>)
      requires Valid() && ':' !in url.scheme
      modifies this, net
      ensures Valid() && State() == Opened(old(State()), MaxConns, DestOf(url.scheme, url.host), dial)
      ensures ok <==> Conn.Some?
      ensures ok ==> Conn.value in net.dialled && net.dialled[Conn.value] == DestOf(url.scheme, url.host)
      ensures Serves(old(State()), MaxConns, DestOf(url.scheme, url.host), State())
    {
      var dst := new Hosts.URL(url.scheme, url.host);
      dst.InsertPort();
      Hosts.InsertPortIdempotent(url.scheme, url.host);
      var host := dst.scheme + "://" + dst.host;
      ghost var d := DestOf(url.scheme, url.host);
      ghost var p := State();
      if host in Conns {
        dial := None;
        Conn := Some(Conns[host]);
        OpenIsRight(p, MaxConns, d, dial, State());
        return true, dial;
      }
      if |Conns| > MaxConns {
        Close();
      }
      var server := CreateConn(dst);
      dial := server;
      if server.None? {
        Conn := None;
        OpenIsRight(p, MaxConns, d, dial, State());
        return false, dial;
      }
      Conn := server;
      Conns := Conns[host := server.value];
      OpenIsRight(p, MaxConns, d, dial, State());
      ok := true;
    }
  }
}
