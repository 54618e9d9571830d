/** The timer's handshakes to the peers that are not connected. */
module Probes {
  import opened Common
  import opened Transport
  import opened PeerTable
  import opened Peers
  import opened Daemon

  /** The library's parser for socket addresses. */
  type AddrParser = string -> Option<SocketAddr>

  /** Where the timer sends a handshake for one peer: to its endpoint and, where that is
      another address, to the configured one. */
  function Probed(p: Peer, now: nat, parse: AddrParser): seq<SocketAddr> {
    if p.IsConnected(now) then []
    else
      (if p.endpoint.Some? then [p.endpoint.value] else [])
      + (if p.configuredEndpoint.Some? && parse(p.configuredEndpoint.value).Some?
            && p.endpoint != parse(p.configuredEndpoint.value)
         then [parse(p.configuredEndpoint.value).value] else [])
  }

  /** The peer is due for handshakes at this address: it is not connected, and the address is
      its endpoint or its configured one. */
  predicate IsDue(p: Peer, now: nat, parse: AddrParser, addr: SocketAddr) {
    && (p.session.None? || p.lastSeen.None? || p.lastSeen.value + 120 <= now)
    && (p.endpoint == Some(addr)
        || (p.configuredEndpoint.Some? && parse(p.configuredEndpoint.value) == Some(addr)))
  }

  /** One handshake goes to each address at which the peer is due, to its endpoint first. */
  lemma ProbedIff(p: Peer, now: nat, parse: AddrParser, addr: SocketAddr)
    ensures multiset(Probed(p, now, parse))[addr] == if IsDue(p, now, parse, addr) then 1 else 0
    ensures p.endpoint.Some? && IsDue(p, now, parse, addr) ==> Probed(p, now, parse)[0] == p.endpoint.value
  {
  }

  function Copies(to: seq<SocketAddr>, bytes: seq<byte>): seq<Datagram> {
    if to == [] then [] else Copies(to[..|to| - 1], bytes) + [Datagram(to[|to| - 1], bytes)]
  }

  lemma CopiesLonger(to: seq<SocketAddr>, addr: SocketAddr, bytes: seq<byte>)
    ensures Copies(to + [addr], bytes) == Copies(to, bytes) + [Datagram(addr, bytes)]
  {
    assert (to + [addr])[..|to|] == to;
  }

  lemma {:induction false} CopiesReach(to: seq<SocketAddr>, bytes: seq<byte>, d: Datagram)
    ensures d in Copies(to, bytes) <==> d.bytes == bytes && d.to in to
  {
    if to != [] {
      CopiesReach(to[..|to| - 1], bytes, d);
      assert to == to[..|to| - 1] + [to[|to| - 1]];
    }
  }

  lemma {:induction false} CopiesKeepCount(to: seq<SocketAddr>, bytes: seq<byte>, addr: SocketAddr)
    ensures multiset(Copies(to, bytes))[Datagram(addr, bytes)] == multiset(to)[addr]
  {
    if to != [] {
      CopiesKeepCount(to[..|to| - 1], bytes, addr);
      assert to == to[..|to| - 1] + [to[|to| - 1]];
    }
  }

  /** The handshakes for the peer at an IP. */
  function ProbesTo(t: Table, ip: Ip4, now: nat, parse: AddrParser, handshake: seq<byte>): seq<Datagram> {
    if ip in t.peers then Copies(Probed(t.peers[ip], now, parse), handshake) else []
  }

  /** The handshakes for these peers, in order. */
  function AllProbes(t: Table, order: seq<Ip4>, now: nat, parse: AddrParser, handshake: seq<byte>): seq<Datagram> {
    if order == [] then []
    else
      var last := |order| - 1;
      AllProbes(t, order[..last], now, parse, handshake) + ProbesTo(t, order[last], now, parse, handshake)
  }

  lemma AllProbesLonger(t: Table, order: seq<Ip4>, ip: Ip4, now: nat, parse: AddrParser, handshake: seq<byte>)
    ensures AllProbes(t, order + [ip], now, parse, handshake) ==
            AllProbes(t, order, now, parse, handshake) + ProbesTo(t, ip, now, parse, handshake)
  {
    assert (order + [ip])[..|order|] == order;
  }

  /** The datagrams go to the addresses probed for some peer, and to all of them. */
  lemma {:induction false} ProbesReach(
    t: Table, order: seq<Ip4>, now: nat, parse: AddrParser, handshake: seq<byte>, d: Datagram)
    ensures d in AllProbes(t, order, now, parse, handshake) <==>
            d.bytes == handshake && exists ip :: ip in order && ip in t.peers && d.to in Probed(t.peers[ip], now, parse)
  {
    if order != [] {
      var init, ip := order[..|order| - 1], order[|order| - 1];
      ProbesReach(t, init, now, parse, handshake, d);
      AllProbesLonger(t, init, ip, now, parse, handshake);
      if ip in t.peers {
        CopiesReach(Probed(t.peers[ip], now, parse), handshake, d);
      }
      assert order == init + [ip];
    }
  }

  function DueAt(t: Table, order: seq<Ip4>, now: nat, parse: AddrParser, addr: SocketAddr): set<Ip4> {
    set ip | ip in order && ip in t.peers && IsDue(t.peers[ip], now, parse, addr)
  }

  /** With every peer tried once, each address gets one handshake for each peer due there. */
  lemma {:induction false} ProbesCounted(
    t: Table, order: seq<Ip4>, now: nat, parse: AddrParser, handshake: seq<byte>, addr: SocketAddr)
    requires forall i, j :: 0 <= i < j < |order| ==> order[i] != order[j]
    ensures multiset(AllProbes(t, order, now, parse, handshake))[Datagram(addr, handshake)] ==
            |DueAt(t, order, now, parse, addr)|
  {
    if order != [] {
      var init, ip := order[..|order| - 1], order[|order| - 1];
      assert order == init + [ip];
      ProbesCounted(t, init, now, parse, handshake, addr);
      AllProbesLonger(t, init, ip, now, parse, handshake);
      LastIsCounted(t, init, ip, now, parse, addr);
      if ip in t.peers {
        CopiesKeepCount(Probed(t.peers[ip], now, parse), handshake, addr);
        ProbedIff(t.peers[ip], now, parse, addr);
      }
    }
  }

  lemma LastIsCounted(t: Table, init: seq<Ip4>, ip: Ip4, now: nat, parse: AddrParser, addr: SocketAddr)
    requires ip !in init
    ensures |DueAt(t, init + [ip], now, parse, addr)| ==
            |DueAt(t, init, now, parse, addr)|
            + if ip in t.peers && IsDue(t.peers[ip], now, parse, addr) then 1 else 0
  {
    var all, some := DueAt(t, init + [ip], now, parse, addr), DueAt(t, init, now, parse, addr);
    if ip in t.peers && IsDue(t.peers[ip], now, parse, addr) {
      assert all == some + {ip};
    } else {
      assert all == some;
    }
  }

  method SendProbes(f: Forwarder, ip: Ip4, handshake: seq<byte>, now: nat, parse: AddrParser)
    modifies f`wire
    ensures f.wire == old(f.wire) + ProbesTo(f.manager.View(), ip, now, parse, handshake)
  {
    if ip !in f.manager.peersByIp {
      return;
    }
    var peer := f.manager.peersByIp[ip];
    ghost var sent: seq<SocketAddr> := [];
    if !peer.IsConnected(now) {
      if peer.endpoint.Some? {
        CopiesLonger(sent, peer.endpoint.value, handshake);
        f.wire := f.wire + [Datagram(peer.endpoint.value, handshake)];
        sent := sent + [peer.endpoint.value];
      }
      if peer.configuredEndpoint.Some? {
        var addr := parse(peer.configuredEndpoint.value);
        if addr.Some? && peer.endpoint != addr {
          CopiesLonger(sent, addr.value, handshake);
          f.wire := f.wire + [Datagram(addr.value, handshake)];
          sent := sent + [addr.value];
        }
      }
    }
    assert sent == Probed(peer, now, parse);
  }

  /** Sends a handshake for every peer that is not connected, to one or two addresses; order
      is the order in which the map yields the peers, each once. */
  method SendHandshakes(f: Forwarder, utf8: Utf8, own: Handshake, now: nat, parse: AddrParser)
    returns (order: seq<Ip4>)
    modifies f`wire
    ensures IsOrder(order, f.manager.View().peers.Keys)
    ensures f.wire == old(f.wire) + AllProbes(f.manager.View(), order, now, parse, BuildHandshake(utf8, own))
  {
    order := f.manager.AllIps();
    SendToAll(f, order, BuildHandshake(utf8, own), now, parse);
  }

  method SendToAll(f: Forwarder, ips: seq<Ip4>, handshake: seq<byte>, now: nat, parse: AddrParser)
    modifies f`wire
    ensures f.wire == old(f.wire) + AllProbes(f.manager.View(), ips, now, parse, handshake)
  {
    ghost var t, start := f.manager.View(), f.wire;
    ghost var sent: seq<Datagram> := [];
    for i := 0 to |ips|
      invariant f.wire == start + sent
      invariant sent == AllProbes(t, ips[..i], now, parse, handshake)
    {
      ghost var more := ProbesTo(t, ips[i], now, parse, handshake);
      Regroup(start, sent, more);
      AllProbesLonger(t, ips[..i], ips[i], now, parse, handshake);
      assert ips[..i + 1] == ips[..i] + [ips[i]];
      SendProbes(f, ips[i], handshake, now, parse);
      sent := sent + more;
    }
    assert ips[..|ips|] == ips;
  }

  lemma Regroup<T>(x: seq<T>, y: seq<T>, z: seq<T>)
    ensures x + y + z == x + (y + z)
  {
  }
}
