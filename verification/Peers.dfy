/** The peer manager: three hash maps, the purged set and the route tables, updated in
    place. A map owns its peers, so updating one is updating the map at its key. */
module Peers {
  import opened Common
  import opened PeerTable
  import opened PeerRuns
  import opened Routes

  class PeerManager {
    const node: Node
    var peersByIp: map<Ip4, Peer>
    var idToIp: map<PeerId, Ip4>
    var endpointToIp: map<SocketAddr, Ip4>
    var purgedIps: set<Ip4>
    var subnetRoutes: map<Ip4, Ip4>
    var cidrs: seq<Route>
    var cidrsV6: seq<Route>

    ghost function View(): Table
      reads this`peersByIp, this`idToIp, this`endpointToIp, this`purgedIps
    {
      Table(peersByIp, idToIp, endpointToIp, purgedIps)
    }

    /** The route tables are sorted for first-hit matching. */
    ghost predicate RoutesSorted()
      reads this`cidrs, this`cidrsV6
    {
      LongestFirst(cidrs) && LongestFirst(cidrsV6)
    }

    constructor (node: Node)
      ensures View() == Table(map[], map[], map[], {})
      ensures RoutesSorted() && this.node == node
    {
      this.node := node;
      peersByIp := map[];
      idToIp := map[];
      endpointToIp := map[];
      purgedIps := {};
      subnetRoutes := map[];
      cidrs := [];
      cidrsV6 := [];
    }

    method AddPeer(peer: Peer)
      modifies `peersByIp, `idToIp, `endpointToIp
      ensures View() == old(View()).AddPeer(peer)
    {
      var ip := peer.wolfnetIp;
      if peer.endpoint.Some? {
        endpointToIp := endpointToIp[peer.endpoint.value := ip];
      }
      idToIp := idToIp[peer.peerId := ip];
      peersByIp := peersByIp[ip := peer];
    }

    method RemovePeer(ip: Ip4)
      modifies `peersByIp, `idToIp, `endpointToIp
      ensures View() == old(View()).RemovePeer(ip)
    {
      if ip in peersByIp {
        var peer := peersByIp[ip];
        peersByIp := peersByIp - {ip};
        idToIp := idToIp - {peer.peerId};
        if peer.endpoint.Some? {
          endpointToIp := endpointToIp - {peer.endpoint.value};
        }
      }
    }

    method PurgePeer(ip: Ip4)
      modifies `peersByIp, `idToIp, `endpointToIp, `purgedIps
      ensures View() == old(View()).PurgePeer(ip)
    {
      RemovePeer(ip);
      purgedIps := purgedIps + {ip};
    }

    /** Writing a changed peer back in its place, as with_peer_by_ip does: nothing if there is
        no peer. */
    method Put(ip: Ip4, peer: Peer)
      modifies `peersByIp
      ensures View() == if ip in old(peersByIp) then old(View()).(peers := old(peersByIp)[ip := peer]) else old(View())
    {
      if ip in peersByIp {
        peersByIp := peersByIp[ip := peer];
      }
    }

    method FindIpByEndpointOrId(addr: SocketAddr, id: PeerId) returns (r: Option<Ip4>)
      ensures r == View().FindIpByEndpointOrId(addr, id)
    {
      if addr in endpointToIp {
        return Some(endpointToIp[addr]);
      }
      if id in idToIp {
        return Some(idToIp[id]);
      }
      return None;
    }

    method UpdateEndpoint(ip: Ip4, newEndpoint: SocketAddr)
      modifies `peersByIp, `endpointToIp
      ensures View() == old(View()).UpdateEndpoint(ip, newEndpoint)
    {
      if ip in peersByIp {
        var peer := peersByIp[ip];
        if peer.endpoint.Some? && peer.endpoint.value != newEndpoint {
          endpointToIp := endpointToIp - {peer.endpoint.value};
        }
        peersByIp := peersByIp[ip := peer.(endpoint := Some(newEndpoint))];
        endpointToIp := endpointToIp[newEndpoint := ip];
      }
    }

    method UpdateEndpointIfRoaming(ip: Ip4, newEndpoint: SocketAddr) returns (applied: bool)
      modifies `peersByIp, `endpointToIp
      ensures applied == old(View()).MayRoam(ip)
      ensures View() == old(View()).UpdateEndpointIfRoaming(ip, newEndpoint)
    {
      if ip !in peersByIp {
        return false;
      }
      var peer := peersByIp[ip];
      if peer.configuredEndpoint.Some? {
        return false;
      }
      if peer.endpoint.Some? && peer.endpoint.value != newEndpoint {
        endpointToIp := endpointToIp - {peer.endpoint.value};
      }
      peersByIp := peersByIp[ip := peer.(endpoint := Some(newEndpoint))];
      endpointToIp := endpointToIp[newEndpoint := ip];
      return true;
    }

    method ClearEndpoint(ip: Ip4) returns (cleared: bool)
      modifies `peersByIp, `endpointToIp
      ensures cleared == old(View()).HasEndpoint(ip)
      ensures View() == old(View()).ClearEndpoint(ip)
    {
      if ip !in peersByIp {
        return false;
      }
      var peer := peersByIp[ip];
      cleared := peer.endpoint.Some? || peer.configuredEndpoint.Some?;
      if peer.endpoint.Some? {
        endpointToIp := endpointToIp - {peer.endpoint.value};
      }
      peersByIp := peersByIp[ip := peer.(endpoint := None, configuredEndpoint := None)];
    }

    /** The scan of the table for a public key, in hash order. */
    method FindByKey(key: Key) returns (pick: Option<Ip4>)
      ensures View().IsHolder(key, pick)
      ensures pick.Some? ==> pick.value in peersByIp && peersByIp[pick.value].publicKey == key
      ensures pick.None? ==> forall ip :: ip in peersByIp ==> peersByIp[ip].publicKey != key
    {
      var rest := peersByIp.Keys;
      while rest != {}
        invariant rest <= peersByIp.Keys
        invariant forall ip :: ip in peersByIp && ip !in rest ==> peersByIp[ip].publicKey != key
        decreases rest
      {
        var ip :| ip in rest;
        if peersByIp[ip].publicKey == key {
          return Some(ip);
        }
        rest := rest - {ip};
      }
      return None;
    }

    /** The IPs of all peers, in the order in which the map yields them. */
    method AllIps() returns (ips: seq<Ip4>)
      ensures IsOrder(ips, peersByIp.Keys)
    {
      ips := [];
      var rest := peersByIp.Keys;
      while rest != {}
        invariant rest <= peersByIp.Keys && IsOrder(ips, peersByIp.Keys - rest)
        decreases rest
      {
        var ip :| ip in rest;
        rest := rest - {ip};
        ips := ips + [ip];
      }
    }

    /** The pick is the outcome of the scan by key, if it is made. */
    method UpdateFromDiscovery(a: Announcement) returns (ghost pick: Option<Ip4>)
      modifies `peersByIp, `idToIp, `endpointToIp
      ensures old(View()).IsHolder(a.key, pick)
      ensures View() == old(View()).UpdateFromDiscovery(node.me, a, pick)
    {
      if a.ip in peersByIp && peersByIp[a.ip].publicKey == a.key {
        pick := Some(a.ip);
        var peer := peersByIp[a.ip].(hostname := a.hostname, isGateway := a.isGateway, relayVia := None);
        if peer.configuredEndpoint.None? {
          if peer.endpoint.Some? && peer.endpoint.value != a.endpoint {
            endpointToIp := endpointToIp - {peer.endpoint.value};
          }
          peer := peer.(endpoint := Some(a.endpoint));
          endpointToIp := endpointToIp[a.endpoint := a.ip];
        }
        peersByIp := peersByIp[a.ip := peer];
        return;
      }
      var existing := FindByKey(a.key);
      pick := existing;
      if existing.Some? && existing.value != a.ip {
        var peer := peersByIp[existing.value];
        peersByIp := peersByIp - {existing.value};
        if peer.endpoint.Some? {
          endpointToIp := endpointToIp - {peer.endpoint.value};
        }
        peer := peer.(wolfnetIp := a.ip, endpoint := Some(a.endpoint), hostname := a.hostname,
                      isGateway := a.isGateway, relayVia := None);
        endpointToIp := endpointToIp[a.endpoint := a.ip];
        idToIp := idToIp[peer.peerId := a.ip];
        peersByIp := peersByIp[a.ip := peer];
        return;
      }
      if a.ip in peersByIp {
        var oldPeer := peersByIp[a.ip];
        peersByIp := peersByIp - {a.ip};
        if oldPeer.endpoint.Some? {
          endpointToIp := endpointToIp - {oldPeer.endpoint.value};
        }
        idToIp := idToIp - {oldPeer.peerId};
      }
      var peer := NewPeer(node.me, a.key, a.ip).(
        endpoint := Some(a.endpoint), hostname := a.hostname, isGateway := a.isGateway);
      endpointToIp := endpointToIp[a.endpoint := a.ip];
      idToIp := idToIp[peer.peerId := a.ip];
      peersByIp := peersByIp[a.ip := peer];
    }

    /** The picks are the outcomes of the entries' scans by key. */
    method AddFromPex(entries: seq<PexEntry>, sender: Ip4, now: nat) returns (ghost picks: seq<Option<Ip4>>)
      modifies `peersByIp, `idToIp, `endpointToIp
      ensures old(View()).ArePicks(entries, sender, node.myIp, node.me, now, picks)
      ensures View() == old(View()).AddFromPex(entries, sender, node.myIp, node.me, now, picks)
    {
      picks := [];
      for i := 0 to |entries|
        invariant |picks| == i
        invariant old(View()).ArePicks(entries[..i], sender, node.myIp, node.me, now, picks)
        invariant View() == old(View()).AddFromPex(entries[..i], sender, node.myIp, node.me, now, picks)
      {
        ghost var scan := AddPexEntry(entries[i], sender, now);
        assert entries[..i + 1][..i] == entries[..i] && (picks + [scan])[..i] == picks;
        picks := picks + [scan];
      }
      assert entries[..|entries|] == entries;
    }

    method AddPexEntry(entry: PexEntry, sender: Ip4, now: nat) returns (ghost pick: Option<Ip4>)
      modifies `peersByIp, `idToIp, `endpointToIp
      ensures old(View()).PexEligible(entry, node.myIp, now) ==> old(View()).IsHolder(entry.key.value, pick)
      ensures View() == old(View()).AddPexEntry(entry, sender, node.myIp, node.me, now, pick)
    {
      pick := None;
      if entry.ip.None? || entry.ip.value == node.myIp || entry.ip.value in purgedIps
         || !SameSubnet(entry.ip.value, node.myIp) {
        return;
      }
      var ip := entry.ip.value;
      if ip in peersByIp && (peersByIp[ip].IsConnected(now) || peersByIp[ip].relayVia.None?) {
        return;
      }
      if entry.key.None? {
        return;
      }
      var existing := FindByKey(entry.key.value);
      pick := existing;
      if existing.Some? && existing.value != ip {
        return;
      }
      if ip in peersByIp {
        peersByIp := peersByIp[ip := peersByIp[ip].(relayVia := Some(sender))];
        return;
      }
      var peer := NewPeer(node.me, entry.key.value, ip).(
        hostname := entry.hostname, isGateway := entry.isGateway, relayVia := Some(sender));
      if entry.endpoint.Some? && IsRoutableEndpoint(entry.endpoint.value) {
        peer := peer.(endpoint := entry.endpoint);
        endpointToIp := endpointToIp[entry.endpoint.value := ip];
      }
      peer := peer.EstablishSession(node.me);
      idToIp := idToIp[peer.peerId := ip];
      peersByIp := peersByIp[ip := peer];
    }

    // ---------- routing ----------

    /** Some connected gateway peer, whichever the map yields first. */
    method FindGateway(now: nat) returns (r: Option<Ip4>)
      ensures IsGatewayPick(View(), now, r)
      ensures r.Some? ==> r.value in peersByIp && peersByIp[r.value].isGateway && peersByIp[r.value].IsConnected(now)
      ensures r.None? ==> forall ip :: ip in peersByIp && peersByIp[ip].isGateway ==> !peersByIp[ip].IsConnected(now)
    {
      var rest := peersByIp.Keys;
      while rest != {}
        invariant rest <= peersByIp.Keys
        invariant forall ip :: ip in peersByIp && ip !in rest ==>
                    !(peersByIp[ip].isGateway && peersByIp[ip].IsConnected(now))
        decreases rest
      {
        var ip :| ip in rest;
        if peersByIp[ip].isGateway && peersByIp[ip].IsConnected(now) {
          return Some(ip);
        }
        rest := rest - {ip};
      }
      return None;
    }

    /** Replaces both CIDR tables by the file's routes, sorted; a missing file clears
        them, an unreadable one leaves them. */
    method LoadSubnetRoutes(file: RouteFile, parseIp6: string -> Option<Ip6>)
      modifies `cidrs, `cidrsV6
      ensures old(RoutesSorted()) ==> RoutesSorted()
      ensures match file
              case Missing => cidrs == [] && cidrsV6 == []
              case Malformed => cidrs == old(cidrs) && cidrsV6 == old(cidrsV6)
              case Pairs(pairs) =>
                && multiset(cidrs) == multiset(RoutesIn(ParseAll(parseIp6, pairs), false))
                && multiset(cidrsV6) == multiset(RoutesIn(ParseAll(parseIp6, pairs), true))
    {
      match file {
        case Missing =>
          cidrs := [];
          cidrsV6 := [];
        case Malformed =>
        case Pairs(pairs) =>
          var parsed, parsedV6 := [], [];
          ghost var all := ParseAll(parseIp6, pairs);
          for i := 0 to |pairs|
            invariant parsed == RoutesIn(all[..i], false)
            invariant parsedV6 == RoutesIn(all[..i], true)
          {
            assert all[..i + 1][..i] == all[..i];
            match ParsePair(parseIp6, pairs[i]) {
              case Inet(r) => parsed := parsed + [r];
              case Inet6(r) => parsedV6 := parsedV6 + [r];
              case Skip =>
            }
          }
          assert all[..|pairs|] == all;
          SortedIsSorted(parsed);
          SortedIsSorted(parsedV6);
          cidrs := Sorted(parsed);
          cidrsV6 := Sorted(parsedV6);
      }
    }

    method FindSubnetMatch(dest: Ip4) returns (r: Option<Ip4>)
      requires RoutesSorted()
      ensures IsLongestMatch(multiset(cidrs), dest.Octets(), r)
    {
      r := FirstHit(cidrs, dest.Octets());
    }

    method FindSubnetMatchV6(dest: Ip6) returns (r: Option<Ip4>)
      requires RoutesSorted()
      ensures IsLongestMatch(multiset(cidrsV6), dest, r)
    {
      r := FirstHit(cidrsV6, dest);
    }
  }

  /** The elements of a set in some order, each once. */
  ghost predicate IsOrder(order: seq<Ip4>, ips: set<Ip4>) {
    && (forall i, j :: 0 <= i < j < |order| ==> order[i] != order[j])
    && (forall ip :: ip in order <==> ip in ips)
  }

  ghost predicate IsGatewayPick(t: Table, now: nat, r: Option<Ip4>) {
    match r
    case None => forall ip :: ip in t.peers ==> !(t.peers[ip].isGateway && t.peers[ip].IsConnected(now))
    case Some(ip) => ip in t.peers && t.peers[ip].isGateway && t.peers[ip].IsConnected(now)
  }
}
