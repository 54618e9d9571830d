/** How the two indexes of the peer table stay in step with it. */
module PeerIndexes {
  import opened Common
  import opened Crypto
  import opened PeerTable

  ghost predicate SoundEndpoints(t: Table) {
    forall ep :: ep in t.endpoints ==>
      t.endpoints[ep] in t.peers && t.peers[t.endpoints[ep]].endpoint == Some(ep)
  }

  ghost predicate SoundIds(t: Table) {
    forall id :: id in t.ids ==> t.ids[id] in t.peers && t.peers[t.ids[id]].peerId == id
  }

  /** Every index entry leads to a live peer that holds exactly that endpoint or id. */
  ghost predicate Sound(t: Table) {
    SoundEndpoints(t) && SoundIds(t)
  }

  ghost predicate Indexed(t: Table, ip: Ip4)
    requires ip in t.peers
  {
    var p := t.peers[ip];
    && (p.endpoint.Some? ==> p.endpoint.value in t.endpoints && t.endpoints[p.endpoint.value] == ip)
    && p.peerId in t.ids && t.ids[p.peerId] == ip
  }

  /** Besides, every live peer is found under its endpoint and its id. */
  ghost predicate Exact(t: Table) {
    Sound(t) && forall ip :: ip in t.peers ==> Indexed(t, ip)
  }

  ghost predicate KeysUnique(t: Table) {
    forall x, y :: x in t.peers && y in t.peers && t.peers[x].publicKey == t.peers[y].publicKey ==> x == y
  }

  /** The index entries of the peer that p would displace are overwritten by those of p. */
  ghost predicate LeavesNothingStale(t: Table, p: Peer) {
    p.wolfnetIp in t.peers ==>
      var d := t.peers[p.wolfnetIp];
      && (d.endpoint.Some? && d.endpoint.value in t.endpoints && t.endpoints[d.endpoint.value] == p.wolfnetIp
          ==> p.endpoint == d.endpoint)
      && (d.peerId in t.ids && t.ids[d.peerId] == p.wolfnetIp ==> p.peerId == d.peerId)
  }

  /** No peer at another IP holds this endpoint. */
  ghost predicate EndpointFree(t: Table, ip: Ip4, ep: Option<SocketAddr>) {
    forall x :: x in t.peers && x != ip && ep.Some? ==> t.peers[x].endpoint != ep
  }

  ghost predicate IdFree(t: Table, ip: Ip4, id: PeerId) {
    forall x :: x in t.peers && x != ip ==> t.peers[x].peerId != id
  }

  lemma AddPeerSoundIff(t: Table, p: Peer)
    requires Sound(t)
    ensures Sound(t.AddPeer(p)) <==> LeavesNothingStale(t, p)
  {
    var t' := t.AddPeer(p);
    if Sound(t') && p.wolfnetIp in t.peers {
      var d := t.peers[p.wolfnetIp];
      assert d.endpoint.Some? && d.endpoint.value in t.endpoints ==> d.endpoint.value in t'.endpoints;
      assert d.peerId in t.ids ==> d.peerId in t'.ids;
    }
  }

  lemma AddPeerExactIff(t: Table, p: Peer)
    requires Exact(t)
    ensures Exact(t.AddPeer(p)) <==>
            && LeavesNothingStale(t, p)
            && EndpointFree(t, p.wolfnetIp, p.endpoint)
            && IdFree(t, p.wolfnetIp, p.peerId)
  {
    AddPeerSoundIff(t, p);
    var t' := t.AddPeer(p);
    assert forall x :: x in t.peers && x != p.wolfnetIp ==> x in t'.peers && t'.peers[x] == t.peers[x];
    assert forall x :: x in t'.peers ==> x in t.peers || x == p.wolfnetIp;
  }

  lemma RemovePeerKeeps(t: Table, ip: Ip4)
    requires Sound(t)
    ensures Sound(t.RemovePeer(ip)) && ip !in t.RemovePeer(ip).peers
    ensures Exact(t) ==> Exact(t.RemovePeer(ip))
  {
  }

  lemma UpdateEndpointKeepsSound(t: Table, ip: Ip4, ep: SocketAddr)
    requires Sound(t) && ip in t.peers
    ensures Sound(t.UpdateEndpoint(ip, ep))
  {
    var t' := t.UpdateEndpoint(ip, ep);
    assert forall e :: e in t'.endpoints ==> e == ep || (e in t.endpoints && t'.endpoints[e] == t.endpoints[e]);
  }

  lemma UpdateEndpointKeeps(t: Table, ip: Ip4, ep: SocketAddr)
    requires Sound(t)
    ensures Sound(t.UpdateEndpoint(ip, ep))
    ensures Exact(t) ==>
              (Exact(t.UpdateEndpoint(ip, ep)) <==> ip !in t.peers || EndpointFree(t, ip, Some(ep)))
  {
    if ip in t.peers {
      UpdateEndpointKeepsSound(t, ip, ep);
      if Exact(t) {
        UpdateEndpointIndexes(t, ip, ep);
      }
    }
  }

  lemma UpdateEndpointIndexes(t: Table, ip: Ip4, ep: SocketAddr)
    requires Exact(t) && ip in t.peers
    ensures var t' := t.UpdateEndpoint(ip, ep);
            && t'.peers.Keys == t.peers.Keys && Indexed(t', ip)
            && forall x :: x in t.peers && x != ip ==> (Indexed(t', x) <==> t.peers[x].endpoint != Some(ep))
  {
    var t' := t.UpdateEndpoint(ip, ep);
    assert Indexed(t, ip);
    forall x | x in t.peers && x != ip
      ensures Indexed(t', x) <==> t.peers[x].endpoint != Some(ep)
    {
      assert Indexed(t, x) && t'.peers[x] == t.peers[x] && t'.ids == t.ids;
    }
  }

  lemma ClearEndpointKeeps(t: Table, ip: Ip4)
    requires Sound(t)
    ensures Sound(t.ClearEndpoint(ip))
    ensures Exact(t) ==> Exact(t.ClearEndpoint(ip))
  {
  }

  /** The peer that a discovery files at the announced IP when it does not know it there. */
  function Moved(t: Table, a: Announcement, oldIp: Ip4): Peer
    requires oldIp in t.peers
  {
    t.peers[oldIp].(wolfnetIp := a.ip, endpoint := Some(a.endpoint), hostname := a.hostname,
                    isGateway := a.isGateway, relayVia := None)
  }

  /** Migration is removal at the old IP followed by insertion at the new one. */
  lemma MigrateIsRemoveThenAdd(t: Table, a: Announcement, oldIp: Ip4)
    requires oldIp in t.peers && oldIp != a.ip
    ensures t.Migrate(a, oldIp) == t.RemovePeer(oldIp).AddPeer(Moved(t, a, oldIp))
  {
    var p := Moved(t, a, oldIp);
    assert (t.ids - {p.peerId})[p.peerId := a.ip] == t.ids[p.peerId := a.ip];
  }

  /** Whether a discovery leaves no stale index entry: only a migration onto an IP that
      another peer holds can leave one. */
  ghost predicate CleanDiscovery(t: Table, a: Announcement, pick: Option<Ip4>) {
    !t.Knows(a) && pick.Some? && pick.value in t.peers && pick.value != a.ip ==>
      LeavesNothingStale(t.RemovePeer(pick.value), Moved(t, a, pick.value))
  }

  lemma DiscoverySoundIff(t: Table, me: Identity, a: Announcement, pick: Option<Ip4>)
    requires Sound(t)
    ensures Sound(t.UpdateFromDiscovery(me, a, pick)) <==> CleanDiscovery(t, a, pick)
  {
    if t.Knows(a) {
      RefreshKeeps(t, a);
    } else if pick.Some? && pick.value in t.peers && pick.value != a.ip {
      MigrateIsRemoveThenAdd(t, a, pick.value);
      RemovePeerKeeps(t, pick.value);
      AddPeerSoundIff(t.RemovePeer(pick.value), Moved(t, a, pick.value));
    } else {
      RemovePeerKeeps(t, a.ip);
      AddPeerSoundIff(t.RemovePeer(a.ip), Welcomed(me, a));
    }
  }

  function Welcomed(me: Identity, a: Announcement): Peer {
    NewPeer(me, a.key, a.ip).(endpoint := Some(a.endpoint), hostname := a.hostname, isGateway := a.isGateway)
  }

  lemma RefreshKeeps(t: Table, a: Announcement)
    requires Sound(t) && a.ip in t.peers
    ensures Sound(t.Refresh(a))
    ensures Exact(t) ==>
              (Exact(t.Refresh(a)) <==> (t.MayRoam(a.ip) ==> EndpointFree(t, a.ip, Some(a.endpoint))))
  {
    var p := t.peers[a.ip].(hostname := a.hostname, isGateway := a.isGateway, relayVia := None);
    var u := t.(peers := t.peers[a.ip := p]);
    assert Sound(u);
    assert Exact(t) ==> forall ip :: ip in u.peers ==> ip in t.peers && Indexed(t, ip) && Indexed(u, ip);
    assert EndpointFree(t, a.ip, Some(a.endpoint)) <==> EndpointFree(u, a.ip, Some(a.endpoint)) by {
      assert forall x :: x != a.ip ==> (x in t.peers <==> x in u.peers) && (x in t.peers ==> t.peers[x] == u.peers[x]);
    }
    UpdateEndpointKeeps(u, a.ip, a.endpoint);
  }

  /** Whether a discovery keeps the indexes exact: besides, no surviving peer may hold
      the endpoint or the id that it assigns. */
  ghost predicate ExactDiscovery(t: Table, me: Identity, a: Announcement, pick: Option<Ip4>) {
    if t.Knows(a) then t.MayRoam(a.ip) ==> EndpointFree(t, a.ip, Some(a.endpoint))
    else if pick.Some? && pick.value in t.peers && pick.value != a.ip then
      var rest := t.RemovePeer(pick.value);
      var p := Moved(t, a, pick.value);
      LeavesNothingStale(rest, p) && EndpointFree(rest, a.ip, p.endpoint) && IdFree(rest, a.ip, p.peerId)
    else
      EndpointFree(t, a.ip, Some(a.endpoint)) && IdFree(t, a.ip, me.idOf(a.key))
  }

  lemma DiscoveryExactIff(t: Table, me: Identity, a: Announcement, pick: Option<Ip4>)
    requires Exact(t)
    ensures Exact(t.UpdateFromDiscovery(me, a, pick)) <==> ExactDiscovery(t, me, a, pick)
  {
    if t.Knows(a) {
      RefreshKeeps(t, a);
    } else if pick.Some? && pick.value in t.peers && pick.value != a.ip {
      MigrateIsRemoveThenAdd(t, a, pick.value);
      RemovePeerKeeps(t, pick.value);
      AddPeerExactIff(t.RemovePeer(pick.value), Moved(t, a, pick.value));
    } else {
      WelcomeExactIff(t, Welcomed(me, a));
    }
  }

  lemma WelcomeExactIff(t: Table, p: Peer)
    requires Exact(t)
    ensures Exact(t.RemovePeer(p.wolfnetIp).AddPeer(p)) <==>
            EndpointFree(t, p.wolfnetIp, p.endpoint) && IdFree(t, p.wolfnetIp, p.peerId)
  {
    var rest := t.RemovePeer(p.wolfnetIp);
    RemovePeerKeeps(t, p.wolfnetIp);
    AddPeerExactIff(rest, p);
    assert forall x :: x != p.wolfnetIp ==>
      (x in rest.peers <==> x in t.peers) && (x in t.peers ==> rest.peers[x] == t.peers[x]);
    assert EndpointFree(rest, p.wolfnetIp, p.endpoint) <==> EndpointFree(t, p.wolfnetIp, p.endpoint);
    assert IdFree(rest, p.wolfnetIp, p.peerId) <==> IdFree(t, p.wolfnetIp, p.peerId);
  }

  /** With exact indexes a lookup is a scan of the table: the owner of the endpoint,
      else the owner of the id, else nobody. */
  lemma LookupIsScan(t: Table, addr: SocketAddr, id: PeerId)
    requires Exact(t)
    ensures match t.FindIpByEndpointOrId(addr, id)
            case Some(ip) =>
              && ip in t.peers
              && if exists x :: x in t.peers && t.peers[x].endpoint == Some(addr)
                 then t.peers[ip].endpoint == Some(addr)
                 else t.peers[ip].peerId == id
            case None =>
              forall x :: x in t.peers ==> t.peers[x].endpoint != Some(addr) && t.peers[x].peerId != id
    ensures forall x, y :: (x in t.peers && y in t.peers && t.peers[x].endpoint.Some?
                            && t.peers[x].endpoint == t.peers[y].endpoint) ==> x == y
  {
    forall x | x in t.peers
      ensures t.peers[x].endpoint == Some(addr) ==> addr in t.endpoints && t.endpoints[addr] == x
      ensures t.peers[x].peerId == id ==> id in t.ids && t.ids[id] == x
    {
      assert Indexed(t, x);
    }
    forall x, y | x in t.peers && y in t.peers && t.peers[x].endpoint.Some?
                  && t.peers[x].endpoint == t.peers[y].endpoint
      ensures x == y
    {
      assert Indexed(t, x) && Indexed(t, y);
    }
  }

  /** With sound indexes a lookup never leads to an IP that is not in the table. */
  lemma LookupIsLive(t: Table, addr: SocketAddr, id: PeerId)
    requires Sound(t)
    ensures var r := t.FindIpByEndpointOrId(addr, id);
            r.Some? ==> r.value in t.peers &&
                        (t.peers[r.value].endpoint == Some(addr) || t.peers[r.value].peerId == id)
  {
  }

  // ---------- what single operations change ----------

  /** Purging takes away the peer, its id and its endpoint, and records the IP. */
  lemma PurgeTakes(t: Table, ip: Ip4)
    ensures var t' := t.PurgePeer(ip);
            && t'.peers == t.peers - {ip} && t'.purged == t.purged + {ip}
            && (forall id :: id in t'.ids <==> id in t.ids && !(ip in t.peers && t.peers[ip].peerId == id))
            && (forall id :: id in t'.ids ==> t'.ids[id] == t.ids[id])
            && (forall ep :: ep in t'.endpoints <==>
                  ep in t.endpoints && !(ip in t.peers && t.peers[ip].endpoint == Some(ep)))
            && (forall ep :: ep in t'.endpoints ==> t'.endpoints[ep] == t.endpoints[ep])
  {
  }

  /** Removal is purging without the record. */
  lemma RemovalTakes(t: Table, ip: Ip4)
    ensures t.RemovePeer(ip) == t.PurgePeer(ip).(purged := t.purged)
  {
  }

  /** A peer moved to an endpoint is indexed there and no longer where it was. */
  lemma EndpointMoves(t: Table, ip: Ip4, ep: SocketAddr)
    requires ip in t.peers
    ensures var t' := t.UpdateEndpoint(ip, ep);
            && t'.peers == t.peers[ip := t.peers[ip].(endpoint := Some(ep))]
            && t'.ids == t.ids && t'.purged == t.purged
            && ep in t'.endpoints && t'.endpoints[ep] == ip
            && (forall x :: x != ep ==>
                  && (x in t'.endpoints <==> x in t.endpoints && t.peers[ip].endpoint != Some(x))
                  && (x in t'.endpoints ==> t'.endpoints[x] == t.endpoints[x]))
  {
  }

  /** By roaming it moves exactly if it is there and not pinned. */
  lemma RoamingMovesIff(t: Table, ip: Ip4, ep: SocketAddr)
    ensures t.UpdateEndpointIfRoaming(ip, ep) ==
            if ip in t.peers && t.peers[ip].configuredEndpoint.None? then t.UpdateEndpoint(ip, ep) else t
    ensures ip !in t.peers ==> t.UpdateEndpoint(ip, ep) == t && t.ClearEndpoint(ip) == t && t.RemovePeer(ip) == t
  {
  }

  /** Clearing takes endpoint, index entry and pin. */
  lemma ClearingTakes(t: Table, ip: Ip4)
    requires ip in t.peers
    ensures var t' := t.ClearEndpoint(ip);
            && t'.peers == t.peers[ip := t.peers[ip].(endpoint := None, configuredEndpoint := None)]
            && t'.ids == t.ids && t'.purged == t.purged
            && (forall x :: x in t'.endpoints <==> x in t.endpoints && t.peers[ip].endpoint != Some(x))
            && (forall x :: x in t'.endpoints ==> t'.endpoints[x] == t.endpoints[x])
            && (t.HasEndpoint(ip) <==> t'.peers != t.peers)
  {
    assert t.peers[ip].endpoint.None? && t.peers[ip].configuredEndpoint.None? ==>
        t.peers[ip := t.peers[ip].(endpoint := None, configuredEndpoint := None)] == t.peers;
  }

  /** In t' this peer is filed at the announced IP; nobody else changes, but a peer that held
      the key at another IP is gone from it. */
  ghost predicate Filed(t: Table, t': Table, a: Announcement, p: Peer) {
    && t'.purged == t.purged
    && a.ip in t'.peers && t'.peers[a.ip] == p
    && (forall ip :: ip != a.ip ==> (ip in t'.peers <==> ip in t.peers && t.peers[ip].publicKey != a.key))
    && (forall ip :: ip != a.ip && ip in t'.peers ==> t'.peers[ip] == t.peers[ip])
  }

  /** A known peer with what was announced of it, reached directly; its id, its session, its
      pin and the time it was last seen stay. */
  function Announced(p: Peer, a: Announcement, ip: Ip4, endpoint: Option<SocketAddr>): Peer {
    Peer(a.key, p.peerId, ip, endpoint, a.hostname, p.session, a.isGateway, p.lastSeen, None, p.configuredEndpoint)
  }

  lemma RefreshFiles(t: Table, a: Announcement)
    requires KeysUnique(t) && t.Knows(a)
    ensures var p := t.peers[a.ip];
            Filed(t, t.Refresh(a), a,
                  Announced(p, a, p.wolfnetIp, if p.configuredEndpoint.Some? then p.endpoint else Some(a.endpoint)))
  {
  }

  lemma MigrateFiles(t: Table, a: Announcement, oldIp: Ip4)
    requires KeysUnique(t) && oldIp in t.peers && oldIp != a.ip && t.peers[oldIp].publicKey == a.key
    ensures Filed(t, t.Migrate(a, oldIp), a, Announced(t.peers[oldIp], a, a.ip, Some(a.endpoint)))
  {
  }

  lemma WelcomeFiles(t: Table, me: Identity, a: Announcement)
    requires forall ip :: ip in t.peers ==> t.peers[ip].publicKey != a.key
    ensures Filed(t, t.Welcome(me, a), a,
                  Peer(a.key, me.idOf(a.key), a.ip, Some(a.endpoint), a.hostname, None, a.isGateway, None, None, None))
  {
  }

  /** After a discovery the sender is filed at the announced address, unless it is pinned
      elsewhere. A peer that was known, under that IP or another, keeps its id, its session,
      its pin and the time it was last seen; another one is new. */
  lemma DiscoveryFiles(t: Table, me: Identity, a: Announcement, pick: Option<Ip4>)
    requires KeysUnique(t) && t.IsHolder(a.key, pick)
    ensures var isPinned := pick == Some(a.ip) && t.peers[a.ip].configuredEndpoint.Some?;
            var t' := t.UpdateFromDiscovery(me, a, pick);
            && Filed(t, t', a,
                     if pick.Some? then
                       Announced(t.peers[pick.value], a, if pick.value == a.ip then t.peers[a.ip].wolfnetIp else a.ip,
                                 if isPinned then t.peers[a.ip].endpoint else Some(a.endpoint))
                     else Peer(a.key, me.idOf(a.key), a.ip, Some(a.endpoint), a.hostname, None, a.isGateway,
                               None, None, None))
            && (!isPinned ==> a.endpoint in t'.endpoints && t'.endpoints[a.endpoint] == a.ip)
  {
    if t.Knows(a) {
      RefreshFiles(t, a);
    } else if pick.Some? {
      MigrateFiles(t, a, pick.value);
    } else {
      WelcomeFiles(t, me, a);
    }
  }

  // ---------- keys ----------

  lemma DiscoveryKeepsKeysUnique(t: Table, me: Identity, a: Announcement, pick: Option<Ip4>)
    requires KeysUnique(t) && t.IsHolder(a.key, pick)
    ensures KeysUnique(t.UpdateFromDiscovery(me, a, pick))
  {
    if !t.Knows(a) && pick.Some? && pick.value != a.ip {
      MigrateIsRemoveThenAdd(t, a, pick.value);
    }
  }

  lemma PexEntryKeepsKeysUnique(t: Table, e: PexEntry, sender: Ip4, myIp: Ip4, me: Identity, now: nat,
                                pick: Option<Ip4>)
    requires KeysUnique(t) && (t.PexEligible(e, myIp, now) ==> t.IsHolder(e.key.value, pick))
    ensures KeysUnique(t.AddPexEntry(e, sender, myIp, me, now, pick))
  {
  }
}
