/** The value of the peer table: the peers by WolfNet IP, the two lookup indexes kept
    beside them, and the purged IPs, with the effect of every operation on it. */
module PeerTable {
  import opened Common
  import opened Crypto

  const ALIVE_SECS: nat := 120

  datatype Peer = Peer(
    publicKey: Key,
    peerId: PeerId,
    wolfnetIp: Ip4,
    endpoint: Option<SocketAddr>,
    hostname: string,
    session: Option<Session>,
    isGateway: bool,
    lastSeen: Option<nat>,
    relayVia: Option<Ip4>,
    configuredEndpoint: Option<string>)
  {
    predicate IsConnected(now: nat) {
      session.Some? && lastSeen.Some? && now < lastSeen.value + ALIVE_SECS
    }

    function EstablishSession(me: Identity): Peer {
      this.(session := Some(NewSession(me.sharedWith(publicKey), me.publicKey, publicKey)))
    }
  }

  function NewPeer(me: Identity, key: Key, ip: Ip4): Peer {
    Peer(key, me.idOf(key), ip, None, "", None, false, None, None, None)
  }

  /** What a handshake or a discovery broadcast announces about its sender. */
  datatype Announcement = Announcement(key: Key, endpoint: SocketAddr, ip: Ip4,
                                       hostname: string, isGateway: bool)

  /** A peer exchange entry: each textual field as the outcome of parsing it. */
  datatype PexEntry = PexEntry(key: Option<Key>, ip: Option<Ip4>, endpoint: Option<SocketAddr>,
                               hostname: string, isGateway: bool)

  /** Addresses that may be stored as the endpoint of an exchanged peer. */
  predicate IsRoutableEndpoint(addr: SocketAddr) {
    match addr
    case V6(_, _) => true
    case V4(ip, _) =>
      && ip.a != 127
      && ip != Ip4(0, 0, 0, 0)
      && !(ip.a == 169 && ip.b == 254)
      && !(224 <= ip.a <= 239)
      && ip.a != 10
      && !(ip.a == 172 && 16 <= ip.b <= 31)
      && !(ip.a == 192 && ip.b == 168)
  }

  predicate SameSubnet(x: Ip4, y: Ip4) {
    x.a == y.a && x.b == y.b && x.c == y.c
  }

  datatype Table = Table(
    peers: map<Ip4, Peer>,
    ids: map<PeerId, Ip4>,
    endpoints: map<SocketAddr, Ip4>,
    purged: set<Ip4>)
  {
    /** A possible outcome of scanning the table for a public key, in hash order. */
    ghost predicate IsHolder(key: Key, pick: Option<Ip4>) {
      match pick
      case None => forall ip :: ip in peers ==> peers[ip].publicKey != key
      case Some(ip) => ip in peers && peers[ip].publicKey == key
    }

    function AddPeer(p: Peer): Table {
      this.(endpoints := if p.endpoint.Some? then endpoints[p.endpoint.value := p.wolfnetIp] else endpoints,
            ids := ids[p.peerId := p.wolfnetIp],
            peers := peers[p.wolfnetIp := p])
    }

    function DropEndpoint(ep: Option<SocketAddr>): Table {
      if ep.None? then this else this.(endpoints := endpoints - {ep.value})
    }

    function RemovePeer(ip: Ip4): Table {
      if ip !in peers then this else
      this.(peers := peers - {ip}, ids := ids - {peers[ip].peerId}).DropEndpoint(peers[ip].endpoint)
    }

    function PurgePeer(ip: Ip4): Table {
      RemovePeer(ip).(purged := purged + {ip})
    }

    /** Gives a peer an endpoint and indexes it, dropping its old one. */
    function UpdateEndpoint(ip: Ip4, ep: SocketAddr): Table {
      if ip !in peers then this else
      var dropped := if peers[ip].endpoint != Some(ep) then DropEndpoint(peers[ip].endpoint) else this;
      dropped.(peers := peers[ip := peers[ip].(endpoint := Some(ep))],
               endpoints := dropped.endpoints[ep := ip])
    }

    predicate MayRoam(ip: Ip4) {
      ip in peers && peers[ip].configuredEndpoint.None?
    }

    function UpdateEndpointIfRoaming(ip: Ip4, ep: SocketAddr): Table {
      if MayRoam(ip) then UpdateEndpoint(ip, ep) else this
    }

    predicate HasEndpoint(ip: Ip4) {
      ip in peers && (peers[ip].endpoint.Some? || peers[ip].configuredEndpoint.Some?)
    }

    function ClearEndpoint(ip: Ip4): Table {
      if ip !in peers then this else
      DropEndpoint(peers[ip].endpoint).(
        peers := peers[ip := peers[ip].(endpoint := None, configuredEndpoint := None)])
    }

    /** Discovery of a peer already held under the announced IP and key. */
    function Refresh(a: Announcement): Table
      requires a.ip in peers
    {
      var p := peers[a.ip].(hostname := a.hostname, isGateway := a.isGateway, relayVia := None);
      var t := this.(peers := peers[a.ip := p]);
      t.UpdateEndpointIfRoaming(a.ip, a.endpoint)
    }

    /** Discovery of a known key at a new IP. */
    function Migrate(a: Announcement, oldIp: Ip4): Table
      requires oldIp in peers
    {
      var p := peers[oldIp].(wolfnetIp := a.ip, endpoint := Some(a.endpoint), hostname := a.hostname,
                             isGateway := a.isGateway, relayVia := None);
      DropEndpoint(peers[oldIp].endpoint).(peers := peers - {oldIp}).AddPeer(p)
    }

    /** Discovery of an unknown key; a peer already at the IP is dropped first. */
    function Welcome(me: Identity, a: Announcement): Table {
      RemovePeer(a.ip).AddPeer(
        NewPeer(me, a.key, a.ip).(endpoint := Some(a.endpoint), hostname := a.hostname, isGateway := a.isGateway))
    }

    predicate Knows(a: Announcement) {
      a.ip in peers && peers[a.ip].publicKey == a.key
    }

    function UpdateFromDiscovery(me: Identity, a: Announcement, pick: Option<Ip4>): Table {
      if Knows(a) then Refresh(a)
      else if pick.Some? && pick.value in peers && pick.value != a.ip then Migrate(a, pick.value)
      else Welcome(me, a)
    }

    /** Whether an entry passes the filters that come before its key is parsed. */
    predicate PexEligible(e: PexEntry, myIp: Ip4, now: nat) {
      && e.ip.Some?
      && var ip := e.ip.value;
      && ip != myIp
      && ip !in purged
      && SameSubnet(ip, myIp)
      && (ip in peers ==> !peers[ip].IsConnected(now) && peers[ip].relayVia.Some?)
      && e.key.Some?
    }

    function PexPeer(e: PexEntry, sender: Ip4, me: Identity): Peer
      requires e.ip.Some? && e.key.Some?
    {
      var ep := if e.endpoint.Some? && IsRoutableEndpoint(e.endpoint.value) then e.endpoint else None;
      NewPeer(me, e.key.value, e.ip.value).(
        hostname := e.hostname, isGateway := e.isGateway, relayVia := Some(sender), endpoint := ep)
      .EstablishSession(me)
    }

    function AddPexEntry(e: PexEntry, sender: Ip4, myIp: Ip4, me: Identity, now: nat, pick: Option<Ip4>): Table {
      if !PexEligible(e, myIp, now) then this
      else if pick.Some? && pick.value != e.ip.value then this
      else if e.ip.value in peers then
        this.(peers := peers[e.ip.value := peers[e.ip.value].(relayVia := Some(sender))])
      else AddPeer(PexPeer(e, sender, me))
    }

    /** A whole batch; picks holds the outcome of each entry's scan by key. */
    function AddFromPex(entries: seq<PexEntry>, sender: Ip4, myIp: Ip4, me: Identity, now: nat,
                        picks: seq<Option<Ip4>>): Table
      requires |picks| == |entries|
    {
      if entries == [] then this else
      var last := |entries| - 1;
      AddFromPex(entries[..last], sender, myIp, me, now, picks[..last])
      .AddPexEntry(entries[last], sender, myIp, me, now, picks[last])
    }

    /** The scans by key are made for the entries that pass the filters. */
    ghost predicate ArePicks(entries: seq<PexEntry>, sender: Ip4, myIp: Ip4, me: Identity, now: nat,
                             picks: seq<Option<Ip4>>)
    {
      && |picks| == |entries|
      && (entries == [] ||
          var last := |entries| - 1;
          && ArePicks(entries[..last], sender, myIp, me, now, picks[..last])
          && var before := AddFromPex(entries[..last], sender, myIp, me, now, picks[..last]);
          before.PexEligible(entries[last], myIp, now) ==> before.IsHolder(entries[last].key.value, picks[last]))
    }

    function FindIpByEndpointOrId(addr: SocketAddr, id: PeerId): Option<Ip4> {
      if addr in endpoints then Some(endpoints[addr])
      else if id in ids then Some(ids[id]) else None
    }
  }
}
