/** A network of stations that exchange handshakes, and what one arrival does to it. */
module Handshakes {
  import opened Common
  import opened Crypto
  import opened PeerTable
  import opened PeerRuns
  import opened Arrivals
  import Bytes
  import Transport

  /** A node as the others meet it: its keys, its WolfNet IP and its address. */
  datatype Station = Station(me: Identity, ip: Ip4, addr: SocketAddr, hostname: string, isGateway: bool)

  function Announce(s: Station): Announcement {
    Announcement(s.me.publicKey, s.addr, s.ip, s.hostname, s.isGateway)
  }

  /** A handshake under way between two stations, by their numbers. */
  datatype Envelope = Envelope(src: nat, dst: nat)

  /** The handshake that it sends. */
  function HandshakeOf(s: Station, port: u16): Transport.Handshake {
    Transport.Handshake(s.me.publicKey, s.ip, port, s.isGateway, s.hostname)
  }

  /** Whoever receives those bytes from its address reads its announcement in them. */
  lemma HandshakeAnnounces(utf8: Transport.Utf8, s: Station, port: u16)
    requires utf8.Lawful()
    ensures var parsed := Transport.ParseHandshake(utf8, Transport.BuildHandshake(utf8, HandshakeOf(s, port)));
            && parsed.Some?
            && Announcement(parsed.value.key, s.addr, parsed.value.ip, parsed.value.hostname, parsed.value.isGateway)
               == Announce(s)
  {
    Transport.ParseBuiltHandshake(utf8, HandshakeOf(s, port));
  }

  /** The tables of the stations and the handshakes in flight, in the span of time from
      start to end, which no connection's age limit falls into. */
  datatype Network = Network(stations: seq<Station>, tables: seq<Table>, flight: multiset<Envelope>,
                             start: nat, end: nat)
  {

    /** Station b considers station a connected. */
    predicate Connected(b: nat, a: nat)
      requires |stations| == |tables| && a < |stations| && b < |stations|
    {
      stations[a].ip in tables[b].peers && tables[b].peers[stations[a].ip].IsConnected(end)
    }

    ghost predicate Valid() {
      && |stations| == |tables|
      && start <= end < start + ALIVE_SECS
      && (forall e :: e in flight ==> e.src < |stations| && e.dst < |stations| && e.src != e.dst)
      && (forall a, b :: 0 <= a < b < |stations| ==>
            stations[a].me.publicKey != stations[b].me.publicKey && stations[a].ip != stations[b].ip)
      && (forall b :: 0 <= b < |tables| ==> KnowsStations(tables[b]) && Steady(tables[b]))
    }

    /** The table files the stations under their own IPs, and nobody else there. */
    ghost predicate KnowsStations(t: Table) {
      && (forall a :: 0 <= a < |stations| && stations[a].ip in t.peers ==>
            t.peers[stations[a].ip].publicKey == stations[a].me.publicKey)
      && (forall a, ip :: 0 <= a < |stations| && ip in t.peers && t.peers[ip].publicKey == stations[a].me.publicKey ==>
            ip == stations[a].ip)
    }

    /** No peer's connection runs out between start and end. */
    ghost predicate Steady(t: Table) {
      forall ip :: ip in t.peers && t.peers[ip].lastSeen.Some? ==>
        t.peers[ip].lastSeen.value + ALIVE_SECS <= start || end < t.peers[ip].lastSeen.value + ALIVE_SECS
    }

    /** If b considers a connected, it is considered so by a, or its handshake is under way. */
    ghost predicate Reciprocates(a: nat, b: nat)
      requires |stations| == |tables| && a < |stations| && b < |stations|
    {
      Connected(b, a) ==> Connected(a, b) || Envelope(b, a) in flight
    }

    /** Whoever considers another connected is considered so by it, or is about to be. */
    ghost predicate Reciprocal()
      requires Valid()
    {
      forall a, b :: 0 <= a < |stations| && 0 <= b < |stations| && a != b ==> Reciprocates(a, b)
    }

    /** Every session is the one that its two keys determine. */
    ghost predicate Keyed()
      requires Valid()
    {
      forall b :: 0 <= b < |tables| ==> IsKeyed(stations[b].me, tables[b])
    }

    /** The secret that two stations share is the same on both sides. */
    ghost predicate Symmetric() {
      forall a, b :: 0 <= a < |stations| && 0 <= b < |stations| ==>
        stations[a].me.sharedWith(stations[b].me.publicKey) == stations[b].me.sharedWith(stations[a].me.publicKey)
    }

    ghost function Unconnected(): set<(nat, nat)>
      requires Valid()
    {
      set a: nat, b: nat | a < |stations| && b < |stations| && a != b && !Connected(b, a) :: (b, a)
    }

    /** The bound on what is still to happen. */
    ghost function Measure(): nat
      requires Valid()
    {
      |flight| + |Unconnected()|
    }
  }

  /** The sessions of a table have the secret shared with the peer and the side given by the
      order of the keys. */
  ghost predicate IsKeyed(me: Identity, t: Table) {
    forall ip :: ip in t.peers && t.peers[ip].session.Some? ==>
      && t.peers[ip].session.value.secret == me.sharedWith(t.peers[ip].publicKey)
      && t.peers[ip].session.value.low == Bytes.Less(me.publicKey, t.peers[ip].publicKey)
  }

  /** The arrival of one handshake in flight; pick is the outcome of the receiver's scan. */
  datatype Delivery = Delivery(envelope: Envelope, now: nat, pick: Option<Ip4>)

  ghost predicate CanDeliver(net: Network, d: Delivery)
    requires net.Valid()
  {
    && d.envelope in net.flight
    && net.start <= d.now <= net.end
    && net.tables[d.envelope.dst].IsHolder(net.stations[d.envelope.src].me.publicKey, d.pick)
  }

  /** The receiver processes the handshake and answers to where it came from, or not. */
  ghost function Deliver(net: Network, d: Delivery): Network
    requires net.Valid() && CanDeliver(net, d)
  {
    var a, b := d.envelope.src, d.envelope.dst;
    var (t, answered) := Answer(Node(net.stations[b].me, net.stations[b].ip), net.tables[b],
                                Announce(net.stations[a]), d.now, d.pick);
    net.(tables := net.tables[b := t],
         flight := net.flight - multiset{d.envelope} + if answered then multiset{Envelope(b, a)} else multiset{})
  }

  /** Table t' differs from that of station b in the entry of station a alone, which says
      that a is connected. */
  ghost predicate HasHeard(net: Network, t': Table, a: nat, b: nat)
    requires net.Valid() && a < |net.stations| && b < |net.stations|
  {
    var t, sender := net.tables[b], net.stations[a];
    && t'.peers.Keys == t.peers.Keys + {sender.ip}
    && (forall ip :: ip in t'.peers && ip != sender.ip ==> t'.peers[ip] == t.peers[ip])
    && var p := t'.peers[sender.ip];
    p.publicKey == sender.me.publicKey && p.session.Some? && p.lastSeen.Some? && net.start <= p.lastSeen.value
  }

  lemma AnswerToStation(net: Network, d: Delivery)
    requires net.Valid() && CanDeliver(net, d)
    ensures var a, b := d.envelope.src, d.envelope.dst;
            var (t, answered) := Answer(Node(net.stations[b].me, net.stations[b].ip), net.tables[b],
                                        Announce(net.stations[a]), d.now, d.pick);
            HasHeard(net, t, a, b) && (answered <==> !net.Connected(b, a))
  {
    var a, b := d.envelope.src, d.envelope.dst;
    var sender, t := net.stations[a], net.tables[b];
    assert net.KnowsStations(t) && net.Steady(t);
    assert t.Knows(Announce(sender)) <==> sender.ip in t.peers;
    assert !t.Knows(Announce(sender)) ==> d.pick.None?;
  }

  lemma HeardKeepsTable(net: Network, t': Table, a: nat, b: nat)
    requires net.Valid() && a < |net.stations| && b < |net.stations| && HasHeard(net, t', a, b)
    ensures net.KnowsStations(t') && net.Steady(t')
    ensures t'.peers[net.stations[a].ip].IsConnected(net.end)
  {
    assert net.KnowsStations(net.tables[b]) && net.Steady(net.tables[b]);
  }

  lemma DeliverKeeps(net: Network, d: Delivery)
    requires net.Valid() && CanDeliver(net, d)
    ensures var net' := Deliver(net, d);
            net'.Valid() && ConnectsOnly(net, net', d.envelope)
  {
    AnswerToStation(net, d);
    var net' := Deliver(net, d);
    HeardKeepsValid(net, net'.tables[d.envelope.dst], net'.flight, d.envelope);
    HeardConnectsOnly(net, net', d.envelope);
  }

  lemma HeardKeepsValid(net: Network, t': Table, flight: multiset<Envelope>, e: Envelope)
    requires net.Valid() && e in net.flight && HasHeard(net, t', e.src, e.dst)
    requires forall x :: x in flight ==> x in net.flight || x == Envelope(e.dst, e.src)
    ensures net.(tables := net.tables[e.dst := t'], flight := flight).Valid()
  {
    var net' := net.(tables := net.tables[e.dst := t'], flight := flight);
    HeardKeepsTable(net, t', e.src, e.dst);
    forall c | 0 <= c < |net'.tables|
      ensures net'.KnowsStations(net'.tables[c]) && net'.Steady(net'.tables[c])
    {
      assert net.KnowsStations(net'.tables[c]) && net.Steady(net'.tables[c]);
    }
  }

  lemma HeardConnectsOnly(net: Network, net': Network, e: Envelope)
    requires net.Valid() && net'.Valid() && net'.(tables := net.tables, flight := net.flight) == net
    requires e in net.flight && HasHeard(net, net'.tables[e.dst], e.src, e.dst)
    requires net'.tables == net.tables[e.dst := net'.tables[e.dst]]
    ensures ConnectsOnly(net, net', e)
  {
    HeardKeepsTable(net, net'.tables[e.dst], e.src, e.dst);
    forall x, y | 0 <= x < |net.stations| && 0 <= y < |net.stations|
      ensures net'.Connected(y, x) <==> net.Connected(y, x) || (x == e.src && y == e.dst)
    {
      assert y != e.dst ==> net'.tables[y] == net.tables[y];
      assert x != e.src ==> net.stations[x].ip != net.stations[e.src].ip;
    }
  }

  /** Station y considers x connected in net' if it did before, or if e brought it about. */
  ghost predicate ConnectsOnly(net: Network, net': Network, e: Envelope)
    requires net.Valid() && net'.Valid() && net'.stations == net.stations
  {
    forall x, y :: 0 <= x < |net.stations| && 0 <= y < |net.stations| ==>
      (net'.Connected(y, x) <==> net.Connected(y, x) || (x == e.src && y == e.dst))
  }

  lemma UnconnectedAfter(net: Network, net': Network, e: Envelope)
    requires net.Valid() && net'.Valid() && net'.stations == net.stations && ConnectsOnly(net, net', e)
    requires e.src < |net.stations| && e.dst < |net.stations| && e.src != e.dst
    ensures |net'.Unconnected()| == |net.Unconnected()| - if net.Connected(e.dst, e.src) then 0 else 1
  {
    var pair := (e.dst, e.src);
    assert net'.Unconnected() == net.Unconnected() - {pair};
    assert pair in net.Unconnected() <==> !net.Connected(e.dst, e.src);
  }

  /** Every delivery uses something up: a handshake that is not answered, or one of the
      pairs not connected before. */
  lemma DeliverDecreases(net: Network, d: Delivery)
    requires net.Valid() && CanDeliver(net, d)
    ensures Deliver(net, d).Valid() && Deliver(net, d).Measure() == net.Measure() - 1
  {
    DeliverKeeps(net, d);
    AnswerToStation(net, d);
    UnconnectedAfter(net, Deliver(net, d), d.envelope);
  }

  /** A delivery keeps each pair reciprocal that is. */
  lemma DeliverKeepsReciprocal(net: Network, d: Delivery, a: nat, b: nat)
    requires net.Valid() && CanDeliver(net, d) && a < |net.stations| && b < |net.stations| && a != b
    ensures Deliver(net, d).Valid() && Deliver(net, d).stations == net.stations
    ensures net.Reciprocates(a, b) ==> Deliver(net, d).Reciprocates(a, b)
  {
    DeliverKeeps(net, d);
    AnswerToStation(net, d);
  }

  /** A delivery keeps the sessions keyed, and gives the receiver a new one for the sender. */
  lemma DeliverKeepsKeyed(net: Network, d: Delivery)
    requires net.Valid() && CanDeliver(net, d)
    ensures var net', sender, receiver := Deliver(net, d), net.stations[d.envelope.src], net.stations[d.envelope.dst];
            && net'.Valid() && (net.Keyed() ==> net'.Keyed())
            && sender.ip in net'.tables[d.envelope.dst].peers
            && net'.tables[d.envelope.dst].peers[sender.ip].session ==
               Some(NewSession(receiver.me.sharedWith(sender.me.publicKey), receiver.me.publicKey, sender.me.publicKey))
  {
    DeliverKeeps(net, d);
    AnswerToStation(net, d);
    var net', b, sender := Deliver(net, d), d.envelope.dst, net.stations[d.envelope.src];
    AnswerConnects(Node(net.stations[b].me, net.stations[b].ip), net.tables[b], Announce(sender), d.now, d.pick, d.now);
    if net.Keyed() {
      HeardKeepsKeyed(net.stations[b].me, net.tables[b], net'.tables[b], sender.ip);
      forall c | 0 <= c < |net'.tables|
        ensures IsKeyed(net'.stations[c].me, net'.tables[c])
      {
        assert IsKeyed(net.stations[c].me, net.tables[c]);
      }
    }
  }

  lemma HeardKeepsKeyed(me: Identity, t: Table, t': Table, heard: Ip4)
    requires IsKeyed(me, t) && heard in t'.peers
    requires forall ip :: ip in t'.peers && ip != heard ==> ip in t.peers && t'.peers[ip] == t.peers[ip]
    requires t'.peers[heard].session ==
             Some(NewSession(me.sharedWith(t'.peers[heard].publicKey), me.publicKey, t'.peers[heard].publicKey))
    ensures IsKeyed(me, t')
  {
  }
}
