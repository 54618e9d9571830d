/** What a tick of a node's timer brings about in a network: whom it connects, exactly, and a
    restarted node that it leaves connected on one side only. */
module Ticks {
  import opened Common
  import opened PeerTable
  import opened Peers
  import opened Daemon
  import opened Probes
  import opened Handshakes
  import opened Exchanges

  /** What a tick of station a's timer, at some time, puts under way: the handshakes that
      SendHandshakes sends to the address of another station. */
  datatype Tick = Tick(a: nat, now: nat, parse: AddrParser, order: seq<Ip4>, handshake: seq<byte>,
                       sent: multiset<Envelope>)

  ghost predicate CanTick(net: Network, k: Tick)
    requires net.Valid()
  {
    && k.a < |net.stations| && net.start <= k.now <= net.end
    && IsOrder(k.order, net.tables[k.a].peers.Keys)
    && forall e :: e in k.sent <==>
         && e.src == k.a && e.dst < |net.stations| && e.dst != k.a
         && Datagram(net.stations[e.dst].addr, k.handshake)
            in AllProbes(net.tables[k.a], k.order, k.now, k.parse, k.handshake)
  }

  ghost function AfterTick(net: Network, k: Tick): (net': Network)
    requires net.Valid() && CanTick(net, k)
    ensures net'.Valid() && net'.stations == net.stations
    ensures net.Reciprocal() ==> net'.Reciprocal()
  {
    TickKeeps(net, k.sent);
    net.(flight := net.flight + k.sent)
  }

  lemma TickKeepsTable(net: Network, flight: multiset<Envelope>, c: nat)
    requires net.Valid() && c < |net.tables|
    ensures net.(flight := flight).KnowsStations(net.tables[c]) && net.(flight := flight).Steady(net.tables[c])
  {
    assert net.KnowsStations(net.tables[c]) && net.Steady(net.tables[c]);
  }

  lemma TickKeeps(net: Network, sent: multiset<Envelope>)
    requires net.Valid()
    requires forall e :: e in sent ==> e.src < |net.stations| && e.dst < |net.stations| && e.src != e.dst
    ensures net.(flight := net.flight + sent).Valid()
    ensures net.Reciprocal() ==> net.(flight := net.flight + sent).Reciprocal()
  {
    var ticked := net.(flight := net.flight + sent);
    forall c | 0 <= c < |ticked.tables|
      ensures ticked.KnowsStations(ticked.tables[c]) && ticked.Steady(ticked.tables[c])
    {
      TickKeepsTable(net, ticked.flight, c);
    }
    if net.Reciprocal() {
      forall x, y | 0 <= x < |net.stations| && 0 <= y < |net.stations| && x != y
        ensures ticked.Reciprocates(x, y)
      {
        assert net.Reciprocates(x, y);
      }
    }
  }

  /** Station a has station b in its table, with b's address as endpoint or configured. */
  predicate CanReach(net: Network, a: nat, b: nat, parse: AddrParser)
    requires a < |net.tables| && b < |net.stations|
  {
    && net.stations[b].ip in net.tables[a].peers
    && var p, addr := net.tables[a].peers[net.stations[b].ip], net.stations[b].addr;
    p.endpoint == Some(addr) || (p.configuredEndpoint.Some? && parse(p.configuredEndpoint.value) == Some(addr))
  }

  lemma TickReaches(net: Network, k: Tick, b: nat)
    requires net.Valid() && CanTick(net, k) && b < |net.stations| && b != k.a
    requires CanReach(net, k.a, b, k.parse)
    ensures net.Connected(k.a, b) || Envelope(k.a, b) in k.sent
  {
    var t, ip := net.tables[k.a], net.stations[b].ip;
    if t.peers[ip].IsConnected(k.now) {
      assert net.Steady(t);
    } else {
      assert net.stations[b].addr in Probed(t.peers[ip], k.now, k.parse);
      ProbesReach(t, k.order, k.now, k.parse, k.handshake, Datagram(net.stations[b].addr, k.handshake));
      assert Envelope(k.a, b).src == k.a;
    }
  }

  /** A tick of a station that is not connected to another whose address it has, and the
      exchange that it starts: the other always considers it connected in the end; it
      considers the other connected if and only if the other had not considered it so
      before, or had a handshake of its own under way. So where the other side alone is
      connected, ticking does not mend it. */
  lemma TickConnectsIff(net: Network, k: Tick, b: nat, ds: seq<Delivery>)
    requires net.Valid() && CanTick(net, k) && b < |net.stations| && b != k.a
    requires CanReach(net, k.a, b, k.parse) && !net.Connected(k.a, b)
    requires IsComplete(AfterTick(net, k), ds)
    ensures var final := Final(AfterTick(net, k), ds);
            && final.Connected(b, k.a)
            && (final.Connected(k.a, b) <==> !net.Connected(b, k.a) || Envelope(b, k.a) in net.flight)
  {
    TickReaches(net, k, b);
    FinalConnectedIff(AfterTick(net, k), ds, k.a, b);
    FinalConnectedIff(AfterTick(net, k), ds, b, k.a);
  }

  /** Between reciprocal stations one tick is enough: once the handshakes that it starts have
      all arrived, each considers the other connected. */
  lemma TickConnects(net: Network, k: Tick, b: nat, ds: seq<Delivery>)
    requires net.Valid() && CanTick(net, k) && b < |net.stations| && b != k.a
    requires net.Reciprocates(k.a, b) && net.Reciprocates(b, k.a)
    requires CanReach(net, k.a, b, k.parse) && IsComplete(AfterTick(net, k), ds)
    ensures var final := Final(AfterTick(net, k), ds);
            final.Connected(k.a, b) && final.Connected(b, k.a)
  {
    if net.Connected(k.a, b) {
      FinalConnectedIff(AfterTick(net, k), ds, k.a, b);
      FinalConnectedIff(AfterTick(net, k), ds, b, k.a);
    } else {
      TickConnectsIff(net, k, b, ds);
    }
  }

  // ---------- one side alone connected ----------

  /** Station b considers a connected, a does not consider b so, and no handshake of b's to a
      is under way. */
  ghost predicate OneSided(net: Network, a: nat, b: nat)
    requires net.Valid() && a < |net.stations| && b < |net.stations|
  {
    net.Connected(b, a) && !net.Connected(a, b) && Envelope(b, a) !in net.flight
  }

  /** What happens in a network: a handshake arrives, or a timer ticks. */
  datatype Event = Arrives(delivery: Delivery) | Ticks(tick: Tick)

  ghost predicate CanHappen(net: Network, e: Event)
    requires net.Valid()
  {
    match e
    case Arrives(d) => CanDeliver(net, d)
    case Ticks(k) => CanTick(net, k)
  }

  ghost function AfterEvent(net: Network, e: Event): (net': Network)
    requires net.Valid() && CanHappen(net, e)
    ensures net'.Valid() && net'.stations == net.stations
  {
    match e
    case Arrives(d) => DeliverKeeps(net, d); Deliver(net, d)
    case Ticks(k) => AfterTick(net, k)
  }

  ghost predicate IsHistory(net: Network, es: seq<Event>)
    requires net.Valid()
    decreases |es|
  {
    es == [] || (CanHappen(net, es[0]) && IsHistory(AfterEvent(net, es[0]), es[1..]))
  }

  ghost function AfterHistory(net: Network, es: seq<Event>): (net': Network)
    requires net.Valid() && IsHistory(net, es)
    ensures net'.Valid() && net'.stations == net.stations
    decreases |es|
  {
    if es == [] then net else AfterHistory(AfterEvent(net, es[0]), es[1..])
  }

  lemma EventKeepsOneSided(net: Network, e: Event, a: nat, b: nat)
    requires net.Valid() && CanHappen(net, e) && a < |net.stations| && b < |net.stations| && a != b
    requires OneSided(net, a, b) && !(e.Ticks? && e.tick.a == b)
    ensures OneSided(AfterEvent(net, e), a, b)
  {
    if e.Arrives? {
      DeliverKeeps(net, e.delivery);
      AnswerToStation(net, e.delivery);
    }
  }

  /** However handshakes arrive and the timers of all stations but b tick, b's connection to a
      stays one-sided. */
  lemma {:induction false} OneSidedStays(net: Network, es: seq<Event>, a: nat, b: nat)
    requires net.Valid() && IsHistory(net, es) && a < |net.stations| && b < |net.stations| && a != b
    requires OneSided(net, a, b) && forall i :: 0 <= i < |es| ==> !(es[i].Ticks? && es[i].tick.a == b)
    ensures OneSided(AfterHistory(net, es), a, b)
    decreases |es|
  {
    if es != [] {
      EventKeepsOneSided(net, es[0], a, b);
      OneSidedStays(AfterEvent(net, es[0]), es[1..], a, b);
    }
  }

  /** The timer of b does not mend it either, unless b has an address of a's filed under
      another peer: for a itself it sends nothing. */
  lemma OwnTickSendsNothing(net: Network, k: Tick, a: nat)
    requires net.Valid() && CanTick(net, k) && a < |net.stations| && a != k.a && OneSided(net, a, k.a)
    requires forall ip :: ip in net.tables[k.a].peers && ip != net.stations[a].ip ==>
               net.stations[a].addr !in Probed(net.tables[k.a].peers[ip], k.now, k.parse)
    ensures OneSided(AfterTick(net, k), a, k.a)
  {
    var t := net.tables[k.a];
    assert net.Steady(t);
    ProbesReach(t, k.order, k.now, k.parse, k.handshake, Datagram(net.stations[a].addr, k.handshake));
    assert Envelope(k.a, a).src == k.a;
  }

  // ---------- two stations: a fresh start and a restart ----------

  const EMPTY := Table(map[], map[], map[], {})

  /** The entry of a station in another's configuration. */
  function Configured(me: Identity, other: Station): Peer {
    NewPeer(me, other.me.publicKey, other.ip).(endpoint := Some(other.addr)).EstablishSession(me)
  }

  /** Two stations that know each other from their configurations: x has just started and has
      heard of nobody, y may have heard of x a second ago. */
  ghost function AfterStart(x: Station, y: Station, heard: bool): Network {
    var p := Configured(y.me, x).(lastSeen := if heard then Some(0) else None);
    Network([x, y], [EMPTY.AddPeer(Configured(x.me, y)), EMPTY.AddPeer(p)], multiset{}, 1, 1)
  }

  lemma StartIsValid(x: Station, y: Station, heard: bool)
    requires x.me.publicKey != y.me.publicKey && x.ip != y.ip
    ensures AfterStart(x, y, heard).Valid()
  {
    var net := AfterStart(x, y, heard);
    OneKnownStation(net, 0, 1, Configured(x.me, y));
    OneKnownStation(net, 1, 0, Configured(y.me, x).(lastSeen := if heard then Some(0) else None));
    assert net.Steady(net.tables[0]) && net.Steady(net.tables[1]);
  }

  lemma OneKnownStation(net: Network, at: nat, other: nat, p: Peer)
    requires |net.stations| == |net.tables| == 2 && at < 2 && other < 2 && net.tables[at] == EMPTY.AddPeer(p)
    requires net.stations[0].me.publicKey != net.stations[1].me.publicKey && net.stations[0].ip != net.stations[1].ip
    requires p.wolfnetIp == net.stations[other].ip && p.publicKey == net.stations[other].me.publicKey
    ensures net.KnowsStations(net.tables[at])
  {
    var t := net.tables[at];
    assert forall ip :: ip in t.peers ==> ip == p.wolfnetIp && t.peers[ip] == p;
  }

  lemma WhoIsConnected(x: Station, y: Station, heard: bool)
    ensures var net := AfterStart(x, y, heard);
            net.Connected(1, 0) == heard && !net.Connected(0, 1)
  {
  }

  lemma StartIsKeyed(x: Station, y: Station, heard: bool)
    requires AfterStart(x, y, heard).Valid()
    ensures AfterStart(x, y, heard).Keyed()
  {
    var net := AfterStart(x, y, heard);
    assert IsKeyed(x.me, net.tables[0]) && IsKeyed(y.me, net.tables[1]);
  }

  /** The first tick of x, which sends this handshake. */
  function FirstTick(y: Station, parse: AddrParser, handshake: seq<byte>): Tick {
    Tick(0, 1, parse, [y.ip], handshake, multiset{Envelope(0, 1)})
  }

  lemma CanTickFirst(x: Station, y: Station, heard: bool, parse: AddrParser, handshake: seq<byte>)
    requires AfterStart(x, y, heard).Valid()
    ensures CanTick(AfterStart(x, y, heard), FirstTick(y, parse, handshake))
    ensures CanReach(AfterStart(x, y, heard), 0, 1, parse)
  {
    var net := AfterStart(x, y, heard);
    ProbesReach(net.tables[0], [y.ip], 1, parse, handshake, Datagram(y.addr, handshake));
    assert y.addr in Probed(net.tables[0].peers[y.ip], 1, parse);
  }

  /** From a fresh start the first tick connects both, in sessions that fit. */
  lemma FreshStartConnects(x: Station, y: Station, parse: AddrParser, handshake: seq<byte>)
    returns (ds: seq<Delivery>)
    requires x.me.publicKey != y.me.publicKey && x.ip != y.ip
    requires x.me.sharedWith(y.me.publicKey) == y.me.sharedWith(x.me.publicKey)
    ensures var net, k := AfterStart(x, y, false), FirstTick(y, parse, handshake);
            && net.Valid() && CanTick(net, k) && IsComplete(AfterTick(net, k), ds)
            && var final := Final(AfterTick(net, k), ds);
            && final.Connected(0, 1) && final.Connected(1, 0)
            && SessionFor(final, 0, 1).secret == SessionFor(final, 1, 0).secret
            && SessionFor(final, 0, 1).low == !SessionFor(final, 1, 0).low
  {
    var net, k := AfterStart(x, y, false), FirstTick(y, parse, handshake);
    StartIsValid(x, y, false);
    WhoIsConnected(x, y, false);
    StartIsKeyed(x, y, false);
    CanTickFirst(x, y, false, parse, handshake);
    ds := Completes(AfterTick(net, k));
    TickFits(net, k, 1, ds);
  }

  /** One tick between reciprocal stations leaves both with sessions that fit. */
  lemma TickFits(net: Network, k: Tick, b: nat, ds: seq<Delivery>)
    requires net.Valid() && net.Keyed() && net.Symmetric() && CanTick(net, k) && b < |net.stations| && b != k.a
    requires net.Reciprocates(k.a, b) && net.Reciprocates(b, k.a)
    requires CanReach(net, k.a, b, k.parse) && IsComplete(AfterTick(net, k), ds)
    ensures var final := Final(AfterTick(net, k), ds);
            && final.Connected(k.a, b) && final.Connected(b, k.a)
            && SessionFor(final, k.a, b).secret == SessionFor(final, b, k.a).secret
            && SessionFor(final, k.a, b).low == !SessionFor(final, b, k.a).low
  {
    TickConnects(net, k, b, ds);
    TickKeepsKeyed(net, k);
    SymmetricStations(net, AfterTick(net, k));
    ExchangedSessionsFit(AfterTick(net, k), ds, k.a, b);
  }

  lemma SymmetricStations(net: Network, net': Network)
    requires net.Symmetric() && net'.stations == net.stations
    ensures net'.Symmetric()
  {
  }

  lemma TickKeepsKeyed(net: Network, k: Tick)
    requires net.Valid() && net.Keyed() && CanTick(net, k)
    ensures AfterTick(net, k).Keyed()
  {
    assert forall b :: 0 <= b < |net.tables| ==> IsKeyed(net.stations[b].me, net.tables[b]);
  }

  /** From a restart it does not: the handshake of x arrives, but it is not answered. */
  lemma RestartedStaysUnconnected(x: Station, y: Station, parse: AddrParser, handshake: seq<byte>)
    returns (ds: seq<Delivery>)
    requires x.me.publicKey != y.me.publicKey && x.ip != y.ip
    ensures var net, k := AfterStart(x, y, true), FirstTick(y, parse, handshake);
            && net.Valid() && !net.Reciprocal() && CanTick(net, k) && CanReach(net, 0, 1, parse)
            && IsComplete(AfterTick(net, k), ds)
            && Final(AfterTick(net, k), ds).Connected(1, 0) && !Final(AfterTick(net, k), ds).Connected(0, 1)
  {
    var net, k := AfterStart(x, y, true), FirstTick(y, parse, handshake);
    StartIsValid(x, y, true);
    WhoIsConnected(x, y, true);
    CanTickFirst(x, y, true, parse, handshake);
    ds := Completes(AfterTick(net, k));
    TickConnectsIff(net, k, 1, ds);
    assert !net.Reciprocates(0, 1);
  }
}
