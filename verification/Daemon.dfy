/** The event loop's packet handling: sealing and sending, forwarding, and what arrives. */
module Daemon {
  import opened Common
  import opened Crypto
  import opened Transport
  import opened PeerTable
  import opened PeerRuns
  import opened Peers
  import opened Routes
  import opened Broadcasts
  import Replay
  import Endpoints

  const MAX_PACKET: nat := 65536

  datatype Datagram = Datagram(to: SocketAddr, bytes: seq<byte>)

  /** The data packet that carries a text in a session. */
  function Frame(aead: Aead, myId: PeerId, s: Session, text: seq<byte>): seq<byte> {
    var (counter, ct) := s.Encrypted(aead, text);
    BuildDataPacket(DataPacket(myId, counter, ct))
  }

  /** A peer that a packet can be sent to directly. */
  predicate Able(t: Table, ip: Ip4, now: nat) {
    ip in t.peers && t.peers[ip].endpoint.Some? && t.peers[ip].IsConnected(now)
  }

  function DatagramVia(aead: Aead, myId: PeerId, t: Table, ip: Ip4, now: nat, text: seq<byte>): Datagram
    requires Able(t, ip, now)
  {
    Datagram(t.peers[ip].endpoint.value, Frame(aead, myId, t.peers[ip].session.value, text))
  }

  function AfterSend(t: Table, ip: Ip4): Table
    requires ip in t.peers && t.peers[ip].session.Some?
  {
    t.(peers := t.peers[ip := t.peers[ip].(session := Some(t.peers[ip].session.value.Sent()))])
  }

  /** The peers that an outbound IPv4 packet may leave through, in order of preference: the
      destination itself, the exact route, the CIDR route, and then the relay, or the gateway
      if there is no relay. */
  function Candidates(dest: Ip4, route: Option<Ip4>, cidr: Option<Ip4>, relay: Option<Ip4>,
                      gateway: Option<Ip4>): seq<Ip4>
  {
    [dest] + (AsSeq(route) + (AsSeq(cidr) + AsSeq(if relay.Some? then relay else gateway)))
  }

  function AsSeq(x: Option<Ip4>): seq<Ip4> {
    if x.Some? then [x.value] else []
  }

  function FirstAble(t: Table, ips: seq<Ip4>, now: nat): Option<Ip4> {
    if ips == [] then None else if Able(t, ips[0], now) then Some(ips[0]) else FirstAble(t, ips[1..], now)
  }

  lemma FirstAbleOr(t: Table, first: Option<Ip4>, rest: seq<Ip4>, now: nat)
    ensures FirstAble(t, AsSeq(first) + rest, now) ==
            if first.Some? && Able(t, first.value, now) then first else FirstAble(t, rest, now)
  {
    assert first.Some? ==> (AsSeq(first) + rest)[1..] == rest;
    assert first.None? ==> AsSeq(first) + rest == rest;
  }

  /** The cascade reaches the first able candidate. */
  lemma CascadeIsFirstAble(t: Table, dest: Ip4, route: Option<Ip4>, cidr: Option<Ip4>, relay: Option<Ip4>,
                           gateway: Option<Ip4>, now: nat)
    ensures var last := if relay.Some? then relay else gateway;
            FirstAble(t, Candidates(dest, route, cidr, relay, gateway), now) ==
            if Able(t, dest, now) then Some(dest)
            else if route.Some? && Able(t, route.value, now) then route
            else if cidr.Some? && Able(t, cidr.value, now) then cidr
            else if last.Some? && Able(t, last.value, now) then last
            else None
  {
    var last := if relay.Some? then relay else gateway;
    FirstAbleOr(t, Some(dest), AsSeq(route) + (AsSeq(cidr) + AsSeq(last)), now);
    FirstAbleOr(t, route, AsSeq(cidr) + AsSeq(last), now);
    FirstAbleOr(t, cidr, AsSeq(last), now);
    FirstAbleOr(t, last, [], now);
    assert AsSeq(last) + [] == AsSeq(last);
  }

  function RelayFor(t: Table, dest: Ip4, now: nat): Option<Ip4> {
    if dest in t.peers && !t.peers[dest].IsConnected(now) then t.peers[dest].relayVia else None
  }

  /** The peer at the other end of the session reads the text back from the datagram exactly
      when its window admits the counter. */
  lemma FrameIsReadBack(aead: Aead, myId: PeerId, sender: Session, receiver: Session, text: seq<byte>)
    requires aead.Lawful()
    requires sender.secret == receiver.secret && sender.low == !receiver.low
    ensures var parsed := ParseDataPacket(Frame(aead, myId, sender, text));
            && parsed.Some? && parsed.value.peerId == myId && parsed.value.counter == sender.send
            && receiver.DecryptedInto(aead, parsed.value.counter, parsed.value.ciphertext) ==
               if receiver.Admits(sender.send) then Success(text) else Failure(StaleNonce)
  {
    var (counter, ct) := sender.Encrypted(aead, text);
    Replay.DecryptUndoesEncrypt(aead, sender, receiver, text);
    ParseBuiltDataPacket(DataPacket(myId, counter, ct));
  }

  lemma {:induction false} FirstAbleIsFirst(t: Table, ips: seq<Ip4>, now: nat)
    ensures match FirstAble(t, ips, now)
            case None => forall ip :: ip in ips ==> !Able(t, ip, now)
            case Some(ip) =>
              && Able(t, ip, now)
              && exists k :: (0 <= k < |ips| && ips[k] == ip && forall j :: 0 <= j < k ==> !Able(t, ips[j], now))
  {
    if ips != [] && !Able(t, ips[0], now) {
      FirstAbleIsFirst(t, ips[1..], now);
      var r := FirstAble(t, ips[1..], now);
      if r.Some? {
        var k :| 0 <= k < |ips| - 1 && ips[1..][k] == r.value && forall j :: 0 <= j < k ==> !Able(t, ips[1..][j], now);
        assert ips[k + 1] == r.value;
        assert forall j :: 0 < j < k + 1 ==> ips[j] == ips[1..][j - 1];
      }
    }
  }

  // ---------- destinations ----------

  function DestIp4(pkt: seq<byte>): Option<Ip4> {
    if |pkt| < 20 || pkt[0] / 16 != 4 then None else Some(Ip4(pkt[16], pkt[17], pkt[18], pkt[19]))
  }

  function DestIp6(pkt: seq<byte>): Option<Ip6> {
    if |pkt| < 40 || pkt[0] / 16 != 6 then None else Some(pkt[24..40])
  }

  /** The destination of an IPv4 packet: a header of 20 bytes with version 4 in the upper half
      of the first, and the address in the last four of it. */
  lemma DestIp4Iff(pkt: seq<byte>, dest: Ip4)
    ensures DestIp4(pkt) == Some(dest) <==> |pkt| >= 20 && 0x40 <= pkt[0] <= 0x4F && dest.Octets() == pkt[16..20]
    ensures DestIp4(pkt).None? <==> |pkt| < 20 || pkt[0] < 0x40 || pkt[0] > 0x4F
  {
    if |pkt| >= 20 {
      assert pkt[16..20] == [pkt[16], pkt[17], pkt[18], pkt[19]];
      assert pkt[16..20] == dest.Octets() ==> dest.a == pkt[16..20][0] && dest.b == pkt[16..20][1]
                                              && dest.c == pkt[16..20][2] && dest.d == pkt[16..20][3];
    }
  }

  /** That of an IPv6 packet: 40 bytes, version 6, and the address in the last sixteen. */
  lemma DestIp6Iff(pkt: seq<byte>, dest: Ip6)
    ensures DestIp6(pkt) == Some(dest) <==> |pkt| >= 40 && 0x60 <= pkt[0] <= 0x6F && dest == pkt[24..40]
    ensures DestIp6(pkt).None? <==> |pkt| < 40 || pkt[0] < 0x60 || pkt[0] > 0x6F
  {
  }

  predicate IsBroadcast(myIp: Ip4, dest: Ip4) {
    dest == Ip4(myIp.a, myIp.b, myIp.c, 255) || dest == BROADCAST
  }

  /** A destination is for all exactly if it is the last address of this node's /24, in the
      bits of the routes, or all ones. */
  lemma BroadcastIff(myIp: Ip4, dest: Ip4)
    ensures IsBroadcast(myIp, dest) <==>
            || dest == Ip4(255, 255, 255, 255)
            || (&& Contains(Endpoints.Network(myIp, 24), dest.Octets())
                && FromBigEndian(dest.Octets())[24..] == Fill(8, true))
  {
    Endpoints.LastAddressIff(myIp, dest);
  }

  /** The peer an inbound IPv4 packet is passed on to: its destination if that is able,
      else the route hit if that is another node and able. */
  function InboundVia(t: Table, myIp: Ip4, dest: Ip4, hit: Option<Ip4>, now: nat): Option<Ip4> {
    if dest == myIp || IsBroadcast(myIp, dest) then None
    else if Able(t, dest, now) then Some(dest)
    else if hit.Some? && hit.value != myIp && Able(t, hit.value, now) then hit
    else None
  }

  /** It is written to the TUN device when it is for this node or for all, or when it
      cannot be sent directly and this node is the route hit. */
  predicate InboundToTun(t: Table, myIp: Ip4, dest: Ip4, hit: Option<Ip4>, now: nat) {
    dest == myIp || IsBroadcast(myIp, dest) || (!Able(t, dest, now) && hit == Some(myIp))
  }

  function InboundViaV6(t: Table, myIp: Ip4, cidr: Option<Ip4>, now: nat): Option<Ip4> {
    if cidr.Some? && cidr.value != myIp && Able(t, cidr.value, now) then cidr else None
  }

  // ---------- broadcasts ----------

  ghost function AbleIps(t: Table, now: nat): set<Ip4> {
    set ip | ip in t.peers && Able(t, ip, now)
  }

  /** The other peers that are connected. */
  ghost function DirectTargets(t: Table, myIp: Ip4, now: nat): set<Ip4> {
    set ip | ip in t.peers && ip != myIp && t.peers[ip].IsConnected(now)
  }

  /** The relays of the others. */
  ghost function RelayTargets(t: Table, myIp: Ip4, now: nat): set<Ip4> {
    set ip | ip in t.peers && ip != myIp && !t.peers[ip].IsConnected(now) && t.peers[ip].relayVia.Some?
           :: t.peers[ip].relayVia.value
  }

  /** A datagram to a peer that carries the text under some counter of its session. */
  ghost predicate Carries(d: Datagram, aead: Aead, myId: PeerId, p: Peer, text: seq<byte>) {
    p.endpoint == Some(d.to) && p.session.Some?
    && exists counter: u64 :: d.bytes == Frame(aead, myId, p.session.value.(send := counter), text)
  }

  /** Writing a header in front of what stands behind it. */
  lemma HeaderThenBody(s: seq<byte>, header: seq<byte>, body: seq<byte>)
    requires |header| + |body| <= |s| && s[|header|..|header| + |body|] == body
    ensures Written(s, 0, header)[..|header| + |body|] == header + body
  {
  }

  class Forwarder {
    const aead: Aead
    const manager: PeerManager
    const myIp: Ip4
    const myPeerId: PeerId
    const sendBuf: array<byte>
    var wire: seq<Datagram>
    var tun: seq<seq<byte>>

    ghost predicate Valid()
      reads this, manager
    {
      && aead.Lawful()
      && sendBuf.Length == MAX_PACKET + DATA_HEADER + TAG_LENGTH
      && manager.RoutesSorted()
    }

    constructor (aead: Aead, node: Node)
      requires aead.Lawful()
      ensures Valid() && fresh(manager) && fresh(sendBuf)
      ensures manager.View() == Table(map[], map[], map[], {}) && wire == [] && tun == []
    {
      this.aead := aead;
      manager := new PeerManager(node);
      myIp := node.myIp;
      myPeerId := node.me.idOf(node.me.publicKey);
      sendBuf := new byte[MAX_PACKET + DATA_HEADER + TAG_LENGTH](_ => 0);
      wire := [];
      tun := [];
    }

    /** Seals a packet for a peer in the send buffer, without copying it elsewhere, and
        sends what the buffer then holds. */
    method EncryptAndSend(peer: Peer, plaintext: seq<byte>, now: nat) returns (sent: bool, peer': Peer)
      requires Valid() && |plaintext| <= MAX_PACKET
      modifies sendBuf, `wire
      ensures sent <==> peer.endpoint.Some? && peer.IsConnected(now)
      ensures !sent ==> peer' == peer && wire == old(wire)
      ensures sent ==>
                && peer' == peer.(session := Some(peer.session.value.Sent()))
                && wire == old(wire) +
                           [Datagram(peer.endpoint.value, Frame(aead, myPeerId, peer.session.value, plaintext))]
    {
      if peer.endpoint.None? || !peer.IsConnected(now) {
        return false, peer;
      }
      var len := |plaintext|;
      Overwrite(sendBuf, DATA_HEADER, plaintext);
      var cipher := new SessionCipher.Of(aead, peer.session.value);
      var counter, ctLen := cipher.EncryptInto(sendBuf, DATA_HEADER, len);
      ghost var sealed := sendBuf[..];
      ghost var ct := sealed[DATA_HEADER..DATA_HEADER + ctLen];
      var header := [PKT_DATA] + myPeerId + Bytes.ToLE(counter, 8);
      Overwrite(sendBuf, 0, header);
      HeaderThenBody(sealed, header, ct);
      wire := wire + [Datagram(peer.endpoint.value, sendBuf[..DATA_HEADER + ctLen])];
      return true, peer.(session := Some(cipher.State()));
    }

    /** with_peer_by_ip around encrypt_and_send; false if there is no such peer. */
    method SendVia(ip: Ip4, plaintext: seq<byte>, now: nat) returns (sent: bool)
      requires Valid() && |plaintext| <= MAX_PACKET
      modifies sendBuf, `wire, manager`peersByIp
      ensures var t := old(manager.View());
              if Able(t, ip, now) then
                && sent
                && manager.View() == AfterSend(t, ip)
                && wire == old(wire) + [DatagramVia(aead, myPeerId, t, ip, now, plaintext)]
              else !sent && manager.View() == t && wire == old(wire)
      ensures sent <==> ip in old(manager.peersByIp) && old(manager.peersByIp)[ip].endpoint.Some?
                        && old(manager.peersByIp)[ip].IsConnected(now)
      ensures sent ==>
                var p := old(manager.peersByIp)[ip];
                && manager.peersByIp == old(manager.peersByIp)[ip := p.(session := Some(p.session.value.Sent()))]
                && wire == old(wire) + [Datagram(p.endpoint.value, Frame(aead, myPeerId, p.session.value, plaintext))]
    {
      if ip !in manager.peersByIp {
        return false;
      }
      var peer;
      sent, peer := EncryptAndSend(manager.peersByIp[ip], plaintext, now);
      if sent {
        manager.Put(ip, peer);
      }
    }

    method SendViaIf(ip: Option<Ip4>, plaintext: seq<byte>, now: nat) returns (sent: bool)
      requires Valid() && |plaintext| <= MAX_PACKET
      modifies sendBuf, `wire, manager`peersByIp
      ensures var t := old(manager.View());
              if ip.Some? && Able(t, ip.value, now) then
                && sent
                && manager.View() == AfterSend(t, ip.value)
                && wire == old(wire) + [DatagramVia(aead, myPeerId, t, ip.value, now, plaintext)]
              else !sent && manager.View() == t && wire == old(wire)
    {
      sent := false;
      if ip.Some? {
        sent := SendVia(ip.value, plaintext, now);
      }
    }

    /** Outbound unicast: nothing, or one datagram through the destination if that is able,
        else through its exact route if able, else its CIDR route if able; else, where the
        destination is a peer that is not connected and has a relay, through the relay if able
        and nobody otherwise; and where it has none, through the gateway if able. The ghost
        results are the CIDR route and the gateway consulted. */
    method SendUnicast(pkt: seq<byte>, dest: Ip4, now: nat)
      returns (ghost cidr: Option<Ip4>, ghost gateway: Option<Ip4>)
      requires Valid() && |pkt| <= MAX_PACKET
      modifies sendBuf, `wire, manager`peersByIp
      ensures IsLongestMatch(multiset(manager.cidrs), dest.Octets(), cidr)
      ensures IsGatewayPick(old(manager.View()), now, gateway)
      ensures var t := old(manager.View());
              var route := if dest in manager.subnetRoutes then Some(manager.subnetRoutes[dest]) else None;
              var via :=
                if Able(t, dest, now) then Some(dest)
                else if route.Some? && Able(t, route.value, now) then route
                else if cidr.Some? && Able(t, cidr.value, now) then cidr
                else if dest in t.peers && !t.peers[dest].IsConnected(now) && t.peers[dest].relayVia.Some? then
                  if Able(t, t.peers[dest].relayVia.value, now) then t.peers[dest].relayVia else None
                else if gateway.Some? && Able(t, gateway.value, now) then gateway
                else None;
              && wire == old(wire) + (if via.Some? then [DatagramVia(aead, myPeerId, t, via.value, now, pkt)] else [])
              && manager.View() == if via.Some? then AfterSend(t, via.value) else t
    {
      ghost var t := manager.View();
      ghost var route := if dest in manager.subnetRoutes then Some(manager.subnetRoutes[dest]) else None;
      cidr, gateway := Cascade(pkt, dest, now);
      CascadeIsFirstAble(t, dest, route, cidr, RelayFor(t, dest, now), gateway, now);
    }

    /** The cascade, as a list of candidates. */
    method Cascade(pkt: seq<byte>, dest: Ip4, now: nat)
      returns (ghost cidr: Option<Ip4>, ghost gateway: Option<Ip4>)
      requires Valid() && |pkt| <= MAX_PACKET
      modifies sendBuf, `wire, manager`peersByIp
      ensures IsLongestMatch(multiset(manager.cidrs), dest.Octets(), cidr)
      ensures IsGatewayPick(old(manager.View()), now, gateway)
      ensures var t := old(manager.View());
              var route := if dest in manager.subnetRoutes then Some(manager.subnetRoutes[dest]) else None;
              match FirstAble(t, Candidates(dest, route, cidr, RelayFor(t, dest, now), gateway), now)
              case None => wire == old(wire) && manager.View() == t
              case Some(ip) =>
                && Able(t, ip, now)
                && wire == old(wire) + [DatagramVia(aead, myPeerId, t, ip, now, pkt)]
                && manager.View() == AfterSend(t, ip)
    {
      ghost var t := manager.View();
      var gw := manager.FindSubnetMatch(dest);
      var exit := manager.FindGateway(now);
      cidr, gateway := gw, exit;
      var route := if dest in manager.subnetRoutes then Some(manager.subnetRoutes[dest]) else None;
      CascadeIsFirstAble(t, dest, route, gw, RelayFor(t, dest, now), exit, now);
      var sent := SendVia(dest, pkt, now);
      if sent { return; }
      sent := SendViaIf(route, pkt, now);
      if sent { return; }
      sent := SendViaIf(gw, pkt, now);
      if sent { return; }
      var relay := None;
      if dest in manager.peersByIp && !manager.peersByIp[dest].IsConnected(now) {
        relay := manager.peersByIp[dest].relayVia;
      }
      if relay.Some? {
        sent := SendViaIf(relay, pkt, now);
        return;
      }
      sent := SendViaIf(exit, pkt, now);
    }

    /** Outbound IPv6: only a CIDR route leads anywhere. */
    method SendUnicastV6(pkt: seq<byte>, dest: Ip6, now: nat) returns (ghost cidr: Option<Ip4>)
      requires Valid() && |pkt| <= MAX_PACKET
      modifies sendBuf, `wire, manager`peersByIp
      ensures IsLongestMatch(multiset(manager.cidrsV6), dest, cidr)
      ensures var t := old(manager.View());
              if cidr.Some? && Able(t, cidr.value, now) then
                && wire == old(wire) + [DatagramVia(aead, myPeerId, t, cidr.value, now, pkt)]
                && manager.View() == AfterSend(t, cidr.value)
              else wire == old(wire) && manager.View() == t
    {
      var gw := manager.FindSubnetMatchV6(dest);
      cidr := gw;
      if gw.Some? {
        var _ := SendVia(gw.value, pkt, now);
      }
    }

    /** A packet read from the TUN device: to the last address of the /24 or to all it is
        broadcast, to any other IPv4 address it goes out through one peer at most, to an IPv6
        address only by a route; anything else is dropped. */
    method OnTun(pkt: seq<byte>, now: nat)
      returns (ghost copies: seq<Ip4>, ghost cidr: Option<Ip4>, ghost gateway: Option<Ip4>)
      requires Valid() && |pkt| <= MAX_PACKET
      modifies sendBuf, `wire, manager`peersByIp
      ensures |pkt| >= 20 && 0x40 <= pkt[0] <= 0x4F ==>
                var t, dest := old(manager.View()), Ip4(pkt[16], pkt[17], pkt[18], pkt[19]);
                if dest == Ip4(myIp.a, myIp.b, myIp.c, 255) || dest == Ip4(255, 255, 255, 255) then
                  && CopiesSent(t, old(wire), copies, pkt)
                  && multiset(copies) == multiset(DirectTargets(t, myIp, now) * AbleIps(t, now))
                                         + multiset(RelayTargets(t, myIp, now) * AbleIps(t, now))
                else
                  var route := if dest in manager.subnetRoutes then Some(manager.subnetRoutes[dest]) else None;
                  var via :=
                    if Able(t, dest, now) then Some(dest)
                    else if route.Some? && Able(t, route.value, now) then route
                    else if cidr.Some? && Able(t, cidr.value, now) then cidr
                    else if dest in t.peers && !t.peers[dest].IsConnected(now) && t.peers[dest].relayVia.Some? then
                      if Able(t, t.peers[dest].relayVia.value, now) then t.peers[dest].relayVia else None
                    else if gateway.Some? && Able(t, gateway.value, now) then gateway
                    else None;
                  && IsLongestMatch(multiset(manager.cidrs), dest.Octets(), cidr)
                  && IsGatewayPick(t, now, gateway)
                  && wire == old(wire) +
                             (if via.Some? then [DatagramVia(aead, myPeerId, t, via.value, now, pkt)] else [])
                  && manager.View() == if via.Some? then AfterSend(t, via.value) else t
      ensures |pkt| >= 40 && 0x60 <= pkt[0] <= 0x6F ==>
                var t := old(manager.View());
                && IsLongestMatch(multiset(manager.cidrsV6), pkt[24..40], cidr)
                && if cidr.Some? && Able(t, cidr.value, now) then
                     && wire == old(wire) + [DatagramVia(aead, myPeerId, t, cidr.value, now, pkt)]
                     && manager.View() == AfterSend(t, cidr.value)
                   else wire == old(wire) && manager.View() == t
      ensures !(|pkt| >= 20 && 0x40 <= pkt[0] <= 0x4F) && !(|pkt| >= 40 && 0x60 <= pkt[0] <= 0x6F) ==>
                wire == old(wire) && manager.View() == old(manager.View())
    {
      copies, cidr, gateway := [], None, None;
      if DestIp4(pkt).Some? {
        var dest := DestIp4(pkt).value;
        if IsBroadcast(myIp, dest) {
          copies := Broadcast(pkt, now);
        } else {
          cidr, gateway := SendUnicast(pkt, dest, now);
        }
      } else if DestIp6(pkt).Some? {
        cidr := SendUnicastV6(pkt, DestIp6(pkt).value, now);
      }
    }

    /** What was done with an inbound packet: written to the TUN device or not, and passed
        on through a peer or not, with the table as it was before. */
    twostate predicate Passed(t: Table, toTun: bool, via: Option<Ip4>, text: seq<byte>, now: nat)
      reads this, manager
    {
      && (via.Some? ==> Able(t, via.value, now))
      && tun == old(tun) + (if toTun then [text] else [])
      && wire == old(wire) + (if via.Some? then [DatagramVia(aead, myPeerId, t, via.value, now, text)] else [])
      && manager.View() == if via.Some? then AfterSend(t, via.value) else t
    }

    /** The first hit for a destination among the exact routes and then the CIDR routes. */
    function RouteHit(dest: Ip4, cidr: Option<Ip4>): Option<Ip4>
      reads manager`subnetRoutes
    {
      if dest in manager.subnetRoutes then Some(manager.subnetRoutes[dest]) else cidr
    }

    /** An inbound IPv4 packet after decryption. It is written to the TUN device if it is for
        this node, for the last address of its /24 or for all, and if it cannot be sent to the
        destination and the first route hit is this node; else it is sent to the destination
        if that is able, else to the route hit if able. */
    method Deliver(plaintext: seq<byte>, dest: Ip4, now: nat)
      returns (ghost cidr: Option<Ip4>, ghost via: Option<Ip4>)
      requires Valid() && |plaintext| <= MAX_PACKET
      modifies sendBuf, `wire, `tun, manager`peersByIp
      ensures IsLongestMatch(multiset(manager.cidrs), dest.Octets(), cidr)
      ensures var t := old(manager.View());
              var hit := if dest in manager.subnetRoutes then Some(manager.subnetRoutes[dest]) else cidr;
              var own := || dest == myIp || dest == Ip4(255, 255, 255, 255)
                         || (&& Contains(Endpoints.Network(myIp, 24), dest.Octets())
                             && FromBigEndian(dest.Octets())[24..] == Fill(8, true));
              && tun == old(tun) + (if own || (!Able(t, dest, now) && hit == Some(myIp)) then [plaintext] else [])
              && via == (if own then None
                         else if Able(t, dest, now) then Some(dest)
                         else if hit.Some? && hit.value != myIp && Able(t, hit.value, now) then hit
                         else None)
              && wire == old(wire) +
                         (if via.Some? then [DatagramVia(aead, myPeerId, t, via.value, now, plaintext)] else [])
              && manager.View() == if via.Some? then AfterSend(t, via.value) else t
      ensures via == InboundVia(old(manager.View()), myIp, dest, RouteHit(dest, cidr), now)
      ensures Passed(old(manager.View()), InboundToTun(old(manager.View()), myIp, dest, RouteHit(dest, cidr), now),
                     via, plaintext, now)
    {
      BroadcastIff(myIp, dest);
      cidr, via := PassOn(plaintext, dest, now);
    }

    method PassOn(plaintext: seq<byte>, dest: Ip4, now: nat)
      returns (ghost cidr: Option<Ip4>, ghost via: Option<Ip4>)
      requires Valid() && |plaintext| <= MAX_PACKET
      modifies sendBuf, `wire, `tun, manager`peersByIp
      ensures IsLongestMatch(multiset(manager.cidrs), dest.Octets(), cidr)
      ensures via == InboundVia(old(manager.View()), myIp, dest, RouteHit(dest, cidr), now)
      ensures Passed(old(manager.View()), InboundToTun(old(manager.View()), myIp, dest, RouteHit(dest, cidr), now),
                     via, plaintext, now)
    {
      var gw := manager.FindSubnetMatch(dest);
      cidr, via := gw, None;
      if dest == myIp || IsBroadcast(myIp, dest) {
        tun := tun + [plaintext];
        return;
      }
      var forwarded := SendVia(dest, plaintext, now);
      if forwarded {
        via := Some(dest);
        return;
      }
      var hit := RouteHit(dest, gw);
      if hit.Some? {
        if hit.value == myIp {
          tun := tun + [plaintext];
        } else {
          var routed := SendVia(hit.value, plaintext, now);
          via := if routed then hit else None;
        }
      }
    }

    method DeliverV6(plaintext: seq<byte>, dest: Ip6, now: nat)
      returns (ghost cidr: Option<Ip4>, ghost via: Option<Ip4>)
      requires Valid() && |plaintext| <= MAX_PACKET
      modifies sendBuf, `wire, `tun, manager`peersByIp
      ensures IsLongestMatch(multiset(manager.cidrsV6), dest, cidr)
      ensures via == InboundViaV6(old(manager.View()), myIp, cidr, now)
      ensures Passed(old(manager.View()), cidr == Some(myIp), via, plaintext, now)
      ensures var t := old(manager.View());
              && tun == old(tun) + (if cidr == Some(myIp) then [plaintext] else [])
              && via == (if cidr.Some? && cidr.value != myIp && Able(t, cidr.value, now) then cidr else None)
              && wire == old(wire) +
                         (if via.Some? then [DatagramVia(aead, myPeerId, t, via.value, now, plaintext)] else [])
              && manager.View() == if via.Some? then AfterSend(t, via.value) else t
    {
      var gw := manager.FindSubnetMatchV6(dest);
      cidr, via := gw, None;
      if gw == Some(myIp) {
        tun := tun + [plaintext];
      } else if gw.Some? {
        var routed := SendVia(gw.value, plaintext, now);
        via := if routed then gw else None;
      }
    }

    /** The other peers to reach, each once: directly if connected, else by a relay. */
    method BroadcastTargets(now: nat) returns (targets: seq<Target<Ip4>>)
      ensures IsTargetList(manager.View(), myIp, now, targets)
    {
      targets := [];
      var rest := manager.peersByIp.Keys;
      while rest != {}
        invariant rest <= manager.peersByIp.Keys
        invariant forall i, j :: 0 <= i < j < |targets| ==> targets[i].ip != targets[j].ip
        invariant forall x :: x in targets ==> x.ip !in rest && IsTarget(manager.View(), myIp, now, x)
        invariant forall x :: IsTarget(manager.View(), myIp, now, x) && x.ip !in rest ==> x in targets
        decreases rest
      {
        var ip :| ip in rest;
        rest := rest - {ip};
        var peer := manager.peersByIp[ip];
        if ip != myIp {
          if peer.IsConnected(now) {
            targets := targets + [Target(ip, None)];
          } else if peer.relayVia.Some? {
            targets := targets + [Target(ip, peer.relayVia)];
          }
        }
      }
    }

    /** Since the table was t and the wire was start, a copy went to each of these peers. */
    ghost predicate CopiesSent(t: Table, start: seq<Datagram>, copies: seq<Ip4>, pkt: seq<byte>)
      reads `wire, manager
    {
      OnlyCountersMoved(t, manager.View()) && AreCopies(aead, myPeerId, t, start, wire, copies, pkt)
    }

    method SendCopy(ip: Ip4, pkt: seq<byte>, now: nat,
                    ghost t: Table, ghost start: seq<Datagram>, ghost copies: seq<Ip4>)
      requires Valid() && |pkt| <= MAX_PACKET
      requires CopiesSent(t, start, copies, pkt)
      modifies sendBuf, `wire, manager`peersByIp
      ensures CopiesSent(t, start, if Able(t, ip, now) then copies + [ip] else copies, pkt)
    {
      ghost var before := manager.View();
      var sent := SendVia(ip, pkt, now);
      if sent {
        OneMoreCopy(aead, myPeerId, t, before, start, old(wire), copies, ip, now, pkt);
      }
    }

    /** One copy for each able peer that is connected, and one for each able relay of the
        others; copies names the receivers in the order of the datagrams. */
    method Broadcast(pkt: seq<byte>, now: nat) returns (ghost copies: seq<Ip4>)
      requires Valid() && |pkt| <= MAX_PACKET
      modifies sendBuf, `wire, manager`peersByIp
      ensures CopiesSent(old(manager.View()), old(wire), copies, pkt)
      ensures var t := old(manager.View());
              multiset(copies) == multiset(DirectTargets(t, myIp, now) * AbleIps(t, now))
                                  + multiset(RelayTargets(t, myIp, now) * AbleIps(t, now))
    {
      ghost var t, start, able := manager.View(), wire, AbleIps(manager.View(), now);
      var targets := BroadcastTargets(now);
      TargetsCovered(t, myIp, now, targets);
      CopiesForMatch(targets, able);
      copies := CopiesFor(targets, able);
      SendToTargets(targets, pkt, now, t, able);
    }

    method SendToTargets(targets: seq<Target<Ip4>>, pkt: seq<byte>, now: nat, ghost t: Table, ghost able: set<Ip4>)
      requires Valid() && |pkt| <= MAX_PACKET
      requires t == manager.View() && able == AbleIps(t, now)
      modifies sendBuf, `wire, manager`peersByIp
      ensures CopiesSent(t, old(wire), CopiesFor(targets, able), pkt)
    {
      ghost var start := wire;
      var relayed: set<Ip4> := {};
      for k := 0 to |targets|
        invariant CopiesSent(t, start, CopiesFor(targets[..k], able), pkt)
        invariant relayed == Relays(targets[..k])
      {
        var x := targets[k];
        assert targets[..k + 1] == targets[..k] + [x];
        CopiesForLonger(targets[..k], x, able);
        Appended(targets[..k], x);
        if x.relay.None? || x.relay.value !in relayed {
          SendCopy(Receiver(x), pkt, now, t, start, CopiesFor(targets[..k], able));
        }
        relayed := if x.relay.Some? then relayed + {x.relay.value} else relayed;
      }
      assert targets[..|targets|] == targets;
    }
  }

  // ---------- lemmas for broadcasts ----------

  ghost predicate IsTarget(t: Table, myIp: Ip4, now: nat, x: Target<Ip4>) {
    && x.ip in t.peers && x.ip != myIp
    && (if t.peers[x.ip].IsConnected(now) then x.relay.None?
        else x.relay.Some? && x.relay == t.peers[x.ip].relayVia)
  }

  ghost predicate IsTargetList(t: Table, myIp: Ip4, now: nat, targets: seq<Target<Ip4>>) {
    && DistinctTargets(targets)
    && (forall x :: x in targets <==> IsTarget(t, myIp, now, x))
  }

  lemma TargetsCovered(t: Table, myIp: Ip4, now: nat, targets: seq<Target<Ip4>>)
    requires IsTargetList(t, myIp, now, targets)
    ensures Directs(targets) == DirectTargets(t, myIp, now)
    ensures Relays(targets) == RelayTargets(t, myIp, now)
  {
    forall ip | ip in DirectTargets(t, myIp, now)
      ensures ip in Directs(targets)
    {
      assert IsTarget(t, myIp, now, Target(ip, None));
    }
    forall r | r in RelayTargets(t, myIp, now)
      ensures r in Relays(targets)
    {
      var ip :| ip in t.peers && ip != myIp && !t.peers[ip].IsConnected(now) && t.peers[ip].relayVia == Some(r);
      assert IsTarget(t, myIp, now, Target(ip, Some(r)));
    }
  }

  /** How many copies a peer gets: one for itself if it is another than this node, connected
      and with an endpoint, and one more as a relay if it relays for another peer that is not
      connected, and is connected itself with an endpoint. */
  lemma CopiesCounted(t: Table, myIp: Ip4, now: nat, copies: multiset<Ip4>, ip: Ip4)
    requires copies == multiset(DirectTargets(t, myIp, now) * AbleIps(t, now))
                       + multiset(RelayTargets(t, myIp, now) * AbleIps(t, now))
    ensures var able := ip in t.peers && t.peers[ip].endpoint.Some? && t.peers[ip].IsConnected(now);
            copies[ip] == (if able && ip != myIp then 1 else 0)
                          + if able && exists x :: x in t.peers && x != myIp && !t.peers[x].IsConnected(now)
                                                   && t.peers[x].relayVia == Some(ip)
                            then 1 else 0
  {
    if exists x :: x in t.peers && x != myIp && !t.peers[x].IsConnected(now) && t.peers[x].relayVia == Some(ip) {
      assert ip in RelayTargets(t, myIp, now);
    }
  }

  /** Sending changes nothing in the table but send counters. */
  ghost predicate OnlyCountersMoved(t: Table, t': Table) {
    && t'.peers.Keys == t.peers.Keys && t'.(peers := t.peers) == t
    && forall ip :: ip in t.peers ==>
         t'.peers[ip] == t.peers[ip] ||
         (t.peers[ip].session.Some? && t'.peers[ip].session.Some?
          && t'.peers[ip] == t.peers[ip].(
               session := Some(t.peers[ip].session.value.(send := t'.peers[ip].session.value.send))))
  }

  /** After start, the wire holds a copy for each of these peers, in order. */
  ghost predicate AreCopies(aead: Aead, myId: PeerId, t: Table, start: seq<Datagram>, wire: seq<Datagram>,
                            copies: seq<Ip4>, text: seq<byte>)
  {
    && |wire| == |start| + |copies| && wire[..|start|] == start
    && forall k :: 0 <= k < |copies| ==>
         copies[k] in t.peers && Carries(wire[|start| + k], aead, myId, t.peers[copies[k]], text)
  }

  lemma DatagramCarries(aead: Aead, myId: PeerId, t: Table, t': Table, ip: Ip4, now: nat, text: seq<byte>)
    requires OnlyCountersMoved(t, t') && Able(t', ip, now)
    ensures Able(t, ip, now) && Carries(DatagramVia(aead, myId, t', ip, now, text), aead, myId, t.peers[ip], text)
  {
    var counter := t'.peers[ip].session.value.send;
    assert t'.peers[ip].session.value == t.peers[ip].session.value.(send := counter);
  }

  lemma OneMoreCounterMoved(t: Table, t': Table, ip: Ip4, now: nat)
    requires OnlyCountersMoved(t, t') && Able(t', ip, now)
    ensures OnlyCountersMoved(t, AfterSend(t', ip))
  {
  }

  lemma OneMoreCopy(aead: Aead, myId: PeerId, t: Table, t': Table, start: seq<Datagram>, wire: seq<Datagram>,
                    copies: seq<Ip4>, ip: Ip4, now: nat, text: seq<byte>)
    requires OnlyCountersMoved(t, t') && AreCopies(aead, myId, t, start, wire, copies, text) && Able(t', ip, now)
    ensures OnlyCountersMoved(t, AfterSend(t', ip))
    ensures AreCopies(aead, myId, t, start, wire + [DatagramVia(aead, myId, t', ip, now, text)], copies + [ip], text)
  {
    OneMoreCounterMoved(t, t', ip, now);
    DatagramCarries(aead, myId, t, t', ip, now, text);
  }
}
