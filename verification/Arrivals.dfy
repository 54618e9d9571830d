/** What the event loop does with a datagram: handshake, data or keepalive. */
module Arrivals {
  import opened Common
  import opened Crypto
  import opened Transport
  import opened PeerTable
  import opened PeerIndexes
  import opened PeerRuns
  import opened Daemon
  import opened Routes
  import Bytes
  import Replay

  // ---------- handshakes ----------

  /** The table after a handshake was processed, and whether it is answered: only if its
      sender was not connected before. */
  function Answer(n: Node, t: Table, a: Announcement, now: nat, pick: Option<Ip4>): (Table, bool) {
    var u := t.UpdateFromDiscovery(n.me, a, pick);
    if a.ip !in u.peers then (u, true)
    else
      var p := u.peers[a.ip];
      (u.(peers := u.peers[a.ip := p.EstablishSession(n.me).(lastSeen := Some(now))]), !p.IsConnected(now))
  }

  method OnHandshake(f: Forwarder, utf8: Utf8, own: Handshake, data: seq<byte>, src: SocketAddr, now: nat)
    returns (ghost pick: Option<Ip4>)
    modifies f`wire, f.manager`peersByIp, f.manager`idToIp, f.manager`endpointToIp
    ensures match ParseHandshake(utf8, data)
            case None => f.wire == old(f.wire) && f.manager.View() == old(f.manager.View())
            case Some(h) =>
              var a := Announcement(h.key, src, h.ip, h.hostname, h.isGateway);
              var (after, answered) := Answer(f.manager.node, old(f.manager.View()), a, now, pick);
              && old(f.manager.View()).IsHolder(h.key, pick)
              && f.manager.View() == after
              && f.wire == old(f.wire) + if answered then [Datagram(src, BuildHandshake(utf8, own))] else []
  {
    pick := None;
    var parsed := ParseHandshake(utf8, data);
    if parsed.None? {
      return;
    }
    var h := parsed.value;
    pick := f.manager.UpdateFromDiscovery(Announcement(h.key, src, h.ip, h.hostname, h.isGateway));
    var wasConnected := h.ip in f.manager.peersByIp && f.manager.peersByIp[h.ip].IsConnected(now);
    if h.ip in f.manager.peersByIp {
      var peer := f.manager.peersByIp[h.ip].EstablishSession(f.manager.node.me);
      f.manager.Put(h.ip, peer.(lastSeen := Some(now)));
    }
    if !wasConnected {
      f.wire := f.wire + [Datagram(src, BuildHandshake(utf8, own))];
    }
  }

  /** Processing a handshake is a discovery followed by a write to the sender's entry. */
  lemma AnswerIsRun(n: Node, t: Table, a: Announcement, now: nat, pick: Option<Ip4>)
    requires t.IsHolder(a.key, pick)
    ensures a.ip in t.UpdateFromDiscovery(n.me, a, pick).peers
    ensures var p := t.UpdateFromDiscovery(n.me, a, pick).peers[a.ip];
            var ops := [Discover(a, pick), Touch(a.ip, p.EstablishSession(n.me).session, Some(now), p.hostname, None)];
            IsRun(n, t, ops) && Run(n, t, ops) == Answer(n, t, a, now, pick).0
  {
    var p := t.UpdateFromDiscovery(n.me, a, pick).peers[a.ip];
    RunExtended(n, t, [], Discover(a, pick));
    assert [] + [Discover(a, pick)] == [Discover(a, pick)];
    var touch := Touch(a.ip, p.EstablishSession(n.me).session, Some(now), p.hostname, None);
    RunExtended(n, t, [Discover(a, pick)], touch);
    assert [Discover(a, pick)] + [touch] == [Discover(a, pick), touch];
  }

  /** A handshake leaves its sender connected from now on until the age limit, in a session
      that starts again from zero on this side, whatever was there before. */
  lemma AnswerConnects(n: Node, t: Table, a: Announcement, now: nat, pick: Option<Ip4>, later: nat)
    requires t.IsHolder(a.key, pick)
    ensures var t' := Answer(n, t, a, now, pick).0;
            && a.ip in t'.peers
            && (t'.peers[a.ip].IsConnected(later) <==> later < now + 120)
            && t'.peers[a.ip].session ==
               Some(Session(n.me.sharedWith(a.key), Bytes.Less(n.me.publicKey, a.key), 0, 0))
  {
  }

  /** It files its sender under the announced IP and key, with its id, and seen now; a peer
      at another IP with another key is left as it is. */
  lemma AnswerFiles(n: Node, t: Table, a: Announcement, now: nat, pick: Option<Ip4>)
    requires t.IsHolder(a.key, pick)
    ensures var t' := Answer(n, t, a, now, pick).0;
            && a.ip in t'.peers && t'.peers[a.ip].publicKey == a.key && t'.peers[a.ip].lastSeen == Some(now)
            && t'.peers[a.ip].hostname == a.hostname && t'.peers[a.ip].isGateway == a.isGateway
            && t'.peers[a.ip].relayVia.None?
  {
  }

  lemma AnswerLeavesOthers(n: Node, t: Table, a: Announcement, now: nat, pick: Option<Ip4>, ip: Ip4)
    requires t.IsHolder(a.key, pick) && ip in t.peers && ip != a.ip && t.peers[ip].publicKey != a.key
    ensures ip in Answer(n, t, a, now, pick).0.peers && Answer(n, t, a, now, pick).0.peers[ip] == t.peers[ip]
  {
  }

  /** It is answered exactly if no peer that was connected held the key. */
  lemma AnsweredIff(n: Node, t: Table, a: Announcement, now: nat, pick: Option<Ip4>)
    requires KeysUnique(t) && t.IsHolder(a.key, pick)
    ensures Answer(n, t, a, now, pick).1 <==>
            !exists ip :: ip in t.peers && t.peers[ip].publicKey == a.key && t.peers[ip].IsConnected(now)
  {
    var u := t.UpdateFromDiscovery(n.me, a, pick);
    assert a.ip in u.peers;
    if pick.Some? {
      assert forall ip :: ip in t.peers && t.peers[ip].publicKey == a.key ==> ip == pick.value;
      assert u.peers[a.ip].session == t.peers[pick.value].session;
      assert u.peers[a.ip].lastSeen == t.peers[pick.value].lastSeen;
    } else {
      assert u.peers[a.ip].session.None?;
    }
  }

  /** For a peer that has the session of its keys, a handshake is a re-establishment: the
      secret is the same and the counters start again. */
  lemma AnswerReestablishes(n: Node, t: Table, a: Announcement, now: nat, pick: Option<Ip4>, s: Session)
    requires t.IsHolder(a.key, pick) && t.Knows(a) && t.peers[a.ip].session == Some(s)
    requires s.secret == n.me.sharedWith(a.key) && s.low == Bytes.Less(n.me.publicKey, a.key)
    ensures var t' := Answer(n, t, a, now, pick).0;
            a.ip in t'.peers && t'.peers[a.ip].session == Some(Replay.After(s, Replay.Reestablish))
  {
    AnswerConnects(n, t, a, now, pick, now);
  }

  // ---------- data packets ----------

  /** The text of a packet that a peer's session opens. */
  function Opened(aead: Aead, t: Table, ip: Ip4, counter: u64, ct: seq<byte>): Option<seq<byte>> {
    if ip !in t.peers || t.peers[ip].session.None? then None
    else match t.peers[ip].session.value.DecryptedInto(aead, counter, ct)
      case Success(text) => Some(text)
      case Failure(_) => None
  }

  /** The write that records a decrypted packet: new counter, and heard from just now. */
  function Heard(t: Table, ip: Ip4, counter: u64, now: nat): Op
    requires ip in t.peers && t.peers[ip].session.Some?
  {
    var p := t.peers[ip];
    Touch(ip, Some(p.session.value.Accepted(counter)), Some(now), p.hostname, None)
  }

  /** The roaming update comes only when the packet's source is not the peer's endpoint. */
  function Roams(t: Table, ip: Ip4, src: SocketAddr): seq<Op> {
    if ip in t.peers && t.peers[ip].endpoint == Some(src) then [] else [Roam(ip, src)]
  }

  /** Opens the packet in recvBuf[13..len] with the session of the peer at ip. */
  method Open(f: Forwarder, recvBuf: array<byte>, len: nat, counter: u64, ip: Ip4, now: nat)
    returns (textLen: Option<nat>)
    requires f.Valid() && recvBuf != f.sendBuf && DATA_HEADER < len <= recvBuf.Length
    requires ip in f.manager.peersByIp
    modifies recvBuf, f.manager`peersByIp
    ensures f.Valid()
    ensures var t, ct := old(f.manager.View()), old(recvBuf[DATA_HEADER..len]);
            match Opened(f.aead, t, ip, counter, ct)
            case None => textLen == None && f.manager.View() == t
            case Some(text) =>
              && textLen.Some? && DATA_HEADER + textLen.value <= len
              && recvBuf[DATA_HEADER..DATA_HEADER + textLen.value] == text
              && f.manager.View() == Step(f.manager.node, t, Heard(t, ip, counter, now))
  {
    var peer := f.manager.peersByIp[ip];
    if peer.session.None? {
      return None;
    }
    var cipher := new SessionCipher.Of(f.aead, peer.session.value);
    var result := cipher.DecryptInto(counter, recvBuf, DATA_HEADER, len - DATA_HEADER);
    if result.Failure? {
      return None;
    }
    f.manager.Put(ip, peer.(session := Some(cipher.State()), lastSeen := Some(now)));
    return Some(result.value);
  }

  // ---------- what a text leads to ----------

  predicate IsExchange(text: seq<byte>) {
    |text| > 1 && text[0] == PKT_PEER_EXCHANGE
  }

  /** A relayed handshake is ignored. */
  predicate IsIgnored(text: seq<byte>) {
    |text| > 1 && text[0] == PKT_HANDSHAKE
  }

  /** Where the CIDR tables, read for the text's destination, send it. */
  ghost predicate IsCidrHit(f: Forwarder, text: seq<byte>, cidr: Option<Ip4>)
    reads f.manager
  {
    match (DestIp4(text), DestIp6(text))
    case (Some(dest), _) => IsLongestMatch(multiset(f.manager.cidrs), dest.Octets(), cidr)
    case (None, Some(dest)) => IsLongestMatch(multiset(f.manager.cidrsV6), dest, cidr)
    case _ => cidr == None
  }

  function ViaFor(f: Forwarder, t: Table, text: seq<byte>, cidr: Option<Ip4>, now: nat): Option<Ip4>
    reads f.manager`subnetRoutes
  {
    if IsExchange(text) || IsIgnored(text) then None
    else match (DestIp4(text), DestIp6(text))
      case (Some(dest), _) => InboundVia(t, f.myIp, dest, f.RouteHit(dest, cidr), now)
      case (None, Some(_)) => InboundViaV6(t, f.myIp, cidr, now)
      case _ => None
  }

  predicate ToTun(f: Forwarder, t: Table, text: seq<byte>, cidr: Option<Ip4>, now: nat)
    reads f.manager`subnetRoutes
  {
    && !IsExchange(text) && !IsIgnored(text)
    && match (DestIp4(text), DestIp6(text))
       case (Some(dest), _) => InboundToTun(t, f.myIp, dest, f.RouteHit(dest, cidr), now)
       case (None, Some(_)) => cidr == Some(f.myIp)
       case _ => false
  }

  /** A packet is passed on or written to the TUN device, never both. */
  lemma OneOutput(f: Forwarder, t: Table, text: seq<byte>, cidr: Option<Ip4>, now: nat)
    ensures !(ToTun(f, t, text, cidr, now) && ViaFor(f, t, text, cidr, now).Some?)
  {
  }

  /** Where a text that is no peer exchange and no handshake goes, read off its bytes: with an
      IPv4 destination where Deliver says, with an IPv6 destination where the route says, and
      with none nowhere. */
  lemma RoutedTextIff(f: Forwarder, t: Table, text: seq<byte>, cidr: Option<Ip4>, now: nat)
    requires !(|text| > 1 && (text[0] == 0x06 || text[0] == 0x01))
    ensures var v4, v6 := |text| >= 20 && 0x40 <= text[0] <= 0x4F, |text| >= 40 && 0x60 <= text[0] <= 0x6F;
            && (v4 ==>
                var dest := Ip4(text[16], text[17], text[18], text[19]);
                var hit := if dest in f.manager.subnetRoutes then Some(f.manager.subnetRoutes[dest]) else cidr;
                var own := dest == f.myIp || dest == Ip4(f.myIp.a, f.myIp.b, f.myIp.c, 255)
                           || dest == Ip4(255, 255, 255, 255);
                && (ToTun(f, t, text, cidr, now) <==> own || (!Able(t, dest, now) && hit == Some(f.myIp)))
                && ViaFor(f, t, text, cidr, now) ==
                   (if own then None
                    else if Able(t, dest, now) then Some(dest)
                    else if hit.Some? && hit.value != f.myIp && Able(t, hit.value, now) then hit
                    else None)
                && (IsCidrHit(f, text, cidr) <==> IsLongestMatch(multiset(f.manager.cidrs), dest.Octets(), cidr)))
            && (v6 ==>
                && (ToTun(f, t, text, cidr, now) <==> cidr == Some(f.myIp))
                && ViaFor(f, t, text, cidr, now) ==
                   (if cidr.Some? && cidr.value != f.myIp && Able(t, cidr.value, now) then cidr else None)
                && (IsCidrHit(f, text, cidr) <==> IsLongestMatch(multiset(f.manager.cidrsV6), text[24..40], cidr)))
            && (!v4 && !v6 ==> !ToTun(f, t, text, cidr, now) && ViaFor(f, t, text, cidr, now).None?)
  {
  }

  /** A peer exchange or a relayed handshake goes nowhere. */
  lemma UnroutedText(f: Forwarder, t: Table, text: seq<byte>, cidr: Option<Ip4>, now: nat)
    requires |text| > 1 && (text[0] == 0x06 || text[0] == 0x01)
    ensures !ToTun(f, t, text, cidr, now) && ViaFor(f, t, text, cidr, now).None?
  {
  }

  /** The write that records a send: a counter used up. */
  function SendOp(t: Table, via: Ip4): Op
    requires via in t.peers && t.peers[via].session.Some?
  {
    var p := t.peers[via];
    Touch(via, Some(p.session.value.Sent()), p.lastSeen, p.hostname, None)
  }

  /** The operation on the table that a text leads to, if any. */
  ghost predicate IsTextOp(t: Table, text: seq<byte>, via: Option<Ip4>, ip: Ip4, now: nat,
                           parsePex: seq<byte> -> Option<seq<PexEntry>>, tail: seq<Op>)
  {
    if IsExchange(text) && parsePex(text).Some? then
      exists picks :: tail == [Pex(parsePex(text).value, ip, now, picks)]
    else if via.Some? then
      via.value in t.peers && t.peers[via.value].session.Some? && tail == [SendOp(t, via.value)]
    else tail == []
  }

  /** The table is where this run has brought it. */
  ghost predicate Follows(f: Forwarder, t: Table, ops: seq<Op>)
    reads f.manager
  {
    IsRun(f.manager.node, t, ops) && f.manager.View() == Run(f.manager.node, t, ops)
  }

  ghost function Extend(n: Node, t: Table, ops: seq<Op>, op: Op): (r: seq<Op>)
    requires IsRun(n, t, ops) && Possible(n, Run(n, t, ops), op)
    ensures r == ops + [op] && IsRun(n, t, r) && Run(n, t, r) == Step(n, Run(n, t, ops), op)
  {
    RunExtended(n, t, ops, op);
    ops + [op]
  }

  /** Routes a text by its destination: for this node, for all, or passed on. */
  method RouteText(f: Forwarder, text: seq<byte>, now: nat) returns (ghost cidr: Option<Ip4>, ghost via: Option<Ip4>)
    requires f.Valid() && |text| <= MAX_PACKET && !IsExchange(text) && !IsIgnored(text)
    modifies f.sendBuf, f`wire, f`tun, f.manager`peersByIp
    ensures IsCidrHit(f, text, cidr) && via == ViaFor(f, old(f.manager.View()), text, cidr, now)
    ensures f.Passed(old(f.manager.View()), ToTun(f, old(f.manager.View()), text, cidr, now), via, text, now)
  {
    cidr, via := None, None;
    if DestIp4(text).Some? {
      cidr, via := f.Deliver(text, DestIp4(text).value, now);
    } else if DestIp6(text).Some? {
      cidr, via := f.DeliverV6(text, DestIp6(text).value, now);
    }
  }

  /** What a text leads to, with the table u as it was before: at most one operation, and
      at most one output. */
  twostate predicate Handled(f: Forwarder, new u: Table, new text: seq<byte>, ip: Ip4, now: nat,
                             parsePex: seq<byte> -> Option<seq<PexEntry>>, new cidr: Option<Ip4>, new tail: seq<Op>)
    reads f, f.manager
  {
    var via := ViaFor(f, u, text, cidr, now);
    && (IsExchange(text) || IsIgnored(text) || IsCidrHit(f, text, cidr))
    && IsTextOp(u, text, via, ip, now, parsePex, tail)
    && f.tun == old(f.tun) + (if ToTun(f, u, text, cidr, now) then [text] else [])
    && (via.Some? ==> Able(u, via.value, now))
    && f.wire == old(f.wire) + if via.Some? then [DatagramVia(f.aead, f.myPeerId, u, via.value, now, text)] else []
  }

  /** The text of a peer heard just now: a peer exchange, a relayed handshake, or a packet
      to route by its destination. */
  method OnText(f: Forwarder, text: seq<byte>, ip: Ip4, now: nat,
                parsePex: seq<byte> -> Option<seq<PexEntry>>, ghost t: Table, ghost before: seq<Op>)
    returns (ghost tail: seq<Op>, ghost cidr: Option<Ip4>)
    requires f.Valid() && |text| <= MAX_PACKET && Follows(f, t, before)
    requires ip in f.manager.View().peers && f.manager.View().peers[ip].IsConnected(now)
    modifies f.sendBuf, f`wire, f`tun, f.manager`peersByIp, f.manager`idToIp, f.manager`endpointToIp
    ensures Follows(f, t, before + tail)
    ensures Handled(f, old(f.manager.View()), text, ip, now, parsePex, cidr, tail)
  {
    ghost var n, u := f.manager.node, f.manager.View();
    tail, cidr := [], None;
    assert before + [] == before;
    if |text| > 1 && text[0] == PKT_PEER_EXCHANGE {
      var entries := parsePex(text);
      if entries.Some? {
        ghost var picks := f.manager.AddFromPex(entries.value, ip, now);
        tail := [Pex(entries.value, ip, now, picks)];
        RunExtended(n, t, before, tail[0]);
      }
      return;
    }
    if |text| > 1 && text[0] == PKT_HANDSHAKE {
      return;
    }
    ghost var via;
    cidr, via := RouteText(f, text, now);
    if via.Some? {
      tail := [SendOp(u, via.value)];
      RunExtended(n, t, before, tail[0]);
    }
  }

  /** The sender of a data packet and the text that the sender's session opens it to. */
  function Reception(aead: Aead, t: Table, src: SocketAddr, packet: DataPacket): Option<(Ip4, seq<byte>)> {
    match t.FindIpByEndpointOrId(src, packet.peerId)
    case None => None
    case Some(ip) =>
      match Opened(aead, t, ip, packet.counter, packet.ciphertext)
      case None => None
      case Some(text) => Some((ip, text))
  }

  /** The operations by which a data packet's sender is heard and may roam. */
  ghost predicate AreHearing(t: Table, src: SocketAddr, counter: u64, ip: Ip4, now: nat, ops: seq<Op>) {
    && ip in t.peers && t.peers[ip].session.Some?
    && ops == [Heard(t, ip, counter, now)] + Roams(t, ip, src)
  }

  /** Finds the sender of the packet in recvBuf[..len] and opens it. */
  method Hear(f: Forwarder, recvBuf: array<byte>, len: nat, src: SocketAddr, now: nat)
    returns (heard: Option<(Ip4, seq<byte>)>, ghost ops: seq<Op>)
    requires f.Valid() && recvBuf != f.sendBuf && DATA_HEADER < len <= recvBuf.Length <= MAX_PACKET
    requires recvBuf[0] == PKT_DATA
    modifies recvBuf, f.manager`peersByIp, f.manager`endpointToIp
    ensures f.Valid() && Follows(f, old(f.manager.View()), ops)
    ensures var t, packet := old(f.manager.View()), ParseDataPacket(old(recvBuf[..len])).value;
            && heard == Reception(f.aead, t, src, packet)
            && if heard.None? then ops == []
               else && AreHearing(t, src, packet.counter, heard.value.0, now, ops)
                    && |heard.value.1| <= MAX_PACKET
                    && heard.value.0 in f.manager.peersByIp
                    && f.manager.peersByIp[heard.value.0].IsConnected(now)
  {
    ghost var n, t := f.manager.node, f.manager.View();
    ops := [];
    var packet := ParseDataPacket(recvBuf[..len]).value;
    assert packet.ciphertext == recvBuf[DATA_HEADER..len];
    var found := f.manager.FindIpByEndpointOrId(src, packet.peerId);
    if found.None? || found.value !in f.manager.peersByIp {
      return None, [];
    }
    var ip := found.value;
    var needsUpdate := f.manager.peersByIp[ip].endpoint != Some(src);
    var textLen := Open(f, recvBuf, len, packet.counter, ip, now);
    if textLen.None? {
      return None, [];
    }
    ops := Extend(n, t, ops, Heard(t, ip, packet.counter, now));
    if needsUpdate {
      var _ := f.manager.UpdateEndpointIfRoaming(ip, src);
      ops := Extend(n, t, ops, Roam(ip, src));
    }
    return Some((ip, recvBuf[DATA_HEADER..DATA_HEADER + textLen.value])), ops;
  }

  /** A data packet: nothing happens unless the session of its sender opens it; then the
      sender is heard, may roam, and its text is taken up. The whole is a run of table
      operations, so a peer exchange only ever comes from a peer that is connected. */
  method OnData(f: Forwarder, recvBuf: array<byte>, len: nat, src: SocketAddr, now: nat,
                parsePex: seq<byte> -> Option<seq<PexEntry>>)
    returns (ghost ops: seq<Op>, ghost tail: seq<Op>, ghost cidr: Option<Ip4>)
    requires f.Valid() && recvBuf != f.sendBuf && DATA_HEADER < len <= recvBuf.Length <= MAX_PACKET
    requires recvBuf[0] == PKT_DATA
    modifies recvBuf, f.sendBuf, f`wire, f`tun, f.manager`peersByIp, f.manager`idToIp, f.manager`endpointToIp
    ensures IsRun(f.manager.node, old(f.manager.View()), ops) && Follows(f, old(f.manager.View()), ops + tail)
    ensures var t, packet := old(f.manager.View()), ParseDataPacket(old(recvBuf[..len])).value;
            match Reception(f.aead, t, src, packet)
            case None => ops == tail == [] && f.wire == old(f.wire) && f.tun == old(f.tun)
            case Some((ip, text)) =>
              && AreHearing(t, src, packet.counter, ip, now, ops)
              && Handled(f, Run(f.manager.node, t, ops), text, ip, now, parsePex, cidr, tail)
  {
    ghost var t := f.manager.View();
    tail, cidr := [], None;
    var heard;
    heard, ops := Hear(f, recvBuf, len, src, now);
    if heard.Some? {
      var (ip, text) := heard.value;
      tail, cidr := OnText(f, text, ip, now, parsePex, t, ops);
    }
  }

  // ---------- keepalives ----------

  /** The write that records a keepalive. */
  function Alive(t: Table, ip: Ip4, now: nat): Op
    requires ip in t.peers
  {
    Touch(ip, t.peers[ip].session, Some(now), t.peers[ip].hostname, None)
  }

  /** What a keepalive from this sender leads to. */
  function KeepaliveOps(t: Table, src: SocketAddr, id: PeerId, now: nat): seq<Op> {
    match t.FindIpByEndpointOrId(src, id)
    case None => []
    case Some(ip) =>
      (if src in t.endpoints then [] else [Roam(ip, src)])
      + if ip in t.peers then [Alive(t, ip, now)] else []
  }

  /** A keepalive: a sender known by its id alone may roam, and is heard. */
  method OnKeepalive(f: Forwarder, data: seq<byte>, src: SocketAddr, now: nat) returns (ghost ops: seq<Op>)
    modifies f.manager`peersByIp, f.manager`endpointToIp
    ensures Follows(f, old(f.manager.View()), ops)
    ensures match ParseKeepalive(data)
            case None => ops == []
            case Some(id) => ops == KeepaliveOps(old(f.manager.View()), src, id, now)
  {
    ghost var n, t := f.manager.node, f.manager.View();
    ops := [];
    var parsed := ParseKeepalive(data);
    if parsed.None? {
      return;
    }
    var found := f.manager.FindIpByEndpointOrId(src, parsed.value);
    if found.None? {
      return;
    }
    var ip := found.value;
    if src !in f.manager.endpointToIp {
      var _ := f.manager.UpdateEndpointIfRoaming(ip, src);
      ops := Extend(n, t, ops, Roam(ip, src));
    }
    if ip in f.manager.peersByIp {
      var peer := f.manager.peersByIp[ip];
      f.manager.Put(ip, peer.(lastSeen := Some(now)));
      ops := Extend(n, t, ops, Alive(t, ip, now));
    }
  }

  lemma RoamKeepsPeer(t: Table, ip: Ip4, src: SocketAddr)
    requires ip in t.peers
    ensures var u := t.UpdateEndpointIfRoaming(ip, src);
            ip in u.peers && u.peers[ip].(endpoint := t.peers[ip].endpoint) == t.peers[ip]
  {
  }

  lemma AliveConnectsIff(n: Node, t: Table, u: Table, ip: Ip4, now: nat, later: nat)
    requires ip in t.peers && ip in u.peers
    ensures var u' := Step(n, u, Alive(t, ip, now));
            ip in u'.peers && (u'.peers[ip].IsConnected(later) <==>
                               t.peers[ip].session.Some? && later < now + 120)
  {
  }

  /** A keepalive connects its sender exactly if there is a session for it already: it never
      establishes one. */
  lemma KeepaliveConnectsIff(n: Node, t: Table, src: SocketAddr, id: PeerId, now: nat, later: nat)
    requires t.FindIpByEndpointOrId(src, id).Some? && t.FindIpByEndpointOrId(src, id).value in t.peers
    ensures var ip, ops := t.FindIpByEndpointOrId(src, id).value, KeepaliveOps(t, src, id, now);
            && IsRun(n, t, ops) && ip in Run(n, t, ops).peers
            && (Run(n, t, ops).peers[ip].IsConnected(later) <==>
                t.peers[ip].session.Some? && later < now + 120)
  {
    var ip := t.FindIpByEndpointOrId(src, id).value;
    var ops := RoamIsRun(n, t, src, ip);
    AliveConnectsIff(n, t, Run(n, t, ops), ip, now, later);
    ops := Extend(n, t, ops, Alive(t, ip, now));
    assert ops == KeepaliveOps(t, src, id, now);
  }

  lemma RoamIsRun(n: Node, t: Table, src: SocketAddr, ip: Ip4) returns (ops: seq<Op>)
    requires ip in t.peers
    ensures ops == if src in t.endpoints then [] else [Roam(ip, src)]
    ensures IsRun(n, t, ops) && ip in Run(n, t, ops).peers
  {
    ops := [];
    if src !in t.endpoints {
      RoamKeepsPeer(t, ip, src);
      ops := Extend(n, t, ops, Roam(ip, src));
    }
  }
}
