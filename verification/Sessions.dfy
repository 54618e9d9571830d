/** The sessions in the peer table over runs of the daemon: what the receive window and the
    nonces promise of a session holds of the session that the table keeps for a peer. */
module Sessions {
  import opened Common
  import opened Crypto
  import opened Transport
  import opened PeerTable
  import opened PeerIndexes
  import opened PeerRuns
  import opened PeerHistory
  import opened Arrivals
  import opened Replay
  import Bytes

  // ---------- one packet ----------

  /** A packet is taken from the peer that the lookup finds if and only if that has a session
      which decrypts it. */
  lemma ReceptionIff(aead: Aead, t: Table, src: SocketAddr, packet: DataPacket, ip: Ip4, text: seq<byte>)
    ensures Reception(aead, t, src, packet) == Some((ip, text)) <==>
            && t.FindIpByEndpointOrId(src, packet.peerId) == Some(ip)
            && ip in t.peers && t.peers[ip].session.Some?
            && t.peers[ip].session.value.Decrypted(aead, packet.counter, packet.ciphertext) == Success(text)
  {
    if ip in t.peers && t.peers[ip].session.Some? {
      DecryptFormsAgree(aead, t.peers[ip].session.value, packet.counter, packet.ciphertext);
    }
  }

  /** What a packet that was opened leaves in the table: its counter received, its sender seen
      now, and, unless the sender is pinned, its source as the sender's endpoint; nothing else
      of the sender changes, and nothing of the others. */
  lemma HearingLeaves(n: Node, t: Table, src: SocketAddr, counter: u64, ip: Ip4, now: nat, ops: seq<Op>)
    requires AreHearing(t, src, counter, ip, now, ops) && t.peers[ip].session.value.Admits(counter)
    ensures IsRun(n, t, ops)
    ensures var p, t' := t.peers[ip], Run(n, t, ops);
            && t'.ids == t.ids && t'.purged == t.purged
            && t'.peers == t.peers[ip := p.(
                 session := Some(Receive(p.session.value, Packet(counter, true))),
                 lastSeen := Some(now),
                 endpoint := if p.configuredEndpoint.Some? then p.endpoint else Some(src))]
            && (p.configuredEndpoint.Some? || p.endpoint == Some(src) ==> t'.endpoints == t.endpoints)
            && (p.configuredEndpoint.None? && p.endpoint != Some(src) ==>
                && src in t'.endpoints && t'.endpoints[src] == ip
                && forall ep :: ep != src ==>
                     && (ep in t'.endpoints <==> ep in t.endpoints && p.endpoint != Some(ep))
                     && (ep in t'.endpoints ==> t'.endpoints[ep] == t.endpoints[ep]))
  {
    var heard := Heard(t, ip, counter, now);
    var first := Extend(n, t, [], heard);
    if t.peers[ip].endpoint != Some(src) {
      var both := Extend(n, t, first, Roam(ip, src));
      assert ops == both;
    } else {
      assert ops == first;
    }
  }

  /** What a keepalive leaves: its sender seen now; where the source was in no index entry and
      the sender, found by id, is not pinned, the source as its endpoint; and nothing else,
      least of all a session. */
  lemma KeepaliveLeaves(n: Node, t: Table, src: SocketAddr, id: PeerId, now: nat)
    ensures var ops := KeepaliveOps(t, src, id, now);
            IsRun(n, t, ops)
    ensures var t' := Run(n, t, KeepaliveOps(t, src, id, now));
            match (if src in t.endpoints then Some(t.endpoints[src]) else if id in t.ids then Some(t.ids[id]) else None)
            case None => t' == t
            case Some(ip) =>
              if ip !in t.peers then t' == t
              else
                var p := t.peers[ip];
                var roams := src !in t.endpoints && p.configuredEndpoint.None?;
                && t'.ids == t.ids && t'.purged == t.purged
                && t'.peers == t.peers[ip := p.(
                     lastSeen := Some(now), endpoint := if roams then Some(src) else p.endpoint)]
                && (!roams ==> t'.endpoints == t.endpoints)
                && (roams ==> src in t'.endpoints && t'.endpoints[src] == ip)
  {
    var found := t.FindIpByEndpointOrId(src, id);
    var ops := [];
    if found.Some? {
      if src !in t.endpoints {
        ops := Extend(n, t, ops, Roam(found.value, src));
      }
      if found.value in t.peers {
        ops := Extend(n, t, ops, Alive(t, found.value, now));
      }
    }
    assert ops == KeepaliveOps(t, src, id, now);
  }

  // ---------- runs ----------

  /** What can happen to the table while a peer stays in it: a data packet arrives, a packet is
      sent to a peer, a handshake or a keepalive arrives, or an operation on endpoints or a
      peer exchange comes. */
  datatype Event =
    | Data(src: SocketAddr, packet: DataPacket, now: nat)
    | Send(via: Ip4)
    | Shake(a: Announcement, now: nat, pick: Option<Ip4>)
    | Keep(src: SocketAddr, id: PeerId, now: nat)
    | Other(op: Op)

  ghost predicate Happens(n: Node, aead: Aead, t: Table, e: Event, t': Table) {
    match e
    case Data(src, packet, now) =>
      (match Reception(aead, t, src, packet)
       case None => t' == t
       case Some((ip, _)) =>
         exists ops :: AreHearing(t, src, packet.counter, ip, now, ops) && IsRun(n, t, ops) && t' == Run(n, t, ops))
    case Send(via) => via in t.peers && t.peers[via].session.Some? && t' == Step(n, t, SendOp(t, via))
    case Shake(a, now, pick) => t.IsHolder(a.key, pick) && t' == Answer(n, t, a, now, pick).0
    case Keep(src, id, now) =>
      var ops := KeepaliveOps(t, src, id, now);
      IsRun(n, t, ops) && t' == Run(n, t, ops)
    case Other(op) =>
      (op.Pex? || op.Roam? || op.SetEndpoint? || op.Clear?) && Possible(n, t, op) && t' == Step(n, t, op)
  }

  /** What the event is for the session with the peer at an IP. */
  function CallsFor(aead: Aead, t: Table, e: Event, ip: Ip4, s: Session): seq<Call> {
    match e
    case Data(src, packet, _) =>
      if t.FindIpByEndpointOrId(src, packet.peerId) == Some(ip) then
        [Arrive(Packet(packet.counter,
                       aead.OpenAttached(s.secret, MakeNonce(packet.counter, !s.low), packet.ciphertext).Some?))]
      else []
    case Send(via) => if via == ip then [EncryptInto] else []
    case Shake(a, _, _) => if a.ip == ip then [Reestablish] else []
    case _ => []
  }

  /** The table has a peer with this key at the IP, and this session for it, whose secret and
      side are those of the keys. */
  ghost predicate Holds(n: Node, t: Table, ip: Ip4, key: Key, s: Session) {
    && ip in t.peers && t.peers[ip].publicKey == key && t.peers[ip].session == Some(s)
    && s.secret == n.me.sharedWith(key) && s.low == Bytes.Less(n.me.publicKey, key)
  }

  /** The handshakes that come agree with the table about the peer's IP and key. */
  predicate Agrees(e: Event, ip: Ip4, key: Key) {
    e.Shake? ==> (e.a.ip == ip <==> e.a.key == key)
  }

  lemma DataMovesSession(n: Node, aead: Aead, t: Table, e: Event, t': Table, ip: Ip4, key: Key, s: Session)
    requires e.Data? && Happens(n, aead, t, e, t') && Holds(n, t, ip, key, s)
    ensures Holds(n, t', ip, key, AfterAll(s, CallsFor(aead, t, e, ip, s)))
  {
    var calls := CallsFor(aead, t, e, ip, s);
    assert calls != [] ==> calls[..0] == [];
    DecryptIsReceive(aead, s, e.packet.counter, e.packet.ciphertext);
    DecryptFormsAgree(aead, s, e.packet.counter, e.packet.ciphertext);
    match Reception(aead, t, e.src, e.packet)
    case None =>
    case Some((from, text)) =>
      ReceptionIff(aead, t, e.src, e.packet, from, text);
      var ops :| AreHearing(t, e.src, e.packet.counter, from, e.now, ops) && IsRun(n, t, ops) && t' == Run(n, t, ops);
      HearingLeaves(n, t, e.src, e.packet.counter, from, e.now, ops);
  }

  lemma SendMovesSession(n: Node, aead: Aead, t: Table, e: Event, t': Table, ip: Ip4, key: Key, s: Session)
    requires e.Send? && Happens(n, aead, t, e, t') && Holds(n, t, ip, key, s)
    ensures Holds(n, t', ip, key, AfterAll(s, CallsFor(aead, t, e, ip, s)))
  {
    var calls := CallsFor(aead, t, e, ip, s);
    assert calls != [] ==> calls[..0] == [];
  }

  lemma ShakeMovesSession(n: Node, aead: Aead, t: Table, e: Event, t': Table, ip: Ip4, key: Key, s: Session)
    requires e.Shake? && Happens(n, aead, t, e, t') && Holds(n, t, ip, key, s) && Agrees(e, ip, key)
    ensures Holds(n, t', ip, key, AfterAll(s, CallsFor(aead, t, e, ip, s)))
  {
    var calls := CallsFor(aead, t, e, ip, s);
    assert calls != [] ==> calls[..0] == [];
    if e.a.ip == ip {
      AnswerConnects(n, t, e.a, e.now, e.pick, e.now);
      AnswerFiles(n, t, e.a, e.now, e.pick);
    } else {
      AnswerLeavesOthers(n, t, e.a, e.now, e.pick, ip);
    }
  }

  lemma KeepMovesSession(n: Node, aead: Aead, t: Table, e: Event, t': Table, ip: Ip4, key: Key, s: Session)
    requires e.Keep? && Happens(n, aead, t, e, t') && Holds(n, t, ip, key, s)
    ensures Holds(n, t', ip, key, s)
  {
    KeepaliveLeaves(n, t, e.src, e.id, e.now);
  }

  lemma OtherMovesSession(n: Node, aead: Aead, t: Table, e: Event, t': Table, ip: Ip4, key: Key, s: Session)
    requires e.Other? && Happens(n, aead, t, e, t') && Holds(n, t, ip, key, s)
    ensures Holds(n, t', ip, key, s)
  {
    if e.op.Pex? {
      PexLeavesDirectPeers(t, e.op.entries, e.op.sender, n, e.op.now, e.op.picks);
    }
  }

  /** Whatever happens, the session that the table keeps for a peer is what the calls make of
      it. */
  lemma EventMovesSession(n: Node, aead: Aead, t: Table, e: Event, t': Table, ip: Ip4, key: Key, s: Session)
    requires Happens(n, aead, t, e, t') && Holds(n, t, ip, key, s) && Agrees(e, ip, key)
    ensures Holds(n, t', ip, key, AfterAll(s, CallsFor(aead, t, e, ip, s)))
  {
    match e
    case Data(_, _, _) => DataMovesSession(n, aead, t, e, t', ip, key, s);
    case Send(_) => SendMovesSession(n, aead, t, e, t', ip, key, s);
    case Shake(_, _, _) => ShakeMovesSession(n, aead, t, e, t', ip, key, s);
    case Keep(_, _, _) => KeepMovesSession(n, aead, t, e, t', ip, key, s);
    case Other(_) => OtherMovesSession(n, aead, t, e, t', ip, key, s);
  }

  /** What the text of a data packet leads to is one event more, at most. */
  lemma TextOpHappens(n: Node, aead: Aead, t: Table, text: seq<byte>, via: Option<Ip4>, ip: Ip4, now: nat,
                      parsePex: seq<byte> -> Option<seq<PexEntry>>, tail: seq<Op>)
    requires IsTextOp(t, text, via, ip, now, parsePex, tail) && IsRun(n, t, tail)
    ensures tail == [] || exists e: Event :: (e.Send? || e.Other?) && Happens(n, aead, t, e, Run(n, t, tail))
  {
    if tail != [] {
      assert tail[..0] == [] && |tail| == 1;
      var e := if tail[0].Pex? then Other(tail[0]) else Send(via.value);
      assert Happens(n, aead, t, e, Run(n, t, tail));
    }
  }

  /** A peer exchange that is understood is carried out in its sender's name; a text that is
      no peer exchange is none. */
  lemma ExchangeIsTaken(t: Table, text: seq<byte>, via: Option<Ip4>, ip: Ip4, now: nat,
                        parsePex: seq<byte> -> Option<seq<PexEntry>>, tail: seq<Op>)
    requires IsTextOp(t, text, via, ip, now, parsePex, tail)
    ensures |text| > 1 && text[0] == 0x06 && parsePex(text).Some? ==>
              exists picks :: tail == [Pex(parsePex(text).value, ip, now, picks)]
    ensures !(|text| > 1 && text[0] == 0x06 && parsePex(text).Some?) ==> forall op :: op in tail ==> !op.Pex?
  {
  }

  /** The tables between which the events happen. */
  ghost predicate IsHistory(n: Node, aead: Aead, ts: seq<Table>, es: seq<Event>) {
    && |ts| == |es| + 1
    && forall i :: 0 <= i < |es| ==> Happens(n, aead, ts[i], es[i], ts[i + 1])
  }

  /** All that the events are for the session with a peer. Its secret and side stay. */
  ghost function CallsOf(aead: Aead, ts: seq<Table>, es: seq<Event>, ip: Ip4, s: Session): seq<Call>
    requires |ts| == |es| + 1
  {
    if es == [] then []
    else
      var last := |es| - 1;
      CallsOf(aead, ts[..last + 1], es[..last], ip, s) + CallsFor(aead, ts[last], es[last], ip, s)
  }

  lemma {:induction false} AfterBoth(s: Session, xs: seq<Call>, ys: seq<Call>)
    ensures AfterAll(s, xs + ys) == AfterAll(AfterAll(s, xs), ys)
  {
    if ys == [] {
      assert xs + ys == xs;
    } else {
      AfterBoth(s, xs, ys[..|ys| - 1]);
      assert (xs + ys)[..|xs + ys| - 1] == xs + ys[..|ys| - 1];
    }
  }

  /** Over any history in which the peer stays where it is, the session in the table is the
      one that the run of calls leaves. So the receive counter in the table is the high-water
      mark, and its nonces are those of the run. */
  lemma {:induction false} HistoryMovesSession(
    n: Node, aead: Aead, ts: seq<Table>, es: seq<Event>, ip: Ip4, key: Key, s: Session)
    requires IsHistory(n, aead, ts, es) && Holds(n, ts[0], ip, key, s)
    requires forall i :: 0 <= i < |es| ==> Agrees(es[i], ip, key)
    ensures Holds(n, ts[|es|], ip, key, AfterAll(s, CallsOf(aead, ts, es, ip, s)))
    decreases |es|
  {
    if es != [] {
      var last := |es| - 1;
      HistoryMovesSession(n, aead, ts[..last + 1], es[..last], ip, key, s);
      var before := AfterAll(s, CallsOf(aead, ts[..last + 1], es[..last], ip, s));
      EventMovesSession(n, aead, ts[last], es[last], ts[last + 1], ip, key, before);
      SameCalls(aead, ts[last], es[last], ip, s, before);
      AfterBoth(s, CallsOf(aead, ts[..last + 1], es[..last], ip, s), CallsFor(aead, ts[last], es[last], ip, s));
    }
  }

  lemma SameCalls(aead: Aead, t: Table, e: Event, ip: Ip4, s: Session, s': Session)
    requires s.secret == s'.secret && s.low == s'.low
    ensures CallsFor(aead, t, e, ip, s) == CallsFor(aead, t, e, ip, s')
  {
  }

  /** Hence a packet is not opened by the daemon whose counter lies more than 32 below the
      high-water mark that the history leaves and does not look like a restart. */
  lemma StalePacketIsDropped(n: Node, aead: Aead, ts: seq<Table>, es: seq<Event>, ip: Ip4, key: Key, s: Session,
                             src: SocketAddr, packet: DataPacket)
    requires IsHistory(n, aead, ts, es) && Holds(n, ts[0], ip, key, s)
    requires forall i :: 0 <= i < |es| ==> Agrees(es[i], ip, key)
    requires ts[|es|].FindIpByEndpointOrId(src, packet.peerId) == Some(ip)
    requires var recv := AfterAll(s, CallsOf(aead, ts, es, ip, s)).recv;
             packet.counter + 32 < recv && !(packet.counter < 100 && recv > 100)
    ensures Reception(aead, ts[|es|], src, packet) == None
  {
    HistoryMovesSession(n, aead, ts, es, ip, key, s);
    AdmitsIff(AfterAll(s, CallsOf(aead, ts, es, ip, s)), packet.counter);
  }
}
