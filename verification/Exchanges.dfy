/** Whole exchanges of handshakes: they die out, can always be completed, and who considers
    whom connected when they have, exactly. */
module Exchanges {
  import opened Common
  import opened Crypto
  import opened PeerTable
  import opened Daemon
  import opened Handshakes
  import opened Replay
  import Bytes
  import Transport

  ghost predicate IsExchange(net: Network, ds: seq<Delivery>)
    requires net.Valid()
    decreases |ds|
  {
    ds == [] || (CanDeliver(net, ds[0])
                 && (DeliverKeeps(net, ds[0]); IsExchange(Deliver(net, ds[0]), ds[1..])))
  }

  ghost function Final(net: Network, ds: seq<Delivery>): (final: Network)
    requires net.Valid() && IsExchange(net, ds)
    ensures final.Valid() && final.stations == net.stations
    decreases |ds|
  {
    if ds == [] then net
    else
      DeliverKeeps(net, ds[0]);
      Final(Deliver(net, ds[0]), ds[1..])
  }

  /** All handshakes have arrived. */
  ghost predicate IsComplete(net: Network, ds: seq<Delivery>)
    requires net.Valid()
  {
    IsExchange(net, ds) && Final(net, ds).flight == multiset{}
  }

  /** An exchange uses up its measure by exactly one for each delivery, so it is never longer
      than that: handshakes do not bounce for ever. */
  lemma {:induction false} ExchangeTerminates(net: Network, ds: seq<Delivery>)
    requires net.Valid() && IsExchange(net, ds)
    ensures |ds| + Final(net, ds).Measure() == net.Measure()
    decreases |ds|
  {
    if ds != [] {
      DeliverDecreases(net, ds[0]);
      ExchangeTerminates(Deliver(net, ds[0]), ds[1..]);
    }
  }

  /** Whatever is in flight can be delivered, so every exchange can be completed. */
  lemma {:induction false} Completes(net: Network) returns (ds: seq<Delivery>)
    requires net.Valid()
    ensures IsComplete(net, ds)
    decreases net.Measure()
  {
    if net.flight == multiset{} {
      ds := [];
    } else {
      var e :| e in net.flight;
      var pick := SomeHolder(net.tables[e.dst], net.stations[e.src].me.publicKey);
      var d := Delivery(e, net.start, pick);
      DeliverDecreases(net, d);
      var rest := Completes(Deliver(net, d));
      ds := [d] + rest;
      assert ds[1..] == rest;
    }
  }

  lemma SomeHolder(t: Table, key: Key) returns (pick: Option<Ip4>)
    ensures t.IsHolder(key, pick)
  {
    pick := None;
    if exists ip :: ip in t.peers && t.peers[ip].publicKey == key {
      var ip :| ip in t.peers && t.peers[ip].publicKey == key;
      pick := Some(ip);
    }
  }

  // ---------- who is connected in the end ----------

  /** Station b will consider a connected: it does, or a handshake from a is under way, or
      one of its own is that a is going to answer. */
  ghost predicate WillKnow(net: Network, b: nat, a: nat)
    requires net.Valid() && a < |net.stations| && b < |net.stations|
  {
    net.Connected(b, a) || Envelope(a, b) in net.flight || (Envelope(b, a) in net.flight && !net.Connected(a, b))
  }

  /** No delivery changes that. */
  lemma DeliverKeepsFate(net: Network, d: Delivery, a: nat, b: nat)
    requires net.Valid() && CanDeliver(net, d) && a < |net.stations| && b < |net.stations| && a != b
    ensures Deliver(net, d).Valid() && Deliver(net, d).stations == net.stations
    ensures WillKnow(Deliver(net, d), b, a) <==> WillKnow(net, b, a)
  {
    DeliverKeeps(net, d);
    AnswerToStation(net, d);
  }

  /** Once all handshakes have arrived, exactly those who were to know each other do. */
  lemma {:induction false} FinalConnectedIff(net: Network, ds: seq<Delivery>, a: nat, b: nat)
    requires net.Valid() && IsComplete(net, ds) && a < |net.stations| && b < |net.stations| && a != b
    ensures Final(net, ds).Connected(b, a) <==> WillKnow(net, b, a)
    decreases |ds|
  {
    if ds != [] {
      DeliverKeepsFate(net, ds[0], a, b);
      FinalConnectedIff(Deliver(net, ds[0]), ds[1..], a, b);
    }
  }

  /** Connection is then mutual between two stations if and only if the pair was reciprocal
      to begin with. */
  lemma ExchangeIsMutual(net: Network, ds: seq<Delivery>, a: nat, b: nat)
    requires net.Valid() && IsComplete(net, ds) && a < |net.stations| && b < |net.stations| && a != b
    ensures (Final(net, ds).Connected(a, b) <==> Final(net, ds).Connected(b, a)) <==>
            net.Reciprocates(a, b) && net.Reciprocates(b, a)
  {
    FinalConnectedIff(net, ds, a, b);
    FinalConnectedIff(net, ds, b, a);
  }

  /** A handshake under way connects its receiver with its sender, and both ends if and only
      if the receiver does not hold a stale connection: one that its sender neither shares
      nor is about to. */
  lemma EnvelopeConnectsBothEnds(net: Network, ds: seq<Delivery>, e: Envelope)
    requires net.Valid() && IsComplete(net, ds) && e in net.flight
    ensures Final(net, ds).Connected(e.dst, e.src)
    ensures Final(net, ds).Connected(e.src, e.dst) <==> net.Reciprocates(e.src, e.dst)
  {
    FinalConnectedIff(net, ds, e.src, e.dst);
    FinalConnectedIff(net, ds, e.dst, e.src);
  }

  // ---------- what connected stations can read ----------

  lemma {:induction false} ExchangeKeepsKeyed(net: Network, ds: seq<Delivery>)
    requires net.Valid() && net.Keyed() && IsExchange(net, ds)
    ensures Final(net, ds).Keyed()
    decreases |ds|
  {
    if ds != [] {
      DeliverKeepsKeyed(net, ds[0]);
      ExchangeKeepsKeyed(Deliver(net, ds[0]), ds[1..]);
    }
  }

  /** The session that station b holds for a. */
  function SessionFor(net: Network, b: nat, a: nat): Session
    requires |net.stations| == |net.tables| && a < |net.stations| && b < |net.stations| && net.Connected(b, a)
  {
    net.tables[b].peers[net.stations[a].ip].session.value
  }

  /** Between stations that know each other the sessions of both ends fit: one secret, and
      opposite sides. */
  lemma SessionsFit(net: Network, a: nat, b: nat)
    requires net.Valid() && net.Keyed() && net.Symmetric() && a < |net.stations| && b < |net.stations| && a != b
    requires net.Connected(a, b) && net.Connected(b, a)
    ensures SessionFor(net, a, b).secret == SessionFor(net, b, a).secret
    ensures SessionFor(net, a, b).low == !SessionFor(net, b, a).low
  {
    var x, y := net.stations[a].me.publicKey, net.stations[b].me.publicKey;
    assert net.KnowsStations(net.tables[a]) && net.KnowsStations(net.tables[b]);
    assert IsKeyed(net.stations[a].me, net.tables[a]) && IsKeyed(net.stations[b].me, net.tables[b]);
    assert x != y;
    Bytes.LessIsStrictTotal(x, y);
  }

  /** So do those of stations that know each other after an exchange. */
  lemma ExchangedSessionsFit(net: Network, ds: seq<Delivery>, a: nat, b: nat)
    requires net.Valid() && net.Keyed() && net.Symmetric() && IsExchange(net, ds)
    requires a < |net.stations| && b < |net.stations| && a != b
    requires Final(net, ds).Connected(a, b) && Final(net, ds).Connected(b, a)
    ensures SessionFor(Final(net, ds), a, b).secret == SessionFor(Final(net, ds), b, a).secret
    ensures SessionFor(Final(net, ds), a, b).low == !SessionFor(Final(net, ds), b, a).low
  {
    ExchangeKeepsKeyed(net, ds);
    SessionsFit(Final(net, ds), a, b);
  }

  /** After an exchange, what one of two stations that know each other seals the other reads
      from the datagram, exactly when its window admits it. */
  lemma ExchangedEndsRead(net: Network, ds: seq<Delivery>, a: nat, b: nat, aead: Aead, myId: PeerId, text: seq<byte>)
    requires net.Valid() && net.Keyed() && net.Symmetric() && IsExchange(net, ds) && aead.Lawful()
    requires a < |net.stations| && b < |net.stations| && a != b
    requires Final(net, ds).Connected(a, b) && Final(net, ds).Connected(b, a)
    ensures var sender, receiver := SessionFor(Final(net, ds), a, b), SessionFor(Final(net, ds), b, a);
            var parsed := Transport.ParseDataPacket(Frame(aead, myId, sender, text));
            && parsed.Some?
            && receiver.DecryptedInto(aead, parsed.value.counter, parsed.value.ciphertext) ==
               if receiver.Admits(sender.send) then Success(text) else Failure(StaleNonce)
  {
    var final := Final(net, ds);
    ExchangedSessionsFit(net, ds, a, b);
    FrameIsReadBack(aead, myId, SessionFor(final, a, b), SessionFor(final, b, a), text);
  }

  /** And where the one's session starts from zero, as every handshake that arrives makes it,
      the other reads all of its texts but those that come before the window of what it had
      received in its own session. */
  lemma RestartedEndIsRead(net: Network, ds: seq<Delivery>, a: nat, b: nat, aead: Aead, texts: seq<seq<byte>>, i: nat)
    requires net.Valid() && net.Keyed() && net.Symmetric() && IsExchange(net, ds) && aead.Lawful()
    requires a < |net.stations| && b < |net.stations| && a != b
    requires Final(net, ds).Connected(a, b) && Final(net, ds).Connected(b, a)
    requires SessionFor(Final(net, ds), a, b).send == 0 && i < |texts| <= TWO_64
    ensures var sender, receiver := SessionFor(Final(net, ds), a, b), SessionFor(Final(net, ds), b, a);
            var packets := Sealings(aead, sender, texts);
            DecryptAll(aead, receiver, packets[..i]).Decrypted(aead, packets[i].0, packets[i].1) ==
            if receiver.recv <= RESTART_LIMIT && i + REORDER_WINDOW < receiver.recv
            then Failure(StaleNonce) else Success(texts[i])
  {
    var final := Final(net, ds);
    ExchangedSessionsFit(net, ds, a, b);
    RestartTexts(aead, SessionFor(final, a, b), SessionFor(final, b, a), texts, i);
  }

  /** A handshake that arrives leaves its receiver with such a session for its sender. */
  lemma ArrivalStartsFromZero(net: Network, d: Delivery)
    requires net.Valid() && CanDeliver(net, d)
    ensures Deliver(net, d).Valid() && Deliver(net, d).stations == net.stations
    ensures Deliver(net, d).Connected(d.envelope.dst, d.envelope.src)
    ensures var s := SessionFor(Deliver(net, d), d.envelope.dst, d.envelope.src);
            s.send == 0 && s.recv == 0
  {
    DeliverKeeps(net, d);
    DeliverKeepsKeyed(net, d);
  }
}
