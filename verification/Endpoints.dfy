/** What a peer exchange brings into the table, entry by entry, and which addresses it may
    bring in: the test octet by octet is membership in none of seven networks. */
module Endpoints {
  import opened Common
  import opened Crypto
  import opened PeerTable
  import opened PeerIndexes
  import opened PeerRuns
  import opened Routes
  import Bytes

  // ---------- the bits of a byte ----------

  function Bit(b: bool): nat {
    if b then 1 else 0
  }

  /** A number below 16 from its bits, and the bits of a byte's halves as digits. */
  lemma BitsOfNibble(h: nat)
    requires h < 16
    ensures h == 8 * (h / 8 % 2) + 4 * (h / 4 % 2) + 2 * (h / 2 % 2) + h % 2
  {
  }

  lemma UpperDigits(x: byte)
    ensures x / 128 == x / 16 / 8
    ensures x / 64 == x / 16 / 4
    ensures x / 32 == x / 16 / 2
  {
  }

  lemma Parity(k: nat, m: nat)
    ensures (2 * k + m) % 2 == m % 2
  {
  }

  lemma Eighth(q: nat, low: nat)
    ensures (16 * q + low) / 8 == 2 * q + low / 8
  {
  }

  lemma Fourth(q: nat, low: nat)
    ensures (16 * q + low) / 4 == 2 * (2 * q) + low / 4
  {
  }

  lemma Half(q: nat, low: nat)
    ensures (16 * q + low) / 2 == 2 * (4 * q) + low / 2
  {
  }

  lemma LowerDigits(q: nat, low: nat)
    ensures (16 * q + low) / 8 % 2 == low / 8 % 2
    ensures (16 * q + low) / 4 % 2 == low / 4 % 2
    ensures (16 * q + low) / 2 % 2 == low / 2 % 2
    ensures (16 * q + low) % 2 == low % 2
  {
    Eighth(q, low);
    Fourth(q, low);
    Half(q, low);
    Parity(q, low / 8);
    Parity(2 * q, low / 4);
    Parity(4 * q, low / 2);
    Parity(8 * q, low);
  }

  lemma UpperHalf(x: byte)
    ensures x / 16 == 8 * Bit(ByteBits(x)[0]) + 4 * Bit(ByteBits(x)[1]) + 2 * Bit(ByteBits(x)[2]) + Bit(ByteBits(x)[3])
  {
    UpperDigits(x);
    BitsOfNibble(x / 16);
  }

  lemma LowerHalf(x: byte)
    ensures x % 16 == 8 * Bit(ByteBits(x)[4]) + 4 * Bit(ByteBits(x)[5]) + 2 * Bit(ByteBits(x)[6]) + Bit(ByteBits(x)[7])
  {
    LowerDigits(x / 16, x % 16);
    BitsOfNibble(x % 16);
  }

  // ---------- agreement of leading bits ----------

  /** The first n bits of two words agree. */
  predicate Agree(u: Bits, v: Bits, n: int)
    requires |u| == |v|
  {
    forall i :: 0 <= i < |u| && i < n ==> u[i] == v[i]
  }

  lemma AgreeInParts(u: Bits, u': Bits, v: Bits, v': Bits, n: int)
    requires |u| == |v| && |u'| == |v'|
    ensures Agree(u + u', v + v', n) <==> Agree(u, v, n) && Agree(u', v', n - |u|)
  {
    assert forall i :: 0 <= i < |u| ==> (u + u')[i] == u[i] && (v + v')[i] == v[i];
    assert forall i :: 0 <= i < |u'| ==> (u + u')[|u| + i] == u'[i] && (v + v')[|u| + i] == v'[i];
  }

  lemma FourBits(x: byte, y: byte)
    ensures Agree(ByteBits(x), ByteBits(y), 4) <==> x / 16 == y / 16
  {
    UpperHalf(x);
    UpperHalf(y);
    var u, v := ByteBits(x), ByteBits(y);
    assert Agree(u, v, 4) <==> u[0] == v[0] && u[1] == v[1] && u[2] == v[2] && u[3] == v[3];
  }

  lemma LowerBits(x: byte, y: byte)
    requires ByteBits(x)[4..] == ByteBits(y)[4..]
    ensures x % 16 == y % 16
  {
    var u, v := ByteBits(x), ByteBits(y);
    assert u[4] == u[4..][0] && u[5] == u[4..][1] && u[6] == u[4..][2] && u[7] == u[4..][3];
    assert v[4] == v[4..][0] && v[5] == v[4..][1] && v[6] == v[4..][2] && v[7] == v[4..][3];
    LowerHalf(x);
    LowerHalf(y);
  }

  /** The bytes agree in their first n bits, counted in halves. */
  predicate HalvesAgree(x: byte, y: byte, n: int) {
    n <= 0 || (if n <= 4 then x / 16 == y / 16 else x == y)
  }

  lemma AgreeByHalves(x: byte, y: byte, n: int)
    requires n % 4 == 0
    ensures Agree(ByteBits(x), ByteBits(y), n) <==> HalvesAgree(x, y, n)
  {
    if n == 4 {
      FourBits(x, y);
    } else if n > 4 && Agree(ByteBits(x), ByteBits(y), n) {
      assert Agree(ByteBits(x), ByteBits(y), 4);
      FourBits(x, y);
      LowerBits(x, y);
    }
  }

  predicate OctetsAgree(x: seq<byte>, y: seq<byte>, n: int)
    requires |x| == |y|
  {
    x == [] || (HalvesAgree(x[0], y[0], n) && OctetsAgree(x[1..], y[1..], n - 8))
  }

  /** Agreement of the first n bits of two addresses, octet by octet. */
  lemma {:induction false} AgreeByOctets(x: seq<byte>, y: seq<byte>, n: int)
    requires |x| == |y| && n % 4 == 0
    ensures Agree(FromBigEndian(x), FromBigEndian(y), n) <==> OctetsAgree(x, y, n)
  {
    if x != [] {
      AgreeByOctets(x[1..], y[1..], n - 8);
      AgreeByHalves(x[0], y[0], n);
      AgreeInParts(ByteBits(x[0]), FromBigEndian(x[1..]), ByteBits(y[0]), FromBigEndian(y[1..]), n);
    }
  }

  // ---------- the networks ----------

  function Network(ip: Ip4, prefix: byte): Route {
    Route(ip.Octets(), prefix, ip)
  }

  /** The same for an IPv4 address and a network. */
  predicate LiesIn(ip: Ip4, net: Ip4, prefix: int) {
    && HalvesAgree(ip.a, net.a, prefix) && HalvesAgree(ip.b, net.b, prefix - 8)
    && HalvesAgree(ip.c, net.c, prefix - 16) && HalvesAgree(ip.d, net.d, prefix - 24)
  }

  lemma OctetsOf(x: Ip4, y: Ip4, n: int)
    ensures OctetsAgree(x.Octets(), y.Octets(), n) <==> LiesIn(x, y, n)
  {
    assert x.Octets()[1..] == [x.b, x.c, x.d] && y.Octets()[1..] == [y.b, y.c, y.d];
    assert [x.b, x.c, x.d][1..] == [x.c, x.d] && [y.b, y.c, y.d][1..] == [y.c, y.d];
    assert [x.c, x.d][1..] == [x.d] && [y.c, y.d][1..] == [y.d];
    assert OctetsAgree([x.d], [y.d], n - 24) <==> HalvesAgree(x.d, y.d, n - 24);
    assert OctetsAgree([x.c, x.d], [y.c, y.d], n - 16) <==>
           HalvesAgree(x.c, y.c, n - 16) && HalvesAgree(x.d, y.d, n - 24);
  }

  /** An address lies in a network whose prefix is a multiple of four exactly if its halves
      of octets say so. */
  lemma ContainsIsLiesIn(net: Ip4, prefix: byte, ip: Ip4)
    requires prefix % 4 == 0
    ensures Contains(Network(net, prefix), ip.Octets()) <==> LiesIn(ip, net, prefix)
  {
    AgreeByOctets(ip.Octets(), net.Octets(), prefix);
    OctetsOf(ip, net, prefix);
  }

  lemma AllOnes(x: byte)
    ensures ByteBits(x) == Fill(8, true) <==> x == 255
  {
    var u := ByteBits(x);
    if u == Fill(8, true) {
      UpperHalf(x);
      LowerHalf(x);
      assert u[0] && u[1] && u[2] && u[3] && u[4] && u[5] && u[6] && u[7];
      assert x == 16 * (x / 16) + x % 16;
    }
  }

  lemma TailBits(x: byte, rest: seq<byte>)
    ensures FromBigEndian([x] + rest)[8..] == FromBigEndian(rest)
  {
    assert ([x] + rest)[1..] == rest;
  }

  lemma LastOctet(ip: Ip4)
    ensures FromBigEndian(ip.Octets())[24..] == ByteBits(ip.d)
  {
    var w := FromBigEndian(ip.Octets());
    TailBits(ip.a, [ip.b, ip.c, ip.d]);
    TailBits(ip.b, [ip.c, ip.d]);
    TailBits(ip.c, [ip.d]);
    TailBits(ip.d, []);
    assert [ip.a] + [ip.b, ip.c, ip.d] == ip.Octets();
    assert [ip.b] + [ip.c, ip.d] == [ip.b, ip.c, ip.d] && [ip.c] + [ip.d] == [ip.c, ip.d] && [ip.d] + [] == [ip.d];
    assert w[24..] == w[8..][8..][8..];
  }

  lemma InSlash24(net: Ip4, ip: Ip4)
    ensures Contains(Network(net, 24), ip.Octets()) <==> ip.a == net.a && ip.b == net.b && ip.c == net.c
  {
    ContainsIsLiesIn(net, 24, ip);
  }

  /** The last address of a node's /24, in bits: those of the network, then ones. */
  lemma LastAddressIff(myIp: Ip4, dest: Ip4)
    ensures dest == Ip4(myIp.a, myIp.b, myIp.c, 255) <==>
            Contains(Network(myIp, 24), dest.Octets()) && FromBigEndian(dest.Octets())[24..] == Fill(8, true)
  {
    InSlash24(myIp, dest);
    LastOctet(dest);
    AllOnes(dest.d);
  }

  /** Loopback, unspecified, link-local and multicast addresses, and the private networks
      of RFC 1918. */
  function Unroutable(): seq<(Ip4, byte)> {
    [(Ip4(127, 0, 0, 0), 8), (Ip4(0, 0, 0, 0), 32), (Ip4(169, 254, 0, 0), 16), (Ip4(224, 0, 0, 0), 4),
     (Ip4(10, 0, 0, 0), 8), (Ip4(172, 16, 0, 0), 12), (Ip4(192, 168, 0, 0), 16)]
  }

  lemma RoutableByHalves(ip: Ip4, port: u16)
    ensures IsRoutableEndpoint(V4(ip, port)) <==>
            forall k :: 0 <= k < |Unroutable()| ==> !LiesIn(ip, Unroutable()[k].0, Unroutable()[k].1)
  {
    var nets := Unroutable();
    assert LiesIn(ip, nets[0].0, nets[0].1) <==> ip.a == 127;
    assert LiesIn(ip, nets[1].0, nets[1].1) <==> ip == Ip4(0, 0, 0, 0);
    assert LiesIn(ip, nets[2].0, nets[2].1) <==> ip.a == 169 && ip.b == 254;
    assert LiesIn(ip, nets[3].0, nets[3].1) <==> 224 <= ip.a <= 239;
    assert LiesIn(ip, nets[4].0, nets[4].1) <==> ip.a == 10;
    assert LiesIn(ip, nets[5].0, nets[5].1) <==> ip.a == 172 && 16 <= ip.b <= 31;
    assert LiesIn(ip, nets[6].0, nets[6].1) <==> ip.a == 192 && ip.b == 168;
  }

  /** An endpoint is routable exactly when it is an IPv6 address or lies in none of these. */
  lemma RoutableIff(addr: SocketAddr)
    ensures Unroutable() ==
            [(Ip4(127, 0, 0, 0), 8), (Ip4(0, 0, 0, 0), 32), (Ip4(169, 254, 0, 0), 16), (Ip4(224, 0, 0, 0), 4),
             (Ip4(10, 0, 0, 0), 8), (Ip4(172, 16, 0, 0), 12), (Ip4(192, 168, 0, 0), 16)]
    ensures IsRoutableEndpoint(addr) <==>
            addr.V6? || forall net :: net in Unroutable() ==> !Contains(Network(net.0, net.1), addr.ip.Octets())
  {
    if addr.V4? {
      RoutableByHalves(addr.ip, addr.port);
      forall net | net in Unroutable()
        ensures Contains(Network(net.0, net.1), addr.ip.Octets()) <==> LiesIn(addr.ip, net.0, net.1)
      {
        ContainsIsLiesIn(net.0, net.1, addr.ip);
      }
    }
  }

  /** A peer exchange brings in no peer with an endpoint that is not routable. */
  lemma {:induction false} PexStoresRoutable(
    t: Table, entries: seq<PexEntry>, sender: Ip4, n: Node, now: nat, picks: seq<Option<Ip4>>, ip: Ip4)
    requires |picks| == |entries| && ip !in t.peers
    ensures var t' := t.AddFromPex(entries, sender, n.myIp, n.me, now, picks);
            ip in t'.peers && t'.peers[ip].endpoint.Some? ==> IsRoutableEndpoint(t'.peers[ip].endpoint.value)
  {
    if entries != [] {
      var last := |entries| - 1;
      PexStoresRoutable(t, entries[..last], sender, n, now, picks[..last], ip);
    }
  }

  // ---------- what an exchanged entry brings ----------

  /** The address may be stored: it is an IPv6 address, or lies in none of the networks. */
  ghost predicate MayBeStored(addr: SocketAddr) {
    addr.V6? || forall net :: net in Unroutable() ==> !Contains(Network(net.0, net.1), addr.ip.Octets())
  }

  lemma SubnetIsPrefix(x: Ip4, y: Ip4)
    ensures SameSubnet(x, y) <==> Contains(Network(y, 24), x.Octets())
  {
    ContainsIsLiesIn(y, 24, x);
  }

  /** An entry for an IP in this node's /24 that is not its own, not purged and not held, with
      a key that nobody holds, brings in a peer with what the entry says, relayed through the
      sender, in a new session; its endpoint is the entry's exactly if that may be stored, and
      is indexed then. Nobody else changes. */
  lemma PexEntryAdds(t: Table, e: PexEntry, sender: Ip4, n: Node, now: nat, pick: Option<Ip4>)
    requires e.ip.Some? && e.key.Some? && t.IsHolder(e.key.value, pick)
    requires Contains(Network(n.myIp, 24), e.ip.value.Octets()) && e.ip.value != n.myIp
    requires e.ip.value !in t.purged && e.ip.value !in t.peers
    requires forall x :: x in t.peers ==> t.peers[x].publicKey != e.key.value
    ensures var ip, key, t' := e.ip.value, e.key.value, t.AddPexEntry(e, sender, n.myIp, n.me, now, pick);
            var stored := e.endpoint.Some? && MayBeStored(e.endpoint.value);
            && t'.purged == t.purged
            && t'.peers == t.peers[ip := Peer(
                 key, n.me.idOf(key), ip, if stored then e.endpoint else None, e.hostname,
                 Some(Session(n.me.sharedWith(key), Bytes.Less(n.me.publicKey, key), 0, 0)),
                 e.isGateway, None, Some(sender), None)]
            && t'.ids == t.ids[n.me.idOf(key) := ip]
            && t'.endpoints == if stored then t.endpoints[e.endpoint.value := ip] else t.endpoints
  {
    SubnetIsPrefix(e.ip.value, n.myIp);
    if e.endpoint.Some? {
      RoutableIff(e.endpoint.value);
    }
  }

  /** In a batch the first such entry stands, whatever later ones say of its IP or key. */
  lemma {:induction false} FirstEntryStands(
    t: Table, entries: seq<PexEntry>, sender: Ip4, n: Node, now: nat, picks: seq<Option<Ip4>>)
    requires |entries| > 0 && t.ArePicks(entries, sender, n.myIp, n.me, now, picks)
    requires entries[0].ip.Some? && entries[0].key.Some?
    requires Contains(Network(n.myIp, 24), entries[0].ip.value.Octets()) && entries[0].ip.value != n.myIp
    requires entries[0].ip.value !in t.purged && entries[0].ip.value !in t.peers
    requires forall x :: x in t.peers ==> t.peers[x].publicKey != entries[0].key.value
    ensures var e, t' := entries[0], t.AddFromPex(entries, sender, n.myIp, n.me, now, picks);
            var ip, key := e.ip.value, e.key.value;
            var stored := e.endpoint.Some? && MayBeStored(e.endpoint.value);
            && ip in t'.peers
            && t'.peers[ip] == Peer(
                 key, n.me.idOf(key), ip, if stored then e.endpoint else None, e.hostname,
                 Some(Session(n.me.sharedWith(key), Bytes.Less(n.me.publicKey, key), 0, 0)),
                 e.isGateway, None, Some(sender), None)
  {
    var last := |entries| - 1;
    if last == 0 {
      assert t.AddFromPex(entries[..0], sender, n.myIp, n.me, now, picks[..0]) == t;
      SubnetIsPrefix(entries[0].ip.value, n.myIp);
      PexEntryAdds(t, entries[0], sender, n, now, picks[0]);
    } else {
      FirstEntryStands(t, entries[..last], sender, n, now, picks[..last]);
    }
  }

  /** An entry for an IP that is held does one thing at most: it makes the sender the relay,
      and that exactly if the IP lies in this node's /24, is not its own and not purged, its
      peer has a relay and is not connected, and the key is one that no peer at another IP
      holds. */
  lemma PexEntryRelaysIff(t: Table, e: PexEntry, sender: Ip4, n: Node, now: nat, pick: Option<Ip4>)
    requires KeysUnique(t) && e.ip.Some? && e.ip.value in t.peers
    requires e.key.Some? ==> t.IsHolder(e.key.value, pick)
    ensures var ip, p := e.ip.value, t.peers[e.ip.value];
            t.AddPexEntry(e, sender, n.myIp, n.me, now, pick) ==
            if && Contains(Network(n.myIp, 24), ip.Octets()) && ip != n.myIp && ip !in t.purged
               && p.relayVia.Some? && !(p.session.Some? && p.lastSeen.Some? && now < p.lastSeen.value + 120)
               && e.key.Some? && forall x :: x in t.peers && t.peers[x].publicKey == e.key.value ==> x == ip
            then t.(peers := t.peers[ip := p.(relayVia := Some(sender))])
            else t
  {
    SubnetIsPrefix(e.ip.value, n.myIp);
  }

  /** And every other entry does nothing: one without an IP or a key that parse, for an IP
      outside the /24, for the node's own or a purged one, or with a key held elsewhere. */
  lemma PexEntryIgnored(t: Table, e: PexEntry, sender: Ip4, n: Node, now: nat, pick: Option<Ip4>)
    requires e.key.Some? ==> t.IsHolder(e.key.value, pick)
    requires || e.ip.None? || e.key.None? || e.ip.value == n.myIp || e.ip.value in t.purged
             || !Contains(Network(n.myIp, 24), e.ip.value.Octets())
             || (KeysUnique(t) && exists x :: x in t.peers && x != e.ip.value && t.peers[x].publicKey == e.key.value)
    ensures t.AddPexEntry(e, sender, n.myIp, n.me, now, pick) == t
  {
    if e.ip.Some? {
      SubnetIsPrefix(e.ip.value, n.myIp);
    }
  }
}
