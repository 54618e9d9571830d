/** The wire formats: handshakes, data packets and discovery broadcasts. */
module Transport {
  import opened Common
  import opened Bytes
  import opened Text

  const PKT_HANDSHAKE: byte := 0x01
  const PKT_DATA: byte := 0x03
  const PKT_KEEPALIVE: byte := 0x04
  const PKT_PEER_EXCHANGE: byte := 0x06
  const HANDSHAKE_HEADER: nat := 40
  const DATA_HEADER: nat := 13
  const DISCOVERY_PREFIX := "WOLFNET"

  /** UTF-8, with the decoder that replaces what is not valid. */
  datatype Utf8 = Utf8(encode: string -> seq<byte>, decodeLossy: seq<byte> -> string) {
    ghost predicate Lawful() {
      forall s {:trigger encode(s)} :: decodeLossy(encode(s)) == s
    }
  }

  // ---------- handshakes ----------

  datatype Handshake = Handshake(key: Key, ip: Ip4, port: u16, isGateway: bool, hostname: string)

  function BuildHandshake(utf8: Utf8, h: Handshake): seq<byte> {
    [PKT_HANDSHAKE] + h.key + h.ip.Octets() + ToLE(h.port, 2) + [if h.isGateway then 1 else 0]
    + utf8.encode(h.hostname)
  }

  function ParseHandshake(utf8: Utf8, data: seq<byte>): Option<Handshake> {
    if |data| < HANDSHAKE_HEADER || data[0] != PKT_HANDSHAKE then None
    else
      FromLEBound(data[37..39]);
      Pow256Values();
      Some(Handshake(data[1..33], Ip4(data[33], data[34], data[35], data[36]),
                     FromLE(data[37..39]), data[39] != 0, utf8.decodeLossy(data[40..])))
  }

  /** The bytes of a handshake: its type, the key, the IP, the port with its low byte first,
      the flag, and the hostname. */
  lemma HandshakeLayout(utf8: Utf8, h: Handshake)
    ensures var data := BuildHandshake(utf8, h);
            && |data| == 40 + |utf8.encode(h.hostname)| && data[0] == 0x01
            && data[1..33] == h.key && data[33..37] == [h.ip.a, h.ip.b, h.ip.c, h.ip.d]
            && data[37] as int + 256 * data[38] as int == h.port
            && data[39] == (if h.isGateway then 1 else 0)
            && data[40..] == utf8.encode(h.hostname)
  {
    var data := BuildHandshake(utf8, h);
    assert data[37..39] == ToLE(h.port, 2);
    TwoBytes(h.port);
    assert data[37] == data[37..39][0] && data[38] == data[37..39][1];
  }

  lemma TwoBytes(n: u16)
    ensures ToLE(n, 2) == [n % 256, n / 256]
  {
    assert ToLE(n / 256, 1) == [n / 256 % 256] + ToLE(n / 256 / 256, 0);
  }

  /** Exactly which bytes are taken for a handshake: whatever flag is not zero is set. */
  lemma ParseHandshakeIff(utf8: Utf8, data: seq<byte>, h: Handshake)
    ensures ParseHandshake(utf8, data) == Some(h) <==>
            && |data| >= 40 && data[0] == 0x01
            && h.key == data[1..33] && h.ip == Ip4(data[33], data[34], data[35], data[36])
            && h.port == data[37] as int + 256 * data[38] as int
            && (h.isGateway <==> data[39] != 0)
            && h.hostname == utf8.decodeLossy(data[40..])
  {
    if |data| >= 40 {
      TwoDigits(data[37..39]);
    }
  }

  lemma TwoDigits(bs: seq<byte>)
    requires |bs| == 2
    ensures FromLE(bs) == bs[0] as int + 256 * bs[1] as int
  {
    assert FromLE(bs[1..]) == bs[1] as int + 256 * FromLE(bs[1..][1..]);
  }

  /** A handshake is read back as it was built. */
  lemma ParseBuiltHandshake(utf8: Utf8, h: Handshake)
    requires utf8.Lawful()
    ensures ParseHandshake(utf8, BuildHandshake(utf8, h)) == Some(h)
  {
    Pow256Values();
    FromToLE(h.port, 2);
    var data := BuildHandshake(utf8, h);
    assert data[37..39] == ToLE(h.port, 2);
    assert data[1..33] == h.key;
    assert data[40..] == utf8.encode(h.hostname);
  }

  /** And what was read is built again, provided its flag is 0 or 1 and its hostname was
      valid text. */
  lemma BuildParsedHandshake(utf8: Utf8, data: seq<byte>)
    requires ParseHandshake(utf8, data).Some?
    ensures var h := ParseHandshake(utf8, data).value;
            BuildHandshake(utf8, h) == data <==> data[39] <= 1 && utf8.encode(h.hostname) == data[40..]
  {
    var h := ParseHandshake(utf8, data).value;
    ToFromLE(data[37..39]);
    var built := BuildHandshake(utf8, h);
    assert built[39] == if h.isGateway then 1 else 0;
    assert built[40..] == utf8.encode(h.hostname);
    assert built[..39] == data[..39];
    assert data == data[..39] + [data[39]] + data[40..];
    assert built == built[..39] + [built[39]] + built[40..];
  }

  // ---------- data packets ----------

  datatype DataPacket = DataPacket(peerId: PeerId, counter: u64, ciphertext: seq<byte>)

  function BuildDataPacket(p: DataPacket): seq<byte> {
    [PKT_DATA] + p.peerId + ToLE(p.counter, 8) + p.ciphertext
  }

  function ParseDataPacket(data: seq<byte>): Option<DataPacket> {
    if |data| < 14 || data[0] != PKT_DATA then None
    else
      CounterFits(data[5..13]);
      Some(DataPacket(data[1..5], FromLE(data[5..13]), data[DATA_HEADER..]))
  }

  /** The bytes of a data packet: its type, the sender's id, the counter and the ciphertext. */
  lemma DataLayout(p: DataPacket)
    ensures var data := BuildDataPacket(p);
            && |data| == 13 + |p.ciphertext| && data[0] == 0x03
            && data[1..5] == p.peerId && FromLE(data[5..13]) == p.counter && data[13..] == p.ciphertext
  {
    assert BuildDataPacket(p)[5..13] == ToLE(p.counter, 8);
    Pow256Values();
    FromToLE(p.counter, 8);
  }

  lemma CounterFits(bs: seq<byte>)
    requires |bs| == 8
    ensures FromLE(bs) < TWO_64
  {
    FromLEBound(bs);
    Pow256Values();
  }

  /** A packet is read back as it was built exactly when it carries some ciphertext. */
  lemma ParseBuiltDataPacket(p: DataPacket)
    ensures ParseDataPacket(BuildDataPacket(p)) == Some(p) <==> p.ciphertext != []
  {
    var data := BuildDataPacket(p);
    assert data[1..5] == p.peerId;
    assert data[5..13] == ToLE(p.counter, 8);
    assert data[13..] == p.ciphertext;
    Pow256Values();
    FromToLE(p.counter, 8);
  }

  /** Whatever is accepted as a data packet is the packet built from its parts. */
  lemma BuildParsedDataPacket(data: seq<byte>)
    requires ParseDataPacket(data).Some?
    ensures BuildDataPacket(ParseDataPacket(data).value) == data
  {
    ToFromLE(data[5..13]);
    assert data == [data[0]] + data[1..5] + data[5..13] + data[13..];
  }

  // ---------- keepalives ----------

  function BuildKeepalive(id: PeerId): seq<byte> {
    [PKT_KEEPALIVE] + id
  }

  /** Longer packets are accepted; what follows the id is ignored. */
  function ParseKeepalive(data: seq<byte>): Option<PeerId> {
    if |data| < 5 || data[0] != PKT_KEEPALIVE then None else Some(data[1..5])
  }

  /** Exactly which bytes are taken for a keepalive. */
  lemma ParseKeepaliveIff(id: PeerId, data: seq<byte>)
    ensures ParseKeepalive(data) == Some(id) <==> |data| >= 5 && data[0] == 0x04 && data[1..5] == id
  {
  }

  lemma ParseBuiltKeepalive(id: PeerId, data: seq<byte>)
    ensures ParseKeepalive(data) == Some(id) <==> BuildKeepalive(id) <= data
  {
    if BuildKeepalive(id) <= data {
      assert data[1..5] == BuildKeepalive(id)[1..] == id;
    }
  }

  // ---------- discovery ----------

  datatype Discovery = Discovery(nodeId: string, key: Key, ip: Ip4, port: u16, hostname: string, isGateway: bool)

  function FieldTexts(nodeId: string, key: string, ip: string, port: string, hostname: string,
                      isGateway: bool): seq<string>
  {
    [DISCOVERY_PREFIX, "1", nodeId, key, ip, port, hostname, if isGateway then "G" else "N"]
  }

  function Fields(d: Discovery): seq<string> {
    FieldTexts(d.nodeId, Encode64(d.key), PrintIp4(d.ip), Decimal(d.port), d.hostname, d.isGateway)
  }

  function FormatDiscovery(d: Discovery): string {
    Join(Fields(d), '|')
  }

  function ParseFields(parts: seq<string>): Option<Discovery> {
    if |parts| < 8 || parts[0] != DISCOVERY_PREFIX then None
    else match (ParsePublicKey(parts[3]), ParseIp4(parts[4]), ParseUnsigned(parts[5], 0x1_0000))
      case (Some(key), Some(ip), Some(port)) =>
        Some(Discovery(parts[2], key, ip, port, parts[6], parts[7] == "G"))
      case _ => None
  }

  function ParseDiscovery(message: string): Option<Discovery> {
    ParseFields(Split(message, '|'))
  }

  lemma FieldsDetermine(nodeId: string, key: string, ip: string, port: string, hostname: string, isGateway: bool)
    requires ParsePublicKey(key).Some? && ParseIp4(ip).Some? && ParseUnsigned(port, 0x1_0000).Some?
    ensures ParseFields(FieldTexts(nodeId, key, ip, port, hostname, isGateway)) ==
            Some(Discovery(nodeId, ParsePublicKey(key).value, ParseIp4(ip).value,
                           ParseUnsigned(port, 0x1_0000).value, hostname, isGateway))
  {
  }

  lemma ParseOwnFields(d: Discovery)
    ensures ParseFields(Fields(d)) == Some(d)
  {
    ParsePrintedKey("", d.key, "");
    assert "" + Encode64(d.key) + "" == Encode64(d.key);
    ParsePrintedIp4(d.ip);
    ParsePrintedUnsigned(d.port, 0x1_0000);
    FieldsDetermine(d.nodeId, Encode64(d.key), PrintIp4(d.ip), Decimal(d.port), d.hostname, d.isGateway);
  }

  lemma OtherFieldsAreClean(d: Discovery, i: nat)
    requires i < 8 && i != 2 && i != 6
    ensures '|' !in Fields(d)[i]
  {
    if i == 3 {
      DecodeEncoded(d.key);
    } else if i == 4 {
      PrintedIp4IsClean(d.ip);
    } else if i == 5 {
      assert !IsDigit('|');
    }
  }

  lemma FieldsAreCleanTo(d: Discovery, clean: nat)
    requires clean <= 8
    requires (clean > 2 ==> '|' !in d.nodeId) && (clean > 6 ==> '|' !in d.hostname)
    ensures forall i :: 0 <= i < clean ==> '|' !in Fields(d)[i]
  {
    forall i | 0 <= i < clean
      ensures '|' !in Fields(d)[i]
    {
      if i != 2 && i != 6 {
        OtherFieldsAreClean(d, i);
      }
    }
  }

  lemma ParsedFieldsAreParts(parts: seq<string>)
    ensures ParseFields(parts).Some? ==>
              && |parts| >= 8
              && ParseFields(parts).value.nodeId == parts[2]
              && ParseFields(parts).value.hostname == parts[6]
  {
  }

  /** A broadcast is read back as it was sent exactly when neither the node id nor the
      hostname holds the separator. */
  lemma ParseFormattedDiscovery(d: Discovery)
    ensures ParseDiscovery(FormatDiscovery(d)) == Some(d) <==> '|' !in d.nodeId && '|' !in d.hostname
  {
    var clean := if '|' in d.nodeId then 2 else if '|' in d.hostname then 6 else 8;
    FieldsAreCleanTo(d, clean);
    if clean == 8 {
      SplitJoinedCleanly(Fields(d), '|');
      ParseOwnFields(d);
    } else {
      SplitJoinedFields(Fields(d), '|', clean);
      ParsedFieldsAreParts(Split(FormatDiscovery(d), '|'));
    }
  }

  lemma JoinedTwo(x: string, y: string, rest: seq<string>)
    ensures Join([x, y] + rest, '|') == x + ['|'] + Join([y] + rest, '|')
  {
    assert ([x, y] + rest)[1..] == [y] + rest;
  }

  /** The text of a broadcast. */
  lemma DiscoveryLayout(d: Discovery)
    ensures var flag := if d.isGateway then "G" else "N";
            var address := PrintIp4(d.ip) + ['|'] + (Decimal(d.port) + ['|'] + (d.hostname + ['|'] + flag));
            FormatDiscovery(d) ==
            "WOLFNET" + ['|'] + ("1" + ['|'] + (d.nodeId + ['|'] + (Encode64(d.key) + ['|'] + address)))
  {
    FieldsInLine("WOLFNET", "1", d.nodeId, Encode64(d.key), PrintIp4(d.ip), Decimal(d.port), d.hostname,
                 if d.isGateway then "G" else "N");
  }

  lemma FieldsInLine(a: string, b: string, c: string, d: string, e: string, f: string, g: string, h: string)
    ensures Join([a, b, c, d, e, f, g, h], '|') ==
            a + ['|'] + (b + ['|'] + (c + ['|'] + (d + ['|'] + (e + ['|'] + (f + ['|'] + (g + ['|'] + h))))))
  {
    JoinedTwo(g, h, []);
    JoinedTwo(f, g, [h]);
    JoinedTwo(e, f, [g, h]);
    JoinedTwo(d, e, [f, g, h]);
    JoinedTwo(c, d, [e, f, g, h]);
    JoinedTwo(b, c, [d, e, f, g, h]);
    JoinedTwo(a, b, [c, d, e, f, g, h]);
    assert [g, h] + [] == [g, h];
  }

  /** Exactly which texts are taken for a broadcast: the version is not looked at, nor what
      follows the flag. */
  lemma ParseDiscoveryIff(message: string, d: Discovery)
    ensures ParseDiscovery(message) == Some(d) <==>
            var parts := Split(message, '|');
            && |parts| >= 8 && parts[0] == "WOLFNET"
            && parts[2] == d.nodeId && ParsePublicKey(parts[3]) == Some(d.key) && parts[4] == PrintIp4(d.ip)
            && ParseUnsigned(parts[5], 0x1_0000) == Some(d.port)
            && parts[6] == d.hostname && (d.isGateway <==> parts[7] == "G")
  {
    if |Split(message, '|')| >= 8 {
      ParseIp4Iff(Split(message, '|')[4], d.ip);
    }
  }
}
