# WolfNet, modelled and proved

WolfNet is a userspace mesh VPN: every node runs a daemon that reads packets from a TUN device, seals
them with a cipher shared with one peer, and sends them over UDP. This project models the stateful core
of that daemon in Dafny and proves what it keeps over whole runs.

| file | models |
|---|---|
| `Common`, `Bytes`, `Text` | addresses and keys, little-endian layout, the byte order of keys, Rust's text splitting, decimal, base64 and trimming, each reader with the exact texts it takes |
| `Crypto`, `Replay` | `SessionCipher` over buffers; the receive window, restarts, duplicates, and nonces over runs of calls and handshakes |
| `Transport` | handshakes, data packets and discovery broadcasts, printed and parsed |
| `PeerTable`, `Peers` | the value of the peer table with the effect of each operation, and the `PeerManager` class proved against it |
| `PeerIndexes`, `PeerRuns`, `PeerHistory` | the two lookup indexes, runs of operations, peer exchange, relays, purging, pinning |
| `Endpoints` | what an entry of a peer exchange brings into the table, and which addresses it may bring in |
| `Routes` | CIDR routes: masks, sorting, longest-prefix matching for 32 and 128 bits, the route file |
| `Broadcasts`, `Daemon`, `Arrivals` | sending without copies, the forwarding cascades, broadcasts, and what each kind of datagram leads to |
| `Sessions` | the session that the table keeps for a peer, over whole histories of the daemon |
| `Probes`, `Handshakes`, `Exchanges`, `Ticks` | the timer's handshakes, one delivery and whole exchanges in a network of nodes, and what a tick brings about |
| `Config`, `ConfigFiles` | the one-pass removal of repeated peers, the staged save at every crash point |
| `Reload`, `ReloadIndexes` | the SIGHUP reload, and what it does to the indexes |

## How to read the model

* A class method that changes state is proved equal to a function on values (`View()` or `State()` before
  and after); what the code promises is then proved of those functions, over every input and every run.
* Rust's `HashMap<Ipv4Addr, Peer>` owns its peers, so the map field holds `Peer` values, and writing
  through `with_peer_by_ip` is writing the changed value back. A peer's cipher is the value `Session`; it
  is taken into a `SessionCipher` object for one call and its state is put back.
* The order in which a hash map yields its entries is left open: scans choose any next entry, and where
  the outcome may depend on it, it appears as a ghost result (`pick`, `picks`).
* Time is a natural number of seconds passed in; `is_connected` is "has a session, and now < last seen + 120".
* Library code appears as function parameters with the laws that are needed of them: the AEAD of RFC 8439
  (opening inverts sealing; lengths), the id and the shared secret of a key (symmetric,
  where two ends are compared), UTF-8 with its lossy decoder,
  the parsers for IPv6 and socket addresses, the JSON of a peer exchange, TOML, and the resolver, which is
  fixed within one reload. The law of TOML is that it reads back what it rendered; it leaves aside values
  with a line of their own that begins with `ip = `, which the migration step would rewrite.
* Counters are machine words: sending wraps at 2^64, as in a release build.
* A run (`PeerRuns.Run`) is any sequence of peer-table operations that the daemon's own code can perform.
  The data, keepalive, handshake and reload paths are each proved to be such runs, so what runs keep, they keep.
* Lookups that have no effect (the CIDR match and the gateway, in outbound unicast) are made up front.

## What the proofs show about the code

* Between single operations the indexes become unsound in one way only: an insertion by `add_peer`, or a
  migration to a new IP, that lands on an IP already held and leaves an index entry of the displaced peer
  behind (`RunSoundIff`).
* A whole reload keeps sound indexes sound, where the new keys have fresh ids, if and only if no new IP is
  brought in twice (`ReloadSoundIff`, `TwoEntriesForOneIp`). It keeps exact indexes exact, where the
  configured IPs differ, if and only if no entry takes an endpoint or an id that another peer holds when its
  turn comes (`ReloadExactIff`). Two configured peers behind one address fail that (`TwoPeersBehindOneAddress`),
  and so does the case that the purge is written for: a peer outside the configuration that sits at a
  configured address. Purging it takes the address out of the endpoint index after the configured peer was
  entered there, and no packet from the address brings it back, because that peer is pinned
  (`GhostTakesAddressAway`, `GhostAtConfiguredAddress`).
* The replay check speaks of rejecting counters that are not above the last one seen. A packet that was
  accepted is refused when it comes again exactly when the receive counter then stands more than 32 above its
  own, and not even then if it looks like a restart; sent again at once it is always accepted. The receive
  counter is the largest taken since the last restart or handshake, and a handshake sets it to zero under the
  same secret, after which whichever packet ever sealed under it comes next is accepted (`RecvIsHighWater`,
  `DuplicateRefusedIff`, `DuplicateAtOnceAccepted`, `HandshakeReopensWindow`). All this is so of the session that
  the peer table keeps, whatever arrives in between (`HistoryMovesSession`, `StalePacketIsDropped`).
* A save is safe against a crash at every point if and only if it does not start from an empty primary
  file that hides a usable backup; the restore that `load` performs is not staged (`Save`, `Restore`).
* A handshake exchange always ends and can always be completed, but it connects both ends only where the
  pair was reciprocal to begin with: whoever held the other connected was held so by it, or had a handshake
  under way to it (`FinalConnectedIff`, `ExchangeIsMutual`). The daemon does not keep that over whole runs: a
  node that restarts is still held connected by others for 120 seconds after they last heard it, so its handshakes are not
  answered and it stays unconnected itself, however handshakes arrive and the timers of all but that other
  node tick (`TickConnectsIff`, `RestartedStaysUnconnected`, `OneSidedStays`), and that other node's timer
  sends it nothing (`OwnTickSendsNothing`). A keepalive from the other end mends this if and only if the node has a
  session for it, as configured peers do (`ReloadAdds`) and peers found by discovery do not (`DiscoveryFiles`,
  `KeepaliveConnectsIff`).
* Every handshake establishes the session again under the same static secret with both counters at zero. A
  single session never repeats a nonce within 2^64 seals; from a new session on, a run with handshakes in it
  repeats none if and only if at most one stretch between handshakes seals anything, and that at most 2^64
  times (`NoncesDistinctIff`, `RunNoncesDistinctIff`, `AnswerReestablishes`).
* A reload leaves a configured address unpinned when the peer had roamed to it already, and the next packet
  from elsewhere moves the peer away again (`ReloadPinsIff`, `RoamedStaysUnpinned`); a host renamed at its
  address is kept under the old name, which DNS re-resolution goes on to use (`ReloadPinsIff`); and a
  configured key that differs from that of a peer held under the IP has no effect (`ReloadKeepsKeys`).
* A discovery broadcast is read back exactly when neither its node id nor its hostname holds the
  separator (`ParseFormattedDiscovery`).

## Model

| member | source | states |
|---|---|---|
| `Crypto.SessionCipher.constructor` | src/crypto.rs:100-112 | a new cipher has both counters at zero and is the low side exactly if its own key is the smaller |
| `Crypto.SessionCipher.Encrypt` | src/crypto.rs:124-131 | seals under the present counter, then counts one up |
| `Crypto.SessionCipher.EncryptInto` | src/crypto.rs:136-144 | leaves in the buffer exactly what the copying form returns, and touches nothing else in it |
| `Crypto.SessionCipher.Decrypt` | src/crypto.rs:172-194 | verdict, text and counters of the window and restart rules |
| `Crypto.SessionCipher.DecryptInto` | src/crypto.rs:148-169 | writes the text and only the text in place; a failure leaves buffer and counters as they were |
| `Bytes.LessIsStrictTotal` | src/crypto.rs:103 | of two different keys exactly one is the smaller, so exactly one end is the low side |
| `Bytes.LessIff` | src/crypto.rs:103 | and it is the one with the smaller byte where they first differ |
| `Replay.AdmitsIff` | src/crypto.rs:149-154 | a counter is refused exactly when it lies more than 32 below the last and is no restart |
| `Replay.EncryptedIs` | src/crypto.rs:115-131 | what a text is sealed under, byte by byte of the nonce, and that the tag follows the body |
| `Replay.DecryptedIs` | src/crypto.rs:172-194 | a ciphertext is refused as stale, opened under the other side's nonce with its last sixteen bytes as tag, or rejected |
| `Replay.DecryptFormsAgree` | src/crypto.rs:148-194 | the in-place and the copying form accept the same packets, yield the same text and the same counters |
| `Replay.DecryptUndoesEncrypt` | src/crypto.rs:124-194 | the other end gets the text back exactly when its window admits the counter |
| `Replay.DecryptIsReceive` | src/crypto.rs:172-194 | decrypting is judging the packet: success, and the new counters, are those of the abstract arrival |
| `Replay.RecvIsHighWater` | src/crypto.rs:177-192 | over any run of packets, calls of encryption and handshakes the receive counter is the largest taken since the last restart or handshake; what is rejected never counts |
| `Replay.ReorderedPacketsAccepted` | src/crypto.rs:177-183 | any order of authentic packets with none more than 32 below the authentic maximum before it is accepted in full, restarts and handshakes or not, and whatever else arrives |
| `Replay.DuplicateRefusedIff` | src/crypto.rs:173-183 | over any run, handshakes included, exactly when a packet accepted before is refused when it comes again |
| `Replay.DuplicateAtOnceAccepted` | src/crypto.rs:177-192 | a duplicate that follows at once is always accepted |
| `Replay.HandshakeReopensWindow` | src/peer.rs:81-86 | after a handshake whichever authentic packet comes next is accepted, whatever had been received |
| `Replay.RestartVerdicts` | src/crypto.rs:177-192 | which packets of a stream restarted at zero are lost, for every receive counter |
| `Replay.RestartLosses` | src/crypto.rs:177-192 | exactly max(0, r - 32) packets are lost for r up to 100, none above, never more than 68 |
| `Replay.RestartTexts` | src/crypto.rs:124-194 | the same from end to end: which of the texts that a session seals from zero on the other end reads |
| `Replay.NonceInjective` | src/crypto.rs:115-121 | nonces are equal only for equal counters and directions |
| `Replay.NoncesDistinctIff` | src/crypto.rs:115-144 | under any interleaving of calls one session's nonces are pairwise distinct exactly up to 2^64 of them |
| `Replay.RunNoncesDistinctIff` | src/peer.rs:81-86 | from a new session on, with handshakes establishing it again at any time, nonces are distinct if and only if at most one stretch between handshakes seals, and at most 2^64 times |
| `Replay.TwoStretchesMeans` | src/peer.rs:81-86 | two stretches seal exactly if some call seals before a handshake and some call after it |
| `Replay.ReestablishedIsNew` | src/peer.rs:81-86 | establishing a session again with the same keys gives the very session there was at first |
| `Replay.EndsNeverShareNonces` | src/crypto.rs:100-121 | the two ends of a session, for any two different keys, never use the same nonce, however often either establishes it again |
| `Bytes.FromToLE` | src/transport.rs:61 | numbers survive their little-endian layout |
| `Transport.ParseBuiltHandshake` | src/transport.rs:27-53 | a handshake is read back as it was built, with any hostname |
| `Transport.HandshakeLayout` | src/transport.rs:25-37 | the place of every field of a handshake, the port with its low byte first |
| `Transport.ParseHandshakeIff` | src/transport.rs:39-54 | exactly which bytes are taken for a handshake, and as which one |
| `Transport.BuildParsedHandshake` | src/transport.rs:27-53 | what was read builds the same bytes exactly if the flag is 0 or 1 and the hostname was valid text |
| `Transport.ParseBuiltDataPacket` | src/transport.rs:57-75 | a data packet is read back exactly if it carries any ciphertext |
| `Transport.DataLayout` | src/transport.rs:57-64 | the place of every field of a data packet |
| `Transport.BuildParsedDataPacket` | src/transport.rs:57-75 | whatever is accepted as a data packet is the packet built from its parts |
| `Transport.ParseBuiltKeepalive` | src/main.rs:915-917 | a packet is taken for the keepalive of an id exactly if it begins with that keepalive |
| `Transport.ParseKeepaliveIff` | src/main.rs:915-917 | and exactly which bytes those are |
| `Transport.ParseFormattedDiscovery` | src/transport.rs:147-177 | a broadcast is read back exactly if node id and hostname hold no separator |
| `Transport.DiscoveryLayout` | src/transport.rs:147-159 | the text of a broadcast, field by field |
| `Transport.ParseDiscoveryIff` | src/transport.rs:165-177 | exactly which texts are taken for a broadcast: the version is ignored, as is whatever follows the flag |
| `Text.SplitJoinedFields` | src/transport.rs:166 | splitting joined fields gives them back up to the first that holds the separator |
| `Text.DecodeEncoded` | src/crypto.rs:71-73 | base64 decoding inverts encoding for all bytes; the text holds no separator and no white space |
| `Text.Decode64Iff` | src/crypto.rs:198-206 | and whatever is decoded is the encoding of the result, so padding and stray bits are strict |
| `Text.ParsePrintedKey` | src/crypto.rs:198-206 | a printed key is read back whatever white space surrounds it |
| `Text.ParsePublicKeyIff` | src/crypto.rs:198-206 | nothing else is read as that key |
| `Text.ParsePrintedIp4` | src/transport.rs:172 | a printed IPv4 address is read back |
| `Text.ParseIp4Iff` | src/transport.rs:172 | and nothing else is read as that address |
| `Peers.PeerManager.AddPeer` | src/peer.rs:232-242 | the table after add_peer |
| `Peers.PeerManager.RemovePeer` | src/peer.rs:245-253 | the table after remove_peer, a missing peer included |
| `Peers.PeerManager.PurgePeer` | src/peer.rs:256-259 | removal, and the IP is recorded as purged even if nobody held it |
| `Peers.PeerManager.Put` | src/peer.rs:262-266 | a write through with_peer_by_ip changes that one peer, leaves both indexes alone, and does nothing if there is no peer |
| `Peers.PeerManager.FindIpByEndpointOrId` | src/peer.rs:279-284 | the endpoint index first, else the id index |
| `Peers.PeerManager.UpdateEndpoint` | src/peer.rs:301-313 | the table after an unconditional endpoint update |
| `Peers.PeerManager.UpdateEndpointIfRoaming` | src/peer.rs:327-344 | the same unless the peer is pinned or missing, and whether it was applied |
| `Peers.PeerManager.ClearEndpoint` | src/peer.rs:354-365 | endpoint and pin are gone; whether there was anything to clear |
| `Peers.PeerManager.FindByKey` | src/peer.rs:402-404 | the scan by key finds a holder if there is one, whichever the map yields |
| `Peers.PeerManager.AllIps` | src/peer.rs:454-456 | each IP of the table once |
| `Peers.PeerManager.UpdateFromDiscovery` | src/peer.rs:368-451 | the table after all three cases: refresh, migration, new peer |
| `Peers.PeerManager.AddFromPex` | src/peer.rs:678-778 | the table after a whole batch, entry by entry |
| `Peers.PeerManager.AddPexEntry` | src/peer.rs:693-777 | the table after one entry, with every filter in the code's order |
| `Peers.PeerManager.FindGateway` | src/peer.rs:460-465 | a connected gateway if there is one, none otherwise |
| `Peers.PeerManager.LoadSubnetRoutes` | src/peer.rs:527-582 | both tables hold the file's routes, longest prefix first; missing clears, malformed keeps |
| `Peers.PeerManager.FindSubnetMatch` | src/peer.rs:587-607 | the longest-prefix match among the loaded routes, or none exactly if nothing matches |
| `Peers.PeerManager.FindSubnetMatchV6` | src/peer.rs:616-633 | the same for 128 bits |
| `PeerIndexes.AddPeerSoundIff` | src/peer.rs:232-242 | an insertion keeps the indexes sound exactly if it leaves no entry of a displaced peer behind |
| `PeerIndexes.AddPeerExactIff` | src/peer.rs:232-242 | and exact if besides nobody else holds its endpoint or id |
| `PeerIndexes.RemovePeerKeeps` | src/peer.rs:245-253 | removal keeps sound and exact indexes so, and the IP is gone |
| `PeerIndexes.PurgeTakes` | src/peer.rs:245-259 | a purge takes that peer, its id and its endpoint away and nothing else, and records the IP |
| `PeerIndexes.UpdateEndpointKeeps` | src/peer.rs:301-344 | an endpoint update keeps soundness always, exactness exactly if the endpoint is free |
| `PeerIndexes.EndpointMoves` | src/peer.rs:301-313 | the peer is indexed at its new endpoint and no longer at its old one; nothing else changes |
| `PeerIndexes.ClearEndpointKeeps` | src/peer.rs:354-365 | clearing keeps both |
| `PeerIndexes.ClearingTakes` | src/peer.rs:354-365 | endpoint, index entry and pin are gone and nothing else; reported exactly if there was any |
| `PeerIndexes.MigrateIsRemoveThenAdd` | src/peer.rs:406-430 | migration is removal at the old IP and insertion at the new one |
| `PeerIndexes.DiscoverySoundIff` | src/peer.rs:368-451 | of the three cases only a migration onto a held IP can break soundness, and exactly when |
| `PeerIndexes.DiscoveryExactIff` | src/peer.rs:368-451 | exactly when a discovery keeps the indexes exact |
| `PeerIndexes.DiscoveryFiles` | src/peer.rs:368-451 | the whole entry of the sender after a discovery, known before or not, and that nobody else changes |
| `PeerIndexes.LookupIsScan` | src/peer.rs:279-284 | with exact indexes a lookup is a scan of the table, endpoint owner first; endpoints are then unique |
| `PeerIndexes.LookupIsLive` | src/peer.rs:279-284 | with sound indexes no lookup leads to a removed IP |
| `PeerIndexes.DiscoveryKeepsKeysUnique` | src/peer.rs:400-450 | discovery keeps public keys unique |
| `PeerRuns.PexKeepsKeysUnique` | src/peer.rs:724-776 | so does every batch of a peer exchange |
| `PeerRuns.RunKeysUniqueIff` | src/peer.rs:232-451 | over a whole run keys stay unique if and only if no peer is added whose key another IP holds |
| `PeerRuns.PexKeepsSound` | src/peer.rs:745-776 | a peer exchange keeps the indexes sound, whatever it holds |
| `PeerRuns.PexExactIff` | src/peer.rs:745-776 | and exact exactly if no inserted entry takes an endpoint or id that is held |
| `PeerRuns.RunSoundIff` | src/peer.rs:232-451 | over a whole run the indexes are always sound if and only if no insertion leaves a stale entry |
| `PeerRuns.RunExactIff` | src/peer.rs:232-451 | and always exact if and only if each operation meets its condition |
| `PeerHistory.PexLeavesDirectPeers` | src/peer.rs:710-743 | a batch removes nobody and changes a peer only to re-relay one that has a relay and is not connected |
| `PeerHistory.PexIsIdempotent` | src/peer.rs:693-777 | receiving any batch twice is receiving it once: table, indexes and relays |
| `PeerHistory.RunKeepsRelaysProper` | src/peer.rs:693-777 | over any run a relayed IP lies in this node's /24, is not this node, not purged, and not its own relay |
| `PeerHistory.PurgedStaysOut` | src/peer.rs:701-702 | a purged IP stays purged, and out of the table until discovery or configuration names it |
| `PeerHistory.PinnedIsSticky` | src/peer.rs:327-397 | no interleaving of roaming, peer exchange and agreeing discoveries moves a pinned endpoint |
| `PeerHistory.DiscoveryKeepsPinnedIff` | src/peer.rs:368-451 | a discovery keeps a pinned peer in place exactly if it agrees with the table on IP and key |
| `Endpoints.RoutableIff` | src/peer.rs:200-216 | the octet tests amount to lying in none of seven networks: 127/8, 0.0.0.0, 169.254/16, 224/4 and those of RFC 1918 |
| `Endpoints.PexStoresRoutable` | src/peer.rs:761-768 | a peer exchange brings in no endpoint that is not routable |
| `Endpoints.PexEntryAdds` | src/peer.rs:693-777 | an entry for a free IP of the /24 under a free key: the peer it brings in, field by field, with the endpoint stored and indexed exactly if it lies outside the seven networks |
| `Endpoints.FirstEntryStands` | src/peer.rs:693-777 | of a batch the first such entry stands, whatever later ones say |
| `Endpoints.PexEntryRelaysIff` | src/peer.rs:710-743 | exactly when an entry makes the sender the relay of a peer held, and that it does nothing else to one |
| `Endpoints.PexEntryIgnored` | src/peer.rs:693-743 | every other entry does nothing |
| `Routes.MaskedEqualityIsAgreement` | src/peer.rs:594-602 | equality under the mask is agreement of the top bits, for /0, full length and all between |
| `Routes.HitsIsContains` | src/peer.rs:594-602 | the daemon's test of a route means that the destination lies in its network |
| `Routes.FirstHit` | src/peer.rs:587-607 | the first hit in a sorted table is a longest-prefix match of the table in any order |
| `Routes.SortedIsSorted` | src/peer.rs:578-579 | sorting keeps the routes and puts long prefixes first |
| `Routes.RoutesInAre` | src/peer.rs:549-575 | the routes loaded are those parsed from the file's pairs, and no others |
| `Routes.ParsePrintedPair` | src/peer.rs:549-566 | a route written as a pair is read back, exactly if its prefix is at most 32 |
| `Routes.ParsePrintedPair6` | src/peer.rs:567-575 | so is an IPv6 one, exactly if its prefix is at most 128 |
| `Routes.InetIff` | src/peer.rs:549-566 | exactly which pairs give an IPv4 route, and which route |
| `Routes.Inet6Iff` | src/peer.rs:549-575 | exactly which pairs give an IPv6 route: the network is no IPv4 address and the library reads it as an IPv6 one |
| `Daemon.Forwarder.EncryptAndSend` | src/main.rs:70-94 | the frame sent from the buffer is the data packet built from the copying form's output |
| `Daemon.FrameIsReadBack` | src/main.rs:70-94 | the other end parses and opens that frame to the plaintext exactly when its window admits it |
| `Daemon.DestIp4Iff` | src/tun.rs:206-216 | which octets are the destination of an IPv4 packet, and what counts as one |
| `Daemon.DestIp6Iff` | src/tun.rs:234-245 | the same for IPv6 |
| `Daemon.BroadcastIff` | src/main.rs:677-682 | a broadcast goes to the last address of the /24 in bits, or to all ones |
| `Daemon.Forwarder.OnTun` | src/main.rs:676-763 | which packet from the TUN device is broadcast, sent through one peer, routed, or dropped, read off its bytes |
| `Daemon.Forwarder.SendVia` | src/main.rs:714-716 | one datagram and one counter step if the peer is able, nothing otherwise |
| `Daemon.Forwarder.SendUnicast` | src/main.rs:713-751 | outbound: one datagram through the first able of direct, route and CIDR; failing these, through the relay of a destination that is not connected, and nowhere else if it has one, or else through the gateway |
| `Daemon.CascadeIsFirstAble` | src/main.rs:713-751 | the nested cases of the cascade are the first able candidate of one list |
| `Daemon.FirstAbleIsFirst` | src/main.rs:713-751 | and that is the first in the list's order with none able before it |
| `Daemon.Forwarder.SendUnicastV6` | src/main.rs:752-763 | an IPv6 packet leaves only by its longest-prefix route |
| `Daemon.Forwarder.Deliver` | src/main.rs:840-888 | inbound IPv4: written to TUN exactly when for this node, for the last address of its /24 or for all, or unsendable with this node the route hit; else sent to the able destination, else to the able node of the route |
| `Daemon.Forwarder.DeliverV6` | src/main.rs:889-906 | inbound IPv6: the same with the CIDR route alone |
| `Daemon.Forwarder.BroadcastTargets` | src/main.rs:684-693 | each other peer is a target once: direct if connected, else by its relay if it has one |
| `Daemon.Forwarder.Broadcast` | src/main.rs:682-711 | one copy per able connected peer, one per able relay of the others, each under its own session |
| `Broadcasts.CopiesForMatch` | src/main.rs:694-709 | serving the targets in order, with each relay used once, sends exactly that multiset of copies |
| `Daemon.CopiesCounted` | src/main.rs:682-711 | how many copies each peer gets: one for itself, one more as a relay |
| `Arrivals.OnHandshake` | src/main.rs:776-797 | discovery, new session, seen now; answered exactly if the sender was not connected |
| `Arrivals.AnswerIsRun` | src/main.rs:776-797 | processing a handshake is a run of table operations |
| `Arrivals.AnswerConnects` | src/main.rs:785-788 | it leaves the sender connected until the age limit, in a session that starts from zero |
| `Arrivals.AnswerFiles` | src/main.rs:776-788 | under what it announced, seen now and without a relay |
| `Arrivals.AnsweredIff` | src/main.rs:782-795 | and is answered exactly if no peer with its key was connected before |
| `Arrivals.AnswerReestablishes` | src/main.rs:785-788 | for a peer that has the session of its keys it is a re-establishment under the same secret |
| `Arrivals.Open` | src/main.rs:806-817 | a packet is opened in place by the session found, or nothing changes |
| `Arrivals.Hear` | src/main.rs:798-823 | sender lookup, decryption and roaming as a run; the sender is connected afterwards |
| `Arrivals.RouteText` | src/main.rs:840-908 | an opened packet is routed by its destination, IPv4 or IPv6 |
| `Arrivals.OnText` | src/main.rs:825-908 | an opened text leads to one exchange, one output, or nothing |
| `Arrivals.OnData` | src/main.rs:798-914 | the whole arm: nothing unless opened; peer exchange only from a peer just heard |
| `Arrivals.OneOutput` | src/main.rs:840-908 | a packet is written to TUN or sent on, never both |
| `Arrivals.RoutedTextIff` | src/main.rs:840-908 | read off the bytes of an opened text: when it is written to TUN and to whom it is sent |
| `Arrivals.OnKeepalive` | src/main.rs:915-931 | a keepalive's sender is seen, and may roam only if found by id; other packets do nothing |
| `Arrivals.KeepaliveConnectsIff` | src/main.rs:915-931 | a keepalive connects its sender exactly if there is a session for it already |
| `Sessions.ReceptionIff` | src/main.rs:798-817 | a packet is taken exactly if the peer looked up for it has a session that decrypts it |
| `Sessions.HearingLeaves` | src/main.rs:806-823 | all that a packet opened changes in the table: its counter received, its sender seen now and, unless pinned, moved and indexed at the packet's source |
| `Sessions.KeepaliveLeaves` | src/main.rs:915-931 | all that a keepalive changes in the table: its sender seen, and moved if found by id and not pinned; never a session |
| `Sessions.EventMovesSession` | src/main.rs:776-931 | whatever happens, the session in the table is what the calls for that peer make of it |
| `Sessions.HistoryMovesSession` | src/main.rs:776-931 | over any history the session in the table is that of the run of calls, so its receive counter is the high-water mark |
| `Sessions.StalePacketIsDropped` | src/crypto.rs:149-154 | hence after any history the daemon drops a packet more than 32 below the high-water mark that is no restart |
| `Probes.SendHandshakes` | src/transport.rs:89-127 | each peer that is not connected is tried at its endpoint and at a different configured address |
| `Probes.ProbesReach` | src/transport.rs:99-126 | the datagrams of a tick go to exactly those addresses |
| `Probes.ProbedIff` | src/transport.rs:99-126 | one handshake to each address at which a peer is due: not connected, and at its endpoint or configured there |
| `Probes.ProbesCounted` | src/transport.rs:99-126 | over a tick each address gets one handshake for each peer due there, and no more |
| `Handshakes.HandshakeAnnounces` | src/transport.rs:27-53 | whoever receives the bytes of a node's handshake reads its announcement in them |
| `Handshakes.DeliverDecreases` | src/main.rs:776-797 | each delivery lowers handshakes in flight plus unconnected pairs by exactly one |
| `Handshakes.DeliverKeepsReciprocal` | src/main.rs:776-797 | a delivery keeps every pair reciprocal that is: whoever holds the other connected is held so by it, or about to be |
| `Handshakes.DeliverKeepsKeyed` | src/main.rs:785-788 | a delivery keeps every session that of its two keys, and gives the receiver a new one |
| `Exchanges.ExchangeTerminates` | src/main.rs:789-795 | the length of an exchange is what its measure drops by, so handshakes do not bounce for ever |
| `Exchanges.Completes` | src/main.rs:776-797 | every exchange can be completed, up to the last handshake |
| `Exchanges.FinalConnectedIff` | src/main.rs:776-797 | exactly who considers whom connected once all handshakes have arrived, from any network |
| `Exchanges.ExchangeIsMutual` | src/main.rs:776-797 | connection is then mutual between two nodes if and only if the pair was reciprocal to begin with |
| `Exchanges.EnvelopeConnectsBothEnds` | src/main.rs:776-797 | a handshake under way always connects its receiver, and its sender too if and only if the receiver held no stale connection |
| `Exchanges.ExchangedSessionsFit` | src/main.rs:785-788 | given a symmetric shared secret, nodes that know each other after an exchange hold sessions with one secret and opposite sides |
| `Exchanges.ExchangedEndsRead` | src/main.rs:776-797 | so each reads what the other seals, exactly when its window admits it |
| `Exchanges.RestartedEndIsRead` | src/main.rs:785-788 | and of the texts of an end that started again only those before the window are lost |
| `Exchanges.ArrivalStartsFromZero` | src/main.rs:785-788 | as every handshake that arrives makes its receiver start |
| `Ticks.TickConnectsIff` | src/transport.rs:89-127 | a tick of a node not connected to one whose address it has: the other then holds it connected, and it the other if and only if the other had not before, or had a handshake under way |
| `Ticks.TickConnects` | src/transport.rs:89-127 | between reciprocal nodes one tick connects both ways |
| `Ticks.OneSidedStays` | src/main.rs:782-795 | over any interleaving of arrivals and ticks of all nodes but the one that holds the other connected, a one-sided connection stays one-sided |
| `Ticks.OwnTickSendsNothing` | src/transport.rs:99-126 | and that node's own tick does not mend it, unless the address is filed under another peer |
| `Ticks.FreshStartConnects` | src/main.rs:776-797 | any two configured nodes with a symmetric shared secret, freshly started: the first tick connects both, in sessions that fit |
| `Ticks.RestartedStaysUnconnected` | src/main.rs:782-795 | a restarted node whose handshake is not answered, for any two nodes |
| `Config.Dedup` | src/config.rs:224-243 | each key once, in order of first occurrence, with its first entry that has an endpoint, else its first |
| `Config.DedupIsDetermined` | src/config.rs:208-223 | that description leaves no choice |
| `Config.DedupIsIdempotent` | src/config.rs:224-243 | the pass is idempotent, shortens exactly lists with a repeated key, and keeps all others as they are |
| `Config.KeysInOrderAreTheKeys` | src/config.rs:208-213 | no key is lost and none invented, equal IPs or not |
| `Config.KeysInOrderAreInOrder` | src/config.rs:224-243 | and they keep the order in which they first occur |
| `ConfigFiles.Files.Save` | src/config.rs:288-330 | every disk state on the way reads back as old or new, if and only if the save starts from a safe state; then backup and new file |
| `ConfigFiles.AcceptableIff` | src/config.rs:293-303 | a content is saved exactly if it names both sections; the test for a blank one never decides |
| `ConfigFiles.Files.Restore` | src/config.rs:161-188 | the backup is put back; a crash on the way can leave a torn primary |
| `ConfigFiles.BackupIsRead` | src/config.rs:161-190 | after a completed save a lost or emptied file reads back as the previous content, if and only if the backup was copied in full |
| `ConfigFiles.PreviousIsLoaded` | src/config.rs:151-276 | and loading it then yields the previous configuration |
| `ConfigFiles.Load` | src/config.rs:151-276 | what is loaded and what stands on the disk afterwards: the backup over a lost file, and the configuration written back exactly if a key was renamed or a peer dropped; loading again yields the same |
| `Reload.ReloadConfig` | src/main.rs:992-1101 | the table after a reload: entries applied in order, ghosts purged |
| `Reload.ReloadPostState` | src/main.rs:994-1101 | who is in the table afterwards, exactly, and which IPs are recorded as purged |
| `Reload.ConfiguredIff` | src/main.rs:1066-1081 | which IPs and addresses count as configured |
| `Reload.ValidIff` | src/main.rs:998-1003 | which entries are taken, and for which IP |
| `Reload.ReloadAdds` | src/main.rs:1047-1060 | the peer that an entry for a new IP brings in, field by field, its session included; the last entry for an IP stands |
| `Reload.ReloadRenames` | src/main.rs:1037-1046 | a peer that was there takes the name of the one entry for its IP unless it is empty, and but for endpoint and pin keeps all else |
| `Reload.ReloadPinsIff` | src/main.rs:994-1101 | what a whole reload makes of the endpoint and the pin of a peer that was there before, down to the name it is pinned under, in all three cases |
| `Reload.RoamedStaysUnpinned` | src/main.rs:1016-1029 | a peer that had roamed to its configured address is left unpinned, and the next packet from elsewhere moves it |
| `Reload.ReloadKeepsKeys` | src/main.rs:1004-1046 | a peer that was there keeps key and session, whatever key is configured for its IP |
| `Reload.ReloadIsRun` | src/main.rs:994-1101 | a reload is a run of table operations |
| `ReloadIndexes.EntriesSoundIff` | src/main.rs:997-1064 | the indexes are sound after every entry of a reload if and only if no entry for a new IP leaves a stale index entry |
| `ReloadIndexes.ReloadSoundIff` | src/main.rs:994-1101 | the whole reload, purge included, keeps them sound if and only if no new IP is brought in twice, where the new keys have fresh ids |
| `ReloadIndexes.TwoEntriesForOneIp` | src/main.rs:1047-1060 | two entries for a new IP, under keys with different ids, leave the indexes unsound after the reload |
| `ReloadIndexes.EntriesExactIff` | src/main.rs:997-1064 | the indexes are exact after every entry if and only if no entry takes an endpoint or id that another peer holds, or leaves anything stale |
| `ReloadIndexes.ReloadExactIff` | src/main.rs:994-1101 | the whole reload, purge included, keeps them exact if and only if that is so of every entry, where the configured IPs differ |
| `ReloadIndexes.TwoPeersBehindOneAddress` | src/main.rs:1047-1060 | two new peers configured behind one address leave the indexes inexact after the reload |
| `ReloadIndexes.GhostTakesAddressAway` | src/main.rs:1069-1100 | purging a ghost at a configured address leaves the configured peer with an address that is not in the index, and roaming does not mend it |
| `ReloadIndexes.GhostAtConfiguredAddress` | src/main.rs:1069-1100 | a table with exact indexes to which this happens |

## Left out

- ReloadIndexes.ReloadExactIff: for configured IPs that differ; where one IP is configured twice the exact condition is that of `ReloadIndexes.EntriesExactIff`, entry by entry.
- ReloadIndexes.ReloadSoundIff: for new keys with fresh ids; where ids collide the exact condition is that of `ReloadIndexes.EntriesSoundIff`, entry by entry.
- Peers.PeerManager.LoadSubnetRoutes: the order among routes of equal prefix is that of a hash map, so the model fixes the routes and the order of prefixes only.
- ConfigFiles.Files.Save: write order is that of the calls; reordering of writes by a disk that loses power is not modelled, nor failures of the staged write or of the rename.
- Crypto.SessionCipher.EncryptInto: sealing is total; the library's length error cannot arise for buffers of 64 KiB.
- Traffic counters, the times of the last handshake and of the last data packet, and the status file: display only.
- `load_routes` for exact container routes: a plain replacement of a map.
- Sending keepalives and peer exchanges, and building exchange entries: no state but send counters.
- The discovery threads around `format_discovery` and `parse_discovery`, and DNS re-resolution: sockets and timers; their effects on the table are operations of a run.
- Insertion of configured peers at start-up: the reload's insertion case on an empty table.
- X25519, SHA-256, ChaCha20-Poly1305, JSON, TOML, UTF-8 decoding and IPv6 parsing: library code, kept as parameters.
- TUN and UDP devices, poll, the gateway and NAT set-up, the command line and `wolfnetctl`: input and output.
- Lock interleavings inside one method of the peer manager: each method, and each reload, is one atomic step.
