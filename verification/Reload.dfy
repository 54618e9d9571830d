/** The reload of the configuration on SIGHUP: configured peers are added or updated, the
    others are purged unless they are directly connected. */
module Reload {
  import opened Common
  import opened Text
  import opened PeerTable
  import opened PeerRuns
  import opened Peers
  import opened Config
  import opened Crypto
  import Arrivals
  import Bytes

  type Resolver = string -> Option<SocketAddr>

  /** The IP of an entry whose key and address both parse. */
  function ValidIp(pc: PeerConfig): Option<Ip4> {
    if ParsePublicKey(pc.publicKey).None? then None else ParseIp4(pc.allowedIp)
  }

  function ConfiguredPeer(me: Identity, pc: PeerConfig, resolve: Resolver): Peer
    requires ValidIp(pc).Some?
  {
    NewPeer(me, ParsePublicKey(pc.publicKey).value, ValidIp(pc).value).(
      hostname := pc.name.GetOr(""),
      configuredEndpoint := pc.endpoint,
      endpoint := if pc.endpoint.Some? then resolve(pc.endpoint.value) else None)
    .EstablishSession(me)
  }

  /** The endpoint of an entry for a peer that was in the table before the reload. */
  function ApplyEndpoint(t: Table, ip: Ip4, endpoint: Option<string>, resolve: Resolver): Table
    requires ip in t.peers
  {
    if endpoint.None? then t.ClearEndpoint(ip)
    else if resolve(endpoint.value).None? || t.peers[ip].endpoint == resolve(endpoint.value) then t
    else
      var u := t.UpdateEndpoint(ip, resolve(endpoint.value).value);
      u.(peers := u.peers[ip := u.peers[ip].(configuredEndpoint := endpoint)])
  }

  function ApplyName(t: Table, ip: Ip4, name: string): Table
    requires ip in t.peers
  {
    if name == "" then t else t.(peers := t.peers[ip := t.peers[ip].(hostname := name)])
  }

  function ApplyEntry(me: Identity, t: Table, existing: set<Ip4>, pc: PeerConfig, resolve: Resolver): Table {
    if ValidIp(pc).None? then t
    else
      var ip := ValidIp(pc).value;
      if ip !in existing then t.AddPeer(ConfiguredPeer(me, pc, resolve))
      else if ip !in t.peers then t
      else ApplyName(ApplyEndpoint(t, ip, pc.endpoint, resolve), ip, pc.name.GetOr(""))
  }

  function ApplyAll(me: Identity, t: Table, existing: set<Ip4>, pcs: seq<PeerConfig>, resolve: Resolver): Table {
    if pcs == [] then t
    else ApplyEntry(me, ApplyAll(me, t, existing, pcs[..|pcs| - 1], resolve), existing, pcs[|pcs| - 1], resolve)
  }

  /** The IPs named by the entries, whether their keys parse or not. */
  function ConfiguredIps(pcs: seq<PeerConfig>): set<Ip4> {
    set pc | pc in pcs && ParseIp4(pc.allowedIp).Some? :: ParseIp4(pc.allowedIp).value
  }

  function ConfiguredEndpoints(pcs: seq<PeerConfig>, resolve: Resolver): set<SocketAddr> {
    set pc | pc in pcs && pc.endpoint.Some? && resolve(pc.endpoint.value).Some? :: resolve(pc.endpoint.value).value
  }

  /** The test for peers outside the configuration. */
  predicate IsGhost(p: Peer, endpoints: set<SocketAddr>, now: nat) {
    !(p.relayVia.None? && p.IsConnected(now)) || (p.endpoint.Some? && p.endpoint.value in endpoints)
  }

  ghost function Ghosts(t: Table, ips: set<Ip4>, endpoints: set<SocketAddr>, now: nat): set<Ip4> {
    set ip | ip in t.peers && ip !in ips && IsGhost(t.peers[ip], endpoints, now)
  }

  /** The table once all these peers are purged, in whatever order. */
  ghost function PurgeAll(t: Table, ghosts: set<Ip4>): Table
    requires ghosts <= t.peers.Keys
  {
    Table(t.peers - ghosts,
          t.ids - (set ip | ip in ghosts :: t.peers[ip].peerId),
          t.endpoints - (set ip | ip in ghosts && t.peers[ip].endpoint.Some? :: t.peers[ip].endpoint.value),
          t.purged + ghosts)
  }

  ghost function Reloaded(me: Identity, t: Table, pcs: seq<PeerConfig>, resolve: Resolver, now: nat): Table {
    var u := ApplyAll(me, t, t.peers.Keys, pcs, resolve);
    PurgeAll(u, Ghosts(u, ConfiguredIps(pcs), ConfiguredEndpoints(pcs, resolve), now))
  }

  lemma PurgeOneMore(t: Table, ghosts: set<Ip4>, ip: Ip4)
    requires ghosts <= t.peers.Keys && ip in t.peers && ip !in ghosts
    ensures PurgeAll(t, ghosts).PurgePeer(ip) == PurgeAll(t, ghosts + {ip})
  {
    var x, y := PurgeAll(t, ghosts).PurgePeer(ip), PurgeAll(t, ghosts + {ip});
    assert x.peers == y.peers;
    assert x.ids == y.ids;
    assert x.endpoints == y.endpoints;
    assert x.purged == y.purged;
  }

  method ReloadConfig(m: PeerManager, pcs: seq<PeerConfig>, resolve: Resolver, now: nat)
    modifies m`peersByIp, m`idToIp, m`endpointToIp, m`purgedIps
    ensures m.View() == Reloaded(m.node.me, old(m.View()), pcs, resolve, now)
  {
    ghost var t := m.View();
    var existing := m.peersByIp.Keys;
    for i := 0 to |pcs|
      invariant m.View() == ApplyAll(m.node.me, t, existing, pcs[..i], resolve)
    {
      assert pcs[..i + 1][..i] == pcs[..i];
      ApplyOne(m, existing, pcs[i], resolve);
    }
    assert pcs[..|pcs|] == pcs;
    PurgeGhosts(m, ConfiguredIps(pcs), ConfiguredEndpoints(pcs, resolve), now);
  }

  method ApplyOne(m: PeerManager, existing: set<Ip4>, pc: PeerConfig, resolve: Resolver)
    modifies m`peersByIp, m`idToIp, m`endpointToIp
    ensures m.View() == ApplyEntry(m.node.me, old(m.View()), existing, pc, resolve)
  {
    var key := ParsePublicKey(pc.publicKey);
    var parsed := ParseIp4(pc.allowedIp);
    if key.None? || parsed.None? {
      return;
    }
    var ip := parsed.value;
    if ip !in existing {
      m.AddPeer(ConfiguredPeer(m.node.me, pc, resolve));
      return;
    }
    if ip !in m.peersByIp {
      return;
    }
    if pc.endpoint.Some? {
      var addr := resolve(pc.endpoint.value);
      if addr.Some? && m.peersByIp[ip].endpoint != addr {
        m.UpdateEndpoint(ip, addr.value);
        m.Put(ip, m.peersByIp[ip].(configuredEndpoint := pc.endpoint));
      }
    } else {
      var _ := m.ClearEndpoint(ip);
    }
    var name := pc.name.GetOr("");
    if name != "" {
      m.Put(ip, m.peersByIp[ip].(hostname := name));
    }
  }

  method PurgeGhosts(m: PeerManager, ips: set<Ip4>, endpoints: set<SocketAddr>, now: nat)
    modifies m`peersByIp, m`idToIp, m`endpointToIp, m`purgedIps
    ensures m.View() == PurgeAll(old(m.View()), Ghosts(old(m.View()), ips, endpoints, now))
  {
    ghost var t := m.View();
    ghost var done: set<Ip4> := {};
    var rest := m.peersByIp.Keys;
    while rest != {}
      invariant rest <= t.peers.Keys
      invariant done == (set ip | ip in Ghosts(t, ips, endpoints, now) && ip !in rest)
      invariant m.View() == PurgeAll(t, done)
      decreases rest
    {
      var ip :| ip in rest;
      rest := rest - {ip};
      if ip !in ips && IsGhost(m.peersByIp[ip], endpoints, now) {
        PurgeOneMore(t, done, ip);
        m.PurgePeer(ip);
        done := done + {ip};
      }
    }
  }

  // ---------- what a reload promises ----------

  /** Entries touch their own IPs alone, and remove nobody. */
  lemma {:induction false} ApplyAllLeavesOthers(me: Identity, t: Table, pcs: seq<PeerConfig>, resolve: Resolver)
    ensures var u := ApplyAll(me, t, t.peers.Keys, pcs, resolve);
            && u.purged == t.purged
            && t.peers.Keys <= u.peers.Keys <= t.peers.Keys + ConfiguredIps(pcs)
            && (forall ip :: ip in t.peers && ip !in ConfiguredIps(pcs) ==> u.peers[ip] == t.peers[ip])
            && (forall pc :: pc in pcs && ValidIp(pc).Some? ==> ValidIp(pc).value in u.peers)
  {
    if pcs != [] {
      var init, pc := pcs[..|pcs| - 1], pcs[|pcs| - 1];
      ApplyAllLeavesOthers(me, t, init, resolve);
      assert forall x :: x in pcs <==> x in init || x == pc;
      assert ConfiguredIps(pcs) == ConfiguredIps(init)
                                   + if ParseIp4(pc.allowedIp).Some? then {ParseIp4(pc.allowedIp).value} else {};
      EntryLeavesOthers(me, ApplyAll(me, t, t.peers.Keys, init, resolve), t.peers.Keys, pc, resolve);
    }
  }

  lemma EntryLeavesOthers(me: Identity, t: Table, existing: set<Ip4>, pc: PeerConfig, resolve: Resolver)
    requires existing <= t.peers.Keys
    ensures var u := ApplyEntry(me, t, existing, pc, resolve);
            && u.purged == t.purged
            && (forall ip :: ip in t.peers && ValidIp(pc) != Some(ip) ==> ip in u.peers && u.peers[ip] == t.peers[ip])
            && u.peers.Keys == t.peers.Keys + if ValidIp(pc).Some? then {ValidIp(pc).value} else {}
  {
    if ValidIp(pc).Some? && ValidIp(pc).value in existing {
      EditLeavesOthers(t, ValidIp(pc).value, pc.endpoint, pc.name.GetOr(""), resolve);
    }
  }

  lemma EditLeavesOthers(t: Table, ip: Ip4, endpoint: Option<string>, name: string, resolve: Resolver)
    requires ip in t.peers
    ensures var u := ApplyName(ApplyEndpoint(t, ip, endpoint, resolve), ip, name);
            && u.purged == t.purged && u.peers.Keys == t.peers.Keys
            && forall x :: x in t.peers && x != ip ==> u.peers[x] == t.peers[x]
  {
    assert ApplyEndpoint(t, ip, endpoint, resolve).peers.Keys == t.peers.Keys;
  }

  /** The state after a reload, as one step: configured peers with valid keys are there,
      no configured IP is purged, an unconfigured peer survives exactly if it is directly
      connected, without a relay, on an endpoint of its own, and is then unchanged, and
      the IPs purged are recorded and no others. */
  lemma ReloadPostState(me: Identity, t: Table, pcs: seq<PeerConfig>, resolve: Resolver, now: nat)
    ensures var r := Reloaded(me, t, pcs, resolve, now);
            && (forall pc :: pc in pcs && ValidIp(pc).Some? ==> ValidIp(pc).value in r.peers)
            && (forall ip :: ip in ConfiguredIps(pcs) ==>
                  (ip in t.peers ==> ip in r.peers) && (ip in r.purged <==> ip in t.purged))
            && (forall ip :: ip in r.peers && ip !in ConfiguredIps(pcs) ==> ip in t.peers)
            && (forall ip :: ip in t.peers && ip !in ConfiguredIps(pcs) ==>
                  var p := t.peers[ip];
                  && (ip in r.peers <==> p.relayVia.None? && p.IsConnected(now)
                                         && (p.endpoint.Some? ==>
                                             p.endpoint.value !in ConfiguredEndpoints(pcs, resolve)))
                  && (ip in r.peers ==> r.peers[ip] == p))
            && r.purged == t.purged + (t.peers.Keys - r.peers.Keys)
  {
    ApplyAllLeavesOthers(me, t, pcs, resolve);
  }

  /** An IP is configured exactly if some entry has it, printed, whatever its key; an address
      exactly if some entry names a host that resolves to it. */
  lemma ConfiguredIff(pcs: seq<PeerConfig>, resolve: Resolver, ip: Ip4, ep: SocketAddr)
    ensures ip in ConfiguredIps(pcs) <==> exists pc :: pc in pcs && pc.allowedIp == PrintIp4(ip)
    ensures ep in ConfiguredEndpoints(pcs, resolve) <==>
            exists pc :: pc in pcs && pc.endpoint.Some? && resolve(pc.endpoint.value) == Some(ep)
  {
    forall pc | pc in pcs
      ensures ParseIp4(pc.allowedIp) == Some(ip) <==> pc.allowedIp == PrintIp4(ip)
    {
      ParseIp4Iff(pc.allowedIp, ip);
    }
  }

  /** An entry is for an IP exactly if it has that IP printed, and a key printed with white
      space around it or without. */
  lemma ValidIff(pc: PeerConfig, ip: Ip4)
    ensures ValidIp(pc) == Some(ip) <==>
            pc.allowedIp == PrintIp4(ip) && exists key: Key :: IsKeyText(pc.publicKey, key)
  {
    ParseIp4Iff(pc.allowedIp, ip);
    forall key: Key
      ensures IsKeyText(pc.publicKey, key) <==> ParsePublicKey(pc.publicKey) == Some(key)
    {
      ParsePublicKeyIff(pc.publicKey, key);
    }
    if ParsePublicKey(pc.publicKey).Some? {
      assert IsKeyText(pc.publicKey, ParsePublicKey(pc.publicKey).value);
    }
  }

  ghost predicate IsKeyText(s: string, key: Key) {
    exists before, after :: Blank(before) && Blank(after) && s == before + Encode64(key) + after
  }

  /** No other entry is for the same IP. */
  ghost predicate OnlyEntryFor(pcs: seq<PeerConfig>, i: nat)
    requires i < |pcs|
  {
    forall j :: 0 <= j < |pcs| && j != i ==> ValidIp(pcs[j]) != ValidIp(pcs[i])
  }

  lemma {:induction false} UnnamedIsUntouched(me: Identity, t: Table, pcs: seq<PeerConfig>, resolve: Resolver, ip: Ip4)
    requires ip in t.peers && forall j :: 0 <= j < |pcs| ==> ValidIp(pcs[j]) != Some(ip)
    ensures var u := ApplyAll(me, t, t.peers.Keys, pcs, resolve);
            ip in u.peers && u.peers[ip] == t.peers[ip]
  {
    if pcs != [] {
      var init := pcs[..|pcs| - 1];
      UnnamedIsUntouched(me, t, init, resolve, ip);
      ApplyAllLeavesOthers(me, t, init, resolve);
      EntryLeavesOthers(me, ApplyAll(me, t, t.peers.Keys, init, resolve), t.peers.Keys, pcs[|pcs| - 1], resolve);
    }
  }

  /** What an entry says of the endpoint of the peer that it is for: none and no pin; or one
      that does not resolve, so nothing changes; or an address, to which the peer is pinned
      under the configured name if it has to move, and else under the name it was, if any. */
  ghost predicate EndpointSet(before: Peer, after: Peer, endpoint: Option<string>, resolve: Resolver) {
    if endpoint.None? then after.endpoint.None? && after.configuredEndpoint.None?
    else if resolve(endpoint.value).None? then
      after.endpoint == before.endpoint && after.configuredEndpoint == before.configuredEndpoint
    else
      && after.endpoint == resolve(endpoint.value)
      && after.configuredEndpoint ==
         if before.endpoint != resolve(endpoint.value) then endpoint else before.configuredEndpoint
  }

  lemma EntrySetsEndpoint(me: Identity, t: Table, existing: set<Ip4>, pc: PeerConfig, resolve: Resolver, ip: Ip4)
    requires existing <= t.peers.Keys && ip in existing && ValidIp(pc) == Some(ip)
    ensures var u := ApplyEntry(me, t, existing, pc, resolve);
            ip in u.peers && EndpointSet(t.peers[ip], u.peers[ip], pc.endpoint, resolve)
  {
  }

  lemma {:induction false} EntriesSetEndpoint(me: Identity, t: Table, pcs: seq<PeerConfig>, resolve: Resolver, i: nat)
    requires i < |pcs| && OnlyEntryFor(pcs, i) && ValidIp(pcs[i]).Some? && ValidIp(pcs[i]).value in t.peers
    ensures var ip, u := ValidIp(pcs[i]).value, ApplyAll(me, t, t.peers.Keys, pcs, resolve);
            ip in u.peers && EndpointSet(t.peers[ip], u.peers[ip], pcs[i].endpoint, resolve)
    decreases |pcs|
  {
    var ip, init := ValidIp(pcs[i]).value, pcs[..|pcs| - 1];
    var v := ApplyAll(me, t, t.peers.Keys, init, resolve);
    ApplyAllLeavesOthers(me, t, init, resolve);
    if i == |pcs| - 1 {
      assert forall j :: 0 <= j < |init| ==> init[j] == pcs[j];
      UnnamedIsUntouched(me, t, init, resolve, ip);
      EntrySetsEndpoint(me, v, t.peers.Keys, pcs[i], resolve, ip);
    } else {
      assert forall j :: 0 <= j < |init| ==> init[j] == pcs[j];
      EntriesSetEndpoint(me, t, init, resolve, i);
      assert ValidIp(pcs[|pcs| - 1]) != ValidIp(pcs[i]);
      EntryLeavesOthers(me, v, t.peers.Keys, pcs[|pcs| - 1], resolve);
    }
  }

  /** A whole reload leaves a peer that it finds in the table at the address configured for
      it, but pins it under that name only if the peer has to move: where it had roamed to
      the address already it is left unpinned, and a host that was renamed at its address is
      left under the old name. */
  lemma ReloadPinsIff(me: Identity, t: Table, pcs: seq<PeerConfig>, resolve: Resolver, now: nat, i: nat)
    requires i < |pcs| && OnlyEntryFor(pcs, i) && ValidIp(pcs[i]).Some? && ValidIp(pcs[i]).value in t.peers
    ensures var ip, r := ValidIp(pcs[i]).value, Reloaded(me, t, pcs, resolve, now);
            && ip in r.peers
            && EndpointSet(t.peers[ip], r.peers[ip], pcs[i].endpoint, resolve)
  {
    EntriesSetEndpoint(me, t, pcs, resolve, i);
  }

  lemma EntryKeepsOrAdds(me: Identity, u: Table, existing: set<Ip4>, pc: PeerConfig, resolve: Resolver,
                         ip: Ip4, p: Peer)
    requires existing <= u.peers.Keys
    requires if ValidIp(pc) == Some(ip) then ip !in existing && p == ConfiguredPeer(me, pc, resolve)
             else ip in u.peers && u.peers[ip] == p
    ensures var v := ApplyEntry(me, u, existing, pc, resolve);
            ip in v.peers && v.peers[ip] == p
  {
    EntryLeavesOthers(me, u, existing, pc, resolve);
  }

  lemma LastKeepsOrAdds(me: Identity, t: Table, pcs: seq<PeerConfig>, resolve: Resolver, ip: Ip4, p: Peer)
    requires pcs != [] && ip !in t.peers
    requires var u := ApplyAll(me, t, t.peers.Keys, pcs[..|pcs| - 1], resolve);
             if ValidIp(pcs[|pcs| - 1]) == Some(ip) then p == ConfiguredPeer(me, pcs[|pcs| - 1], resolve)
             else ip in u.peers && u.peers[ip] == p
    ensures var u := ApplyAll(me, t, t.peers.Keys, pcs, resolve);
            ip in u.peers && u.peers[ip] == p
  {
    var u := ApplyAll(me, t, t.peers.Keys, pcs[..|pcs| - 1], resolve);
    ApplyAllLeavesOthers(me, t, pcs[..|pcs| - 1], resolve);
    EntryKeepsOrAdds(me, u, t.peers.Keys, pcs[|pcs| - 1], resolve, ip, p);
  }

  lemma {:induction false} NewEntryIsAdded(
    me: Identity, t: Table, pcs: seq<PeerConfig>, resolve: Resolver, i: nat, ip: Ip4, p: Peer)
    requires i < |pcs| && ip !in t.peers && ValidIp(pcs[i]) == Some(ip) && p == ConfiguredPeer(me, pcs[i], resolve)
    requires forall j :: i < j < |pcs| ==> ValidIp(pcs[j]) != Some(ip)
    ensures var u := ApplyAll(me, t, t.peers.Keys, pcs, resolve);
            ip in u.peers && u.peers[ip] == p
    decreases |pcs|
  {
    var init := pcs[..|pcs| - 1];
    if i < |init| {
      assert forall j :: 0 <= j < |init| ==> init[j] == pcs[j];
      NewEntryIsAdded(me, t, init, resolve, i, ip, p);
    }
    LastKeepsOrAdds(me, t, pcs, resolve, ip, p);
  }

  /** What an entry for a new IP brings in, if it is the only one for that IP or the last: a
      peer with the key, the name and the pin of the entry, at the address it resolves to,
      reached directly, never seen, in a new session. */
  lemma ReloadAdds(me: Identity, t: Table, pcs: seq<PeerConfig>, resolve: Resolver, now: nat, i: nat)
    requires i < |pcs| && ValidIp(pcs[i]).Some? && ValidIp(pcs[i]).value !in t.peers
    requires forall j :: i < j < |pcs| ==> ValidIp(pcs[j]) != ValidIp(pcs[i])
    ensures var ip, key := ValidIp(pcs[i]).value, ParsePublicKey(pcs[i].publicKey).value;
            var r := Reloaded(me, t, pcs, resolve, now);
            && ip in r.peers
            && r.peers[ip] == Peer(
                 key, me.idOf(key), ip,
                 if pcs[i].endpoint.Some? then resolve(pcs[i].endpoint.value) else None,
                 if pcs[i].name.Some? then pcs[i].name.value else "",
                 Some(Session(me.sharedWith(key), Bytes.Less(me.publicKey, key), 0, 0)),
                 false, None, None, pcs[i].endpoint)
  {
    assert pcs[i] in pcs;
    NewEntryIsAdded(me, t, pcs, resolve, i, ValidIp(pcs[i]).value, ConfiguredPeer(me, pcs[i], resolve));
  }

  /** And for a peer that was there: besides endpoint and pin, it takes the entry's name,
      unless that is empty, and keeps all else. */
  lemma ReloadRenames(me: Identity, t: Table, pcs: seq<PeerConfig>, resolve: Resolver, now: nat, i: nat)
    requires i < |pcs| && OnlyEntryFor(pcs, i) && ValidIp(pcs[i]).Some? && ValidIp(pcs[i]).value in t.peers
    ensures var ip, r := ValidIp(pcs[i]).value, Reloaded(me, t, pcs, resolve, now);
            && ip in r.peers
            && r.peers[ip] == t.peers[ip].(
                 endpoint := r.peers[ip].endpoint, configuredEndpoint := r.peers[ip].configuredEndpoint,
                 hostname := if pcs[i].name.Some? && pcs[i].name.value != "" then pcs[i].name.value
                             else t.peers[ip].hostname)
  {
    assert pcs[i] in pcs;
    EntriesRename(me, t, pcs, resolve, i, ValidIp(pcs[i]).value);
  }

  /** The peer with nothing but endpoint, pin and name changed, and this name. */
  predicate Renamed(before: Peer, after: Peer, name: Option<string>) {
    after == before.(
      endpoint := after.endpoint, configuredEndpoint := after.configuredEndpoint,
      hostname := if name.Some? && name.value != "" then name.value else before.hostname)
  }

  lemma EntryRenames(me: Identity, u: Table, existing: set<Ip4>, pc: PeerConfig, resolve: Resolver, ip: Ip4)
    requires existing <= u.peers.Keys && ip in existing && ValidIp(pc) == Some(ip)
    ensures var v := ApplyEntry(me, u, existing, pc, resolve);
            ip in v.peers && Renamed(u.peers[ip], v.peers[ip], pc.name)
  {
  }

  lemma {:induction false} EntriesRename(
    me: Identity, t: Table, pcs: seq<PeerConfig>, resolve: Resolver, i: nat, ip: Ip4)
    requires i < |pcs| && ip in t.peers && ValidIp(pcs[i]) == Some(ip)
    requires forall j :: 0 <= j < |pcs| && j != i ==> ValidIp(pcs[j]) != Some(ip)
    ensures var u := ApplyAll(me, t, t.peers.Keys, pcs, resolve);
            ip in u.peers && Renamed(t.peers[ip], u.peers[ip], pcs[i].name)
    decreases |pcs|
  {
    var init := pcs[..|pcs| - 1];
    assert forall j :: 0 <= j < |init| ==> init[j] == pcs[j];
    if i < |init| {
      EntriesRename(me, t, init, resolve, i, ip);
      LastLeaves(me, t, pcs, resolve, ip);
    } else {
      UnnamedIsUntouched(me, t, init, resolve, ip);
      LastRenames(me, t, pcs, resolve, ip);
    }
  }

  lemma LastLeaves(me: Identity, t: Table, pcs: seq<PeerConfig>, resolve: Resolver, ip: Ip4)
    requires pcs != [] && ValidIp(pcs[|pcs| - 1]) != Some(ip)
    requires ip in ApplyAll(me, t, t.peers.Keys, pcs[..|pcs| - 1], resolve).peers
    ensures var u := ApplyAll(me, t, t.peers.Keys, pcs[..|pcs| - 1], resolve);
            var v := ApplyAll(me, t, t.peers.Keys, pcs, resolve);
            ip in v.peers && v.peers[ip] == u.peers[ip]
  {
    ApplyAllLeavesOthers(me, t, pcs[..|pcs| - 1], resolve);
    EntryLeavesOthers(me, ApplyAll(me, t, t.peers.Keys, pcs[..|pcs| - 1], resolve), t.peers.Keys,
                      pcs[|pcs| - 1], resolve);
  }

  lemma LastRenames(me: Identity, t: Table, pcs: seq<PeerConfig>, resolve: Resolver, ip: Ip4)
    requires pcs != [] && ip in t.peers && ValidIp(pcs[|pcs| - 1]) == Some(ip)
    ensures var u := ApplyAll(me, t, t.peers.Keys, pcs[..|pcs| - 1], resolve);
            var v := ApplyAll(me, t, t.peers.Keys, pcs, resolve);
            ip in u.peers && ip in v.peers && Renamed(u.peers[ip], v.peers[ip], pcs[|pcs| - 1].name)
  {
    ApplyAllLeavesOthers(me, t, pcs[..|pcs| - 1], resolve);
    EntryRenames(me, ApplyAll(me, t, t.peers.Keys, pcs[..|pcs| - 1], resolve), t.peers.Keys,
                 pcs[|pcs| - 1], resolve, ip);
  }

  /** A table that holds one peer alone, at this address, as roaming has left it. */
  function Roamed(me: Identity, key: Key, ip: Ip4, addr: SocketAddr): Table {
    Table(map[], map[], map[], {}).AddPeer(NewPeer(me, key, ip).(endpoint := Some(addr)))
  }

  /** So it happens: the peer has roamed to the address that is configured now, and after the
      reload the next packet from elsewhere moves it away again. */
  lemma RoamedStaysUnpinned(me: Identity, key: Key, ip: Ip4, addr: SocketAddr, other: SocketAddr,
                            ep: string, resolve: Resolver, now: nat)
    requires resolve(ep) == Some(addr) && other != addr
    ensures var pc := PeerConfig(Encode64(key), Some(ep), PrintIp4(ip), None);
            var r := Reloaded(me, Roamed(me, key, ip, addr), [pc], resolve, now);
            && ip in r.peers && r.peers[ip].endpoint == Some(addr) && r.peers[ip].configuredEndpoint.None?
            && ip in r.UpdateEndpointIfRoaming(ip, other).peers
            && r.UpdateEndpointIfRoaming(ip, other).peers[ip].endpoint == Some(other)
  {
    var pc := PeerConfig(Encode64(key), Some(ep), PrintIp4(ip), None);
    EntryIsValid(key, ip, pc);
    ReloadPinsIff(me, Roamed(me, key, ip, addr), [pc], resolve, now, 0);
  }

  lemma EntryIsValid(key: Key, ip: Ip4, pc: PeerConfig)
    requires pc.publicKey == Encode64(key) && pc.allowedIp == PrintIp4(ip)
    ensures ParsePublicKey(pc.publicKey) == Some(key) && ValidIp(pc) == Some(ip)
  {
    ParsePrintedKey("", key, "");
    assert "" + Encode64(key) + "" == Encode64(key);
    ParsePrintedIp4(ip);
  }

  lemma EntryKeepsKey(me: Identity, t: Table, existing: set<Ip4>, pc: PeerConfig, resolve: Resolver, ip: Ip4)
    requires existing <= t.peers.Keys && ip in existing
    ensures var u := ApplyEntry(me, t, existing, pc, resolve);
            && existing <= u.peers.Keys
            && u.peers[ip].publicKey == t.peers[ip].publicKey && u.peers[ip].session == t.peers[ip].session
  {
  }

  lemma {:induction false} ApplyAllKeepsKey(me: Identity, t: Table, pcs: seq<PeerConfig>, resolve: Resolver, ip: Ip4)
    requires ip in t.peers
    ensures var u := ApplyAll(me, t, t.peers.Keys, pcs, resolve);
            && t.peers.Keys <= u.peers.Keys
            && u.peers[ip].publicKey == t.peers[ip].publicKey && u.peers[ip].session == t.peers[ip].session
  {
    if pcs != [] {
      var init := pcs[..|pcs| - 1];
      ApplyAllKeepsKey(me, t, init, resolve, ip);
      EntryKeepsKey(me, ApplyAll(me, t, t.peers.Keys, init, resolve), t.peers.Keys, pcs[|pcs| - 1], resolve, ip);
    }
  }

  /** A peer that was in the table keeps its key and its session, whatever key the
      configuration gives for its IP. */
  lemma ReloadKeepsKeys(me: Identity, t: Table, pcs: seq<PeerConfig>, resolve: Resolver, now: nat, ip: Ip4)
    requires ip in t.peers
    ensures var r := Reloaded(me, t, pcs, resolve, now);
            ip in r.peers ==>
              r.peers[ip].publicKey == t.peers[ip].publicKey && r.peers[ip].session == t.peers[ip].session
  {
    ApplyAllKeepsKey(me, t, pcs, resolve, ip);
  }

  // ---------- a reload as a run ----------

  lemma EndpointIsRun(n: Node, t: Table, ops: seq<Op>, ip: Ip4, endpoint: Option<string>, resolve: Resolver)
    returns (ops': seq<Op>)
    requires IsRun(n, t, ops) && ip in Run(n, t, ops).peers
    ensures IsRun(n, t, ops') && Run(n, t, ops') == ApplyEndpoint(Run(n, t, ops), ip, endpoint, resolve)
  {
    var u := Run(n, t, ops);
    ops' := ops;
    if endpoint.None? {
      ops' := Arrivals.Extend(n, t, ops', Clear(ip));
    } else if resolve(endpoint.value).Some? && u.peers[ip].endpoint != resolve(endpoint.value) {
      ops' := Arrivals.Extend(n, t, ops', SetEndpoint(ip, resolve(endpoint.value).value));
      var p := Run(n, t, ops').peers[ip];
      ops' := Arrivals.Extend(n, t, ops', Touch(ip, p.session, p.lastSeen, p.hostname, endpoint));
    }
  }

  lemma NameIsRun(n: Node, t: Table, ops: seq<Op>, ip: Ip4, name: string) returns (ops': seq<Op>)
    requires IsRun(n, t, ops) && ip in Run(n, t, ops).peers
    ensures IsRun(n, t, ops') && Run(n, t, ops') == ApplyName(Run(n, t, ops), ip, name)
  {
    var p := Run(n, t, ops).peers[ip];
    ops' := if name == "" then ops else Arrivals.Extend(n, t, ops, Touch(ip, p.session, p.lastSeen, name, None));
  }

  /** The operations of one entry, added to a run. */
  lemma EntryIsRun(n: Node, t: Table, ops: seq<Op>, existing: set<Ip4>, pc: PeerConfig, resolve: Resolver)
    returns (ops': seq<Op>)
    requires IsRun(n, t, ops)
    ensures IsRun(n, t, ops') && Run(n, t, ops') == ApplyEntry(n.me, Run(n, t, ops), existing, pc, resolve)
  {
    ops' := ops;
    if ValidIp(pc).Some? {
      var ip := ValidIp(pc).value;
      if ip !in existing {
        ops' := Arrivals.Extend(n, t, ops', Add(ConfiguredPeer(n.me, pc, resolve)));
      } else if ip in Run(n, t, ops).peers {
        ops' := EndpointIsRun(n, t, ops', ip, pc.endpoint, resolve);
        ops' := NameIsRun(n, t, ops', ip, pc.name.GetOr(""));
      }
    }
  }

  lemma {:induction false} ApplyAllIsRun(n: Node, t: Table, existing: set<Ip4>, pcs: seq<PeerConfig>, resolve: Resolver)
    returns (ops: seq<Op>)
    ensures IsRun(n, t, ops) && Run(n, t, ops) == ApplyAll(n.me, t, existing, pcs, resolve)
  {
    ops := [];
    if pcs != [] {
      ops := ApplyAllIsRun(n, t, existing, pcs[..|pcs| - 1], resolve);
      ops := EntryIsRun(n, t, ops, existing, pcs[|pcs| - 1], resolve);
    }
  }

  lemma {:induction false} PurgeAllIsRun(n: Node, t: Table, ops: seq<Op>, ghosts: set<Ip4>) returns (ops': seq<Op>)
    requires IsRun(n, t, ops) && ghosts <= Run(n, t, ops).peers.Keys
    ensures IsRun(n, t, ops') && Run(n, t, ops') == PurgeAll(Run(n, t, ops), ghosts)
    decreases ghosts
  {
    var u := Run(n, t, ops);
    if ghosts == {} {
      assert PurgeAll(u, {}) == u;
      ops' := ops;
    } else {
      var ip :| ip in ghosts;
      ops' := PurgeAllIsRun(n, t, ops, ghosts - {ip});
      PurgeOneMore(u, ghosts - {ip}, ip);
      assert ghosts - {ip} + {ip} == ghosts;
      ops' := Arrivals.Extend(n, t, ops', Purge(ip));
    }
  }

  /** A reload is a run of table operations, so all that runs keep, reloads keep. */
  lemma ReloadIsRun(n: Node, t: Table, pcs: seq<PeerConfig>, resolve: Resolver, now: nat) returns (ops: seq<Op>)
    ensures IsRun(n, t, ops) && Run(n, t, ops) == Reloaded(n.me, t, pcs, resolve, now)
  {
    ops := ApplyAllIsRun(n, t, t.peers.Keys, pcs, resolve);
    var u := ApplyAll(n.me, t, t.peers.Keys, pcs, resolve);
    ops := PurgeAllIsRun(n, t, ops, Ghosts(u, ConfiguredIps(pcs), ConfiguredEndpoints(pcs, resolve), now));
  }
}
