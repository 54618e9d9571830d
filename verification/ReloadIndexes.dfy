/** What a reload does to the indexes: exactly when it keeps them, and the ways in which it
    does not. */
module ReloadIndexes {
  import opened Common
  import opened Text
  import opened PeerTable
  import opened PeerIndexes
  import opened Config
  import opened Reload

  /** The entries with a valid key and address are for different IPs. */
  ghost predicate IpsDistinct(pcs: seq<PeerConfig>) {
    forall i, j :: 0 <= i < j < |pcs| && ValidIp(pcs[i]).Some? ==> ValidIp(pcs[i]) != ValidIp(pcs[j])
  }

  // ---------- sound indexes, entry by entry ----------

  /** No IP that is new to the table is brought in by two entries. */
  ghost predicate NewIpsDistinct(t: Table, pcs: seq<PeerConfig>) {
    forall i, j :: 0 <= i < j < |pcs| && ValidIp(pcs[i]).Some? && ValidIp(pcs[i]) == ValidIp(pcs[j]) ==>
      ValidIp(pcs[i]).value in t.peers
  }

  lemma EditKeepsSound(t: Table, ip: Ip4, p: Peer)
    requires Sound(t) && ip in t.peers && p.endpoint == t.peers[ip].endpoint && p.peerId == t.peers[ip].peerId
    ensures Sound(t.(peers := t.peers[ip := p]))
  {
  }

  lemma EndpointKeepsSound(t: Table, ip: Ip4, endpoint: Option<string>, resolve: Resolver)
    requires Sound(t) && ip in t.peers
    ensures Sound(ApplyEndpoint(t, ip, endpoint, resolve))
  {
    if endpoint.None? {
      ClearEndpointKeeps(t, ip);
    } else if resolve(endpoint.value).Some? && t.peers[ip].endpoint != resolve(endpoint.value) {
      var u := t.UpdateEndpoint(ip, resolve(endpoint.value).value);
      UpdateEndpointKeeps(t, ip, resolve(endpoint.value).value);
      EditKeepsSound(u, ip, u.peers[ip].(configuredEndpoint := endpoint));
    }
  }

  /** An entry for a new IP displaces no peer, or leaves no index entry of it behind. */
  ghost predicate CleanEntry(me: Identity, t: Table, existing: set<Ip4>, pc: PeerConfig, resolve: Resolver) {
    ValidIp(pc).Some? && ValidIp(pc).value !in existing ==> LeavesNothingStale(t, ConfiguredPeer(me, pc, resolve))
  }

  lemma EntrySoundIff(me: Identity, t: Table, existing: set<Ip4>, pc: PeerConfig, resolve: Resolver)
    requires Sound(t) && existing <= t.peers.Keys
    ensures Sound(ApplyEntry(me, t, existing, pc, resolve)) <==> CleanEntry(me, t, existing, pc, resolve)
  {
    if ValidIp(pc).Some? {
      var ip := ValidIp(pc).value;
      if ip !in existing {
        AddPeerSoundIff(t, ConfiguredPeer(me, pc, resolve));
      } else {
        EndpointKeepsSound(t, ip, pc.endpoint, resolve);
        var u := ApplyEndpoint(t, ip, pc.endpoint, resolve);
        EditKeepsSound(u, ip, u.peers[ip].(hostname := pc.name.GetOr("")));
      }
    }
  }

  ghost predicate CleanEntries(me: Identity, t: Table, existing: set<Ip4>, pcs: seq<PeerConfig>, resolve: Resolver) {
    pcs == [] ||
    (var init := pcs[..|pcs| - 1];
     && CleanEntries(me, t, existing, init, resolve)
     && CleanEntry(me, ApplyAll(me, t, existing, init, resolve), existing, pcs[|pcs| - 1], resolve))
  }

  ghost predicate SoundThroughout(me: Identity, t: Table, existing: set<Ip4>, pcs: seq<PeerConfig>, resolve: Resolver) {
    && Sound(ApplyAll(me, t, existing, pcs, resolve))
    && (pcs == [] || SoundThroughout(me, t, existing, pcs[..|pcs| - 1], resolve))
  }

  /** The indexes are sound after each entry if and only if every entry is clean. */
  lemma {:induction false} EntriesSoundIff(me: Identity, t: Table, pcs: seq<PeerConfig>, resolve: Resolver)
    requires Sound(t)
    ensures SoundThroughout(me, t, t.peers.Keys, pcs, resolve) <==> CleanEntries(me, t, t.peers.Keys, pcs, resolve)
  {
    if pcs != [] {
      var init := pcs[..|pcs| - 1];
      EntriesSoundIff(me, t, init, resolve);
      ApplyAllLeavesOthers(me, t, init, resolve);
      if SoundThroughout(me, t, t.peers.Keys, init, resolve) {
        EntrySoundIff(me, ApplyAll(me, t, t.peers.Keys, init, resolve), t.peers.Keys, pcs[|pcs| - 1], resolve);
      }
    }
  }

  lemma {:induction false} NewIpsAreNamed(me: Identity, t: Table, pcs: seq<PeerConfig>, resolve: Resolver, ip: Ip4)
    requires ip in ApplyAll(me, t, t.peers.Keys, pcs, resolve).peers && ip !in t.peers
    ensures exists i :: 0 <= i < |pcs| && ValidIp(pcs[i]) == Some(ip)
  {
    if pcs != [] {
      var init := pcs[..|pcs| - 1];
      ApplyAllLeavesOthers(me, t, init, resolve);
      var u := ApplyAll(me, t, t.peers.Keys, init, resolve);
      EntryLeavesOthers(me, u, t.peers.Keys, pcs[|pcs| - 1], resolve);
      if ip in u.peers {
        NewIpsAreNamed(me, t, init, resolve, ip);
        var i :| 0 <= i < |init| && ValidIp(init[i]) == Some(ip);
        assert ValidIp(pcs[i]) == Some(ip);
      } else {
        assert ValidIp(pcs[|pcs| - 1]) == Some(ip);
      }
    }
  }

  lemma {:induction false} DistinctIsClean(me: Identity, t: Table, pcs: seq<PeerConfig>, resolve: Resolver)
    requires NewIpsDistinct(t, pcs)
    ensures CleanEntries(me, t, t.peers.Keys, pcs, resolve)
  {
    if pcs != [] {
      var init, pc := pcs[..|pcs| - 1], pcs[|pcs| - 1];
      assert NewIpsDistinct(t, init);
      DistinctIsClean(me, t, init, resolve);
      var u := ApplyAll(me, t, t.peers.Keys, init, resolve);
      if ValidIp(pc).Some? && ValidIp(pc).value !in t.peers {
        forall i | 0 <= i < |init|
          ensures ValidIp(init[i]) != ValidIp(pc)
        {
          assert ValidIp(pcs[i]) != ValidIp(pcs[|pcs| - 1]);
        }
        if ValidIp(pc).value in u.peers {
          NewIpsAreNamed(me, t, init, resolve, ValidIp(pc).value);
          assert false;
        }
      }
    }
  }

  lemma {:induction false} PurgeAllKeepsSound(t: Table, ghosts: set<Ip4>)
    requires Sound(t) && ghosts <= t.peers.Keys
    ensures Sound(PurgeAll(t, ghosts))
  {
  }

  /** A reload with clean entries keeps the indexes sound, and entries that bring in no new
      IP twice are clean. */
  lemma ReloadKeepsSound(me: Identity, t: Table, pcs: seq<PeerConfig>, resolve: Resolver, now: nat)
    requires Sound(t)
    ensures CleanEntries(me, t, t.peers.Keys, pcs, resolve) ==> Sound(Reloaded(me, t, pcs, resolve, now))
    ensures NewIpsDistinct(t, pcs) ==> CleanEntries(me, t, t.peers.Keys, pcs, resolve)
  {
    EntriesSoundIff(me, t, pcs, resolve);
    var u := ApplyAll(me, t, t.peers.Keys, pcs, resolve);
    ApplyAllLeavesOthers(me, t, pcs, resolve);
    if Sound(u) {
      PurgeAllKeepsSound(u, Ghosts(u, ConfiguredIps(pcs), ConfiguredEndpoints(pcs, resolve), now));
    }
    if NewIpsDistinct(t, pcs) {
      DistinctIsClean(me, t, pcs, resolve);
    }
  }

  // ---------- exact indexes, entry by entry ----------

  /** The entry takes no endpoint and no id that a peer at another IP holds, and leaves
      nothing stale. */
  ghost predicate ExactEntry(me: Identity, t: Table, existing: set<Ip4>, pc: PeerConfig, resolve: Resolver) {
    if ValidIp(pc).None? then true
    else
      var ip := ValidIp(pc).value;
      if ip !in existing then
        var p := ConfiguredPeer(me, pc, resolve);
        LeavesNothingStale(t, p) && EndpointFree(t, ip, p.endpoint) && IdFree(t, ip, p.peerId)
      else
        ip in t.peers && pc.endpoint.Some? && resolve(pc.endpoint.value).Some?
        && t.peers[ip].endpoint != resolve(pc.endpoint.value) ==>
          EndpointFree(t, ip, resolve(pc.endpoint.value))
  }

  lemma EditKeepsExact(t: Table, ip: Ip4, p: Peer)
    requires Sound(t) && ip in t.peers && p.endpoint == t.peers[ip].endpoint && p.peerId == t.peers[ip].peerId
    ensures Exact(t.(peers := t.peers[ip := p])) <==> Exact(t)
  {
    EditKeepsSound(t, ip, p);
    var u := t.(peers := t.peers[ip := p]);
    assert u.peers.Keys == t.peers.Keys;
    assert forall x :: x in t.peers ==> (Indexed(t, x) <==> Indexed(u, x));
  }

  lemma EndpointExactIff(t: Table, ip: Ip4, endpoint: Option<string>, resolve: Resolver)
    requires Exact(t) && ip in t.peers
    ensures Exact(ApplyEndpoint(t, ip, endpoint, resolve)) <==>
            (endpoint.Some? && resolve(endpoint.value).Some? && t.peers[ip].endpoint != resolve(endpoint.value) ==>
               EndpointFree(t, ip, resolve(endpoint.value)))
  {
    if endpoint.None? {
      ClearEndpointKeeps(t, ip);
    } else if resolve(endpoint.value).Some? && t.peers[ip].endpoint != resolve(endpoint.value) {
      var u := t.UpdateEndpoint(ip, resolve(endpoint.value).value);
      UpdateEndpointKeeps(t, ip, resolve(endpoint.value).value);
      EditKeepsExact(u, ip, u.peers[ip].(configuredEndpoint := endpoint));
    }
  }

  lemma EntryExactIff(me: Identity, t: Table, existing: set<Ip4>, pc: PeerConfig, resolve: Resolver)
    requires Exact(t) && existing <= t.peers.Keys
    ensures Exact(ApplyEntry(me, t, existing, pc, resolve)) <==> ExactEntry(me, t, existing, pc, resolve)
  {
    if ValidIp(pc).Some? {
      var ip := ValidIp(pc).value;
      if ip !in existing {
        AddPeerExactIff(t, ConfiguredPeer(me, pc, resolve));
      } else {
        EndpointKeepsSound(t, ip, pc.endpoint, resolve);
        EndpointExactIff(t, ip, pc.endpoint, resolve);
        var u := ApplyEndpoint(t, ip, pc.endpoint, resolve);
        EditKeepsExact(u, ip, u.peers[ip].(hostname := pc.name.GetOr("")));
      }
    }
  }

  ghost predicate ExactEntries(me: Identity, t: Table, existing: set<Ip4>, pcs: seq<PeerConfig>, resolve: Resolver) {
    pcs == [] ||
    (var init := pcs[..|pcs| - 1];
     && ExactEntries(me, t, existing, init, resolve)
     && ExactEntry(me, ApplyAll(me, t, existing, init, resolve), existing, pcs[|pcs| - 1], resolve))
  }

  ghost predicate ExactThroughout(me: Identity, t: Table, existing: set<Ip4>, pcs: seq<PeerConfig>, resolve: Resolver) {
    && Exact(ApplyAll(me, t, existing, pcs, resolve))
    && (pcs == [] || ExactThroughout(me, t, existing, pcs[..|pcs| - 1], resolve))
  }

  /** The indexes are exact after each entry if and only if no entry takes what another peer
      holds or leaves anything stale. */
  lemma {:induction false} EntriesExactIff(me: Identity, t: Table, pcs: seq<PeerConfig>, resolve: Resolver)
    requires Exact(t)
    ensures ExactThroughout(me, t, t.peers.Keys, pcs, resolve) <==> ExactEntries(me, t, t.peers.Keys, pcs, resolve)
  {
    if pcs != [] {
      var init := pcs[..|pcs| - 1];
      EntriesExactIff(me, t, init, resolve);
      ApplyAllLeavesOthers(me, t, init, resolve);
      if ExactThroughout(me, t, t.peers.Keys, init, resolve) {
        EntryExactIff(me, ApplyAll(me, t, t.peers.Keys, init, resolve), t.peers.Keys, pcs[|pcs| - 1], resolve);
      }
    }
  }

  lemma PurgeAllKeepsExact(t: Table, ghosts: set<Ip4>)
    requires Exact(t) && ghosts <= t.peers.Keys
    ensures Exact(PurgeAll(t, ghosts))
  {
    PurgeAllKeepsSound(t, ghosts);
    var u := PurgeAll(t, ghosts);
    forall x | x in u.peers
      ensures Indexed(u, x)
    {
      assert Indexed(t, x);
      assert forall g :: g in ghosts ==> Indexed(t, g);
    }
  }

  lemma ReloadKeepsExact(me: Identity, t: Table, pcs: seq<PeerConfig>, resolve: Resolver, now: nat)
    requires Exact(t) && ExactEntries(me, t, t.peers.Keys, pcs, resolve)
    ensures Exact(Reloaded(me, t, pcs, resolve, now))
  {
    EntriesExactIff(me, t, pcs, resolve);
    var u := ApplyAll(me, t, t.peers.Keys, pcs, resolve);
    PurgeAllKeepsExact(u, Ghosts(u, ConfiguredIps(pcs), ConfiguredEndpoints(pcs, resolve), now));
  }

  // ---------- exact indexes after the whole reload ----------

  /** The peer at this IP is not indexed, or shares its endpoint or id with another. */
  ghost predicate Misfiled(t: Table, ip: Ip4) {
    && ip in t.peers
    && (!Indexed(t, ip) || exists x :: x in t.peers && x != ip && Collide(t.peers[x], t.peers[ip]))
  }

  predicate Collide(p: Peer, q: Peer) {
    (p.endpoint.Some? && p.endpoint == q.endpoint) || p.peerId == q.peerId
  }

  lemma MisfiledIsInexact(t: Table, ip: Ip4)
    requires Misfiled(t, ip)
    ensures !Exact(t)
  {
  }

  /** Only an operation on the peer itself could mend that: taking the endpoint from the other
      peer takes it out of the index. */
  lemma AddKeepsMisfiled(t: Table, p: Peer, ip: Ip4)
    requires Misfiled(t, ip) && p.wolfnetIp != ip && p.wolfnetIp !in t.peers
    ensures Misfiled(t.AddPeer(p), ip)
  {
    var u := t.AddPeer(p);
    assert u.peers[ip] == t.peers[ip];
    if Indexed(u, ip) {
      assert Indexed(t, ip);
      var x :| x in t.peers && x != ip && Collide(t.peers[x], t.peers[ip]);
      assert x in u.peers && u.peers[x] == t.peers[x];
    }
  }

  lemma EndpointKeepsMisfiled(t: Table, y: Ip4, endpoint: Option<string>, resolve: Resolver, ip: Ip4)
    requires Misfiled(t, ip) && y in t.peers && y != ip
    ensures Misfiled(ApplyEndpoint(t, y, endpoint, resolve), ip)
  {
    var u := ApplyEndpoint(t, y, endpoint, resolve);
    assert u.peers[ip] == t.peers[ip] && u.peers[y].peerId == t.peers[y].peerId;
    if Indexed(u, ip) {
      assert Indexed(t, ip);
      var x :| x in t.peers && x != ip && Collide(t.peers[x], t.peers[ip]);
      assert x in u.peers && Collide(u.peers[x], u.peers[ip]);
    }
  }

  lemma EntryKeepsMisfiled(me: Identity, t: Table, existing: set<Ip4>, pc: PeerConfig, resolve: Resolver, ip: Ip4)
    requires Misfiled(t, ip) && existing <= t.peers.Keys && ValidIp(pc) != Some(ip)
    requires ValidIp(pc).Some? && ValidIp(pc).value in t.peers ==> ValidIp(pc).value in existing
    ensures Misfiled(ApplyEntry(me, t, existing, pc, resolve), ip)
  {
    if ValidIp(pc).Some? {
      var y := ValidIp(pc).value;
      if y !in existing {
        AddKeepsMisfiled(t, ConfiguredPeer(me, pc, resolve), ip);
      } else {
        EndpointKeepsMisfiled(t, y, pc.endpoint, resolve, ip);
        NameKeepsMisfiled(ApplyEndpoint(t, y, pc.endpoint, resolve), y, pc.name.GetOr(""), ip);
      }
    }
  }

  lemma NameKeepsMisfiled(t: Table, y: Ip4, name: string, ip: Ip4)
    requires Misfiled(t, ip) && y in t.peers && y != ip
    ensures Misfiled(ApplyName(t, y, name), ip)
  {
    var u := ApplyName(t, y, name);
    assert Indexed(u, ip) <==> Indexed(t, ip);
    if Indexed(t, ip) {
      var x :| x in t.peers && x != ip && Collide(t.peers[x], t.peers[ip]);
      assert x in u.peers && Collide(u.peers[x], u.peers[ip]);
    }
  }

  lemma PurgeKeepsMisfiled(t: Table, ghosts: set<Ip4>, ip: Ip4)
    requires Misfiled(t, ip) && ghosts <= t.peers.Keys && ip !in ghosts
    ensures Misfiled(PurgeAll(t, ghosts), ip)
  {
    var u := PurgeAll(t, ghosts);
    assert u.peers[ip] == t.peers[ip];
    if Indexed(u, ip) {
      assert Indexed(t, ip);
      var x :| x in t.peers && x != ip && Collide(t.peers[x], t.peers[ip]);
      assert x !in ghosts;
      assert x in u.peers && u.peers[x] == t.peers[x];
    }
  }

  lemma NewEntryMisfiles(me: Identity, t: Table, existing: set<Ip4>, pc: PeerConfig, resolve: Resolver)
    requires ValidIp(pc).Some? && ValidIp(pc).value !in t.peers && ValidIp(pc).value !in existing
    requires !ExactEntry(me, t, existing, pc, resolve)
    ensures Misfiled(ApplyEntry(me, t, existing, pc, resolve), ValidIp(pc).value)
  {
    var p := ConfiguredPeer(me, pc, resolve);
    var u := t.AddPeer(p);
    var x :| x in t.peers && x != p.wolfnetIp && Collide(t.peers[x], p);
    assert x in u.peers && u.peers[x] == t.peers[x] && Collide(u.peers[x], u.peers[p.wolfnetIp]);
  }

  lemma MovingEntryMisfiles(me: Identity, t: Table, existing: set<Ip4>, pc: PeerConfig, resolve: Resolver)
    requires existing <= t.peers.Keys && ValidIp(pc).Some? && ValidIp(pc).value in existing
    requires !ExactEntry(me, t, existing, pc, resolve)
    ensures Misfiled(ApplyEntry(me, t, existing, pc, resolve), ValidIp(pc).value)
  {
    var ip, addr := ValidIp(pc).value, resolve(pc.endpoint.value);
    var u := ApplyEntry(me, t, existing, pc, resolve);
    var x :| x in t.peers && x != ip && t.peers[x].endpoint == addr;
    EntryLeavesOthers(me, t, existing, pc, resolve);
    EntrySetsEndpoint(me, t, existing, pc, resolve, ip);
    assert u.peers[x].endpoint == addr && u.peers[ip].endpoint == addr;
    assert Collide(u.peers[x], u.peers[ip]);
  }

  /** An entry that takes what another peer holds leaves its own peer misfiled. */
  lemma EntryMisfiles(me: Identity, t: Table, existing: set<Ip4>, pc: PeerConfig, resolve: Resolver)
    requires existing <= t.peers.Keys && ValidIp(pc).Some?
    requires ValidIp(pc).value in t.peers ==> ValidIp(pc).value in existing
    requires !ExactEntry(me, t, existing, pc, resolve)
    ensures Misfiled(ApplyEntry(me, t, existing, pc, resolve), ValidIp(pc).value)
  {
    if ValidIp(pc).value in existing {
      MovingEntryMisfiles(me, t, existing, pc, resolve);
    } else {
      NewEntryMisfiles(me, t, existing, pc, resolve);
    }
  }

  /** No entry is for an IP that an earlier one has brought in. */
  lemma LastIsNew(me: Identity, t: Table, pcs: seq<PeerConfig>, resolve: Resolver)
    requires pcs != [] && NewIpsDistinct(t, pcs) && ValidIp(pcs[|pcs| - 1]).Some?
    requires ValidIp(pcs[|pcs| - 1]).value in ApplyAll(me, t, t.peers.Keys, pcs[..|pcs| - 1], resolve).peers
    ensures ValidIp(pcs[|pcs| - 1]).value in t.peers
  {
    var init, ip := pcs[..|pcs| - 1], ValidIp(pcs[|pcs| - 1]).value;
    if ip !in t.peers {
      forall i | 0 <= i < |init|
        ensures ValidIp(init[i]) != Some(ip)
      {
        assert ValidIp(pcs[i]) != ValidIp(pcs[|pcs| - 1]);
      }
      NewIpsAreNamed(me, t, init, resolve, ip);
      assert false;
    }
  }

  lemma {:induction false} EntriesMisfile(me: Identity, t: Table, pcs: seq<PeerConfig>, resolve: Resolver)
    returns (i: nat)
    requires Exact(t) && IpsDistinct(pcs) && !ExactEntries(me, t, t.peers.Keys, pcs, resolve)
    ensures i < |pcs| && ValidIp(pcs[i]).Some?
    ensures Misfiled(ApplyAll(me, t, t.peers.Keys, pcs, resolve), ValidIp(pcs[i]).value)
  {
    var init, last := pcs[..|pcs| - 1], |pcs| - 1;
    var u := ApplyAll(me, t, t.peers.Keys, init, resolve);
    assert forall k :: 0 <= k < |init| ==> init[k] == pcs[k];
    ApplyAllLeavesOthers(me, t, init, resolve);
    if ValidIp(pcs[last]).Some? && ValidIp(pcs[last]).value in u.peers {
      LastIsNew(me, t, pcs, resolve);
    }
    if !ExactEntries(me, t, t.peers.Keys, init, resolve) {
      i := EntriesMisfile(me, t, init, resolve);
      assert ValidIp(pcs[i]) != ValidIp(pcs[last]);
      EntryKeepsMisfiled(me, u, t.peers.Keys, pcs[last], resolve, ValidIp(pcs[i]).value);
    } else {
      i := last;
      EntryMisfiles(me, u, t.peers.Keys, pcs[last], resolve);
    }
  }

  /** Where the configured IPs differ, a whole reload keeps exact indexes exact if and only if
      no entry takes an endpoint or an id that another peer holds when its turn comes, a peer
      that the same reload purges included. */
  lemma ReloadExactIff(me: Identity, t: Table, pcs: seq<PeerConfig>, resolve: Resolver, now: nat)
    requires Exact(t) && IpsDistinct(pcs)
    ensures Exact(Reloaded(me, t, pcs, resolve, now)) <==> ExactEntries(me, t, t.peers.Keys, pcs, resolve)
  {
    var u := ApplyAll(me, t, t.peers.Keys, pcs, resolve);
    var ghosts := Ghosts(u, ConfiguredIps(pcs), ConfiguredEndpoints(pcs, resolve), now);
    if ExactEntries(me, t, t.peers.Keys, pcs, resolve) {
      ReloadKeepsExact(me, t, pcs, resolve, now);
    } else {
      var i := EntriesMisfile(me, t, pcs, resolve);
      var ip := ValidIp(pcs[i]).value;
      assert pcs[i] in pcs && ip in ConfiguredIps(pcs);
      PurgeKeepsMisfiled(u, ghosts, ip);
      MisfiledIsInexact(PurgeAll(u, ghosts), ip);
    }
  }

  // ---------- sound indexes after the whole reload ----------

  /** An entry that brings in a new IP, and the id of its key. */
  predicate IsNew(t: Table, pc: PeerConfig) {
    ValidIp(pc).Some? && ValidIp(pc).value !in t.peers
  }

  function IdOf(me: Identity, pc: PeerConfig): PeerId
    requires ValidIp(pc).Some?
  {
    me.idOf(ParsePublicKey(pc.publicKey).value)
  }

  /** The new entries have keys with different ids, which no peer of the table holds. */
  ghost predicate FreshIds(me: Identity, t: Table, pcs: seq<PeerConfig>) {
    && (forall i, j :: 0 <= i < j < |pcs| && IsNew(t, pcs[i]) && IsNew(t, pcs[j]) ==>
          IdOf(me, pcs[i]) != IdOf(me, pcs[j]))
    && (forall i, x :: 0 <= i < |pcs| && IsNew(t, pcs[i]) && x in t.peers ==> t.peers[x].peerId != IdOf(me, pcs[i]))
  }

  /** The id leads to an IP whose peer has another. */
  predicate IsStale(t: Table, id: PeerId, ip: Ip4) {
    id in t.ids && t.ids[id] == ip && ip in t.peers && t.peers[ip].peerId != id
  }

  /** The id leads to the IP of its peer. */
  predicate IsFiled(t: Table, id: PeerId, ip: Ip4) {
    id in t.ids && t.ids[id] == ip && ip in t.peers && t.peers[ip].peerId == id
  }

  lemma EndpointKeepsIds(t: Table, y: Ip4, endpoint: Option<string>, name: string, resolve: Resolver)
    requires y in t.peers
    ensures var u := ApplyName(ApplyEndpoint(t, y, endpoint, resolve), y, name);
            u.ids == t.ids && u.peers.Keys == t.peers.Keys
            && forall x :: x in t.peers ==> u.peers[x].peerId == t.peers[x].peerId
  {
    var v := ApplyEndpoint(t, y, endpoint, resolve);
    assert v.peers.Keys == t.peers.Keys && v.peers[y].peerId == t.peers[y].peerId;
  }

  lemma EntryKeepsStale(me: Identity, t: Table, u: Table, pc: PeerConfig, resolve: Resolver, id: PeerId, ip: Ip4)
    requires t.peers.Keys <= u.peers.Keys && (IsNew(t, pc) ==> IdOf(me, pc) != id)
    requires IsStale(u, id, ip)
    ensures IsStale(ApplyEntry(me, u, t.peers.Keys, pc, resolve), id, ip)
  {
    if ValidIp(pc).Some? && ValidIp(pc).value in t.peers {
      EndpointKeepsIds(u, ValidIp(pc).value, pc.endpoint, pc.name.GetOr(""), resolve);
    }
  }

  lemma EntryKeepsFiled(me: Identity, t: Table, u: Table, pc: PeerConfig, resolve: Resolver, id: PeerId, ip: Ip4)
    requires t.peers.Keys <= u.peers.Keys && (IsNew(t, pc) ==> IdOf(me, pc) != id && ValidIp(pc) != Some(ip))
    requires IsFiled(u, id, ip)
    ensures IsFiled(ApplyEntry(me, u, t.peers.Keys, pc, resolve), id, ip)
  {
    if ValidIp(pc).Some? && ValidIp(pc).value in t.peers {
      EndpointKeepsIds(u, ValidIp(pc).value, pc.endpoint, pc.name.GetOr(""), resolve);
    }
  }

  /** While no new IP comes twice, each new peer is found by its id. */
  lemma {:induction false} NewPeerIsFiled(me: Identity, t: Table, pcs: seq<PeerConfig>, resolve: Resolver, i: nat)
    requires FreshIds(me, t, pcs) && NewIpsDistinct(t, pcs) && i < |pcs| && IsNew(t, pcs[i])
    ensures IsFiled(ApplyAll(me, t, t.peers.Keys, pcs, resolve), IdOf(me, pcs[i]), ValidIp(pcs[i]).value)
    decreases |pcs|
  {
    var init, last := pcs[..|pcs| - 1], |pcs| - 1;
    if i < last {
      FreshIdsOfFewer(me, t, pcs);
      assert forall k :: 0 <= k < |init| ==> init[k] == pcs[k];
      NewPeerIsFiled(me, t, init, resolve, i);
      assert IsNew(t, pcs[last]) ==> ValidIp(pcs[last]) != ValidIp(pcs[i]);
      LastKeepsFiled(me, t, pcs, resolve, IdOf(me, pcs[i]), ValidIp(pcs[i]).value);
    }
  }

  lemma LastKeepsFiled(me: Identity, t: Table, pcs: seq<PeerConfig>, resolve: Resolver, id: PeerId, ip: Ip4)
    requires pcs != [] && IsFiled(ApplyAll(me, t, t.peers.Keys, pcs[..|pcs| - 1], resolve), id, ip)
    requires IsNew(t, pcs[|pcs| - 1]) ==> IdOf(me, pcs[|pcs| - 1]) != id && ValidIp(pcs[|pcs| - 1]) != Some(ip)
    ensures IsFiled(ApplyAll(me, t, t.peers.Keys, pcs, resolve), id, ip)
  {
    ApplyAllLeavesOthers(me, t, pcs[..|pcs| - 1], resolve);
    EntryKeepsFiled(me, t, ApplyAll(me, t, t.peers.Keys, pcs[..|pcs| - 1], resolve), pcs[|pcs| - 1], resolve, id, ip);
  }

  lemma LastKeepsStale(me: Identity, t: Table, pcs: seq<PeerConfig>, resolve: Resolver, id: PeerId, ip: Ip4)
    requires pcs != [] && IsStale(ApplyAll(me, t, t.peers.Keys, pcs[..|pcs| - 1], resolve), id, ip)
    requires IsNew(t, pcs[|pcs| - 1]) ==> IdOf(me, pcs[|pcs| - 1]) != id
    ensures IsStale(ApplyAll(me, t, t.peers.Keys, pcs, resolve), id, ip)
  {
    ApplyAllLeavesOthers(me, t, pcs[..|pcs| - 1], resolve);
    EntryKeepsStale(me, t, ApplyAll(me, t, t.peers.Keys, pcs[..|pcs| - 1], resolve), pcs[|pcs| - 1], resolve, id, ip);
  }

  lemma LastMakesStale(me: Identity, t: Table, pcs: seq<PeerConfig>, resolve: Resolver, id: PeerId, ip: Ip4)
    requires pcs != [] && IsFiled(ApplyAll(me, t, t.peers.Keys, pcs[..|pcs| - 1], resolve), id, ip)
    requires ip !in t.peers && ValidIp(pcs[|pcs| - 1]) == Some(ip) && IdOf(me, pcs[|pcs| - 1]) != id
    ensures IsStale(ApplyAll(me, t, t.peers.Keys, pcs, resolve), id, ip)
  {
  }

  lemma FreshIdsOfFewer(me: Identity, t: Table, pcs: seq<PeerConfig>)
    requires FreshIds(me, t, pcs) && pcs != []
    ensures FreshIds(me, t, pcs[..|pcs| - 1])
  {
    assert forall k :: 0 <= k < |pcs| - 1 ==> pcs[..|pcs| - 1][k] == pcs[k];
  }

  /** A value that is not known stands in two places. */
  ghost predicate Repeats(ips: seq<Option<Ip4>>, known: set<Ip4>) {
    exists i, j :: 0 <= i < j < |ips| && ips[i].Some? && ips[i] == ips[j] && ips[i].value !in known
  }

  lemma LastRepeats(ips: seq<Option<Ip4>>, known: set<Ip4>) returns (i: nat)
    requires ips != [] && Repeats(ips, known) && !Repeats(ips[..|ips| - 1], known)
    ensures i < |ips| - 1 && ips[i].Some? && ips[i] == ips[|ips| - 1] && ips[i].value !in known
  {
    var j, k :| 0 <= j < k < |ips| && ips[j].Some? && ips[j] == ips[k] && ips[j].value !in known;
    i := j;
  }

  function ValidIps(pcs: seq<PeerConfig>): (ips: seq<Option<Ip4>>)
    ensures |ips| == |pcs|
  {
    if pcs == [] then [] else ValidIps(pcs[..|pcs| - 1]) + [ValidIp(pcs[|pcs| - 1])]
  }

  lemma {:induction false} ValidIpsAt(pcs: seq<PeerConfig>, i: nat)
    requires i < |pcs|
    ensures ValidIps(pcs)[i] == ValidIp(pcs[i])
    decreases |pcs|
  {
    if i < |pcs| - 1 {
      ValidIpsAt(pcs[..|pcs| - 1], i);
    }
  }

  lemma RepeatsIff(t: Table, pcs: seq<PeerConfig>)
    ensures Repeats(ValidIps(pcs), t.peers.Keys) <==> !NewIpsDistinct(t, pcs)
  {
    var ips := ValidIps(pcs);
    forall i | 0 <= i < |pcs|
      ensures ips[i] == ValidIp(pcs[i])
    {
      ValidIpsAt(pcs, i);
    }
  }

  /** The last entry is the first to repeat a new IP. */
  lemma RepeatedIp(t: Table, pcs: seq<PeerConfig>) returns (i: nat)
    requires pcs != [] && !NewIpsDistinct(t, pcs) && NewIpsDistinct(t, pcs[..|pcs| - 1])
    ensures i < |pcs| - 1 && IsNew(t, pcs[i]) && ValidIp(pcs[i]) == ValidIp(pcs[|pcs| - 1])
  {
    var ips := ValidIps(pcs);
    RepeatsIff(t, pcs);
    RepeatsIff(t, pcs[..|pcs| - 1]);
    assert ips[..|pcs| - 1] == ValidIps(pcs[..|pcs| - 1]);
    i := LastRepeats(ips, t.peers.Keys);
    ValidIpsAt(pcs, i);
    ValidIpsAt(pcs, |pcs| - 1);
  }

  /** A second entry for a new IP leaves the id of the first one stale for good. */
  lemma {:induction false} EntriesLeaveStale(me: Identity, t: Table, pcs: seq<PeerConfig>, resolve: Resolver)
    returns (i: nat)
    requires FreshIds(me, t, pcs) && !NewIpsDistinct(t, pcs)
    ensures i < |pcs| && IsNew(t, pcs[i])
    ensures IsStale(ApplyAll(me, t, t.peers.Keys, pcs, resolve), IdOf(me, pcs[i]), ValidIp(pcs[i]).value)
  {
    var init, last := pcs[..|pcs| - 1], |pcs| - 1;
    FreshIdsOfFewer(me, t, pcs);
    if !NewIpsDistinct(t, init) {
      i := EntriesLeaveStale(me, t, init, resolve);
      assert init[i] == pcs[i];
      LastKeepsStale(me, t, pcs, resolve, IdOf(me, pcs[i]), ValidIp(pcs[i]).value);
    } else {
      i := RepeatedIp(t, pcs);
      assert init[i] == pcs[i];
      NewPeerIsFiled(me, t, init, resolve, i);
      LastMakesStale(me, t, pcs, resolve, IdOf(me, pcs[i]), ValidIp(pcs[i]).value);
    }
  }

  lemma PurgeKeepsStale(t: Table, ghosts: set<Ip4>, id: PeerId, ip: Ip4)
    requires IsStale(t, id, ip) && ghosts <= t.peers.Keys && ip !in ghosts
    requires forall x :: x in ghosts ==> t.peers[x].peerId != id
    ensures IsStale(PurgeAll(t, ghosts), id, ip) && !Sound(PurgeAll(t, ghosts))
  {
  }

  /** What stands stale under a configured IP before the purge does so after it, unless a
      peer of the old table had the id. */
  lemma ReloadKeepsStale(me: Identity, t: Table, pcs: seq<PeerConfig>, resolve: Resolver, now: nat, id: PeerId, ip: Ip4)
    requires IsStale(ApplyAll(me, t, t.peers.Keys, pcs, resolve), id, ip) && ip in ConfiguredIps(pcs)
    requires forall x :: x in t.peers ==> t.peers[x].peerId != id
    ensures !Sound(Reloaded(me, t, pcs, resolve, now))
  {
    ApplyAllLeavesOthers(me, t, pcs, resolve);
    var u := ApplyAll(me, t, t.peers.Keys, pcs, resolve);
    PurgeKeepsStale(u, Ghosts(u, ConfiguredIps(pcs), ConfiguredEndpoints(pcs, resolve), now), id, ip);
  }

  /** Where the new keys have fresh ids, a whole reload keeps sound indexes sound if and only
      if no new IP is brought in twice. */
  lemma ReloadSoundIff(me: Identity, t: Table, pcs: seq<PeerConfig>, resolve: Resolver, now: nat)
    requires Sound(t) && FreshIds(me, t, pcs)
    ensures Sound(Reloaded(me, t, pcs, resolve, now)) <==> NewIpsDistinct(t, pcs)
  {
    if NewIpsDistinct(t, pcs) {
      DistinctIsClean(me, t, pcs, resolve);
      ReloadKeepsSound(me, t, pcs, resolve, now);
    } else {
      var i := EntriesLeaveStale(me, t, pcs, resolve);
      assert pcs[i] in pcs;
      ReloadKeepsStale(me, t, pcs, resolve, now, IdOf(me, pcs[i]), ValidIp(pcs[i]).value);
    }
  }

  // ---------- how a reload goes wrong ----------

  /** Two entries for one new IP: the id of the first one leads on to the second one's peer. */
  lemma TwoEntriesForOneIp(me: Identity, t: Table, x: PeerConfig, y: PeerConfig, resolve: Resolver, now: nat)
    requires IsNew(t, x) && ValidIp(x) == ValidIp(y) && IdOf(me, x) != IdOf(me, y)
    requires forall z :: z in t.peers ==> t.peers[z].peerId != IdOf(me, x)
    ensures !Sound(Reloaded(me, t, [x, y], resolve, now))
  {
    var p, q := ConfiguredPeer(me, x, resolve), ConfiguredPeer(me, y, resolve);
    assert ApplyAll(me, t, t.peers.Keys, [x], resolve) == t.AddPeer(p) by {
      assert [x][..0] == [];
    }
    assert ApplyAll(me, t, t.peers.Keys, [x, y], resolve) == t.AddPeer(p).AddPeer(q) by {
      assert [x, y][..1] == [x];
    }
    assert x in [x, y];
    ReloadKeepsStale(me, t, [x, y], resolve, now, p.peerId, p.wolfnetIp);
  }

  /** Two new peers behind one address: a lookup by that address finds only one of them. */
  lemma TwoPeersBehindOneAddress(me: Identity, t: Table, x: PeerConfig, y: PeerConfig, resolve: Resolver, now: nat)
    requires Exact(t) && IsNew(t, x) && IsNew(t, y) && ValidIp(x) != ValidIp(y)
    requires x.endpoint.Some? && resolve(x.endpoint.value).Some? && y.endpoint == x.endpoint
    ensures !Exact(Reloaded(me, t, [x, y], resolve, now))
  {
    var p, q := ConfiguredPeer(me, x, resolve), ConfiguredPeer(me, y, resolve);
    assert ApplyAll(me, t, t.peers.Keys, [x], resolve) == t.AddPeer(p) by {
      assert [x][..0] == [];
    }
    assert [x, y][..1] == [x];
    assert p.wolfnetIp in t.AddPeer(p).peers && t.AddPeer(p).peers[p.wolfnetIp].endpoint == q.endpoint;
    assert !EndpointFree(t.AddPeer(p), q.wolfnetIp, q.endpoint);
    assert !ExactEntries(me, t, t.peers.Keys, [x, y], resolve);
    ReloadExactIff(me, t, [x, y], resolve, now);
  }

  /** The purge of a peer outside the configuration that holds the address of a configured one,
      as the daemon means to purge it, takes that address out of the index: the configured
      peer has it and is not found by it. Nor does a packet from there bring it back, for the
      peer is pinned. */
  lemma GhostTakesAddressAway(me: Identity, t: Table, pcs: seq<PeerConfig>, resolve: Resolver, now: nat, i: nat, g: Ip4)
    requires Exact(t) && i < |pcs| && OnlyEntryFor(pcs, i) && ValidIp(pcs[i]).Some?
    requires pcs[i].endpoint.Some? && resolve(pcs[i].endpoint.value).Some?
    requires g in t.peers && g !in ConfiguredIps(pcs) && t.peers[g].endpoint == resolve(pcs[i].endpoint.value)
    ensures var ip, addr := ValidIp(pcs[i]).value, resolve(pcs[i].endpoint.value).value;
            var r := Reloaded(me, t, pcs, resolve, now);
            && g !in r.peers && ip in r.peers && r.peers[ip].endpoint == Some(addr)
            && addr !in r.endpoints && !Exact(r)
            && r.UpdateEndpointIfRoaming(ip, addr) == r
  {
    var ip, addr := ValidIp(pcs[i]).value, resolve(pcs[i].endpoint.value).value;
    var u, r := ApplyAll(me, t, t.peers.Keys, pcs, resolve), Reloaded(me, t, pcs, resolve, now);
    assert pcs[i] in pcs && ip in ConfiguredIps(pcs) && addr in ConfiguredEndpoints(pcs, resolve);
    ApplyAllLeavesOthers(me, t, pcs, resolve);
    if ip in t.peers {
      assert Indexed(t, g) && Indexed(t, ip);
      EntriesSetEndpoint(me, t, pcs, resolve, i);
    } else {
      NewEntryIsAdded(me, t, pcs, resolve, i, ip, ConfiguredPeer(me, pcs[i], resolve));
    }
    assert u.peers[ip].endpoint == Some(addr) && u.peers[ip].configuredEndpoint.Some?;
    assert g in Ghosts(u, ConfiguredIps(pcs), ConfiguredEndpoints(pcs, resolve), now);
    assert !Indexed(r, ip);
  }

  /** So it happens, from exact indexes: the one peer of the table is a ghost at the address
      that is configured for another. */
  lemma GhostAtConfiguredAddress(me: Identity, ghostKey: Key, ghostIp: Ip4, addr: SocketAddr, pc: PeerConfig,
                                 resolve: Resolver, now: nat)
    requires ValidIp(pc).Some? && ValidIp(pc).value != ghostIp && pc.endpoint.Some?
    requires resolve(pc.endpoint.value) == Some(addr)
    ensures Exact(Roamed(me, ghostKey, ghostIp, addr))
    ensures var ip, r := ValidIp(pc).value, Reloaded(me, Roamed(me, ghostKey, ghostIp, addr), [pc], resolve, now);
            ip in r.peers && r.peers[ip].endpoint == Some(addr) && addr !in r.endpoints && !Exact(r)
  {
    var t := Roamed(me, ghostKey, ghostIp, addr);
    assert Exact(t);
    assert ghostIp !in ConfiguredIps([pc]);
    GhostTakesAddressAway(me, t, [pc], resolve, now, 0, ghostIp);
  }
}
