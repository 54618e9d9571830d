/** Whole runs of peer-table operations, and what they keep. */
module PeerRuns {
  import opened Common
  import opened Crypto
  import opened PeerTable
  import opened PeerIndexes

  /** What is fixed while a node runs: its keys and its own WolfNet IP. */
  datatype Node = Node(me: Identity, myIp: Ip4)

  datatype Op =
    | Add(peer: Peer)
    | Remove(ip: Ip4)
    | Purge(ip: Ip4)
    | SetEndpoint(ip: Ip4, ep: SocketAddr)
    | Roam(ip: Ip4, ep: SocketAddr)
    | Clear(ip: Ip4)
    | Discover(a: Announcement, pick: Option<Ip4>)
    | Pex(entries: seq<PexEntry>, sender: Ip4, now: nat, picks: seq<Option<Ip4>>)
      /** What the daemon writes through with_peer_by_ip. */
    | Touch(ip: Ip4, session: Option<Session>, lastSeen: Option<nat>, hostname: string, pin: Option<string>)

  function Touched(p: Peer, session: Option<Session>, lastSeen: Option<nat>, hostname: string,
                   pin: Option<string>): Peer
  {
    p.(session := session, lastSeen := lastSeen, hostname := hostname,
       configuredEndpoint := if pin.Some? then pin else p.configuredEndpoint)
  }

  function Step(n: Node, t: Table, op: Op): Table
    requires op.Pex? ==> |op.picks| == |op.entries|
  {
    match op
    case Add(p) => t.AddPeer(p)
    case Remove(ip) => t.RemovePeer(ip)
    case Purge(ip) => t.PurgePeer(ip)
    case SetEndpoint(ip, ep) => t.UpdateEndpoint(ip, ep)
    case Roam(ip, ep) => t.UpdateEndpointIfRoaming(ip, ep)
    case Clear(ip) => t.ClearEndpoint(ip)
    case Discover(a, pick) => t.UpdateFromDiscovery(n.me, a, pick)
    case Pex(entries, sender, now, picks) => t.AddFromPex(entries, sender, n.myIp, n.me, now, picks)
    case Touch(ip, session, lastSeen, hostname, pin) =>
      if ip !in t.peers then t
      else t.(peers := t.peers[ip := Touched(t.peers[ip], session, lastSeen, hostname, pin)])
  }

  /** What the daemon's own code guarantees of the operations it performs. */
  ghost predicate Possible(n: Node, t: Table, op: Op) {
    match op
    case Add(p) => p.relayVia.None? && p.peerId == n.me.idOf(p.publicKey)
    case Discover(a, pick) => t.IsHolder(a.key, pick)
    case Pex(entries, sender, now, picks) =>
      && t.ArePicks(entries, sender, n.myIp, n.me, now, picks)
      && sender in t.peers && t.peers[sender].IsConnected(now)
    case _ => true
  }

  /** Every operation of the sequence is possible where it comes. */
  ghost predicate IsRun(n: Node, t: Table, ops: seq<Op>)
    decreases |ops|, 0
  {
    ops == [] || (IsRun(n, t, ops[..|ops| - 1]) && Possible(n, Run(n, t, ops[..|ops| - 1]), ops[|ops| - 1]))
  }

  ghost function Run(n: Node, t: Table, ops: seq<Op>): Table
    requires IsRun(n, t, ops)
    decreases |ops|, 1
  {
    if ops == [] then t else Step(n, Run(n, t, ops[..|ops| - 1]), ops[|ops| - 1])
  }

  lemma RunExtended(n: Node, t: Table, ops: seq<Op>, op: Op)
    requires IsRun(n, t, ops) && Possible(n, Run(n, t, ops), op)
    ensures IsRun(n, t, ops + [op])
    ensures Run(n, t, ops + [op]) == Step(n, Run(n, t, ops), op)
  {
    assert (ops + [op])[..|ops|] == ops;
  }

  // ---------- peer exchange batches ----------

  lemma {:induction false} PexKeepsSound(
    t: Table, entries: seq<PexEntry>, sender: Ip4, n: Node, now: nat, picks: seq<Option<Ip4>>)
    requires Sound(t) && |picks| == |entries|
    ensures Sound(t.AddFromPex(entries, sender, n.myIp, n.me, now, picks))
  {
    if entries != [] {
      var last := |entries| - 1;
      PexKeepsSound(t, entries[..last], sender, n, now, picks[..last]);
      var u := t.AddFromPex(entries[..last], sender, n.myIp, n.me, now, picks[..last]);
      PexEntrySound(u, entries[last], sender, n, now, picks[last]);
    }
  }

  lemma PexEntrySound(t: Table, e: PexEntry, sender: Ip4, n: Node, now: nat, pick: Option<Ip4>)
    requires Sound(t)
    ensures Sound(t.AddPexEntry(e, sender, n.myIp, n.me, now, pick))
  {
    if t.PexEligible(e, n.myIp, now) && e.ip.value !in t.peers {
      AddPeerSoundIff(t, t.PexPeer(e, sender, n.me));
    }
  }

  /** Whether an entry is inserted as a new peer. */
  predicate Inserts(t: Table, e: PexEntry, n: Node, now: nat, pick: Option<Ip4>) {
    && t.PexEligible(e, n.myIp, now)
    && !(pick.Some? && pick.value != e.ip.value)
    && e.ip.value !in t.peers
  }

  /** No inserted entry takes an endpoint or an id that a peer holds already. */
  ghost predicate ExactPex(t: Table, entries: seq<PexEntry>, sender: Ip4, n: Node, now: nat, picks: seq<Option<Ip4>>)
    requires |picks| == |entries|
  {
    entries == [] ||
    (var last := |entries| - 1;
     && ExactPex(t, entries[..last], sender, n, now, picks[..last])
     && var u := t.AddFromPex(entries[..last], sender, n.myIp, n.me, now, picks[..last]);
     Inserts(u, entries[last], n, now, picks[last]) ==>
       var p := u.PexPeer(entries[last], sender, n.me);
       EndpointFree(u, p.wolfnetIp, p.endpoint) && IdFree(u, p.wolfnetIp, p.peerId))
  }

  /** An insertion at a free IP never repairs indexes that are not exact. */
  lemma AddPeerNeverRepairs(t: Table, p: Peer)
    requires p.wolfnetIp !in t.peers && Sound(t) && Exact(t.AddPeer(p))
    ensures Exact(t)
  {
    forall x | x in t.peers
      ensures Indexed(t, x)
    {
      assert Indexed(t.AddPeer(p), x);
    }
  }

  lemma PexEntryExactIff(t: Table, e: PexEntry, sender: Ip4, n: Node, now: nat, pick: Option<Ip4>)
    requires Sound(t)
    ensures Exact(t.AddPexEntry(e, sender, n.myIp, n.me, now, pick)) <==>
            && Exact(t)
            && (Inserts(t, e, n, now, pick) ==>
                var p := t.PexPeer(e, sender, n.me);
                EndpointFree(t, p.wolfnetIp, p.endpoint) && IdFree(t, p.wolfnetIp, p.peerId))
  {
    var t' := t.AddPexEntry(e, sender, n.myIp, n.me, now, pick);
    if Inserts(t, e, n, now, pick) {
      var p := t.PexPeer(e, sender, n.me);
      if Exact(t) {
        AddPeerExactIff(t, p);
      } else if Exact(t') {
        AddPeerNeverRepairs(t, p);
      }
    } else {
      PexEntrySound(t, e, sender, n, now, pick);
      assert t'.peers.Keys == t.peers.Keys;
      assert forall x :: x in t.peers ==> (Indexed(t, x) <==> Indexed(t', x));
    }
  }

  lemma {:induction false} PexExactIff(
    t: Table, entries: seq<PexEntry>, sender: Ip4, n: Node, now: nat, picks: seq<Option<Ip4>>)
    requires Sound(t) && |picks| == |entries|
    ensures Exact(t.AddFromPex(entries, sender, n.myIp, n.me, now, picks)) <==>
            Exact(t) && ExactPex(t, entries, sender, n, now, picks)
  {
    if entries != [] {
      var last := |entries| - 1;
      PexKeepsSound(t, entries[..last], sender, n, now, picks[..last]);
      PexExactIff(t, entries[..last], sender, n, now, picks[..last]);
      var u := t.AddFromPex(entries[..last], sender, n.myIp, n.me, now, picks[..last]);
      PexEntryExactIff(u, entries[last], sender, n, now, picks[last]);
    }
  }

  // ---------- soundness and exactness over runs ----------

  /** The operations that leave no stale entry: only an insertion onto an occupied IP,
      by add_peer or by migration, can leave one. */
  ghost predicate Clean(t: Table, op: Op) {
    match op
    case Add(p) => LeavesNothingStale(t, p)
    case Discover(a, pick) => CleanDiscovery(t, a, pick)
    case _ => true
  }

  lemma StepSoundIff(n: Node, t: Table, op: Op)
    requires Sound(t) && Possible(n, t, op)
    ensures Sound(Step(n, t, op)) <==> Clean(t, op)
  {
    match op
    case Add(p) => AddPeerSoundIff(t, p);
    case Remove(ip) => RemovePeerKeeps(t, ip);
    case Purge(ip) => RemovePeerKeeps(t, ip);
    case SetEndpoint(ip, ep) => UpdateEndpointKeeps(t, ip, ep);
    case Roam(ip, ep) => UpdateEndpointKeeps(t, ip, ep);
    case Clear(ip) => ClearEndpointKeeps(t, ip);
    case Discover(a, pick) => DiscoverySoundIff(t, n.me, a, pick);
    case Pex(entries, sender, now, picks) => PexKeepsSound(t, entries, sender, n, now, picks);
    case Touch(_, _, _, _, _) =>
  }

  ghost predicate AlwaysClean(n: Node, t: Table, ops: seq<Op>)
    requires IsRun(n, t, ops)
  {
    ops == [] || (AlwaysClean(n, t, ops[..|ops| - 1]) && Clean(Run(n, t, ops[..|ops| - 1]), ops[|ops| - 1]))
  }

  ghost predicate AlwaysSound(n: Node, t: Table, ops: seq<Op>)
    requires IsRun(n, t, ops)
  {
    Sound(Run(n, t, ops)) && (ops == [] || AlwaysSound(n, t, ops[..|ops| - 1]))
  }

  /** Over a whole run the indexes are sound throughout if and only if no insertion
      onto an occupied IP leaves a stale entry. */
  lemma {:induction false} RunSoundIff(n: Node, t: Table, ops: seq<Op>)
    requires Sound(t) && IsRun(n, t, ops)
    ensures AlwaysSound(n, t, ops) <==> AlwaysClean(n, t, ops)
  {
    if ops != [] {
      var init := ops[..|ops| - 1];
      RunSoundIff(n, t, init);
      if AlwaysSound(n, t, init) {
        StepSoundIff(n, Run(n, t, init), ops[|ops| - 1]);
      }
    }
  }

  /** The operations that keep exact indexes exact. */
  ghost predicate KeepsExact(n: Node, t: Table, op: Op) {
    match op
    case Add(p) =>
      LeavesNothingStale(t, p) && EndpointFree(t, p.wolfnetIp, p.endpoint) && IdFree(t, p.wolfnetIp, p.peerId)
    case SetEndpoint(ip, ep) => ip !in t.peers || EndpointFree(t, ip, Some(ep))
    case Roam(ip, ep) => !t.MayRoam(ip) || EndpointFree(t, ip, Some(ep))
    case Discover(a, pick) => ExactDiscovery(t, n.me, a, pick)
    case Pex(entries, sender, now, picks) =>
      |picks| == |entries| && ExactPex(t, entries, sender, n, now, picks)
    case _ => true
  }

  lemma StepExactIff(n: Node, t: Table, op: Op)
    requires Exact(t) && Possible(n, t, op)
    ensures Exact(Step(n, t, op)) <==> KeepsExact(n, t, op)
  {
    match op
    case Add(p) => AddPeerExactIff(t, p);
    case Remove(ip) => RemovePeerKeeps(t, ip);
    case Purge(ip) =>
      RemovePeerKeeps(t, ip);
      assert forall x :: x in t.PurgePeer(ip).peers ==> Indexed(t.RemovePeer(ip), x);
    case SetEndpoint(ip, ep) => UpdateEndpointKeeps(t, ip, ep);
    case Roam(ip, ep) => UpdateEndpointKeeps(t, ip, ep);
    case Clear(ip) => ClearEndpointKeeps(t, ip);
    case Discover(a, pick) => DiscoveryExactIff(t, n.me, a, pick);
    case Pex(entries, sender, now, picks) => PexExactIff(t, entries, sender, n, now, picks);
    case Touch(_, _, _, _, _) =>
      assert forall x :: x in t.peers ==> Indexed(t, x);
  }

  ghost predicate AlwaysKeepsExact(n: Node, t: Table, ops: seq<Op>)
    requires IsRun(n, t, ops)
  {
    ops == [] || (AlwaysKeepsExact(n, t, ops[..|ops| - 1])
                  && KeepsExact(n, Run(n, t, ops[..|ops| - 1]), ops[|ops| - 1]))
  }

  ghost predicate AlwaysExact(n: Node, t: Table, ops: seq<Op>)
    requires IsRun(n, t, ops)
  {
    Exact(Run(n, t, ops)) && (ops == [] || AlwaysExact(n, t, ops[..|ops| - 1]))
  }

  lemma {:induction false} RunExactIff(n: Node, t: Table, ops: seq<Op>)
    requires Exact(t) && IsRun(n, t, ops)
    ensures AlwaysExact(n, t, ops) <==> AlwaysKeepsExact(n, t, ops)
  {
    if ops != [] {
      var init := ops[..|ops| - 1];
      RunExactIff(n, t, init);
      if AlwaysExact(n, t, init) {
        StepExactIff(n, Run(n, t, init), ops[|ops| - 1]);
      }
    }
  }

  // ---------- unique keys over runs ----------

  /** Only add_peer can file a key under a second IP. */
  ghost predicate KeepsKeysUnique(t: Table, op: Op) {
    op.Add? ==> forall x :: x in t.peers && x != op.peer.wolfnetIp ==> t.peers[x].publicKey != op.peer.publicKey
  }

  lemma {:induction false} PexKeepsKeysUnique(
    t: Table, entries: seq<PexEntry>, sender: Ip4, n: Node, now: nat, picks: seq<Option<Ip4>>)
    requires KeysUnique(t) && t.ArePicks(entries, sender, n.myIp, n.me, now, picks)
    ensures KeysUnique(t.AddFromPex(entries, sender, n.myIp, n.me, now, picks))
  {
    if entries != [] {
      var last := |entries| - 1;
      PexKeepsKeysUnique(t, entries[..last], sender, n, now, picks[..last]);
      var u := t.AddFromPex(entries[..last], sender, n.myIp, n.me, now, picks[..last]);
      PexEntryKeepsKeysUnique(u, entries[last], sender, n.myIp, n.me, now, picks[last]);
    }
  }

  lemma AddKeepsKeysUniqueIff(t: Table, p: Peer)
    requires KeysUnique(t)
    ensures KeysUnique(t.AddPeer(p)) <==>
            forall x :: x in t.peers && x != p.wolfnetIp ==> t.peers[x].publicKey != p.publicKey
  {
    var u := t.AddPeer(p);
    assert forall x :: x in u.peers <==> x in t.peers || x == p.wolfnetIp;
    assert u.peers[p.wolfnetIp] == p;
  }

  lemma StepKeysUniqueIff(n: Node, t: Table, op: Op)
    requires KeysUnique(t) && Possible(n, t, op)
    ensures KeysUnique(Step(n, t, op)) <==> KeepsKeysUnique(t, op)
  {
    match op
    case Add(p) => AddKeepsKeysUniqueIff(t, p);
    case Discover(a, pick) => DiscoveryKeepsKeysUnique(t, n.me, a, pick);
    case Pex(entries, sender, now, picks) => PexKeepsKeysUnique(t, entries, sender, n, now, picks);
    case _ =>
  }

  ghost predicate AlwaysKeepsKeysUnique(n: Node, t: Table, ops: seq<Op>)
    requires IsRun(n, t, ops)
  {
    ops == [] || (AlwaysKeepsKeysUnique(n, t, ops[..|ops| - 1])
                  && KeepsKeysUnique(Run(n, t, ops[..|ops| - 1]), ops[|ops| - 1]))
  }

  ghost predicate AlwaysKeysUnique(n: Node, t: Table, ops: seq<Op>)
    requires IsRun(n, t, ops)
  {
    KeysUnique(Run(n, t, ops)) && (ops == [] || AlwaysKeysUnique(n, t, ops[..|ops| - 1]))
  }

  /** Over a whole run no key is ever filed under two IPs if and only if no peer is added
      whose key another IP holds. */
  lemma {:induction false} RunKeysUniqueIff(n: Node, t: Table, ops: seq<Op>)
    requires KeysUnique(t) && IsRun(n, t, ops)
    ensures AlwaysKeysUnique(n, t, ops) <==> AlwaysKeepsKeysUnique(n, t, ops)
  {
    if ops != [] {
      var init := ops[..|ops| - 1];
      RunKeysUniqueIff(n, t, init);
      if AlwaysKeysUnique(n, t, init) {
        StepKeysUniqueIff(n, Run(n, t, init), ops[|ops| - 1]);
      }
    }
  }
}
