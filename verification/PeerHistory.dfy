/** What peer exchange, purging and pinning promise over whole runs. */
module PeerHistory {
  import opened Common
  import opened PeerTable
  import opened PeerIndexes
  import opened PeerRuns

  // ---------- one batch ----------

  /** A batch removes nobody and changes no peer, unless to route one through the sender
      that has a relay already and is not connected. */
  ghost predicate PexLeaves(t: Table, t': Table, sender: Ip4, now: nat) {
    && t'.purged == t.purged
    && forall x :: x in t.peers ==>
         && x in t'.peers
         && (t'.peers[x] == t.peers[x] ||
             (&& !t.peers[x].IsConnected(now) && t.peers[x].relayVia.Some?
              && t'.peers[x] == t.peers[x].(relayVia := Some(sender))))
  }

  lemma {:induction false} PexLeavesDirectPeers(
    t: Table, entries: seq<PexEntry>, sender: Ip4, n: Node, now: nat, picks: seq<Option<Ip4>>)
    requires |picks| == |entries|
    ensures PexLeaves(t, t.AddFromPex(entries, sender, n.myIp, n.me, now, picks), sender, now)
  {
    if entries != [] {
      var last := |entries| - 1;
      PexLeavesDirectPeers(t, entries[..last], sender, n, now, picks[..last]);
    }
  }

  // ---------- idempotence ----------

  /** An entry that has nothing left to do: it is filtered out, or its key lives at
      another IP, or the peer at its IP is relayed through the sender already. */
  ghost predicate Settled(t: Table, e: PexEntry, sender: Ip4, n: Node, now: nat) {
    || !t.PexEligible(e, n.myIp, now)
    || (exists x :: x in t.peers && x != e.ip.value && t.peers[x].publicKey == e.key.value)
    || (e.ip.value in t.peers && t.peers[e.ip.value].relayVia == Some(sender))
  }

  lemma EntrySettlesItself(t: Table, e: PexEntry, sender: Ip4, n: Node, now: nat, pick: Option<Ip4>)
    requires t.PexEligible(e, n.myIp, now) ==> t.IsHolder(e.key.value, pick)
    ensures Settled(t.AddPexEntry(e, sender, n.myIp, n.me, now, pick), e, sender, n, now)
  {
  }

  lemma EntryKeepsSettled(t: Table, e: PexEntry, other: PexEntry, sender: Ip4, n: Node, now: nat, pick: Option<Ip4>)
    requires Settled(t, e, sender, n, now)
    requires t.PexEligible(other, n.myIp, now) ==> t.IsHolder(other.key.value, pick)
    ensures Settled(t.AddPexEntry(other, sender, n.myIp, n.me, now, pick), e, sender, n, now)
  {
    var t' := t.AddPexEntry(other, sender, n.myIp, n.me, now, pick);
    if t.PexEligible(e, n.myIp, now)
       && exists x :: x in t.peers && x != e.ip.value && t.peers[x].publicKey == e.key.value {
      var x :| x in t.peers && x != e.ip.value && t.peers[x].publicKey == e.key.value;
      assert x in t'.peers && t'.peers[x].publicKey == e.key.value;
    }
  }

  lemma {:induction false} BatchSettlesAll(
    t: Table, entries: seq<PexEntry>, sender: Ip4, n: Node, now: nat, picks: seq<Option<Ip4>>)
    requires t.ArePicks(entries, sender, n.myIp, n.me, now, picks)
    ensures forall i :: 0 <= i < |entries| ==>
              Settled(t.AddFromPex(entries, sender, n.myIp, n.me, now, picks), entries[i], sender, n, now)
  {
    if entries != [] {
      var last := |entries| - 1;
      BatchSettlesAll(t, entries[..last], sender, n, now, picks[..last]);
      var u := t.AddFromPex(entries[..last], sender, n.myIp, n.me, now, picks[..last]);
      EntrySettlesItself(u, entries[last], sender, n, now, picks[last]);
      forall i | 0 <= i < last
        ensures Settled(u.AddPexEntry(entries[last], sender, n.myIp, n.me, now, picks[last]),
                        entries[i], sender, n, now)
      {
        assert entries[..last][i] == entries[i];
        EntryKeepsSettled(u, entries[i], entries[last], sender, n, now, picks[last]);
      }
    }
  }

  lemma SettledDoesNothing(t: Table, e: PexEntry, sender: Ip4, n: Node, now: nat, pick: Option<Ip4>)
    requires KeysUnique(t) && (t.PexEligible(e, n.myIp, now) ==> t.IsHolder(e.key.value, pick))
    requires Settled(t, e, sender, n, now)
    ensures t.AddPexEntry(e, sender, n.myIp, n.me, now, pick) == t
  {
    if t.PexEligible(e, n.myIp, now) && !(pick.Some? && pick.value != e.ip.value) {
      var p := t.peers[e.ip.value];
      assert p.(relayVia := Some(sender)) == p;
      assert t.peers[e.ip.value := p] == t.peers;
    }
  }

  lemma {:induction false} SettledBatchDoesNothing(
    t: Table, entries: seq<PexEntry>, sender: Ip4, n: Node, now: nat, picks: seq<Option<Ip4>>)
    requires KeysUnique(t) && t.ArePicks(entries, sender, n.myIp, n.me, now, picks)
    requires forall i :: 0 <= i < |entries| ==> Settled(t, entries[i], sender, n, now)
    ensures t.AddFromPex(entries, sender, n.myIp, n.me, now, picks) == t
  {
    if entries != [] {
      var last := |entries| - 1;
      assert forall i :: 0 <= i < last ==> entries[..last][i] == entries[i];
      SettledBatchDoesNothing(t, entries[..last], sender, n, now, picks[..last]);
      SettledDoesNothing(t, entries[last], sender, n, now, picks[last]);
    }
  }

  /** Receiving a batch a second time changes nothing, whatever the batch holds: table,
      indexes and relays stay as the first time left them, while nobody's connection
      comes or goes in between. */
  lemma PexIsIdempotent(t: Table, entries: seq<PexEntry>, sender: Ip4, n: Node,
                        now: nat, picks: seq<Option<Ip4>>, later: nat, laterPicks: seq<Option<Ip4>>)
    requires KeysUnique(t) && t.ArePicks(entries, sender, n.myIp, n.me, now, picks)
    requires var once := t.AddFromPex(entries, sender, n.myIp, n.me, now, picks);
             && once.ArePicks(entries, sender, n.myIp, n.me, later, laterPicks)
             && forall x :: x in once.peers ==> once.peers[x].IsConnected(later) == once.peers[x].IsConnected(now)
    ensures var once := t.AddFromPex(entries, sender, n.myIp, n.me, now, picks);
            once.AddFromPex(entries, sender, n.myIp, n.me, later, laterPicks) == once
  {
    var once := t.AddFromPex(entries, sender, n.myIp, n.me, now, picks);
    PexKeepsKeysUnique(t, entries, sender, n, now, picks);
    BatchSettlesAll(t, entries, sender, n, now, picks);
    forall i | 0 <= i < |entries|
      ensures Settled(once, entries[i], sender, n, later)
    {
      assert Settled(once, entries[i], sender, n, now);
    }
    SettledBatchDoesNothing(once, entries, sender, n, later, laterPicks);
  }

  // ---------- where relays come from ----------

  /** A relayed peer lies in this node's /24, is not this node, was never purged, and is
      not its own relay. */
  ghost predicate RelaysAreProper(n: Node, t: Table) {
    forall ip :: ip in t.peers && t.peers[ip].relayVia.Some? ==>
      && SameSubnet(ip, n.myIp)
      && ip != n.myIp
      && ip !in t.purged
      && t.peers[ip].relayVia != Some(ip)
  }

  lemma {:induction false} PexKeepsRelaysProper(
    n: Node, t: Table, entries: seq<PexEntry>, sender: Ip4, now: nat, picks: seq<Option<Ip4>>)
    requires RelaysAreProper(n, t) && |picks| == |entries|
    requires sender in t.peers && t.peers[sender].IsConnected(now)
    ensures RelaysAreProper(n, t.AddFromPex(entries, sender, n.myIp, n.me, now, picks))
  {
    if entries != [] {
      var last := |entries| - 1;
      PexKeepsRelaysProper(n, t, entries[..last], sender, now, picks[..last]);
      PexLeavesDirectPeers(t, entries[..last], sender, n, now, picks[..last]);
      var u := t.AddFromPex(entries[..last], sender, n.myIp, n.me, now, picks[..last]);
      PexEntryKeepsRelaysProper(n, u, entries[last], sender, now, picks[last]);
    }
  }

  lemma PexEntryKeepsRelaysProper(n: Node, t: Table, e: PexEntry, sender: Ip4, now: nat, pick: Option<Ip4>)
    requires RelaysAreProper(n, t) && sender in t.peers && t.peers[sender].IsConnected(now)
    ensures RelaysAreProper(n, t.AddPexEntry(e, sender, n.myIp, n.me, now, pick))
  {
  }

  /** No peer gains a relay, and no relayed peer's IP becomes purged. */
  ghost predicate AddsNoRelay(t: Table, t': Table) {
    forall ip :: ip in t'.peers && t'.peers[ip].relayVia.Some? ==>
      && ip in t.peers
      && t.peers[ip].relayVia == t'.peers[ip].relayVia
      && (ip in t'.purged ==> ip in t.purged)
  }

  lemma DiscoveryAddsNoRelay(n: Node, t: Table, a: Announcement, pick: Option<Ip4>)
    requires t.IsHolder(a.key, pick)
    ensures AddsNoRelay(t, t.UpdateFromDiscovery(n.me, a, pick))
  {
  }

  lemma OnlyPexAddsRelays(n: Node, t: Table, op: Op)
    requires Possible(n, t, op) && !op.Pex?
    ensures AddsNoRelay(t, Step(n, t, op))
  {
    match op
    case Discover(a, pick) => DiscoveryAddsNoRelay(n, t, a, pick);
    case _ =>
  }

  lemma StepKeepsRelaysProper(n: Node, t: Table, op: Op)
    requires RelaysAreProper(n, t) && Possible(n, t, op)
    ensures RelaysAreProper(n, Step(n, t, op))
  {
    if op.Pex? {
      PexKeepsRelaysProper(n, t, op.entries, op.sender, op.now, op.picks);
    } else {
      OnlyPexAddsRelays(n, t, op);
    }
  }

  lemma {:induction false} RunKeepsRelaysProper(n: Node, t: Table, ops: seq<Op>)
    requires RelaysAreProper(n, t) && IsRun(n, t, ops)
    ensures RelaysAreProper(n, Run(n, t, ops))
  {
    if ops != [] {
      RunKeepsRelaysProper(n, t, ops[..|ops| - 1]);
      StepKeepsRelaysProper(n, Run(n, t, ops[..|ops| - 1]), ops[|ops| - 1]);
    }
  }

  // ---------- purged IPs ----------

  /** The operations by which an IP can enter the table from outside the peer exchange. */
  predicate Names(op: Op, ip: Ip4) {
    match op
    case Add(p) => p.wolfnetIp == ip
    case Discover(a, _) => a.ip == ip
    case _ => false
  }

  lemma {:induction false} PexRespectsPurged(
    n: Node, t: Table, entries: seq<PexEntry>, sender: Ip4, now: nat, picks: seq<Option<Ip4>>, ip: Ip4)
    requires |picks| == |entries| && ip in t.purged && ip !in t.peers
    ensures ip !in t.AddFromPex(entries, sender, n.myIp, n.me, now, picks).peers
  {
    if entries != [] {
      var last := |entries| - 1;
      PexRespectsPurged(n, t, entries[..last], sender, now, picks[..last], ip);
      PexLeavesDirectPeers(t, entries[..last], sender, n, now, picks[..last]);
    }
  }

  lemma StepRespectsPurged(n: Node, t: Table, op: Op, ip: Ip4)
    requires Possible(n, t, op) && ip in t.purged && ip !in t.peers && !Names(op, ip)
    ensures ip in Step(n, t, op).purged && ip !in Step(n, t, op).peers
  {
    if op.Pex? {
      PexRespectsPurged(n, t, op.entries, op.sender, op.now, op.picks, ip);
      PexLeavesDirectPeers(t, op.entries, op.sender, n, op.now, op.picks);
    }
  }

  /** A purged IP stays purged for ever, and out of the table until a discovery or the
      configuration names it. */
  lemma {:induction false} PurgedStaysOut(n: Node, t: Table, ops: seq<Op>, ip: Ip4)
    requires IsRun(n, t, ops) && ip in t.purged && ip !in t.peers
    requires forall i :: 0 <= i < |ops| ==> !Names(ops[i], ip)
    ensures ip in Run(n, t, ops).purged && ip !in Run(n, t, ops).peers
  {
    if ops != [] {
      PurgedStaysOut(n, t, ops[..|ops| - 1], ip);
      StepRespectsPurged(n, Run(n, t, ops[..|ops| - 1]), ops[|ops| - 1], ip);
    }
  }

  // ---------- pinned endpoints ----------

  ghost predicate Pinned(t: Table, ip: Ip4, key: Key, ep: Option<SocketAddr>) {
    && ip in t.peers
    && t.peers[ip].publicKey == key
    && t.peers[ip].configuredEndpoint.Some?
    && t.peers[ip].endpoint == ep
  }

  /** The operations that may move a pinned endpoint. All others must leave it alone: all
      roaming, all peer exchange, and the discoveries that agree with the table about its IP
      and key. */
  predicate Unpinning(op: Op, ip: Ip4, key: Key) {
    match op
    case Add(p) => p.wolfnetIp == ip
    case Remove(x) => x == ip
    case Purge(x) => x == ip
    case SetEndpoint(x, _) => x == ip
    case Clear(x) => x == ip
    case Discover(a, _) => (a.ip == ip) != (a.key == key)
    case _ => false
  }

  lemma AgreeingDiscoveryKeepsPinned(me: Identity, t: Table, a: Announcement, pick: Option<Ip4>,
                                     ip: Ip4, key: Key, ep: Option<SocketAddr>)
    requires Pinned(t, ip, key, ep) && t.IsHolder(a.key, pick) && (a.ip == ip <==> a.key == key)
    ensures Pinned(t.UpdateFromDiscovery(me, a, pick), ip, key, ep)
  {
  }

  lemma StepKeepsPinned(n: Node, t: Table, op: Op, ip: Ip4, key: Key, ep: Option<SocketAddr>)
    requires Pinned(t, ip, key, ep) && Possible(n, t, op) && !Unpinning(op, ip, key)
    ensures Pinned(Step(n, t, op), ip, key, ep)
  {
    match op
    case Pex(entries, sender, now, picks) => PexLeavesDirectPeers(t, entries, sender, n, now, picks);
    case Discover(a, pick) => AgreeingDiscoveryKeepsPinned(n.me, t, a, pick, ip, key, ep);
    case _ =>
  }

  lemma {:induction false} PinnedIsSticky(n: Node, t: Table, ops: seq<Op>, ip: Ip4, key: Key, ep: Option<SocketAddr>)
    requires IsRun(n, t, ops) && Pinned(t, ip, key, ep)
    requires forall i :: 0 <= i < |ops| ==> !Unpinning(ops[i], ip, key)
    ensures Pinned(Run(n, t, ops), ip, key, ep)
  {
    if ops != [] {
      PinnedIsSticky(n, t, ops[..|ops| - 1], ip, key, ep);
      StepKeepsPinned(n, Run(n, t, ops[..|ops| - 1]), ops[|ops| - 1], ip, key, ep);
    }
  }

  /** For discoveries the condition is exact: one that names the pinned IP with another
      key, or the pinned key with another IP, always displaces the pinned peer. */
  lemma DiscoveryKeepsPinnedIff(n: Node, t: Table, a: Announcement, pick: Option<Ip4>,
                                ip: Ip4, key: Key, ep: Option<SocketAddr>)
    requires KeysUnique(t) && t.IsHolder(a.key, pick) && Pinned(t, ip, key, ep)
    ensures Pinned(t.UpdateFromDiscovery(n.me, a, pick), ip, key, ep) <==> (a.ip == ip <==> a.key == key)
  {
    if a.ip == ip <==> a.key == key {
      AgreeingDiscoveryKeepsPinned(n.me, t, a, pick, ip, key, ep);
    }
  }
}
