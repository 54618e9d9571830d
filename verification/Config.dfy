/** The peers of the configuration file, and the one pass that drops repeated ones. */
module Config {
  import opened Common

  datatype PeerConfig = PeerConfig(publicKey: string, endpoint: Option<string>, allowedIp: string, name: Option<string>)

  // ---------- dropping repeated peers ----------

  ghost predicate HasKey(peers: seq<PeerConfig>, key: string) {
    exists i :: 0 <= i < |peers| && peers[i].publicKey == key
  }

  /** The keys of the peers, each once, in the order of first occurrence. */
  function KeysInOrder(peers: seq<PeerConfig>): seq<string> {
    if peers == [] then []
    else
      var keys := KeysInOrder(peers[..|peers| - 1]);
      if peers[|peers| - 1].publicKey in keys then keys else keys + [peers[|peers| - 1].publicKey]
  }

  lemma KeysOfLonger(peers: seq<PeerConfig>, p: PeerConfig)
    ensures KeysInOrder(peers + [p]) ==
            if p.publicKey in KeysInOrder(peers) then KeysInOrder(peers) else KeysInOrder(peers) + [p.publicKey]
  {
    assert (peers + [p])[..|peers|] == peers;
  }

  lemma HasKeyInLonger(peers: seq<PeerConfig>, p: PeerConfig, key: string)
    ensures HasKey(peers + [p], key) <==> HasKey(peers, key) || p.publicKey == key
  {
    var all := peers + [p];
    if HasKey(peers, key) {
      var i :| 0 <= i < |peers| && peers[i].publicKey == key;
      assert all[i].publicKey == key;
    }
    if p.publicKey == key {
      assert all[|peers|].publicKey == key;
    }
  }

  /** They are the keys of the peers and nothing else, each once. */
  lemma {:induction false} KeysInOrderAreTheKeys(peers: seq<PeerConfig>, key: string)
    ensures key in KeysInOrder(peers) <==> HasKey(peers, key)
  {
    if peers != [] {
      var init, p := peers[..|peers| - 1], peers[|peers| - 1];
      KeysInOrderAreTheKeys(init, key);
      assert peers == init + [p];
      KeysOfLonger(init, p);
      HasKeyInLonger(init, p, key);
    }
  }

  lemma {:induction false} KeysInOrderDistinct(peers: seq<PeerConfig>)
    ensures forall k, l :: 0 <= k < l < |KeysInOrder(peers)| ==> KeysInOrder(peers)[k] != KeysInOrder(peers)[l]
  {
    if peers != [] {
      KeysInOrderDistinct(peers[..|peers| - 1]);
    }
  }

  lemma {:induction false} KeysOfPrefix(peers: seq<PeerConfig>, n: nat)
    requires n <= |peers|
    ensures KeysInOrder(peers[..n]) <= KeysInOrder(peers)
  {
    if n < |peers| {
      KeysOfPrefix(peers[..|peers| - 1], n);
      assert peers[..|peers| - 1][..n] == peers[..n];
    } else {
      assert peers[..n] == peers;
    }
  }

  ghost predicate FirstOccursAt(peers: seq<PeerConfig>, key: string, i: nat) {
    i < |peers| && peers[i].publicKey == key && forall j :: 0 <= j < i ==> peers[j].publicKey != key
  }

  /** And they come in the order in which they first occur. */
  lemma KeysInOrderAreInOrder(peers: seq<PeerConfig>, k: nat, l: nat, i: nat, j: nat)
    requires k < l < |KeysInOrder(peers)|
    requires FirstOccursAt(peers, KeysInOrder(peers)[k], i) && FirstOccursAt(peers, KeysInOrder(peers)[l], j)
    ensures i < j
  {
    KeysInOrderDistinct(peers);
    var keys, before := KeysInOrder(peers), KeysInOrder(peers[..i]);
    KeysOfPrefix(peers, i);
    assert forall m :: 0 <= m < |before| ==> before[m] == keys[m];
    KeysInOrderAreTheKeys(peers[..i], keys[k]);
    assert |before| <= k;
    KeysInOrderAreTheKeys(peers[..i], keys[l]);
    assert keys[l] !in before;
    assert forall m :: 0 <= m < i ==> peers[..i][m] == peers[m];
  }

  /** Entry i stands for a key: it is the first entry of that key with an endpoint or, if
      none of them has one, the first. */
  ghost predicate StandsFor(peers: seq<PeerConfig>, key: string, i: nat)
    requires i < |peers|
  {
    && peers[i].publicKey == key
    && if peers[i].endpoint.Some?
       then forall j :: 0 <= j < i && peers[j].publicKey == key ==> peers[j].endpoint.None?
       else forall j :: 0 <= j < |peers| && peers[j].publicKey == key ==> peers[j].endpoint.None? && i <= j
  }

  ghost predicate IsChosen(peers: seq<PeerConfig>, key: string, p: PeerConfig) {
    exists i :: 0 <= i < |peers| && StandsFor(peers, key, i) && peers[i] == p
  }

  /** What the pass promises: each key once, in order of first occurrence, with the entry
      that stands for it. */
  ghost predicate IsDeduped(peers: seq<PeerConfig>, kept: seq<PeerConfig>) {
    && |kept| == |KeysInOrder(peers)|
    && forall k :: 0 <= k < |kept| ==>
         kept[k].publicKey == KeysInOrder(peers)[k] && IsChosen(peers, kept[k].publicKey, kept[k])
  }

  lemma ChosenForOtherKey(peers: seq<PeerConfig>, p: PeerConfig, key: string, q: PeerConfig)
    requires IsChosen(peers, key, q) && p.publicKey != key
    ensures IsChosen(peers + [p], key, q)
  {
    var i :| 0 <= i < |peers| && StandsFor(peers, key, i) && peers[i] == q;
    assert StandsFor(peers + [p], key, i);
  }

  /** A repeated key: its entry gives way only if it has no endpoint and the new one has. */
  lemma ChosenForSameKey(peers: seq<PeerConfig>, p: PeerConfig, q: PeerConfig)
    requires IsChosen(peers, p.publicKey, q)
    ensures IsChosen(peers + [p], p.publicKey, if q.endpoint.None? && p.endpoint.Some? then p else q)
  {
    var i :| 0 <= i < |peers| && StandsFor(peers, p.publicKey, i) && peers[i] == q;
    if q.endpoint.None? && p.endpoint.Some? {
      assert StandsFor(peers + [p], p.publicKey, |peers|);
    } else {
      assert StandsFor(peers + [p], p.publicKey, i);
    }
  }

  /** Of two entries of one key at most one is chosen. */
  lemma ChosenIsUnique(peers: seq<PeerConfig>, key: string, p: PeerConfig, q: PeerConfig)
    requires IsChosen(peers, key, p) && IsChosen(peers, key, q)
    ensures p == q
  {
    var i :| 0 <= i < |peers| && StandsFor(peers, key, i) && peers[i] == p;
    var j :| 0 <= j < |peers| && StandsFor(peers, key, j) && peers[j] == q;
    assert i <= j && j <= i;
  }

  lemma RepeatAbsorbed(peers: seq<PeerConfig>, kept: seq<PeerConfig>, p: PeerConfig, k: nat)
    requires IsDeduped(peers, kept) && k < |kept| && kept[k].publicKey == p.publicKey
    ensures IsDeduped(peers + [p], if kept[k].endpoint.None? && p.endpoint.Some? then kept[k := p] else kept)
  {
    KeysOfLonger(peers, p);
    assert p.publicKey in KeysInOrder(peers);
    KeysInOrderDistinct(peers);
    ChosenForSameKey(peers, p, kept[k]);
    forall l | 0 <= l < |kept| && l != k
      ensures IsChosen(peers + [p], kept[l].publicKey, kept[l])
    {
      ChosenForOtherKey(peers, p, kept[l].publicKey, kept[l]);
    }
  }

  lemma NewAppended(peers: seq<PeerConfig>, kept: seq<PeerConfig>, p: PeerConfig)
    requires IsDeduped(peers, kept)
    requires forall k :: 0 <= k < |kept| ==> kept[k].publicKey != p.publicKey
    ensures IsDeduped(peers + [p], kept + [p])
  {
    KeysOfLonger(peers, p);
    assert p.publicKey !in KeysInOrder(peers);
    KeysInOrderAreTheKeys(peers, p.publicKey);
    forall l | 0 <= l < |kept|
      ensures IsChosen(peers + [p], kept[l].publicKey, kept[l])
    {
      ChosenForOtherKey(peers, p, kept[l].publicKey, kept[l]);
    }
    assert StandsFor(peers + [p], p.publicKey, |peers|);
  }

  /** The index map knows the place of every kept key, and of nothing else. */
  ghost predicate IndexFits(kept: seq<PeerConfig>, idxByKey: map<string, nat>) {
    && (forall key :: key in idxByKey ==> idxByKey[key] < |kept| && kept[idxByKey[key]].publicKey == key)
    && (forall k :: 0 <= k < |kept| ==> kept[k].publicKey in idxByKey)
  }

  method Dedup(peers: seq<PeerConfig>) returns (kept: seq<PeerConfig>)
    ensures IsDeduped(peers, kept)
  {
    kept := [];
    var idxByKey: map<string, nat> := map[];
    for i := 0 to |peers|
      invariant IsDeduped(peers[..i], kept) && IndexFits(kept, idxByKey)
    {
      assert peers[..i + 1] == peers[..i] + [peers[i]];
      kept, idxByKey := Keep(peers[..i], kept, idxByKey, peers[i]);
    }
    assert peers[..|peers|] == peers;
  }

  /** One turn of the pass. */
  method Keep(ghost seen: seq<PeerConfig>, kept: seq<PeerConfig>, idxByKey: map<string, nat>, peer: PeerConfig)
    returns (kept': seq<PeerConfig>, idxByKey': map<string, nat>)
    requires IsDeduped(seen, kept) && IndexFits(kept, idxByKey)
    ensures IsDeduped(seen + [peer], kept') && IndexFits(kept', idxByKey')
  {
    if peer.publicKey in idxByKey {
      var k := idxByKey[peer.publicKey];
      RepeatAbsorbed(seen, kept, peer, k);
      kept' := if kept[k].endpoint.None? && peer.endpoint.Some? then kept[k := peer] else kept;
      idxByKey' := idxByKey;
    } else {
      NewAppended(seen, kept, peer);
      kept', idxByKey' := kept + [peer], idxByKey[peer.publicKey := |kept|];
    }
  }

  /** The promise leaves no choice: one list comes out of every list of peers. */
  lemma DedupIsDetermined(peers: seq<PeerConfig>, kept: seq<PeerConfig>, kept': seq<PeerConfig>)
    requires IsDeduped(peers, kept) && IsDeduped(peers, kept')
    ensures kept == kept'
  {
    forall k | 0 <= k < |kept|
      ensures kept[k] == kept'[k]
    {
      ChosenIsUnique(peers, kept[k].publicKey, kept[k], kept'[k]);
    }
  }

  ghost predicate KeysDistinct(peers: seq<PeerConfig>) {
    forall i, j :: 0 <= i < j < |peers| ==> peers[i].publicKey != peers[j].publicKey
  }

  lemma {:induction false} KeysInOrderLength(peers: seq<PeerConfig>)
    ensures |KeysInOrder(peers)| <= |peers|
    ensures |KeysInOrder(peers)| == |peers| <==> KeysDistinct(peers)
  {
    if peers != [] {
      var init, p := peers[..|peers| - 1], peers[|peers| - 1];
      KeysInOrderLength(init);
      KeysInOrderAreTheKeys(init, p.publicKey);
      assert forall i :: 0 <= i < |init| ==> init[i] == peers[i];
      if HasKey(init, p.publicKey) {
        var i :| 0 <= i < |init| && init[i].publicKey == p.publicKey;
        assert peers[i].publicKey == peers[|peers| - 1].publicKey;
      }
    }
  }

  /** Keys in order of distinct peers are the keys of the peers in place. */
  lemma {:induction false} DistinctUnchanged(peers: seq<PeerConfig>)
    requires KeysDistinct(peers)
    ensures IsDeduped(peers, peers)
  {
    if peers != [] {
      var init, p := peers[..|peers| - 1], peers[|peers| - 1];
      DistinctUnchanged(init);
      assert peers == init + [p];
      NewAppended(init, init, p);
    }
  }

  /** The pass is idempotent, and it shortens the list exactly when a key is repeated. */
  lemma DedupIsIdempotent(peers: seq<PeerConfig>, kept: seq<PeerConfig>)
    requires IsDeduped(peers, kept)
    ensures KeysDistinct(kept) && IsDeduped(kept, kept)
    ensures |kept| < |peers| <==> !KeysDistinct(peers)
    ensures KeysDistinct(peers) ==> kept == peers
  {
    KeysInOrderDistinct(peers);
    DistinctUnchanged(kept);
    KeysInOrderLength(peers);
    if KeysDistinct(peers) {
      DistinctUnchanged(peers);
      DedupIsDetermined(peers, kept, peers);
    }
  }
}
