/** What the receive window promises over runs of packets; that a session never uses a nonce
    twice, and when a secret does once its sessions start again. */
module Replay {
  import opened Common
  import opened Bytes
  import opened Crypto

  /** An arriving packet: its counter, and whether the peer really sealed it. */
  datatype Packet = Packet(counter: u64, authentic: bool)

  /** What becomes of a packet, or of any other call. */
  datatype Verdict = Rejected | Accepted | Restarted | Reset | NoPacket {
    predicate Takes() {
      Accepted? || Restarted?
    }

    /** The receive counter starts over. */
    predicate StartsOver() {
      Restarted? || Reset?
    }
  }

  function Judge(s: Session, p: Packet): Verdict {
    if !s.Admits(p.counter) || !p.authentic then Rejected
    else if s.LikelyRestart(p.counter) then Restarted
    else Accepted
  }

  function Receive(s: Session, p: Packet): Session {
    if Judge(s, p).Takes() then s.Accepted(p.counter) else s
  }

  /** What happens to a session: a call of either form of encryption, an arriving packet, or
      a handshake, which establishes the session anew under the same secret. */
  datatype Call = Encrypt | EncryptInto | Arrive(packet: Packet) | Reestablish {
    predicate Seals() {
      Encrypt? || EncryptInto?
    }
  }

  function After(s: Session, call: Call): Session {
    match call
    case Encrypt => s.Sent()
    case EncryptInto => s.Sent()
    case Arrive(p) => Receive(s, p)
    case Reestablish => s.(send := 0, recv := 0)
  }

  function AfterAll(s: Session, calls: seq<Call>): Session {
    if calls == [] then s else After(AfterAll(s, calls[..|calls| - 1]), calls[|calls| - 1])
  }

  /** Establishing a session with the same keys again gives the session that there was at
      first, whatever happened in between. */
  lemma {:induction false} ReestablishedIsNew(secret: seq<byte>, x: Key, y: Key, calls: seq<Call>)
    ensures After(AfterAll(NewSession(secret, x, y), calls), Reestablish) == NewSession(secret, x, y)
  {
    if calls != [] {
      ReestablishedIsNew(secret, x, y, calls[..|calls| - 1]);
    }
  }

  function Outcome(s: Session, call: Call): Verdict {
    match call
    case Arrive(p) => Judge(s, p)
    case Reestablish => Reset
    case _ => NoPacket
  }

  /** The verdicts of a run. */
  function Verdicts(s: Session, calls: seq<Call>): (vs: seq<Verdict>)
    ensures |vs| == |calls|
  {
    if calls == [] then []
    else
      var init := calls[..|calls| - 1];
      Verdicts(s, init) + [Outcome(AfterAll(s, init), calls[|calls| - 1])]
  }

  lemma {:induction false} VerdictAt(s: Session, calls: seq<Call>, i: nat)
    requires i < |calls|
    ensures Verdicts(s, calls)[i] == Outcome(AfterAll(s, calls[..i]), calls[i])
    decreases |calls|
  {
    if i < |calls| - 1 {
      VerdictAt(s, calls[..|calls| - 1], i);
      assert calls[..|calls| - 1][..i] == calls[..i];
    }
  }

  /** A counter is refused exactly when it lies more than the window below the last one
      and does not look like a restart. */
  lemma AdmitsIff(s: Session, counter: u64)
    ensures s.Admits(counter) <==>
            counter + 32 >= s.recv || (counter < 100 && s.recv > 100)
  {
  }

  /** decrypt and decrypt_into take the same packets, yield the same text and leave the
      same counters. */
  lemma DecryptFormsAgree(aead: Aead, s: Session, counter: u64, ct: seq<byte>)
    ensures var x := s.Decrypted(aead, counter, ct);
            var y := s.DecryptedInto(aead, counter, ct);
            && x.Success? == y.Success?
            && (x.Success? ==> x.value == y.value)
            && s.AfterDecrypt(counter, x) == s.AfterDecrypt(counter, y)
  {
  }

  /** The two forms of the opposite end undo encryption while its window admits the counter. */
  lemma DecryptUndoesEncrypt(aead: Aead, sender: Session, receiver: Session, text: seq<byte>)
    requires aead.Lawful()
    requires sender.secret == receiver.secret && sender.low == !receiver.low
    ensures var (counter, ct) := sender.Encrypted(aead, text);
            && |ct| == |text| + TAG_LENGTH
            && (receiver.Admits(counter) <==> receiver.Decrypted(aead, counter, ct).Success?)
            && (receiver.Admits(counter) ==>
                && receiver.Decrypted(aead, counter, ct) == Success(text)
                && receiver.DecryptedInto(aead, counter, ct) == Success(text))
  {
    var nonce := MakeNonce(sender.send, sender.low);
    var sealed := aead.seal(sender.secret, nonce, text);
    var ct := sealed.body + sealed.tag;
    assert ct[..|ct| - TAG_LENGTH] == sealed.body && ct[|ct| - TAG_LENGTH..] == sealed.tag;
  }

  /** A call of decrypt is the arrival of a packet, which is authentic exactly when the
      cipher opens it: it succeeds if and only if the packet is not rejected, and leaves the
      session that the arrival leaves. */
  lemma DecryptIsReceive(aead: Aead, s: Session, counter: u64, ct: seq<byte>)
    ensures var p := Packet(counter, aead.OpenAttached(s.secret, MakeNonce(counter, !s.low), ct).Some?);
            var result := s.Decrypted(aead, counter, ct);
            && (result.Success? <==> Judge(s, p).Takes())
            && s.AfterDecrypt(counter, result) == Receive(s, p)
  {
    var p := Packet(counter, aead.OpenAttached(s.secret, MakeNonce(counter, !s.low), ct).Some?);
    assert s.Decrypted(aead, counter, ct).Success? <==> s.Admits(counter) && p.authentic;
  }

  // ---------- the receive counter over a run ----------

  /** The last call that started the receive counter over, or -1. */
  function LastStart(vs: seq<Verdict>): (at: int)
    ensures -1 <= at < |vs|
    ensures at >= 0 ==> vs[at].StartsOver()
    ensures forall i :: 0 <= i < |vs| && at < i ==> !vs[i].StartsOver()
  {
    if vs == [] then -1
    else if vs[|vs| - 1].StartsOver() then |vs| - 1
    else LastStart(vs[..|vs| - 1])
  }

  /** The counter that a call brings. */
  function CounterOf(call: Call): u64 {
    if call.Arrive? then call.packet.counter else 0
  }

  /** recv is the largest counter taken since the last packet that counted as a restart, or
      the last handshake; before any of these the starting counter competes too, and after a
      handshake zero does. */
  ghost predicate IsHighWater(start: u64, calls: seq<Call>, vs: seq<Verdict>, recv: u64)
    requires |vs| == |calls|
  {
    var from := LastStart(vs);
    && (from < 0 ==> start <= recv)
    && (forall i :: 0 <= i < |vs| && from <= i && vs[i].Takes() ==> CounterOf(calls[i]) <= recv)
    && (|| (from < 0 && recv == start)
        || (from >= 0 && vs[from].Reset? && recv == 0)
        || exists i :: 0 <= i < |vs| && from <= i && vs[i].Takes() && CounterOf(calls[i]) == recv)
  }

  /** Over any run, handshakes and calls of encryption in it, the receive counter is the
      high-water mark, so what is rejected never counts. */
  lemma {:induction false} RecvIsHighWater(s: Session, calls: seq<Call>)
    ensures IsHighWater(s.recv, calls, Verdicts(s, calls), AfterAll(s, calls).recv)
  {
    if calls != [] {
      var init := calls[..|calls| - 1];
      RecvIsHighWater(s, init);
      HighWaterStep(s.recv, init, Verdicts(s, init), AfterAll(s, init), calls[|calls| - 1]);
      assert calls == init + [calls[|calls| - 1]];
    }
  }

  lemma HighWaterStep(start: u64, calls: seq<Call>, vs: seq<Verdict>, s: Session, call: Call)
    requires |vs| == |calls| && IsHighWater(start, calls, vs, s.recv)
    ensures IsHighWater(start, calls + [call], vs + [Outcome(s, call)], After(s, call).recv)
  {
    var n, all, vs' := |vs|, calls + [call], vs + [Outcome(s, call)];
    var from, recv := LastStart(vs'), After(s, call).recv;
    assert vs'[..n] == vs;
    if call.Reestablish? {
      assert from == n && vs'[n].Reset?;
    } else if !Outcome(s, call).Takes() || recv != CounterOf(call) {
      HighWaterStays(start, calls, vs, s.recv, call, Outcome(s, call));
    } else {
      assert vs'[n].Takes() && CounterOf(all[n]) == recv;
    }
  }

  lemma HighWaterStays(start: u64, calls: seq<Call>, vs: seq<Verdict>, recv: u64, call: Call, v: Verdict)
    requires |vs| == |calls| && IsHighWater(start, calls, vs, recv)
    requires !v.StartsOver() && (v.Takes() ==> CounterOf(call) <= recv)
    ensures IsHighWater(start, calls + [call], vs + [v], recv)
  {
    var n, all, vs' := |vs|, calls + [call], vs + [v];
    assert vs'[..n] == vs;
    var from := LastStart(vs');
    assert from == LastStart(vs);
    if !(from < 0 && recv == start) && !(from >= 0 && vs[from].Reset? && recv == 0) {
      var i :| 0 <= i < n && from <= i && vs[i].Takes() && CounterOf(calls[i]) == recv;
      assert vs'[i].Takes() && CounterOf(all[i]) == recv;
    }
  }

  /** The counter never exceeds the largest one that is authentic. */
  lemma {:induction false} RecvBounded(s: Session, calls: seq<Call>, bound: nat)
    requires s.recv <= bound
    requires forall i :: 0 <= i < |calls| && calls[i].Arrive? && calls[i].packet.authentic ==>
               calls[i].packet.counter <= bound
    ensures AfterAll(s, calls).recv <= bound
  {
    if calls != [] {
      RecvBounded(s, calls[..|calls| - 1], bound);
    }
  }

  /** Authentic packets in any order are all accepted while none comes more than the window
      below the largest authentic counter seen before it, restarts and handshakes on the way
      or not, and whatever else arrives between them. */
  lemma ReorderedPacketsAccepted(s: Session, calls: seq<Call>, i: nat)
    requires i < |calls| && calls[i].Arrive? && calls[i].packet.authentic
    requires calls[i].packet.counter + REORDER_WINDOW >= s.recv
    requires forall j :: 0 <= j < i && calls[j].Arrive? && calls[j].packet.authentic ==>
               calls[i].packet.counter + REORDER_WINDOW >= calls[j].packet.counter
    ensures Verdicts(s, calls)[i].Takes()
  {
    VerdictAt(s, calls, i);
    RecvBounded(s, calls[..i], calls[i].packet.counter + REORDER_WINDOW);
  }

  /** A packet that was accepted is not refused for that: sent again, it is refused exactly
      when the receive counter stands more than the window above its own by then and it does
      not look like a restart. */
  lemma DuplicateRefusedIff(s: Session, calls: seq<Call>, i: nat, j: nat)
    requires i < j < |calls| && calls[i].Arrive? && calls[i] == calls[j] && Verdicts(s, calls)[i].Takes()
    ensures var counter, recv := calls[j].packet.counter, AfterAll(s, calls[..j]).recv;
            Verdicts(s, calls)[j] == Rejected <==>
            counter + 32 < recv && !(counter < 100 && recv > 100)
  {
    VerdictAt(s, calls, i);
    VerdictAt(s, calls, j);
    AdmitsIff(AfterAll(s, calls[..j]), calls[j].packet.counter);
  }

  /** So one that follows at once is always accepted a second time. */
  lemma DuplicateAtOnceAccepted(s: Session, calls: seq<Call>, i: nat)
    requires i + 1 < |calls| && calls[i].Arrive? && calls[i + 1] == calls[i] && Verdicts(s, calls)[i].Takes()
    ensures Verdicts(s, calls)[i + 1].Takes()
  {
    VerdictAt(s, calls, i);
    VerdictAt(s, calls, i + 1);
    assert calls[..i + 1][..i] == calls[..i];
  }

  /** And after a handshake whichever authentic packet comes next is accepted, whatever was received. */
  lemma HandshakeReopensWindow(s: Session, calls: seq<Call>, p: Packet)
    requires p.authentic
    ensures Judge(AfterAll(s, calls + [Reestablish]), p).Takes()
  {
    assert (calls + [Reestablish])[..|calls|] == calls;
  }

  // ---------- a peer that starts again ----------

  /** The in-order authentic stream of a peer whose send counter was reset. */
  function Stream(n: nat): seq<Call>
    requires n <= TWO_64
  {
    seq(n, i requires 0 <= i < n => Arrive(Packet(i, true)))
  }

  lemma {:induction false} RecvAlongStream(s: Session, n: nat, k: nat)
    requires k <= n <= TWO_64
    ensures AfterAll(s, Stream(n)[..k]).recv ==
            if k == 0 || (s.recv <= RESTART_LIMIT && k - 1 < s.recv) then s.recv else k - 1
    decreases k
  {
    if k > 0 {
      RecvAlongStream(s, n, k - 1);
      assert Stream(n)[..k][..k - 1] == Stream(n)[..k - 1];
    }
  }

  /** From a receive counter up to 100 the stream's packets are lost until they come
      within the window; from a larger one none is lost. */
  lemma RestartVerdicts(s: Session, n: nat, i: nat)
    requires i < n <= TWO_64
    ensures Verdicts(s, Stream(n))[i] == Rejected <==> s.recv <= RESTART_LIMIT && i + REORDER_WINDOW < s.recv
  {
    VerdictAt(s, Stream(n), i);
    RecvAlongStream(s, n, i);
  }

  function Losses(vs: seq<Verdict>): nat {
    if vs == [] then 0 else Losses(vs[..|vs| - 1]) + if vs[|vs| - 1] == Rejected then 1 else 0
  }

  /** Hence the number lost, exactly, and never more than 68. */
  lemma {:induction false} RestartLosses(s: Session, n: nat)
    requires n <= TWO_64
    ensures var bound := if s.recv <= RESTART_LIMIT && s.recv > REORDER_WINDOW then s.recv - REORDER_WINDOW else 0;
            && Losses(Verdicts(s, Stream(n))) == (if n < bound then n else bound)
            && bound <= 68
  {
    if n > 0 {
      RestartLosses(s, n - 1);
      RestartVerdicts(s, n, n - 1);
      assert Stream(n)[..n - 1] == Stream(n - 1);
      var vs := Verdicts(s, Stream(n));
      assert vs[..n - 1] == Verdicts(s, Stream(n - 1));
    }
  }

  /** The machine word n places after x. */
  function Word(x: u64, n: nat): u64 {
    (x + n) % TWO_64
  }

  lemma WordAfter(x: u64, n: nat)
    ensures Word(Word(x, 1), n) == Word(x, n + 1)
  {
  }

  lemma WordNext(x: u64, n: nat)
    ensures Word(Word(x, n), 1) == Word(x, n + 1)
  {
  }

  lemma WordsDiffer(x: u64, i: nat, j: nat)
    requires i < j < i + TWO_64
    ensures Word(x, i) != Word(x, j)
  {
  }

  /** What a session makes of texts sealed one after the other. */
  function SealEach<T>(seal: (Session, seq<byte>) -> T, s: Session, texts: seq<seq<byte>>): (packets: seq<T>)
    ensures |packets| == |texts|
    decreases |texts|
  {
    if texts == [] then [] else [seal(s, texts[0])] + SealEach(seal, s.Sent(), texts[1..])
  }

  function Sealings(aead: Aead, s: Session, texts: seq<seq<byte>>): (packets: seq<(u64, seq<byte>)>)
    ensures |packets| == |texts|
  {
    SealEach(Sealer(aead), s, texts)
  }

  function Sealer(aead: Aead): (Session, seq<byte>) -> (u64, seq<byte>) {
    (s: Session, text: seq<byte>) => s.Encrypted(aead, text)
  }

  lemma SentThen(s: Session, n: nat)
    ensures s.Sent().(send := Word(s.Sent().send, n)) == s.(send := Word(s.send, n + 1))
  {
    assert s.Sent().send == Word(s.send, 1);
    WordAfter(s.send, n);
  }

  lemma {:induction false} SealingAt<T>(seal: (Session, seq<byte>) -> T, s: Session, texts: seq<seq<byte>>, i: nat)
    requires i < |texts|
    ensures SealEach(seal, s, texts)[i] == seal(s.(send := Word(s.send, i)), texts[i])
    decreases i
  {
    if i == 0 {
      assert s.(send := Word(s.send, 0)) == s;
    } else {
      SealingAt(seal, s.Sent(), texts[1..], i - 1);
      SentThen(s, i - 1);
    }
  }

  /** The session after decrypting all these. */
  function DecryptAll(aead: Aead, s: Session, packets: seq<(u64, seq<byte>)>): Session {
    if packets == [] then s
    else
      var before, (counter, ct) := DecryptAll(aead, s, packets[..|packets| - 1]), packets[|packets| - 1];
      before.AfterDecrypt(counter, before.Decrypted(aead, counter, ct))
  }

  lemma {:induction false} DecryptAllKeeps(aead: Aead, s: Session, packets: seq<(u64, seq<byte>)>)
    ensures DecryptAll(aead, s, packets).secret == s.secret && DecryptAll(aead, s, packets).low == s.low
  {
    if packets != [] {
      DecryptAllKeeps(aead, s, packets[..|packets| - 1]);
    }
  }

  lemma SealingIsAuthentic(aead: Aead, sender: Session, receiver: Session, text: seq<byte>)
    requires aead.Lawful() && sender.secret == receiver.secret && sender.low == !receiver.low
    ensures var (counter, ct) := sender.Encrypted(aead, text);
            aead.OpenAttached(receiver.secret, MakeNonce(counter, !receiver.low), ct) == Some(text)
  {
    var sealed := aead.seal(sender.secret, MakeNonce(sender.send, sender.low), text);
    var ct := sealed.body + sealed.tag;
    assert ct[..|ct| - TAG_LENGTH] == sealed.body && ct[|ct| - TAG_LENGTH..] == sealed.tag;
  }

  /** Packet i has counter i and opens to text i. */
  ghost predicate Carries(aead: Aead, receiver: Session, packets: seq<(u64, seq<byte>)>, texts: seq<seq<byte>>) {
    && |packets| == |texts| <= TWO_64
    && forall i :: 0 <= i < |packets| ==>
         && packets[i].0 == i
         && aead.OpenAttached(receiver.secret, MakeNonce(i, !receiver.low), packets[i].1) == Some(texts[i])
  }

  lemma WordOfSmall(n: nat)
    requires n < TWO_64
    ensures Word(0, n) == n
  {
  }

  lemma SealingIs(aead: Aead, s: Session, texts: seq<seq<byte>>, i: nat)
    requires i < |texts| <= TWO_64 && s.send == 0
    ensures Sealings(aead, s, texts)[i] == Sealer(aead)(s.(send := i), texts[i])
  {
    SealingAt(Sealer(aead), s, texts, i);
    WordOfSmall(i);
  }

  lemma SealingsCarry(aead: Aead, sender: Session, receiver: Session, texts: seq<seq<byte>>)
    requires aead.Lawful() && |texts| <= TWO_64
    requires sender.secret == receiver.secret && sender.low == !receiver.low && sender.send == 0
    ensures Carries(aead, receiver, Sealings(aead, sender, texts), texts)
  {
    forall i | 0 <= i < |texts|
      ensures Sealings(aead, sender, texts)[i].0 == i
      ensures aead.OpenAttached(receiver.secret, MakeNonce(i, !receiver.low), Sealings(aead, sender, texts)[i].1)
              == Some(texts[i])
    {
      SealingIs(aead, sender, texts, i);
      SealingIsAuthentic(aead, sender.(send := i), receiver, texts[i]);
    }
  }

  lemma {:induction false} DecryptAlongStream(
    aead: Aead, s: Session, packets: seq<(u64, seq<byte>)>, texts: seq<seq<byte>>, k: nat)
    requires Carries(aead, s, packets, texts) && k <= |packets|
    ensures DecryptAll(aead, s, packets[..k]) == AfterAll(s, Stream(|packets|)[..k])
    decreases k
  {
    if k > 0 {
      DecryptAlongStream(aead, s, packets, texts, k - 1);
      var stream := Stream(|packets|);
      assert packets[..k][..k - 1] == packets[..k - 1] && stream[..k][..k - 1] == stream[..k - 1];
      var before := DecryptAll(aead, s, packets[..k - 1]);
      DecryptAllKeeps(aead, s, packets[..k - 1]);
      DecryptIsReceive(aead, before, packets[k - 1].0, packets[k - 1].1);
    }
  }

  /** From end to end: when one end's session starts again from zero and the other's does
      not, the texts that the one seals in order are read by the other, but for those lost
      until the counter comes within the window of what the other had received before. */
  lemma RestartTexts(aead: Aead, sender: Session, receiver: Session, texts: seq<seq<byte>>, i: nat)
    requires aead.Lawful() && i < |texts| <= TWO_64
    requires sender.secret == receiver.secret && sender.low == !receiver.low && sender.send == 0
    ensures var packets := Sealings(aead, sender, texts);
            DecryptAll(aead, receiver, packets[..i]).Decrypted(aead, packets[i].0, packets[i].1) ==
            if receiver.recv <= RESTART_LIMIT && i + REORDER_WINDOW < receiver.recv
            then Failure(StaleNonce) else Success(texts[i])
  {
    SealingsCarry(aead, sender, receiver, texts);
    CarriedTexts(aead, receiver, Sealings(aead, sender, texts), texts, i);
  }

  lemma CarriedTexts(aead: Aead, s: Session, packets: seq<(u64, seq<byte>)>, texts: seq<seq<byte>>, i: nat)
    requires Carries(aead, s, packets, texts) && i < |packets|
    ensures DecryptAll(aead, s, packets[..i]).Decrypted(aead, packets[i].0, packets[i].1) ==
            if s.recv <= RESTART_LIMIT && i + REORDER_WINDOW < s.recv then Failure(StaleNonce) else Success(texts[i])
  {
    DecryptAlongStream(aead, s, packets, texts, i);
    DecryptAllKeeps(aead, s, packets[..i]);
    VerdictAt(s, Stream(|packets|), i);
    RestartVerdicts(s, |packets|, i);
  }

  // ---------- nonces ----------

  lemma NonceInjective(c: u64, low: bool, d: u64, lowd: bool)
    ensures MakeNonce(c, low) == MakeNonce(d, lowd) <==> c == d && low == lowd
  {
    Pow256Values();
    FromToLE(c, 8);
    FromToLE(d, 8);
    assert MakeNonce(c, low)[..8] == ToLE(c, 8) && MakeNonce(d, lowd)[..8] == ToLE(d, 8);
    assert MakeNonce(c, low)[11] == if low then 0 else 1;
  }

  /** The bytes of a nonce: the counter, lowest byte first, three zeros and the direction. */
  predicate IsNonce(n: Nonce, counter: u64, low: bool) {
    FromLE(n[..8]) == counter && n[8..11] == [0, 0, 0] && n[11] == if low then 0 else 1
  }

  lemma MadeNonceIs(counter: u64, low: bool)
    ensures IsNonce(MakeNonce(counter, low), counter, low)
  {
    Pow256Values();
    FromToLE(counter, 8);
    assert MakeNonce(counter, low)[..8] == ToLE(counter, 8);
  }

  lemma NonceIsMade(n: Nonce, low: bool)
    requires n[8..11] == [0, 0, 0] && n[11] == if low then 0 else 1
    ensures n == ToLE(FromLE(n[..8]), 8) + [0, 0, 0, if low then 0 else 1]
  {
    ToFromLE(n[..8]);
    assert n == n[..8] + (n[8..11] + [n[11]]);
  }

  lemma NonceLayout(n: Nonce, counter: u64, low: bool)
    ensures n == MakeNonce(counter, low) <==> IsNonce(n, counter, low)
  {
    MadeNonceIs(counter, low);
    if IsNonce(n, counter, low) {
      NonceIsMade(n, low);
    }
  }

  /** A text is sealed under the nonce of the present counter and of the sealing side, and its
      tag is put behind it. */
  lemma EncryptedIs(aead: Aead, s: Session, text: seq<byte>, n: Nonce)
    requires IsNonce(n, s.send, s.low)
    ensures var it := aead.seal(s.secret, n, text);
            s.Encrypted(aead, text) == (s.send, it.body + it.tag)
  {
    NonceLayout(n, s.send, s.low);
  }

  /** And a ciphertext is opened under the nonce of its counter and of the other side, its last
      sixteen bytes being the tag, unless its counter is refused. */
  lemma DecryptedIs(aead: Aead, s: Session, counter: u64, ct: seq<byte>, n: Nonce)
    requires IsNonce(n, counter, !s.low)
    ensures var isStale := counter + 32 < s.recv && !(counter < 100 && s.recv > 100);
            var plain := if |ct| < 16 then None else aead.open(s.secret, n, Sealed(ct[..|ct| - 16], ct[|ct| - 16..]));
            s.Decrypted(aead, counter, ct) ==
            if isStale then Failure(StaleNonce)
            else if plain.Some? then Success(plain.value) else Failure(Unauthentic)
  {
    NonceLayout(n, counter, !s.low);
    AdmitsIff(s, counter);
  }

  /** The nonces a run of calls seals with, in order. */
  function Nonces(s: Session, calls: seq<Call>): seq<Nonce> {
    if calls == [] then []
    else
      var init := calls[..|calls| - 1];
      if calls[|calls| - 1].Seals() then Nonces(s, init) + [MakeNonce(AfterAll(s, init).send, s.low)]
      else Nonces(s, init)
  }

  ghost predicate Distinct<T(!new)>(xs: seq<T>) {
    forall i, j :: 0 <= i < j < |xs| ==> xs[i] != xs[j]
  }

  /** The nonces count up from a word. */
  ghost predicate CountsUp(ns: seq<Nonce>, from: u64, low: bool) {
    forall i :: 0 <= i < |ns| ==> ns[i] == MakeNonce(Word(from, i), low)
  }

  lemma CountsUpMore(ns: seq<Nonce>, from: u64, low: bool, word: u64)
    requires CountsUp(ns, from, low) && word == Word(from, |ns|)
    ensures CountsUp(ns + [MakeNonce(word, low)], from, low)
  {
  }

  /** Such nonces are distinct exactly up to 2^64 of them; then the word has come round. */
  lemma CountingDistinctIff(ns: seq<Nonce>, from: u64, low: bool)
    requires CountsUp(ns, from, low)
    ensures Distinct(ns) <==> |ns| <= TWO_64
  {
    forall i, j | 0 <= i < j < |ns| && j - i < TWO_64
      ensures ns[i] != ns[j]
    {
      WordsDiffer(from, i, j);
      NonceInjective(Word(from, i), low, Word(from, j), low);
    }
    if |ns| > TWO_64 {
      assert Word(from, TWO_64) == Word(from, 0);
      assert ns[0] == ns[TWO_64];
    }
  }

  // ---------- within one session ----------

  ghost predicate OneSession(calls: seq<Call>) {
    forall i :: 0 <= i < |calls| ==> !calls[i].Reestablish?
  }

  /** Receiving leaves the sending half of a session alone. */
  lemma AfterCall(s: Session, call: Call)
    requires !call.Reestablish?
    ensures After(s, call).low == s.low
    ensures After(s, call).send == if call.Seals() then Word(s.send, 1) else s.send
  {
  }

  lemma {:induction false} SendCountsUp(s: Session, calls: seq<Call>)
    requires OneSession(calls)
    ensures AfterAll(s, calls).send == Word(s.send, |Nonces(s, calls)|)
  {
    if calls == [] {
      assert Word(s.send, 0) == s.send;
    } else {
      var init, call := calls[..|calls| - 1], calls[|calls| - 1];
      SendCountsUp(s, init);
      AfterCall(AfterAll(s, init), call);
      WordNext(s.send, |Nonces(s, init)|);
    }
  }

  lemma {:induction false} NoncesCountUp(s: Session, calls: seq<Call>)
    requires OneSession(calls)
    ensures CountsUp(Nonces(s, calls), s.send, s.low)
  {
    if calls != [] {
      var init := calls[..|calls| - 1];
      NoncesCountUp(s, init);
      SendCountsUp(s, init);
      CountsUpMore(Nonces(s, init), s.send, s.low, AfterAll(s, init).send);
    }
  }

  /** However the calls interleave, one session's nonces are pairwise distinct exactly as
      long as it seals at most 2^64 times. */
  lemma NoncesDistinctIff(s: Session, calls: seq<Call>)
    requires OneSession(calls)
    ensures Distinct(Nonces(s, calls)) <==> |Nonces(s, calls)| <= TWO_64
  {
    NoncesCountUp(s, calls);
    CountingDistinctIff(Nonces(s, calls), s.send, s.low);
  }

  // ---------- when sessions start again ----------

  /** Something is sealed before the session is established anew. */
  predicate SealsBeforeReset(calls: seq<Call>) {
    calls != [] &&
    (SealsBeforeReset(calls[..|calls| - 1])
     || (calls[|calls| - 1].Reestablish? && exists i :: 0 <= i < |calls| && calls[i].Seals()))
  }

  /** And something after: two stretches between re-establishments seal. */
  predicate SealsInTwoStretches(calls: seq<Call>) {
    calls != [] &&
    (SealsInTwoStretches(calls[..|calls| - 1])
     || (calls[|calls| - 1].Seals() && SealsBeforeReset(calls[..|calls| - 1])))
  }

  lemma {:induction false} NoNoncesIff(s: Session, calls: seq<Call>)
    ensures Nonces(s, calls) == [] <==> forall i :: 0 <= i < |calls| ==> !calls[i].Seals()
  {
    if calls != [] {
      var init, call := calls[..|calls| - 1], calls[|calls| - 1];
      NoNoncesIff(s, init);
      assert calls == init + [call];
    }
  }

  /** As long as one stretch seals at most, the nonces count up from zero, and the counter is
      back at zero once that stretch is over. */
  lemma {:induction false} OneStretchCountsUp(s: Session, calls: seq<Call>)
    requires s.send == 0 && !SealsInTwoStretches(calls)
    ensures CountsUp(Nonces(s, calls), 0, s.low)
    ensures AfterAll(s, calls).send == if SealsBeforeReset(calls) then 0 else Word(0, |Nonces(s, calls)|)
  {
    if calls != [] {
      var init, call := calls[..|calls| - 1], calls[|calls| - 1];
      OneStretchCountsUp(s, init);
      NoNoncesIff(s, calls);
      if call.Reestablish? {
        assert Word(0, 0) == 0;
      } else {
        AfterCall(AfterAll(s, init), call);
        WordNext(0, |Nonces(s, init)|);
        if call.Seals() {
          CountsUpMore(Nonces(s, init), 0, s.low, AfterAll(s, init).send);
        }
      }
    }
  }

  lemma {:induction false} TwoStretchesRepeatNonce(s: Session, calls: seq<Call>)
    requires s.send == 0 && SealsInTwoStretches(calls)
    ensures !Distinct(Nonces(s, calls))
  {
    var init, call := calls[..|calls| - 1], calls[|calls| - 1];
    if SealsInTwoStretches(init) {
      TwoStretchesRepeatNonce(s, init);
      var i, j :| 0 <= i < j < |Nonces(s, init)| && Nonces(s, init)[i] == Nonces(s, init)[j];
      assert Nonces(s, calls)[i] == Nonces(s, calls)[j];
    } else {
      OneStretchCountsUp(s, init);
      SealedBeforeReset(s, init);
      var ns := Nonces(s, calls);
      assert ns[0] == MakeNonce(Word(0, 0), s.low) && ns[|ns| - 1] == MakeNonce(0, s.low);
    }
  }

  lemma {:induction false} SealedBeforeReset(s: Session, calls: seq<Call>)
    requires SealsBeforeReset(calls)
    ensures Nonces(s, calls) != []
  {
    if SealsBeforeReset(calls[..|calls| - 1]) {
      SealedBeforeReset(s, calls[..|calls| - 1]);
    } else {
      NoNoncesIff(s, calls);
    }
  }

  /** Over a run from a new session that handshakes establish anew at any time, the nonces
      sealed with under its one secret are pairwise distinct if and only if at most one
      stretch between handshakes seals anything, and that at most 2^64 times. */
  lemma RunNoncesDistinctIff(s: Session, calls: seq<Call>)
    requires s.send == 0
    ensures Distinct(Nonces(s, calls)) <==> !SealsInTwoStretches(calls) && |Nonces(s, calls)| <= TWO_64
  {
    if SealsInTwoStretches(calls) {
      TwoStretchesRepeatNonce(s, calls);
    } else {
      OneStretchCountsUp(s, calls);
      CountingDistinctIff(Nonces(s, calls), 0, s.low);
    }
  }

  /** What it is for two stretches to seal: a call that seals comes before a handshake, and
      another one after it. */
  lemma {:induction false} SealsBeforeResetMeans(calls: seq<Call>)
    ensures SealsBeforeReset(calls) <==>
            exists i, j :: 0 <= i < j < |calls| && calls[i].Seals() && calls[j].Reestablish?
  {
    if calls != [] {
      var last := |calls| - 1;
      SealsBeforeResetMeans(calls[..last]);
      assert forall i :: 0 <= i < last ==> calls[..last][i] == calls[i];
    }
  }

  lemma {:induction false} TwoStretchesMeans(calls: seq<Call>)
    ensures SealsInTwoStretches(calls) <==>
            exists i, j, k :: 0 <= i < j < k < |calls| && calls[i].Seals() && calls[j].Reestablish? && calls[k].Seals()
  {
    if calls != [] {
      var last := |calls| - 1;
      TwoStretchesMeans(calls[..last]);
      SealsBeforeResetMeans(calls[..last]);
      assert forall i :: 0 <= i < last ==> calls[..last][i] == calls[i];
    }
  }

  lemma {:induction false} NoncesHaveSide(s: Session, calls: seq<Call>, i: nat)
    requires i < |Nonces(s, calls)|
    ensures exists c: u64 :: Nonces(s, calls)[i] == MakeNonce(c, s.low)
  {
    var init := calls[..|calls| - 1];
    if i < |Nonces(s, init)| {
      NoncesHaveSide(s, init, i);
    }
  }

  /** The two ends of a session, for any two different keys, never share a nonce, however
      often either end establishes it anew. */
  lemma EndsNeverShareNonces(secret: seq<byte>, x: Key, y: Key, xs: seq<Call>, ys: seq<Call>, i: nat, j: nat)
    requires x != y
    requires i < |Nonces(NewSession(secret, x, y), xs)| && j < |Nonces(NewSession(secret, y, x), ys)|
    ensures NewSession(secret, x, y).low == !NewSession(secret, y, x).low
    ensures Nonces(NewSession(secret, x, y), xs)[i] != Nonces(NewSession(secret, y, x), ys)[j]
  {
    LessIsStrictTotal(x, y);
    var mine, theirs := NewSession(secret, x, y), NewSession(secret, y, x);
    NoncesHaveSide(mine, xs, i);
    NoncesHaveSide(theirs, ys, j);
    var c: u64 :| Nonces(mine, xs)[i] == MakeNonce(c, mine.low);
    var d: u64 :| Nonces(theirs, ys)[j] == MakeNonce(d, theirs.low);
    NonceInjective(c, mine.low, d, theirs.low);
  }
}
