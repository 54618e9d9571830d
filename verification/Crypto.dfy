/** The session cipher: send and receive counters around an authenticated cipher. */
module Crypto {
  import opened Common
  import opened Bytes

  const TAG_LENGTH: nat := 16
  const REORDER_WINDOW: nat := 32
  const RESTART_LIMIT: nat := 100

  type Nonce = n: seq<byte> | |n| == 12 witness seq(12, _ => 0)

  /** A detached ciphertext: as long as the plaintext, with its tag beside it. */
  datatype Sealed = Sealed(body: seq<byte>, tag: seq<byte>)

  /** ChaCha20-Poly1305 with empty associated data, as a pair of functions. */
  datatype Aead = Aead(seal: (seq<byte>, Nonce, seq<byte>) -> Sealed,
                       open: (seq<byte>, Nonce, Sealed) -> Option<seq<byte>>)
  {
    ghost predicate Lawful() {
      && (forall key, nonce, text {:trigger seal(key, nonce, text)} ::
            && |seal(key, nonce, text).body| == |text|
            && |seal(key, nonce, text).tag| == TAG_LENGTH
            && open(key, nonce, seal(key, nonce, text)) == Some(text))
      && (forall key, nonce, s {:trigger open(key, nonce, s)} ::
            open(key, nonce, s).Some? ==> |open(key, nonce, s).value| == |s.body|)
    }

    lemma OpenedLength(key: seq<byte>, nonce: Nonce, s: Sealed)
      requires Lawful() && open(key, nonce, s).Some?
      ensures |open(key, nonce, s).value| == |s.body|
    {
    }

    /** Encryption in the attached form of section 2.8 of RFC 8439: body, then tag. */
    function SealAttached(key: seq<byte>, nonce: Nonce, text: seq<byte>): seq<byte> {
      var s := seal(key, nonce, text);
      s.body + s.tag
    }

    function OpenAttached(key: seq<byte>, nonce: Nonce, ct: seq<byte>): Option<seq<byte>> {
      if |ct| < TAG_LENGTH then None
      else open(key, nonce, Sealed(ct[..|ct| - TAG_LENGTH], ct[|ct| - TAG_LENGTH..]))
    }
  }

  datatype CryptoError = StaleNonce | TooShort | Unauthentic

  function MakeNonce(counter: u64, low: bool): Nonce {
    ToLE(counter, 8) + [0, 0, 0, if low then 0 else 1]
  }

  /** The value of a session cipher. */
  datatype Session = Session(secret: seq<byte>, low: bool, send: u64, recv: u64) {

    /** The receive rule's guess that the other end started again from zero. */
    predicate LikelyRestart(counter: u64) {
      counter < RESTART_LIMIT && recv > RESTART_LIMIT
    }

    /** The test a counter must pass before anything is decrypted. */
    predicate Admits(counter: u64) {
      !(counter <= recv && recv > 0 && !LikelyRestart(counter) && recv - counter > REORDER_WINDOW)
    }

    /** The session after a packet with this counter was decrypted. */
    function Accepted(counter: u64): Session {
      if counter > recv || LikelyRestart(counter) then this.(recv := counter) else this
    }

    /** The session after one encryption; the counter is a machine word. */
    function Sent(): Session {
      this.(send := (send + 1) % TWO_64)
    }

    /** What one call of encrypt returns. */
    function Encrypted(aead: Aead, text: seq<byte>): (u64, seq<byte>) {
      (send, aead.SealAttached(secret, MakeNonce(send, low), text))
    }

    /** What one call of decrypt returns. */
    function Decrypted(aead: Aead, counter: u64, ct: seq<byte>): Result<seq<byte>, CryptoError> {
      if !Admits(counter) then Failure(StaleNonce)
      else match aead.OpenAttached(secret, MakeNonce(counter, !low), ct)
        case Some(text) => Success(text)
        case None => Failure(Unauthentic)
    }

    /** What one call of decrypt_into leaves in the buffer. */
    function DecryptedInto(aead: Aead, counter: u64, ct: seq<byte>): Result<seq<byte>, CryptoError> {
      if !Admits(counter) then Failure(StaleNonce)
      else if |ct| < TAG_LENGTH then Failure(TooShort)
      else match aead.open(secret, MakeNonce(counter, !low),
                           Sealed(ct[..|ct| - TAG_LENGTH], ct[|ct| - TAG_LENGTH..]))
        case Some(text) => Success(text)
        case None => Failure(Unauthentic)
    }

    function AfterDecrypt<R>(counter: u64, result: Result<R, CryptoError>): Session {
      if result.Success? then Accepted(counter) else this
    }
  }

  function NewSession(secret: seq<byte>, mine: Key, theirs: Key): Session {
    Session(secret, Less(mine, theirs), 0, 0)
  }

  class SessionCipher {
    const aead: Aead
    const secret: seq<byte>
    const isLowSide: bool
    var sendCounter: u64
    var recvCounter: u64

    constructor (aead: Aead, secret: seq<byte>, mine: Key, theirs: Key)
      ensures State() == NewSession(secret, mine, theirs)
      ensures this.aead == aead
    {
      this.aead := aead;
      this.secret := secret;
      isLowSide := Less(mine, theirs);
      sendCounter := 0;
      recvCounter := 0;
    }

    /** The cipher with a given value: a peer's cipher, taken out of it for one call. */
    constructor Of(aead: Aead, s: Session)
      ensures State() == s && this.aead == aead
    {
      this.aead := aead;
      secret := s.secret;
      isLowSide := s.low;
      sendCounter := s.send;
      recvCounter := s.recv;
    }

    function State(): Session
      reads this
    {
      Session(secret, isLowSide, sendCounter, recvCounter)
    }

    method Encrypt(text: seq<byte>) returns (counter: u64, ct: seq<byte>)
      modifies this
      ensures (counter, ct) == old(State()).Encrypted(aead, text)
      ensures State() == old(State()).Sent()
    {
      counter := sendCounter;
      sendCounter := (sendCounter + 1) % TWO_64;
      ct := aead.SealAttached(secret, MakeNonce(counter, isLowSide), text);
    }

    /** Encrypts buf[off..off + len] in place and writes the tag behind it. */
    method EncryptInto(buf: array<byte>, off: nat, len: nat) returns (counter: u64, total: nat)
      requires aead.Lawful()
      requires off + len + TAG_LENGTH <= buf.Length
      modifies this, buf
      ensures total == len + TAG_LENGTH
      ensures var (c, ct) := old(State().Encrypted(aead, buf[off..off + len]));
              counter == c && |ct| == total && buf[..] == Written(old(buf[..]), off, ct)
      ensures State() == old(State()).Sent()
    {
      counter := sendCounter;
      sendCounter := (sendCounter + 1) % TWO_64;
      WriteSealed(buf, off, aead.seal(secret, MakeNonce(counter, isLowSide), buf[off..off + len]));
      total := len + TAG_LENGTH;
    }

    method Decrypt(counter: u64, ct: seq<byte>) returns (result: Result<seq<byte>, CryptoError>)
      modifies this
      ensures result == old(State()).Decrypted(aead, counter, ct)
      ensures State() == old(State()).AfterDecrypt(counter, result)
    {
      var isLikelyRestart := counter < RESTART_LIMIT && recvCounter > RESTART_LIMIT;
      if counter <= recvCounter && recvCounter > 0 && !isLikelyRestart {
        if recvCounter - counter > REORDER_WINDOW {
          return Failure(StaleNonce);
        }
      }
      match aead.OpenAttached(secret, MakeNonce(counter, !isLowSide), ct) {
        case None =>
          return Failure(Unauthentic);
        case Some(text) =>
          if counter > recvCounter || isLikelyRestart {
            recvCounter := counter;
          }
          return Success(text);
      }
    }

    /** Decrypts buf[off..off + len], tag last, in place; yields the plaintext's length. */
    method DecryptInto(counter: u64, buf: array<byte>, off: nat, len: nat)
      returns (result: Result<nat, CryptoError>)
      requires aead.Lawful()
      requires off + len <= buf.Length
      modifies this, buf
      ensures var spec := old(State().DecryptedInto(aead, counter, buf[off..off + len]));
              match spec
              case Failure(e) => result == Failure(e) && buf[..] == old(buf[..])
              case Success(text) =>
                && len == |text| + TAG_LENGTH && result == Success(|text|)
                && buf[..] == Written(old(buf[..]), off, text)
      ensures State() == old(State()).AfterDecrypt(counter, result)
    {
      var isLikelyRestart := counter < RESTART_LIMIT && recvCounter > RESTART_LIMIT;
      if counter <= recvCounter && recvCounter > 0 && !isLikelyRestart {
        if recvCounter - counter > REORDER_WINDOW {
          return Failure(StaleNonce);
        }
      }
      if len < TAG_LENGTH {
        return Failure(TooShort);
      }
      var bodyLen := len - TAG_LENGTH;
      var ct := buf[off..off + len];
      match aead.open(secret, MakeNonce(counter, !isLowSide), Sealed(ct[..bodyLen], ct[bodyLen..])) {
        case None =>
          return Failure(Unauthentic);
        case Some(text) =>
          aead.OpenedLength(secret, MakeNonce(counter, !isLowSide), Sealed(ct[..bodyLen], ct[bodyLen..]));
          Overwrite(buf, off, text);
          if counter > recvCounter || isLikelyRestart {
            recvCounter := counter;
          }
          return Success(bodyLen);
      }
    }
  }

  /** A buffer's contents once bytes were copied into it. */
  function Written(s: seq<byte>, off: nat, bytes: seq<byte>): (r: seq<byte>)
    requires off + |bytes| <= |s|
    ensures |r| == |s| && r[off..off + |bytes|] == bytes
  {
    s[..off] + bytes + s[off + |bytes|..]
  }

  lemma WrittenTwice(s: seq<byte>, off: nat, x: seq<byte>, y: seq<byte>)
    requires off + |x| + |y| <= |s|
    ensures Written(Written(s, off, x), off + |x|, y) == Written(s, off, x + y)
  {
  }

  /** Copies bytes into a buffer, as copy_from_slice does. */
  method Overwrite(buf: array<byte>, off: nat, bytes: seq<byte>)
    requires off + |bytes| <= buf.Length
    modifies buf
    ensures buf[..] == Written(old(buf[..]), off, bytes)
  {
    for i := 0 to |bytes|
      invariant forall j :: 0 <= j < i ==> buf[off + j] == bytes[j]
      invariant forall j :: 0 <= j < buf.Length && !(off <= j < off + i) ==> buf[j] == old(buf[j])
    {
      buf[off + i] := bytes[i];
    }
  }

  /** Writes a detached ciphertext and its tag behind it. */
  method WriteSealed(buf: array<byte>, off: nat, s: Sealed)
    requires off + |s.body| + |s.tag| <= buf.Length
    modifies buf
    ensures buf[..] == Written(old(buf[..]), off, s.body + s.tag)
  {
    WrittenTwice(buf[..], off, s.body, s.tag);
    Overwrite(buf, off, s.body);
    Overwrite(buf, off + |s.body|, s.tag);
  }
}
