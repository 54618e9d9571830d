/** Values shared by every part of the model: optional values, results, bytes and
    the addresses and keys that WolfNet passes around. */
module Common {

  datatype Option<+T> = None | Some(value: T) {
    function GetOr(default: T): T {
      if None? then default else value
    }
  }

  datatype Result<+R, +E> = Success(value: R) | Failure(error: E)

  type byte = x: int | 0 <= x < 256
  type u16 = x: int | 0 <= x < 0x1_0000

  const TWO_64: nat := 0x1_0000_0000_0000_0000

  type u64 = x: int | 0 <= x < TWO_64

  const KEY_LENGTH: nat := 32

  /** An X25519 public key. */
  type Key = k: seq<byte> | |k| == KEY_LENGTH witness seq(KEY_LENGTH, _ => 0)

  /** The first four bytes of the hash of a public key. */
  type PeerId = id: seq<byte> | |id| == 4 witness [0, 0, 0, 0]

  /** An IPv4 address as its four octets. */
  datatype Ip4 = Ip4(a: byte, b: byte, c: byte, d: byte) {
    function Octets(): seq<byte> {
      [a, b, c, d]
    }
  }

  const BROADCAST := Ip4(255, 255, 255, 255)

  /** An IPv6 address as its sixteen octets. */
  type Ip6 = o: seq<byte> | |o| == 16 witness seq(16, _ => 0)

  /** The address and port of a UDP socket. */
  datatype SocketAddr = V4(ip: Ip4, port: u16) | V6(ip6: Ip6, port: u16)

  /** What a node computes from keys by library code: the hash that gives a peer its
      id, and the Diffie-Hellman secret it shares with the owner of a key. */
  datatype Identity = Identity(publicKey: Key, idOf: Key -> PeerId, sharedWith: Key -> seq<byte>)
}
