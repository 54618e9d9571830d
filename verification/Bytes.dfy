/** Little-endian layout of numbers, and the lexicographic order on byte strings. */
module Bytes {
  import opened Common

  function Pow256(k: nat): (p: nat)
    ensures p > 0
  {
    if k == 0 then 1 else 256 * Pow256(k - 1)
  }

  /** The k low bytes of n, lowest first. */
  function ToLE(n: nat, k: nat): (bs: seq<byte>)
    ensures |bs| == k
    decreases k
  {
    if k == 0 then [] else [n % 256] + ToLE(n / 256, k - 1)
  }

  function FromLE(bs: seq<byte>): nat {
    if |bs| == 0 then 0 else bs[0] + 256 * FromLE(bs[1..])
  }

  lemma {:induction false} FromLEBound(bs: seq<byte>)
    ensures FromLE(bs) < Pow256(|bs|)
  {
    if |bs| > 0 {
      FromLEBound(bs[1..]);
    }
  }

  /** Printing then reading a number gives it back, when it fits. */
  lemma {:induction false} FromToLE(n: nat, k: nat)
    requires n < Pow256(k)
    ensures FromLE(ToLE(n, k)) == n
    decreases k
  {
    if k > 0 {
      FromToLE(n / 256, k - 1);
      assert ToLE(n, k)[1..] == ToLE(n / 256, k - 1);
    }
  }

  /** Reading then printing bytes gives them back. */
  lemma {:induction false} ToFromLE(bs: seq<byte>)
    ensures ToLE(FromLE(bs), |bs|) == bs
  {
    if |bs| > 0 {
      ToFromLE(bs[1..]);
      var rest := FromLE(bs[1..]);
      assert (bs[0] + 256 * rest) % 256 == bs[0] && (bs[0] + 256 * rest) / 256 == rest;
      assert bs == [bs[0]] + bs[1..];
    }
  }

  lemma Pow256Values()
    ensures Pow256(2) == 0x1_0000
    ensures Pow256(8) == TWO_64
  {
    assert Pow256(2) == 256 * Pow256(1) == 256 * 256 * Pow256(0);
    assert Pow256(4) == 256 * Pow256(3) == 256 * 256 * Pow256(2);
    assert Pow256(6) == 256 * Pow256(5) == 256 * 256 * Pow256(4);
    assert Pow256(8) == 256 * Pow256(7) == 256 * 256 * Pow256(6);
  }

  /** The order in which Rust compares byte arrays. */
  predicate Less(x: seq<byte>, y: seq<byte>) {
    |y| > 0 && (|x| == 0 || x[0] < y[0] || (x[0] == y[0] && Less(x[1..], y[1..])))
  }

  /** Of two different strings of one length exactly one is the smaller. */
  lemma {:induction false} LessIsStrictTotal(x: seq<byte>, y: seq<byte>)
    requires |x| == |y|
    ensures x != y ==> (Less(x, y) <==> !Less(y, x))
    ensures x == y ==> !Less(x, y)
  {
    if |x| > 0 {
      LessIsStrictTotal(x[1..], y[1..]);
      assert x == [x[0]] + x[1..] && y == [y[0]] + y[1..];
    }
  }

  /** Which is the smaller is decided where they first differ. */
  lemma {:induction false} LessIff(x: seq<byte>, y: seq<byte>)
    requires |x| == |y|
    ensures Less(x, y) <==> exists k :: 0 <= k < |x| && x[..k] == y[..k] && x[k] < y[k]
  {
    if x != [] {
      var u, v := x[1..], y[1..];
      LessIff(u, v);
      if k :| 0 <= k < |u| && u[..k] == v[..k] && u[k] < v[k] && x[0] == y[0] {
        assert x[..k + 1] == [x[0]] + u[..k] && y[..k + 1] == [y[0]] + v[..k];
      }
      if k :| 0 <= k < |x| && x[..k] == y[..k] && x[k] < y[k] {
        if k == 0 {
          assert x[0] < y[0];
        } else {
          assert u[..k - 1] == x[..k][1..] && v[..k - 1] == y[..k][1..];
          assert x[0] == x[..k][0] && y[0] == y[..k][0];
        }
      }
    }
  }
}
