/** Bytes, big-endian words and the two ways a prefix is taken off a byte string. */
module Bytes {

  type byte = b: int | 0 <= b < 256

  type bytes = seq<byte>

  /** The first length that an int does not hold. */
  const INT_LIMIT: nat := 0x8000_0000

  datatype Option<+T> = None | Some(value: T)

  function Pow256(k: nat): (p: nat)
    ensures p > 0
  {
    if k == 0 then 1 else 256 * Pow256(k - 1)
  }

  /** HostToNet: the k-byte network order image of v, wrapped to k bytes. */
  function ToBigEndian(v: nat, k: nat): (s: bytes)
    ensures |s| == k
  {
    if k == 0 then [] else ToBigEndian(v / 256, k - 1) + [v % 256]
  }

  /** NetToHost: the number a network order byte string denotes. */
  function FromBigEndian(s: bytes): nat {
    if s == [] then 0 else 256 * FromBigEndian(s[..|s| - 1]) + s[|s| - 1]
  }

  lemma {:induction false} BigEndianBound(s: bytes)
    ensures FromBigEndian(s) < Pow256(|s|)
  {
    if s != [] {
      BigEndianBound(s[..|s| - 1]);
    }
  }

  lemma {:induction false} BigEndianRoundTrip(v: nat, k: nat)
    requires v < Pow256(k)
    ensures FromBigEndian(ToBigEndian(v, k)) == v
  {
    if k > 0 {
      BigEndianRoundTrip(v / 256, k - 1);
      var s := ToBigEndian(v, k);
      assert s[..|s| - 1] == ToBigEndian(v / 256, k - 1);
    }
  }

  lemma WordSizes()
    ensures Pow256(2) == 65536 && Pow256(4) == 0x1_0000_0000
    ensures Pow256(8) == 0x1_0000_0000_0000_0000
  {
    assert Pow256(3) == 256 * Pow256(2) && Pow256(5) == 256 * Pow256(4) && Pow256(7) == 256 * Pow256(6);
  }

  /** The first n bytes, or all of them when there are fewer. */
  function Take(s: bytes, n: nat): bytes {
    if n <= |s| then s[..n] else s
  }

  /** What Take leaves behind. */
  function Drop(s: bytes, n: nat): bytes {
    if n <= |s| then s[n..] else []
  }

  lemma TakeJoin(s: bytes, n: nat)
    ensures Take(s, n) + Drop(s, n) == s
    ensures |Take(s, n)| == n || (|Take(s, n)| < n && Drop(s, n) == [])
  {
  }

  lemma TakeDrop(a: bytes, b: bytes, n: nat)
    requires |a| == n || (|a| <= n && b == [])
    ensures Take(a + b, n) == a && Drop(a + b, n) == b
  {
  }

  /** A cut inside the middle one of three parts. */
  lemma CutHere(a: bytes, b: bytes, c: bytes, n: nat)
    requires n <= |b|
    ensures a + (b + c) == a + b[..n] + (b[n..] + c)
  {
    assert b == b[..n] + b[n..];
  }

  lemma Assoc(a: bytes, b: bytes, c: bytes)
    ensures a + b + c == a + (b + c)
  {
  }

  /** The flat byte string held in a list of chunks. */
  function Join(chunks: seq<bytes>): bytes {
    if chunks == [] then [] else chunks[0] + Join(chunks[1..])
  }
}
