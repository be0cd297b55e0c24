/** Bytes, little-endian numbers, and writing into the middle of a buffer. */
module Bytes {
  type byte = n: int | 0 <= n < 256

  function LittleEndian(s: seq<byte>): nat { if s == [] then 0 else s[0] + 256 * LittleEndian(s[1..]) }

  function LeBytes(n: nat, count: nat): (s: seq<byte>)
    ensures |s| == count
  {
    if count == 0 then [] else [n % 256] + LeBytes(n / 256, count - 1)
  }

  function Pow256(k: nat): nat { if k == 0 then 1 else 256 * Pow256(k - 1) }

  lemma {:induction false} LeRoundTrip(n: nat, count: nat)
    requires n < Pow256(count)
    ensures LittleEndian(LeBytes(n, count)) == n
    decreases count
  {
    if count > 0 { LeRoundTrip(n / 256, count - 1); }
  }

  lemma {:induction false} LeBound(s: seq<byte>)
    ensures LittleEndian(s) < Pow256(|s|)
    decreases |s|
  {
    if s != [] { LeBound(s[1..]); }
  }

  /** `s` with `a` written over it from position `p` on. */
  function Splice(s: seq<byte>, p: nat, a: seq<byte>): (t: seq<byte>)
    requires p + |a| <= |s|
    ensures |t| == |s|
  {
    s[..p] + a + s[p + |a|..]
  }

  lemma {:induction false} SpliceTwice(s: seq<byte>, p: nat, a: seq<byte>, b: seq<byte>)
    requires p + |a| + |b| <= |s|
    ensures Splice(Splice(s, p, a), p + |a|, b) == Splice(s, p, a + b)
  {
  }

  lemma {:induction false} SpliceNothing(s: seq<byte>, p: nat)
    requires p <= |s|
    ensures Splice(s, p, []) == s
  {
  }

  /** Sequences that agree up to `n` have the same slices there. */
  lemma {:induction false} SameSlice(s: seq<byte>, t: seq<byte>, n: nat, lo: nat, hi: nat)
    requires lo <= hi <= n <= |s| && n <= |t| && s[..n] == t[..n]
    ensures s[lo..hi] == t[lo..hi]
  {
    forall k | lo <= k < hi ensures s[k] == t[k] {
      assert s[k] == s[..n][k] && t[k] == t[..n][k];
    }
  }

  method Put(buf: array<byte>, p: nat, b: byte) returns (q: nat)
    requires p < buf.Length
    modifies buf
    ensures q == p + 1 && buf[..] == Splice(old(buf[..]), p, [b])
  {
    buf[p] := b;
    q := p + 1;
  }
}
