/** Byte sequences as the storage classes see them. */
module Bytes {
  type byte = bv8

  function Zeros(n: nat): (z: seq<byte>)
    ensures |z| == n
    ensures forall i | 0 <= i < n :: z[i] == 0
  {
    seq(n, _ => 0)
  }

  predicate AllZero(s: seq<byte>) {
    forall i | 0 <= i < |s| :: s[i] == 0
  }

  /** `s` with `data` put over the bytes that start at `off`. */
  function Splice(s: seq<byte>, off: nat, data: seq<byte>): (r: seq<byte>)
    requires off + |data| <= |s|
    ensures |r| == |s|
    ensures forall i | 0 <= i < |s| :: r[i] == if off <= i < off + |data| then data[i - off] else s[i]
  {
    s[..off] + data + s[off + |data|..]
  }

  function Min(a: int, b: int): int {
    if a < b then a else b
  }

  /** Slices of a tail are slices of the whole. */
  lemma TailSlices(s: seq<byte>, pos: nat, k: nat)
    requires pos + k <= |s|
    ensures s[pos..][..k] == s[pos..pos + k]
    ensures s[pos..][k..] == s[pos + k..]
  {
  }

  lemma PrefixSlice(s: seq<byte>, end: nat, from: nat, to: nat)
    requires from <= to <= end <= |s|
    ensures s[..end][from..to] == s[from..to]
  {
  }

  lemma SpliceSlices(s: seq<byte>, at: nat, data: seq<byte>)
    requires at + |data| <= |s|
    ensures Splice(s, at, data)[..at + |data|] == s[..at] + data
    ensures Splice(s, at, data)[at + |data|..] == s[at + |data|..]
  {
  }

  /** memcpy between two arrays. */
  method CopyBytes(dst: array<byte>, at: nat, src: array<byte>, pos: nat, size: nat)
    requires dst != src && at + size <= dst.Length && pos + size <= src.Length
    modifies dst
    ensures dst[..] == Splice(old(dst[..]), at, src[pos..pos + size])
  {
    forall i | 0 <= i < size {
      dst[at + i] := src[pos + i];
    }
    assert dst[..] == Splice(old(dst[..]), at, src[pos..pos + size]);
  }

  /** ZeroMemory in an array. */
  method ZeroBytes(dst: array<byte>, at: nat, size: nat)
    requires at + size <= dst.Length
    modifies dst
    ensures dst[..] == Splice(old(dst[..]), at, Zeros(size))
  {
    forall i | 0 <= i < size {
      dst[at + i] := 0;
    }
    assert dst[..] == Splice(old(dst[..]), at, Zeros(size));
  }
}
