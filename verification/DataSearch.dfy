/**
 * The zero scans of ImBox/ImDiskIO.cpp. Each plants a sentinel in the last word
 * of the buffer it searches, so that the scan needs no bounds test, and takes
 * it out again afterwards.
 */
module DataSearch {
  import opened Bytes

  /** Which scan the process picked; they step by 4, 16 and 32 bytes. */
  datatype Width = Std | Sse2 | Avx

  /** A whole number of words. */
  predicate Aligned(width: Width, k: int) {
    match width
    case Std => k % 4 == 0
    case Sse2 => k % 16 == 0
    case Avx => k % 32 == 0
  }

  /** Blocks are a whole number of the widest words, so of all. */
  lemma BlockAligned(width: Width, blocks: nat)
    ensures Aligned(width, 32 * blocks)
  {
    assert 32 * blocks == 4 * (8 * blocks) == 16 * (2 * blocks);
  }

  lemma AlignedDifference(width: Width, a: int, b: int)
    requires Aligned(width, a) && Aligned(width, b)
    ensures Aligned(width, a - b)
  {
    match width
    case Std => Difference4(a, b);
    case Sse2 => Difference16(a, b);
    case Avx => Difference32(a, b);
  }

  lemma Difference4(a: int, b: int)
    requires a % 4 == 0 && b % 4 == 0
    ensures (a - b) % 4 == 0
  {
    assert a - b == 4 * (a / 4 - b / 4);
  }

  lemma Difference16(a: int, b: int)
    requires a % 16 == 0 && b % 16 == 0
    ensures (a - b) % 16 == 0
  {
    assert a - b == 16 * (a / 16 - b / 16);
  }

  lemma Difference32(a: int, b: int)
    requires a % 32 == 0 && b % 32 == 0
    ensures (a - b) % 32 == 0
  {
    assert a - b == 32 * (a / 32 - b / 32);
  }

  predicate WordIsZero(s: seq<byte>, at: nat, w: nat)
    requires at + w <= |s|
  {
    forall i | at <= i < at + w :: s[i] == 0
  }

  /** A nonzero word inside the searched range makes the range nonzero. */
  lemma NonZeroWitness(s: seq<byte>, from: nat, size: nat, at: nat, w: nat)
    requires from <= at && at + w <= from + size <= |s|
    requires !WordIsZero(s, at, w)
    ensures !AllZero(s[from..from + size])
  {
    var i :| at <= i < at + w && s[i] != 0;
    assert s[from..from + size][i - from] != 0;
  }

  /** The sentinel does not show in the words before it. */
  lemma WordBeforeSentinel(s: seq<byte>, t: seq<byte>, at: nat, w: nat, sentinel: nat)
    requires at + w <= sentinel < |s| && t == s[sentinel := 1]
    ensures WordIsZero(t, at, w) == WordIsZero(s, at, w)
  {
    assert forall i | at <= i < at + w :: t[i] == s[i];
  }

  /** The scanned words and the next one make a longer zero prefix. */
  lemma ZeroPrefixGrows(s: seq<byte>, from: nat, at: nat, w: nat)
    requires from <= at && at + w <= |s|
    requires AllZero(s[from..at]) && WordIsZero(s, at, w)
    ensures AllZero(s[from..at + w])
  {
    assert s[from..at + w] == s[from..at] + s[at..at + w];
  }

  /** data_search_std: reads a word, steps past it, then looks at what it read. */
  method SearchStd(a: array<byte>, from: nat, size: nat) returns (found: bool)
    requires from + size <= a.Length
    requires size % 4 == 0
    modifies a
    ensures a[..] == old(a[..])
    ensures found == !AllZero(a[from..from + size])
  {
    if size == 0 {
      return false;
    }
    ghost var s := a[..];
    var scan := from;
    var last := from + size - 4;
    if !WordIsZero(a[..], last, 4) {
      NonZeroWitness(s, from, size, last, 4);
      return true;
    }
    assert WordIsZero(s, last, 4);
    a[last] := 1;
    var hit := false;
    ghost var words := size / 4;
    while !hit
      invariant from <= scan && last + 4 - scan == 4 * words && words >= 0
      invariant !hit ==> scan <= last && AllZero(s[from..scan])
      invariant hit ==> from <= scan - 4 && AllZero(s[from..scan - 4])
      invariant hit && scan - 4 != last ==> scan <= last && !WordIsZero(s, scan - 4, 4)
      invariant a[..] == s[last := 1]
      decreases !hit, last - scan
    {
      assert scan == last ==> a[..][scan] == 1;
      hit := !WordIsZero(a[..], scan, 4);
      if scan != last {
        WordBeforeSentinel(s, a[..], scan, 4, last);
        if !hit { ZeroPrefixGrows(s, from, scan, 4); }
      }
      scan, words := scan + 4, words - 1;
    }
    found := scan - 4 != last;
    if found {
      NonZeroWitness(s, from, size, scan - 4, 4);
    } else {
      ZeroPrefixGrows(s, from, last, 4);
    }
    a[last] := 0;
    assert a[..] == s;
  }

  /** data_search_sse2: steps only over words it has seen to be zero. */
  method SearchSse2(a: array<byte>, from: nat, size: nat) returns (found: bool)
    requires from + size <= a.Length
    requires size % 16 == 0
    modifies a
    ensures a[..] == old(a[..])
    ensures found == !AllZero(a[from..from + size])
  {
    if size == 0 {
      return false;
    }
    ghost var s := a[..];
    var ptr := from;
    var end := from + size - 16;
    if !WordIsZero(a[..], end, 16) {
      NonZeroWitness(s, from, size, end, 16);
      return true;
    }
    assert WordIsZero(s, end, 16);
    a[end] := 1;
    ghost var words := size / 16 - 1;
    while WordIsZero(a[..], ptr, 16)
      invariant from <= ptr && end - ptr == 16 * words && words >= 0
      invariant AllZero(s[from..ptr])
      invariant a[..] == s[end := 1]
      decreases end - ptr
    {
      assert ptr != end by { assert a[..][end] == 1; }
      WordBeforeSentinel(s, a[..], ptr, 16, end);
      ZeroPrefixGrows(s, from, ptr, 16);
      ptr, words := ptr + 16, words - 1;
    }
    found := ptr != end;
    if found {
      WordBeforeSentinel(s, a[..], ptr, 16, end);
      NonZeroWitness(s, from, size, ptr, 16);
    } else {
      ZeroPrefixGrows(s, from, end, 16);
    }
    a[end] := 0;
    assert a[..] == s;
  }

  /** data_search_avx: steps only over words it has seen to be zero. */
  method SearchAvx(a: array<byte>, from: nat, size: nat) returns (found: bool)
    requires from + size <= a.Length
    requires size % 32 == 0
    modifies a
    ensures a[..] == old(a[..])
    ensures found == !AllZero(a[from..from + size])
  {
    if size == 0 {
      return false;
    }
    ghost var s := a[..];
    var ptr := from;
    var end := from + size - 32;
    if !WordIsZero(a[..], end, 32) {
      NonZeroWitness(s, from, size, end, 32);
      return true;
    }
    assert WordIsZero(s, end, 32);
    a[end] := 1;
    ghost var words := size / 32 - 1;
    while WordIsZero(a[..], ptr, 32)
      invariant from <= ptr && end - ptr == 32 * words && words >= 0
      invariant AllZero(s[from..ptr])
      invariant a[..] == s[end := 1]
      decreases end - ptr
    {
      assert ptr != end by { assert a[..][end] == 1; }
      WordBeforeSentinel(s, a[..], ptr, 32, end);
      ZeroPrefixGrows(s, from, ptr, 32);
      ptr, words := ptr + 32, words - 1;
    }
    found := ptr != end;
    if found {
      WordBeforeSentinel(s, a[..], ptr, 32, end);
      NonZeroWitness(s, from, size, ptr, 32);
    } else {
      ZeroPrefixGrows(s, from, end, 32);
    }
    a[end] := 0;
    assert a[..] == s;
  }

  /** data_search, the pointer that pick_data_search fills in once per process. */
  method Search(a: array<byte>, from: nat, size: nat, width: Width) returns (found: bool)
    requires from + size <= a.Length
    requires Aligned(width, size)
    modifies a
    ensures a[..] == old(a[..])
    ensures found == !AllZero(a[from..from + size])
  {
    match width
    case Std => found := SearchStd(a, from, size);
    case Sse2 => found := SearchSse2(a, from, size);
    case Avx => found := SearchAvx(a, from, size);
  }
}
