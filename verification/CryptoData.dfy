/**
 * The data path of CCryptoIO: sectors encrypted one by one, placed behind the header.
 * The cipher is any pair of functions that undo each other on every sector.
 */
module CryptoData {
  import opened Bytes
  import opened VolumeHeader

  type SectorFunction = (XtsKey, nat, seq<byte>) -> seq<byte>

  datatype Xts = Xts(enc: SectorFunction, dec: SectorFunction)

  ghost predicate KeepsSize(f: SectorFunction) {
    forall k, n, s :: |s| == XTS_SECTOR_SIZE ==> |f(k, n, s)| == XTS_SECTOR_SIZE
  }

  ghost predicate Bijective(x: Xts) {
    && KeepsSize(x.enc) && KeepsSize(x.dec)
    && (forall k, n, s :: |s| == XTS_SECTOR_SIZE ==> x.dec(k, n, x.enc(k, n, s)) == s)
    && (forall k, n, s :: |s| == XTS_SECTOR_SIZE ==> x.enc(k, n, x.dec(k, n, s)) == s)
  }

  predicate Whole(n: int) {
    n % XTS_SECTOR_SIZE == 0
  }

  lemma WholeSum(a: nat, b: nat)
    requires Whole(a) && Whole(b)
    ensures Whole(a + b) && (a + b) / XTS_SECTOR_SIZE == a / XTS_SECTOR_SIZE + b / XTS_SECTOR_SIZE
  {
    var p, q := a / XTS_SECTOR_SIZE, b / XTS_SECTOR_SIZE;
    assert a == XTS_SECTOR_SIZE * p && b == XTS_SECTOR_SIZE * q;
    assert a + b == XTS_SECTOR_SIZE * (p + q);
  }

  /** Every sector of `s` put through `f`; the first one is sector n. */
  function Crypt(f: SectorFunction, k: XtsKey, n: nat, s: seq<byte>): (r: seq<byte>)
    requires KeepsSize(f) && Whole(|s|)
    ensures |r| == |s|
    decreases |s|
  {
    if s == [] then [] else f(k, n, s[..XTS_SECTOR_SIZE]) + Crypt(f, k, n + 1, s[XTS_SECTOR_SIZE..])
  }

  lemma {:induction false} CryptConcat(f: SectorFunction, k: XtsKey, n: nat, s: seq<byte>, t: seq<byte>)
    requires KeepsSize(f) && Whole(|s|) && Whole(|t|)
    ensures Whole(|s + t|) && Crypt(f, k, n, s + t) == Crypt(f, k, n, s) + Crypt(f, k, n + |s| / XTS_SECTOR_SIZE, t)
    decreases |s|
  {
    if s == [] {
      assert s + t == t;
    } else {
      assert (s + t)[..XTS_SECTOR_SIZE] == s[..XTS_SECTOR_SIZE] && (s + t)[XTS_SECTOR_SIZE..] == s[XTS_SECTOR_SIZE..] + t;
      CryptConcat(f, k, n + 1, s[XTS_SECTOR_SIZE..], t);
    }
  }

  lemma {:induction false} DecryptEncrypted(x: Xts, k: XtsKey, n: nat, s: seq<byte>)
    requires Bijective(x) && Whole(|s|)
    ensures Crypt(x.dec, k, n, Crypt(x.enc, k, n, s)) == s
    decreases |s|
  {
    if s != [] {
      var head, e := x.enc(k, n, s[..XTS_SECTOR_SIZE]), Crypt(x.enc, k, n, s);
      assert e[..XTS_SECTOR_SIZE] == head && e[XTS_SECTOR_SIZE..] == Crypt(x.enc, k, n + 1, s[XTS_SECTOR_SIZE..]);
      DecryptEncrypted(x, k, n + 1, s[XTS_SECTOR_SIZE..]);
    }
  }

  /** The first whole sectors are put through `f` by themselves, and so are the last ones. */
  lemma CryptEnds(f: SectorFunction, k: XtsKey, n: nat, s: seq<byte>, a: nat)
    requires KeepsSize(f) && Whole(|s|) && Whole(a) && a <= |s|
    ensures Whole(|s| - a) && Crypt(f, k, n, s)[..a] == Crypt(f, k, n, s[..a])
    ensures Crypt(f, k, n, s)[a..] == Crypt(f, k, n + a / XTS_SECTOR_SIZE, s[a..])
  {
    hide Crypt;
    assert s == s[..a] + s[a..];
    CryptConcat(f, k, n, s[..a], s[a..]);
  }

  /** A stretch of whole sectors is put through `f` by itself. */
  lemma CryptSlice(f: SectorFunction, k: XtsKey, s: seq<byte>, a: nat, b: nat)
    requires KeepsSize(f) && Whole(|s|) && Whole(a) && Whole(b) && a <= b <= |s|
    ensures Whole(b - a) && Crypt(f, k, 0, s)[a..b] == Crypt(f, k, a / XTS_SECTOR_SIZE, s[a..b])
  {
    hide Crypt, Whole;
    CryptEnds(f, k, 0, s, b);
    CryptEnds(f, k, 0, s[..b], a);
    assert s[..b][a..] == s[a..b];
    var e := Crypt(f, k, 0, s);
    assert e[..b][a..] == e[a..b];
  }

  lemma Thirds(s: seq<byte>, a: nat, b: nat)
    requires a <= b <= |s|
    ensures s == s[..a] + (s[a..b] + s[b..])
  {
  }

  // ----- the plaintext disk

  /** GetDiskSize */
  function DataSize(size: nat, hdrLen: nat): nat {
    if size < hdrLen then 0 else size - hdrLen
  }

  /** The bytes behind the header, as far as they are whole sectors. */
  function Behind(bytes: seq<byte>, hdrLen: nat): (r: seq<byte>)
    ensures Whole(|r|) && |r| <= DataSize(|bytes|, hdrLen) < |r| + XTS_SECTOR_SIZE
  {
    if |bytes| < hdrLen then [] else bytes[hdrLen..hdrLen + (|bytes| - hdrLen) / XTS_SECTOR_SIZE * XTS_SECTOR_SIZE]
  }

  /** The disk that the layer shows. */
  function Plain(x: Xts, k: XtsKey, hdrLen: nat, bytes: seq<byte>): (r: seq<byte>)
    requires KeepsSize(x.dec)
    ensures |r| == |Behind(bytes, hdrLen)|
  {
    Crypt(x.dec, k, 0, Behind(bytes, hdrLen))
  }

  /** A request for whole sectors of the plaintext disk. */
  predicate InRange(size: nat, hdrLen: nat, off: nat, len: nat) {
    Whole(off) && Whole(len) && off + len <= DataSize(size, hdrLen)
  }

  lemma InBehind(bytes: seq<byte>, hdrLen: nat, off: nat, len: nat)
    requires InRange(|bytes|, hdrLen, off, len)
    ensures off + len <= |Behind(bytes, hdrLen)|
    ensures hdrLen <= |bytes| ==> hdrLen + off + len <= |bytes|
  {
    assert Whole(off + len);
    if hdrLen <= |bytes| { WholeBelow(off + len, |bytes| - hdrLen); }
  }

  lemma WholeBelow(k: nat, n: nat)
    requires Whole(k) && k <= n
    ensures k <= n / XTS_SECTOR_SIZE * XTS_SECTOR_SIZE
  {
    assert k == k / XTS_SECTOR_SIZE * XTS_SECTOR_SIZE && k / XTS_SECTOR_SIZE <= n / XTS_SECTOR_SIZE;
  }

  lemma SpliceBehind(bytes: seq<byte>, hdrLen: nat, off: nat, data: seq<byte>)
    requires InRange(|bytes|, hdrLen, off, |data|) && hdrLen <= |bytes|
    ensures hdrLen + off + |data| <= |bytes| && off + |data| <= |Behind(bytes, hdrLen)|
    ensures Behind(Splice(bytes, hdrLen + off, data), hdrLen) == Splice(Behind(bytes, hdrLen), off, data)
  {
    InBehind(bytes, hdrLen, off, |data|);
  }

  /** Writing sectors encrypted, behind the header, splices them into the plaintext disk. */
  lemma WriteSplicesPlain(x: Xts, k: XtsKey, hdrLen: nat, bytes: seq<byte>, off: nat, data: seq<byte>)
    requires Bijective(x) && hdrLen <= |bytes| && InRange(|bytes|, hdrLen, off, |data|)
    ensures hdrLen + off + |data| <= |bytes| && off + |data| <= |Plain(x, k, hdrLen, bytes)|
    ensures var bytes' := Splice(bytes, hdrLen + off, Crypt(x.enc, k, off / XTS_SECTOR_SIZE, data));
            Plain(x, k, hdrLen, bytes') == Splice(Plain(x, k, hdrLen, bytes), off, data) && bytes'[..hdrLen] == bytes[..hdrLen]
  {
    hide Crypt, Behind, Whole;
    var e, s := Crypt(x.enc, k, off / XTS_SECTOR_SIZE, data), Behind(bytes, hdrLen);
    SpliceBehind(bytes, hdrLen, off, e);
    DecryptEncrypted(x, k, off / XTS_SECTOR_SIZE, data);
    CryptSplice(x.dec, k, s, off, e, data);
  }

  /** Where two disks agree before or behind a sector, so does what they are put through `f` to. */
  lemma CryptAgree(f: SectorFunction, k: XtsKey, s: seq<byte>, t: seq<byte>, a: nat)
    requires KeepsSize(f) && Whole(|s|) && |t| == |s| && Whole(a) && a <= |s|
    ensures s[..a] == t[..a] ==> Crypt(f, k, 0, s)[..a] == Crypt(f, k, 0, t)[..a]
    ensures s[a..] == t[a..] ==> Crypt(f, k, 0, s)[a..] == Crypt(f, k, 0, t)[a..]
  {
    hide Crypt, Whole;
    CryptEnds(f, k, 0, s, a);
    CryptEnds(f, k, 0, t, a);
  }

  lemma CryptSplice(f: SectorFunction, k: XtsKey, s: seq<byte>, off: nat, e: seq<byte>, data: seq<byte>)
    requires KeepsSize(f) && Whole(|s|) && Whole(off) && Whole(|e|) && off + |e| <= |s|
    requires Crypt(f, k, off / XTS_SECTOR_SIZE, e) == data
    ensures Crypt(f, k, 0, Splice(s, off, e)) == Splice(Crypt(f, k, 0, s), off, data)
  {
    hide Crypt, Splice, Whole;
    var t, end := Splice(s, off, e), off + |e|;
    WholeSum(off, |e|);
    SpliceThirds(s, off, e);
    CryptSlice(f, k, t, off, end);
    CryptAgree(f, k, s, t, off);
    CryptAgree(f, k, s, t, end);
    SpliceThirds(Crypt(f, k, 0, s), off, data);
    SameThirds(Crypt(f, k, 0, t), Splice(Crypt(f, k, 0, s), off, data), off, end);
  }

  lemma SameThirds(s: seq<byte>, t: seq<byte>, a: nat, b: nat)
    requires a <= b <= |s| && b <= |t| && s[..a] == t[..a] && s[a..b] == t[a..b] && s[b..] == t[b..]
    ensures s == t
  {
    Thirds(s, a, b);
    Thirds(t, a, b);
  }

  lemma SpliceThirds(s: seq<byte>, off: nat, e: seq<byte>)
    requires off + |e| <= |s|
    ensures var t := Splice(s, off, e);
            t[..off] == s[..off] && t[off..off + |e|] == e && t[off + |e|..] == s[off + |e|..]
  {
  }

  lemma SliceOfSlice(s: seq<byte>, from: nat, to: nat, a: nat, b: nat)
    requires from <= to <= |s| && a <= b <= to - from
    ensures s[from..to][a..b] == s[from + a..from + b]
  {
    var t := s[from..to];
    assert forall i | 0 <= i < b - a :: t[a..b][i] == t[a + i] == s[from + a + i];
  }

  /** Reading sectors behind the header and decrypting them gives the slice of the plaintext disk. */
  lemma ReadSlicesPlain(x: Xts, k: XtsKey, hdrLen: nat, bytes: seq<byte>, off: nat, len: nat)
    requires Bijective(x) && hdrLen <= |bytes| && InRange(|bytes|, hdrLen, off, len)
    ensures hdrLen + off + len <= |bytes| && off + len <= |Plain(x, k, hdrLen, bytes)|
    ensures Crypt(x.dec, k, off / XTS_SECTOR_SIZE, bytes[hdrLen + off..hdrLen + off + len]) == Plain(x, k, hdrLen, bytes)[off..off + len]
  {
    hide Crypt;
    InBehind(bytes, hdrLen, off, len);
    var s := Behind(bytes, hdrLen);
    SliceOfSlice(bytes, hdrLen, hdrLen + |s|, off, off + len);
    CryptSlice(x.dec, k, s, off, off + len);
  }

  // ----- trims

  function TrimOne(bytes: seq<byte>, off: nat, len: nat): (r: seq<byte>)
    ensures |r| == |bytes|
  {
    if off >= |bytes| then bytes else Splice(bytes, off, Zeros(Min(len, |bytes| - off)))
  }

  function Trimmed(bytes: seq<byte>, ranges: seq<(nat, nat)>): (r: seq<byte>)
    ensures |r| == |bytes|
    decreases |ranges|
  {
    if ranges == [] then bytes else Trimmed(TrimOne(bytes, ranges[0].0, ranges[0].1), ranges[1..])
  }

  function Shifted(ranges: seq<(nat, nat)>, distance: nat): (r: seq<(nat, nat)>)
    ensures |r| == |ranges|
  {
    seq(|ranges|, i requires 0 <= i < |ranges| => (ranges[i].0 + distance, ranges[i].1))
  }

  lemma {:induction false} TrimBehind(bytes: seq<byte>, hdrLen: nat, ranges: seq<(nat, nat)>)
    ensures hdrLen <= |bytes| ==> Trimmed(bytes, Shifted(ranges, hdrLen))[..hdrLen] == bytes[..hdrLen]
    decreases |ranges|
  {
    var s := Shifted(ranges, hdrLen);
    if ranges != [] {
      assert s[1..] == Shifted(ranges[1..], hdrLen);
      TrimBehind(TrimOne(bytes, s[0].0, s[0].1), hdrLen, ranges[1..]);
    }
  }

  predicate AllInRange(size: nat, hdrLen: nat, ranges: seq<(nat, nat)>) {
    forall r <- ranges :: InRange(size, hdrLen, r.0, r.1)
  }

  /** A trimmed sector reads as what zeros decrypt to. */
  function TrimOnePlainly(x: Xts, k: XtsKey, plain: seq<byte>, off: nat, len: nat): (r: seq<byte>)
    requires KeepsSize(x.dec)
    ensures |r| == |plain|
  {
    if Whole(len) && off + len <= |plain| then Splice(plain, off, Crypt(x.dec, k, off / XTS_SECTOR_SIZE, Zeros(len))) else plain
  }

  function TrimmedPlain(x: Xts, k: XtsKey, plain: seq<byte>, ranges: seq<(nat, nat)>): (r: seq<byte>)
    requires KeepsSize(x.dec)
    decreases |ranges|
  {
    if ranges == [] then plain
    else TrimmedPlain(x, k, TrimOnePlainly(x, k, plain, ranges[0].0, ranges[0].1), ranges[1..])
  }

  lemma TrimOnePlain(x: Xts, k: XtsKey, hdrLen: nat, bytes: seq<byte>, off: nat, len: nat)
    requires Bijective(x) && hdrLen <= |bytes| && InRange(|bytes|, hdrLen, off, len)
    ensures Plain(x, k, hdrLen, TrimOne(bytes, hdrLen + off, len)) == TrimOnePlainly(x, k, Plain(x, k, hdrLen, bytes), off, len)
  {
    hide Crypt, Behind, Splice;
    SpliceBehind(bytes, hdrLen, off, Zeros(len));
    CryptSplice(x.dec, k, Behind(bytes, hdrLen), off, Zeros(len), Crypt(x.dec, k, off / XTS_SECTOR_SIZE, Zeros(len)));
    if hdrLen + off >= |bytes| {
      SpliceNothing(bytes, hdrLen + off);
    }
  }

  lemma SpliceNothing(s: seq<byte>, off: nat)
    requires off <= |s|
    ensures Splice(s, off, Zeros(0)) == s
  {
  }

  lemma {:induction false} TrimPlain(x: Xts, k: XtsKey, hdrLen: nat, bytes: seq<byte>, ranges: seq<(nat, nat)>)
    requires Bijective(x) && hdrLen <= |bytes| && AllInRange(|bytes|, hdrLen, ranges)
    ensures Plain(x, k, hdrLen, Trimmed(bytes, Shifted(ranges, hdrLen))) == TrimmedPlain(x, k, Plain(x, k, hdrLen, bytes), ranges)
    decreases |ranges|
  {
    hide Plain, TrimOne, TrimOnePlainly, InRange, Trimmed, TrimmedPlain, Shifted;
    if ranges == [] {
      TrimmedNothing(x, k, hdrLen, bytes, Plain(x, k, hdrLen, bytes));
    } else {
      var (off, len) := ranges[0];
      assert ranges[0] in ranges && InRange(|bytes|, hdrLen, off, len);
      TrimOnePlain(x, k, hdrLen, bytes, off, len);
      TrimmedStep(x, k, hdrLen, bytes, Plain(x, k, hdrLen, bytes), ranges);
      TrimPlain(x, k, hdrLen, TrimOne(bytes, hdrLen + off, len), ranges[1..]);
    }
  }

  lemma TrimmedNothing(x: Xts, k: XtsKey, hdrLen: nat, bytes: seq<byte>, plain: seq<byte>)
    requires KeepsSize(x.dec)
    ensures Trimmed(bytes, Shifted([], hdrLen)) == bytes && TrimmedPlain(x, k, plain, []) == plain
  {
  }

  /** The first range, then the others. */
  lemma TrimmedStep(x: Xts, k: XtsKey, hdrLen: nat, bytes: seq<byte>, plain: seq<byte>, ranges: seq<(nat, nat)>)
    requires KeepsSize(x.dec) && ranges != []
    ensures var (off, len) := ranges[0];
            && Trimmed(bytes, Shifted(ranges, hdrLen)) == Trimmed(TrimOne(bytes, hdrLen + off, len), Shifted(ranges[1..], hdrLen))
            && TrimmedPlain(x, k, plain, ranges) == TrimmedPlain(x, k, TrimOnePlainly(x, k, plain, off, len), ranges[1..])
  {
    hide TrimOne, TrimOnePlainly;
    assert Shifted(ranges, hdrLen)[1..] == Shifted(ranges[1..], hdrLen);
  }

  // ----- runs

  datatype Access = Write(off: nat, data: seq<byte>) | Trim(off: nat, len: nat)

  predicate Allowed(size: nat, hdrLen: nat, a: Access) {
    match a
    case Write(off, data) => InRange(size, hdrLen, off, |data|)
    case Trim(off, len) => InRange(size, hdrLen, off, len)
  }

  /** What the store below is asked to do. */
  function Apply(x: Xts, k: XtsKey, hdrLen: nat, bytes: seq<byte>, a: Access): (r: seq<byte>)
    requires KeepsSize(x.enc) && hdrLen <= |bytes| && Allowed(|bytes|, hdrLen, a)
    ensures |r| == |bytes|
  {
    match a
    case Write(off, data) => Splice(bytes, hdrLen + off, Crypt(x.enc, k, off / XTS_SECTOR_SIZE, data))
    case Trim(off, len) => TrimOne(bytes, hdrLen + off, len)
  }

  /** What that means for the plaintext. */
  function ApplyPlain(x: Xts, k: XtsKey, plain: seq<byte>, a: Access): seq<byte>
    requires KeepsSize(x.dec)
  {
    match a
    case Write(off, data) => if off + |data| <= |plain| then Splice(plain, off, data) else plain
    case Trim(off, len) => TrimOnePlainly(x, k, plain, off, len)
  }

  function ApplyAll(x: Xts, k: XtsKey, hdrLen: nat, bytes: seq<byte>, run: seq<Access>): (r: seq<byte>)
    requires KeepsSize(x.enc) && hdrLen <= |bytes| && forall a <- run :: Allowed(|bytes|, hdrLen, a)
    ensures |r| == |bytes|
    decreases |run|
  {
    if run == [] then bytes else ApplyAll(x, k, hdrLen, Apply(x, k, hdrLen, bytes, run[0]), run[1..])
  }

  function ApplyAllPlain(x: Xts, k: XtsKey, plain: seq<byte>, run: seq<Access>): seq<byte>
    requires KeepsSize(x.dec)
    decreases |run|
  {
    if run == [] then plain else ApplyAllPlain(x, k, ApplyPlain(x, k, plain, run[0]), run[1..])
  }

  /** Every run of writes and trims acts on the plaintext disk as it should, and never on the header. */
  lemma {:induction false} RunRefinesPlain(x: Xts, k: XtsKey, hdrLen: nat, bytes: seq<byte>, run: seq<Access>)
    requires Bijective(x) && hdrLen <= |bytes| && forall a <- run :: Allowed(|bytes|, hdrLen, a)
    ensures var after := ApplyAll(x, k, hdrLen, bytes, run);
            && Plain(x, k, hdrLen, after) == ApplyAllPlain(x, k, Plain(x, k, hdrLen, bytes), run)
            && after[..hdrLen] == bytes[..hdrLen]
    decreases |run|
  {
    hide Plain, Apply, ApplyPlain, Allowed;
    if run != [] {
      assert run[0] in run;
      ApplyRefines(x, k, hdrLen, bytes, run[0]);
      var bytes' := Apply(x, k, hdrLen, bytes, run[0]);
      assert forall a <- run[1..] :: a in run && Allowed(|bytes'|, hdrLen, a);
      RunRefinesPlain(x, k, hdrLen, bytes', run[1..]);
    }
  }

  lemma ApplyRefines(x: Xts, k: XtsKey, hdrLen: nat, bytes: seq<byte>, a: Access)
    requires Bijective(x) && hdrLen <= |bytes| && Allowed(|bytes|, hdrLen, a)
    ensures var after := Apply(x, k, hdrLen, bytes, a);
            && Plain(x, k, hdrLen, after) == ApplyPlain(x, k, Plain(x, k, hdrLen, bytes), a)
            && after[..hdrLen] == bytes[..hdrLen]
  {
    hide Plain, Crypt, Splice, TrimOne, TrimOnePlainly, InRange;
    match a
    case Write(off, data) => WriteSplicesPlain(x, k, hdrLen, bytes, off, data);
    case Trim(off, len) =>
      TrimOnePlain(x, k, hdrLen, bytes, off, len);
      HeaderStays(bytes, hdrLen, off, len);
  }

  lemma HeaderStays(bytes: seq<byte>, hdrLen: nat, off: nat, len: nat)
    requires hdrLen <= |bytes|
    ensures TrimOne(bytes, hdrLen + off, len)[..hdrLen] == bytes[..hdrLen]
  {
  }
}
