/** The laws asked of the crypto primitives can be met all at once: a record that meets them. */
module CryptoLaws {
  import opened Bytes
  import opened Results
  import opened VolumeHeader

  function Digit(n: nat): byte {
    match n
    case 0 => 0 case 1 => 1 case 2 => 2 case 3 => 3 case 4 => 4 case 5 => 5 case 6 => 6 case 7 => 7
    case 8 => 8 case 9 => 9 case 10 => 10 case 11 => 11 case 12 => 12 case 13 => 13 case 14 => 14 case _ => 15
  }

  /** A number as `width` hexadecimal digits, the lowest first. */
  function Hex(n: nat, width: nat): (r: seq<byte>)
    ensures |r| == width
  {
    if width == 0 then [] else [Digit(n % 16)] + Hex(n / 16, width - 1)
  }

  function Range(width: nat): (r: nat)
    ensures r > 0
  {
    if width == 0 then 1 else 16 * Range(width - 1)
  }

  lemma DigitInjective(x: nat, y: nat)
    requires x < 16 && y < 16 && Digit(x) == Digit(y)
    ensures x == y
  {
  }

  lemma {:induction false} HexInjective(n: nat, m: nat, width: nat)
    requires n < Range(width) && m < Range(width) && Hex(n, width) == Hex(m, width)
    ensures n == m
  {
    if width > 0 {
      assert Hex(n, width)[0] == Hex(m, width)[0] && Hex(n, width)[1..] == Hex(m, width)[1..];
      DigitInjective(n % 16, m % 16);
      HexInjective(n / 16, m / 16, width - 1);
    }
  }

  function Concat(parts: seq<seq<byte>>): seq<byte> {
    if parts == [] then [] else parts[0] + Concat(parts[1..])
  }

  ghost predicate SameShape(s: seq<seq<byte>>, t: seq<seq<byte>>) {
    |s| == |t| && forall i | 0 <= i < |s| :: |s[i]| == |t[i]|
  }

  lemma {:induction false} ConcatLength(s: seq<seq<byte>>, t: seq<seq<byte>>)
    requires SameShape(s, t)
    ensures |Concat(s)| == |Concat(t)|
  {
    if s != [] {
      ConcatLength(s[1..], t[1..]);
    }
  }

  lemma {:induction false} ConcatInjective(s: seq<seq<byte>>, t: seq<seq<byte>>)
    requires SameShape(s, t) && Concat(s) == Concat(t)
    ensures s == t
  {
    if s != [] {
      var n := |s[0]|;
      assert s[0] == Concat(s)[..n] && t[0] == Concat(t)[..n];
      assert Concat(s[1..]) == Concat(s)[n..] && Concat(t[1..]) == Concat(t)[n..];
      ConcatInjective(s[1..], t[1..]);
      assert s == [s[0]] + s[1..] && t == [t[0]] + t[1..];
    }
  }

  lemma {:induction false} ConcatBound(s: seq<seq<byte>>, n: nat)
    requires forall i | 0 <= i < |s| :: |s[i]| <= n
    ensures |Concat(s)| <= n * |s|
  {
    if s != [] {
      ConcatBound(s[1..], n);
    }
  }

  const COUNT := 17

  /** The numbers of a base and of a key, with their widths. */
  function Numbers(k: XtsKey, b: Base): (r: seq<(nat, nat)>)
    ensures |r| == COUNT
  {
    [(b.version, 4), (b.flags, 8), (b.diskId, 8), (b.alg, 8), (b.tmpSize % 0x1_0000_0000, 8),
     (b.tmpSize / 0x1_0000_0000, 8), (b.storLen, 8), (b.headLen, 8), ((b.footerCnt + 128) % 256, 2),
     (b.featureFlags, 8), (b.extHdrOff, 4), (b.headKdf, 2), (b.slotAreaLen, 4),
     (b.keySlotCount, 2), (b.slotInfoSize, 4), (k.alg, 2), (|k.bytes|, 2)]
  }

  function Encoded(numbers: seq<(nat, nat)>): (r: seq<seq<byte>>)
    ensures |r| == |numbers|
    ensures forall i | 0 <= i < |r| :: r[i] == Hex(numbers[i].0, numbers[i].1)
  {
    seq(|numbers|, i requires 0 <= i < |numbers| => Hex(numbers[i].0, numbers[i].1))
  }

  lemma NumbersInjective(s: seq<(nat, nat)>, t: seq<(nat, nat)>)
    requires |s| == |t| && Concat(Encoded(s)) == Concat(Encoded(t))
    requires forall i | 0 <= i < |s| :: s[i].1 == t[i].1 && s[i].0 < Range(s[i].1) && t[i].0 < Range(t[i].1)
    ensures s == t
  {
    ConcatInjective(Encoded(s), Encoded(t));
    forall i | 0 <= i < |s|
      ensures s[i] == t[i]
    {
      assert Encoded(s)[i] == Encoded(t)[i];
      HexInjective(s[i].0, t[i].0, s[i].1);
    }
  }

  lemma Ranges()
    ensures Range(2) == 0x100 && Range(4) == 0x1_0000 && Range(8) == 0x1_0000_0000
  {
    assert Range(1) == 16 * Range(0) && Range(2) == 16 * Range(1) && Range(3) == 16 * Range(2) && Range(4) == 16 * Range(3);
    assert Range(5) == 16 * Range(4) && Range(6) == 16 * Range(5) && Range(7) == 16 * Range(6) && Range(8) == 16 * Range(7);
  }

  function Padded(s: seq<byte>, n: nat): (r: seq<byte>)
    ensures |r| == n
  {
    if |s| >= n then s[..n] else s + Zeros(n - |s|)
  }

  /** The base, the key and the checksum side by side, filled up to the size of a sealed base. */
  function Sealed(k: XtsKey, b: Base, x: seq<byte>): (r: seq<byte>)
    ensures |r| == DC_BASE_SIZE - HEADER_SALT_SIZE
  {
    Padded(Concat(Encoded(Numbers(k, b))), 8 * COUNT) + Padded(b.key1, DISKKEY_SIZE) +
    Padded(b.other, OTHER_SIZE) + Padded(k.bytes, PKCS_DERIVE_MAX) + Padded(x, 4) + Zeros(103)
  }

  lemma SealedParts(k: XtsKey, b: Base, x: seq<byte>)
    ensures var s := Sealed(k, b, x);
            && s[..136] == Padded(Concat(Encoded(Numbers(k, b))), 8 * COUNT) && s[136..392] == Padded(b.key1, DISKKEY_SIZE)
            && s[392..661] == Padded(b.other, OTHER_SIZE) && s[661..853] == Padded(k.bytes, PKCS_DERIVE_MAX) && s[853..857] == Padded(x, 4)
  {
  }

  /** Every number fits its width, and the widths are always the same. */
  lemma NumbersFit(k: XtsKey, b: Base)
    requires IsKey(k) && Fits(b)
    ensures forall i | 0 <= i < COUNT :: Numbers(k, b)[i].0 < Range(Numbers(k, b)[i].1) && Numbers(k, b)[i].1 <= 8
  {
    Ranges();
  }

  lemma SameWidths(k: XtsKey, b: Base, k': XtsKey, b': Base)
    ensures forall i | 0 <= i < COUNT :: Numbers(k, b)[i].1 == Numbers(k', b')[i].1
  {
  }

  lemma SealedNumbers(k: XtsKey, b: Base, x: seq<byte>, k': XtsKey, b': Base, x': seq<byte>)
    requires IsKey(k) && IsKey(k') && Fits(b) && Fits(b') && Sealed(k, b, x) == Sealed(k', b', x')
    ensures Numbers(k, b) == Numbers(k', b')
  {
    hide Numbers, Sealed, Concat, Range, Fits;
    var n, m := Numbers(k, b), Numbers(k', b');
    NumbersFit(k, b);
    NumbersFit(k', b');
    SameWidths(k, b, k', b');
    SealedParts(k, b, x);
    SealedParts(k', b', x');
    ConcatBound(Encoded(n), 8);
    ConcatBound(Encoded(m), 8);
    ConcatLength(Encoded(n), Encoded(m));
    Unpadded(Concat(Encoded(n)), Concat(Encoded(m)), 8 * COUNT);
    NumbersInjective(n, m);
  }

  lemma Unpadded(s: seq<byte>, t: seq<byte>, n: nat)
    requires |s| == |t| <= n && Padded(s, n) == Padded(t, n)
    ensures s == t
  {
    assert s == Padded(s, n)[..|s|] && t == Padded(t, n)[..|s|];
  }

  lemma SealedInjective(k: XtsKey, b: Base, x: seq<byte>, k': XtsKey, b': Base, x': seq<byte>)
    requires IsKey(k) && IsKey(k') && Fits(b) && Fits(b') && |x| == |x'| == 4 && Sealed(k, b, x) == Sealed(k', b', x')
    ensures k == k' && b == b' && x == x'
  {
    hide Sealed, Concat, Encoded, Range;
    var n, m := Numbers(k, b), Numbers(k', b');
    SealedNumbers(k, b, x, k', b', x');
    SealedParts(k, b, x);
    SealedParts(k', b', x');
    assert forall i | 0 <= i < COUNT :: n[i] == m[i];
    assert n[8] == m[8] && n[16] == m[16];
    assert k.bytes == Padded(k.bytes, PKCS_DERIVE_MAX)[..|k.bytes|];
    assert k'.bytes == Padded(k'.bytes, PKCS_DERIVE_MAX)[..|k.bytes|];
  }

  ghost predicate IsSigned(k: XtsKey, s: seq<byte>, u: Signed) {
    IsKey(k) && Fits(u.base) && |u.check| == 4 && s == Sealed(k, u.base, u.check)
  }

  ghost function Unsealed(k: XtsKey, s: seq<byte>): Option<Signed> {
    if exists u :: IsSigned(k, s, u) then
      var u :| IsSigned(k, s, u); Some(u)
    else None
  }

  lemma UnsealedSealed(k: XtsKey, b: Base, x: seq<byte>, k': XtsKey)
    requires IsKey(k) && Fits(b) && |x| == 4
    ensures Unsealed(k', Sealed(k, b, x)) == if k' == k then Some(Signed(b, x)) else None
  {
    hide Sealed, Fits;
    assert IsSigned(k, Sealed(k, b, x), Signed(b, x));
    var r := Unsealed(k', Sealed(k, b, x));
    if r.Some? {
      SealedInjective(k, b, x, k', r.value.base, r.value.check);
    }
  }

  function Flipped(s: seq<byte>): (r: seq<byte>)
    ensures |r| == |s| && forall i | 0 <= i < |s| :: r[i] == !s[i]
  {
    seq(|s|, i requires 0 <= i < |s| => !s[i])
  }

  /** Encryption that turns every bit over, and a checksum of one byte. */
  ghost function Model(): Crypto {
    Crypto((_, _, _) => Zeros(PKCS_DERIVE_MAX), (k, b, x) => Sealed(k, b, x), (k, s) => Unsealed(k, s),
           (_, s) => Flipped(s), (_, s) => Flipped(s), (_, _) => Zeros(4),
           (_, t) => [At(t, 0), 0, 0, 0], (_, _) => Zeros(4))
  }

  lemma ModelSealsBase()
    ensures SealsBase(Model())
  {
    hide Sealed, Unsealed, Fits;
    var c := Model();
    forall k, b, x | IsKey(k) && Fits(b) && |x| == 4
      ensures c.unseal(k, c.seal(k, b, x)) == Some(Signed(b, x))
    {
      UnsealedSealed(k, b, x, k);
    }
    forall k, k', b, x, area | IsKey(k) && IsKey(k') && Fits(b) && |x| == 4 && Valid(c, k', c.seal(k, b, x), area).Some?
      ensures k' == k
    {
      UnsealedSealed(k, b, x, k');
    }
    forall k, s | c.unseal(k, s).Some?
      ensures Fits(c.unseal(k, s).value.base)
    {
      UnsealedFits(k, s);
    }
  }

  lemma UnsealedFits(k: XtsKey, s: seq<byte>)
    ensures Unsealed(k, s).Some? ==> Fits(Unsealed(k, s).value.base)
  {
  }

  lemma ModelSealsTail()
    ensures SealsTail(Model())
  {
    var c := Model();
    forall k, s
      ensures |c.enc(k, s)| == |s| && |c.dec(k, s)| == |s| && c.dec(k, c.enc(k, s)) == s
    {
      assert forall i | 0 <= i < |s| :: !!s[i] == s[i];
      assert Flipped(Flipped(s)) == s;
    }
    forall k, s, n: nat | n <= |s|
      ensures c.dec(k, s[..n]) == c.dec(k, s)[..n]
    {
    }
  }

  /** The laws are consistent. */
  lemma LawsCanBeMet()
    ensures Lawful(Model()) && exists c :: Lawful(c)
  {
    ModelSealsBase();
    ModelSealsTail();
  }
}
