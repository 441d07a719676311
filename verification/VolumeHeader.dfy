/**
 * The DiskCryptor volume header that CryptoIO.cpp reads and writes: its fields, its
 * key slots, and how it is sealed. The ciphers, the key derivations and the CRC
 * are functions about which only the laws in `Lawful` are known.
 */
module VolumeHeader {
  import opened Bytes
  import opened Results

  const HEADER_SALT_SIZE := 64
  const DC_BASE_SIZE := 1024
  const DC_AREA_SIZE := 2048
  const DC_AREA_MAX_SIZE := 33554432
  const XTS_SECTOR_SIZE := 512
  const XTS_BLOCK_SIZE := 16
  const PKCS_DERIVE_MAX := 192
  const DISKKEY_SIZE := 256
  const SLOT_INFO_SIZE := 32
  const KEY_SLOT_COUNT := 4
  const KEY_SLOT_MAX := 100
  const DC_HDR_VERSION_2 := 3
  const CF_CIPHERS_NUM := 7

  const KDF_NONE := -1
  const KDF_DEFAULT := -2
  const KDF_ALL := -3
  const KDF_ARGON_DEFAULT := 5
  const KDF_ARGON_MAX := 10

  /** The fields of the header base. `other` stands for the ones nothing here looks at. */
  datatype Base = Base(
    version: nat, flags: nat, diskId: nat, alg: nat, key1: seq<byte>,
    tmpSize: nat, storLen: nat, headLen: nat, footerCnt: int,
    featureFlags: nat, extHdrOff: nat, headKdf: nat,
    slotAreaLen: nat, keySlotCount: nat, slotInfoSize: nat, other: seq<byte>)

  /** alg_2, key_2, data_off and tmp_wp_mode. */
  const OTHER_SIZE := 269

  /** The widths of the fields in the record. */
  ghost predicate Fits(b: Base) {
    && b.version < 0x1_0000 && b.flags < 0x1_0000_0000 && b.diskId < 0x1_0000_0000
    && b.alg < 0x1_0000_0000 && |b.key1| == DISKKEY_SIZE
    && b.tmpSize < 0x1_0000_0000_0000_0000 && b.storLen < 0x1_0000_0000 && b.headLen < 0x1_0000_0000
    && -128 <= b.footerCnt < 128 && b.featureFlags < 0x1_0000_0000 && b.extHdrOff < 0x1_0000
    && b.headKdf < 0x100 && b.slotAreaLen < 0x1_0000 && b.keySlotCount < 0x100 && b.slotInfoSize < 0x1_0000
    && |b.other| == OTHER_SIZE
  }

  /** A header in the clear; `tail` is everything from DC_BASE_SIZE on. */
  datatype Header = Header(salt: seq<byte>, base: Base, tail: seq<byte>)

  /** A password, the key derivation it names (or a search order), and the slot it is for. */
  datatype Pass = Pass(text: seq<byte>, kdf: int, slot: int)

  /** xts_set_key: a cipher and as much of the key material as it takes. */
  datatype XtsKey = XtsKey(alg: nat, bytes: seq<byte>)

  function KeyBytes(alg: nat): nat {
    if alg < 3 then 64 else if alg < 6 then 128 else PKCS_DERIVE_MAX
  }

  function SetKey(dk: seq<byte>, alg: nat): XtsKey {
    XtsKey(alg, dk[..Min(|dk|, KeyBytes(alg))])
  }

  ghost predicate IsKey(k: XtsKey) {
    k.alg < CF_CIPHERS_NUM && |k.bytes| <= PKCS_DERIVE_MAX
  }

  /** The library's primitives. */
  datatype Crypto = Crypto(
    kdf: (seq<byte>, int, seq<byte>) -> seq<byte>,
    seal: (XtsKey, Base, seq<byte>) -> seq<byte>,
    unseal: (XtsKey, seq<byte>) -> Option<Signed>,
    enc: (XtsKey, seq<byte>) -> seq<byte>,
    dec: (XtsKey, seq<byte>) -> seq<byte>,
    crc: (seq<byte>, seq<byte>) -> seq<byte>,
    sum: (Base, seq<byte>) -> seq<byte>,
    stray: (Base, seq<byte>) -> seq<byte>)

  /** A base that came out with the right signature, and the checksum beside it. */
  datatype Signed = Signed(base: Base, check: seq<byte>)

  // ----- the checksum

  /** How many bytes behind the base the checksum covers: all of the area in version 1, 16 for each footer below zero. */
  function Reach(b: Base): nat {
    if b.version < DC_HDR_VERSION_2 then DC_AREA_SIZE - DC_BASE_SIZE
    else if b.footerCnt < 0 then -XTS_BLOCK_SIZE * b.footerCnt
    else 0
  }

  /** The checksum stays inside the first DC_AREA_SIZE bytes, and has a length. */
  predicate SumInArea(b: Base) {
    b.version < DC_HDR_VERSION_2 || -64 <= b.footerCnt < 60
  }

  function Covered(b: Base, tail: seq<byte>): seq<byte> {
    tail[..Min(|tail|, Reach(b))]
  }

  /** calculate_header_crc. Past the area it is whatever `stray` says, about which nothing is known. */
  function Check(c: Crypto, b: Base, tail: seq<byte>): seq<byte> {
    if SumInArea(b) then c.sum(b, Covered(b, tail)) else c.stray(b, tail)
  }

  /** A sealed base decrypted, if its signature and its checksum are right: `area` is what lies behind it in the clear. */
  function Valid(c: Crypto, key: XtsKey, sealed: seq<byte>, area: seq<byte>): (r: Option<Base>) {
    match c.unseal(key, sealed)
    case None => None
    case Some(s) => if s.check == Check(c, s.base, area) then Some(s.base) else None
  }

  /** Only the key a base was sealed with opens it as a valid header. */
  ghost predicate SealsBase(c: Crypto) {
    && (forall k, b, x :: |c.seal(k, b, x)| == DC_BASE_SIZE - HEADER_SALT_SIZE)
    && (forall k, b, x :: IsKey(k) && Fits(b) && |x| == 4 ==> c.unseal(k, c.seal(k, b, x)) == Some(Signed(b, x)))
    && (forall k, k', b, x, area :: IsKey(k) && IsKey(k') && Fits(b) && |x| == 4 && Valid(c, k', c.seal(k, b, x), area).Some? ==> k' == k)
    && (forall k, s :: c.unseal(k, s).Some? ==> Fits(c.unseal(k, s).value.base))
    && (forall b, t :: |c.sum(b, t)| == 4 && |c.stray(b, t)| == 4)
  }

  /** XTS undoes itself, a block of plaintext depends on its own block of ciphertext only, and sectors go one by one. */
  ghost predicate SealsTail(c: Crypto) {
    && (forall k, s :: |c.enc(k, s)| == |s| && |c.dec(k, s)| == |s| && c.dec(k, c.enc(k, s)) == s)
    && (forall k, s, t, j: nat :: |s| == |t| && SameBlock(s, t, j) ==> SameBlock(c.dec(k, s), c.dec(k, t), j))
    && (forall k, s, n: nat :: n <= |s| && n % XTS_SECTOR_SIZE == 0 ==> c.dec(k, s[..n]) == c.dec(k, s)[..n])
  }

  ghost predicate SameBlock(s: seq<byte>, t: seq<byte>, j: nat) {
    forall i | 0 <= i < |s| && i < |t| && i / XTS_BLOCK_SIZE == j :: s[i] == t[i]
  }

  ghost predicate Lawful(c: Crypto) {
    && SealsBase(c) && SealsTail(c)
    && (forall t, k, s :: |c.kdf(t, k, s)| == PKCS_DERIVE_MAX)
    && (forall a, b :: |c.crc(a, b)| == 4)
  }

  // ----- key slots

  predicate HasSlotFlag(b: Base) {
    b.featureFlags % 2 == 1
  }

  /** cp_has_key_slots */
  predicate HasKeySlots(b: Base) {
    && b.version >= DC_HDR_VERSION_2 && HasSlotFlag(b)
    && b.slotAreaLen != 0 && b.keySlotCount != 0 && b.slotInfoSize != 0
  }

  /** Where the slots and their descriptors end. */
  function SlotsEnd(b: Base): nat {
    DC_BASE_SIZE + b.slotAreaLen + b.keySlotCount * b.slotInfoSize
  }

  function SlotSize(b: Base): nat {
    if b.keySlotCount == 0 then 0 else b.slotAreaLen / b.keySlotCount
  }

  /** A byte of a tail, zero past its end. */
  function At(tail: seq<byte>, k: nat): byte {
    if k < |tail| then tail[k] else 0
  }

  const SF_ACTIVE: byte := 1
  const SF_DISABLED: byte := 2
  const SF_CORRUPT: byte := 4

  /** The low byte of descriptor i's flags, which follow its four CRC bytes. */
  function SlotFlags(b: Base, tail: seq<byte>, i: nat): byte {
    At(tail, b.slotAreaLen + b.slotInfoSize * i + 4)
  }

  // ----- sealing

  /** cp_copy_keylots copies this byte of the slot area raw. */
  predicate RawAt(b: Base, tail: seq<byte>, k: nat) {
    && HasSlotFlag(b) && SlotsEnd(b) <= b.headLen
    && SlotSize(b) > 0 && k < SlotSize(b) * b.keySlotCount
    && SlotFlags(b, tail, k / SlotSize(b)) & SF_DISABLED == 0
  }

  /** cp_copy_keylots: the slots of `src` over `dst`, by the descriptors in `tail`. */
  function CopySlots(b: Base, tail: seq<byte>, src: seq<byte>, dst: seq<byte>): (r: seq<byte>)
    requires |src| >= |dst|
    ensures |r| == |dst|
    ensures forall k | 0 <= k < |dst| :: r[k] == if RawAt(b, tail, k) then src[k] else dst[k]
  {
    seq(|dst|, k requires 0 <= k < |dst| => if RawAt(b, tail, k) then src[k] else dst[k])
  }

  /** dc_encrypt_header: the salt in the clear, the base and the tail sealed, the slots raw. */
  function Seal(c: Crypto, key: XtsKey, h: Header): seq<byte>
    requires |c.enc(key, h.tail)| == |h.tail|
  {
    var sealed := c.enc(key, h.tail);
    h.salt + c.seal(key, h.base, Check(c, h.base, h.tail)) +
    if h.base.version >= DC_HDR_VERSION_2 then CopySlots(h.base, h.tail, h.tail, sealed) else sealed
  }

  function ImageSalt(image: seq<byte>): seq<byte>
    requires |image| >= DC_AREA_SIZE
  {
    image[..HEADER_SALT_SIZE]
  }

  function ImageBase(image: seq<byte>): seq<byte>
    requires |image| >= DC_AREA_SIZE
  {
    image[HEADER_SALT_SIZE..DC_BASE_SIZE]
  }

  function ImageTail(image: seq<byte>): seq<byte>
    requires |image| >= DC_AREA_SIZE
  {
    image[DC_BASE_SIZE..]
  }

  /** What the decryption of the first DC_AREA_SIZE bytes leaves behind the base, with raw slots decrypted like anything else. */
  function Area(c: Crypto, key: XtsKey, image: seq<byte>): seq<byte>
    requires |image| >= DC_AREA_SIZE
  {
    c.dec(key, image[DC_BASE_SIZE..DC_AREA_SIZE])
  }

  /** The header base, if the first DC_AREA_SIZE bytes decrypt to a header that is_volume_header_correct accepts. */
  function OpenBase(c: Crypto, key: XtsKey, image: seq<byte>): Option<Base>
    requires |image| >= DC_AREA_SIZE
  {
    Valid(c, key, ImageBase(image), Area(c, key, image))
  }

  /** The tail in the clear: `upTo` bytes of it were encrypted, and the slots are carried over. */
  function OpenTail(c: Crypto, key: XtsKey, b: Base, tail: seq<byte>, upTo: nat, slots: bool): seq<byte>
    requires upTo <= |tail| && |c.dec(key, tail[..upTo])| == upTo
  {
    var plain := c.dec(key, tail[..upTo]) + tail[upTo..];
    if slots && HasSlotFlag(b) then CopySlots(b, plain, tail, plain) else plain
  }

  /** cp_decrypt_header_with_key */
  function OpenWithKey(c: Crypto, key: XtsKey, image: seq<byte>): Option<Header>
    requires |image| >= DC_AREA_SIZE && |c.dec(key, ImageTail(image)[..|image| - DC_BASE_SIZE])| == |image| - DC_BASE_SIZE
  {
    match OpenBase(c, key, image)
    case None => None
    case Some(b) => Some(Header(ImageSalt(image), b, OpenTail(c, key, b, ImageTail(image), |image| - DC_BASE_SIZE, true)))
  }

  /** The checksum stays in the area and covers no byte that is stored raw. */
  ghost predicate SumClear(h: Header) {
    SumInArea(h.base) && forall k | 0 <= k < Reach(h.base) :: !RawAt(h.base, h.tail, k)
  }

  /** A header whose slots are whole cipher blocks and inside it, so that raw and sealed bytes do not mix. */
  ghost predicate WellLaid(h: Header) {
    && |h.salt| == HEADER_SALT_SIZE && |h.tail| >= DC_AREA_SIZE - DC_BASE_SIZE && Fits(h.base) && SumClear(h)
    && (HasSlotFlag(h.base) ==>
          && h.base.version >= DC_HDR_VERSION_2
          && h.base.slotInfoSize > 4
          && SlotsEnd(h.base) <= h.base.headLen && SlotsEnd(h.base) <= DC_BASE_SIZE + |h.tail|
          && SlotSize(h.base) % XTS_BLOCK_SIZE == 0)
  }

  /** What a sealed header's bytes consist of. */
  lemma SealParts(c: Crypto, key: XtsKey, h: Header)
    requires Lawful(c) && WellLaid(h)
    ensures var image := Seal(c, key, h);
            && |image| == DC_BASE_SIZE + |h.tail| && ImageSalt(image) == h.salt
            && ImageBase(image) == c.seal(key, h.base, Check(c, h.base, h.tail))
            && ImageTail(image) == if HasSlotFlag(h.base) then CopySlots(h.base, h.tail, h.tail, c.enc(key, h.tail)) else c.enc(key, h.tail)
  {
    var sealed := c.enc(key, h.tail);
    if !HasSlotFlag(h.base) {
      assert CopySlots(h.base, h.tail, h.tail, sealed) == sealed;
    }
  }

  /** Bytes of one cipher block are raw together or sealed together. */
  lemma RawByBlocks(b: Base, tail: seq<byte>, i: nat, k: nat)
    requires SlotSize(b) % XTS_BLOCK_SIZE == 0 && i / XTS_BLOCK_SIZE == k / XTS_BLOCK_SIZE
    ensures RawAt(b, tail, i) == RawAt(b, tail, k)
  {
    if SlotSize(b) > 0 {
      var n, m := SlotSize(b), SlotSize(b) / XTS_BLOCK_SIZE;
      assert n == 16 * m;
      SameSlot(i, k, m);
      SlotBound(i, n, b.keySlotCount);
      SlotBound(k, n, b.keySlotCount);
    }
  }

  lemma SlotBound(k: nat, n: nat, count: nat)
    requires n > 0
    ensures k < n * count <==> k / n < count
  {
    var q := k / n;
    assert q * n <= k < q * n + n;
    if q < count {
      assert (q + 1) * n <= count * n;
    } else {
      assert count * n <= q * n;
    }
  }

  lemma SameSlot(i: nat, k: nat, m: nat)
    requires m > 0 && i / 16 == k / 16
    ensures i / (16 * m) == k / (16 * m)
  {
    DivTwice(i, m);
    DivTwice(k, m);
  }

  lemma DivTwice(k: nat, m: nat)
    requires m > 0
    ensures k / (16 * m) == (k / 16) / m
  {
    var q := (k / 16) / m;
    assert m * q <= k / 16 < m * q + m;
    var n := 16 * m;
    assert n * q == 16 * (m * q);
    QuotientIs(k, n, q);
  }

  lemma QuotientIs(k: nat, n: nat, q: nat)
    requires n > 0 && n * q <= k < n * q + n
    ensures k / n == q
  {
    var p, r := k / n, k % n;
    assert k == n * p + r;
    if p < q { TimesMonotone(n, p + 1, q); } else if q < p { TimesMonotone(n, q + 1, p); }
  }

  lemma TimesMonotone(n: nat, a: nat, b: nat)
    requires a <= b
    ensures n * a <= n * b
  {
  }

  /** Unsealing one byte that is not part of a raw slot. */
  lemma SealedByte(c: Crypto, key: XtsKey, h: Header, k: nat)
    requires Lawful(c) && WellLaid(h) && k < |h.tail| && !(HasSlotFlag(h.base) && RawAt(h.base, h.tail, k))
    ensures c.dec(key, ImageTail(Seal(c, key, h)))[k] == h.tail[k]
  {
    SealParts(c, key, h);
    var sealed, stored := c.enc(key, h.tail), ImageTail(Seal(c, key, h));
    forall i | 0 <= i < |sealed| && i / XTS_BLOCK_SIZE == k / XTS_BLOCK_SIZE
      ensures stored[i] == sealed[i]
    {
      if HasSlotFlag(h.base) { RawByBlocks(h.base, h.tail, i, k); }
    }
    var j := k / XTS_BLOCK_SIZE;
    assert SameBlock(stored, sealed, j);
    assert SameBlock(c.dec(key, stored), c.dec(key, sealed), j);
  }

  /** The descriptors lie past the slots, so they are never raw. */
  lemma DescriptorsSealed(b: Base, tail: seq<byte>, k: nat)
    requires k >= b.slotAreaLen
    ensures !RawAt(b, tail, k)
  {
    if b.keySlotCount > 0 {
      var n := SlotSize(b);
      assert n * b.keySlotCount <= b.slotAreaLen;
    }
  }

  /** Opening a sealed tail, with whatever was read past it, gives it back. */
  lemma OpenTailOfSealed(c: Crypto, key: XtsKey, h: Header, extra: seq<byte>)
    requires Lawful(c) && WellLaid(h)
    ensures OpenTail(c, key, h.base, ImageTail(Seal(c, key, h)) + extra, |h.tail|, true) == h.tail + extra
  {
    hide Seal, RawAt, CopySlots;
    SealParts(c, key, h);
    var b, tail, stored := h.base, h.tail, ImageTail(Seal(c, key, h));
    assert (stored + extra)[..|tail|] == stored && (stored + extra)[|tail|..] == extra;
    var plain := c.dec(key, stored) + extra;
    forall k | 0 <= k < |tail| && !(HasSlotFlag(b) && RawAt(b, tail, k))
      ensures plain[k] == tail[k]
    {
      SealedByte(c, key, h, k);
    }
    if HasSlotFlag(b) {
      CopiedBack(b, tail, plain, stored, extra);
    } else {
      assert plain == tail + extra;
    }
  }

  /** Copying the raw slots back over what was decrypted completes the tail. */
  lemma CopiedBack(b: Base, tail: seq<byte>, plain: seq<byte>, stored: seq<byte>, extra: seq<byte>)
    requires b.slotInfoSize > 4 && SlotsEnd(b) <= DC_BASE_SIZE + |tail| && |stored| == |tail| && |plain| == |tail| + |extra|
    requires forall k | 0 <= k < |tail| :: if RawAt(b, tail, k) then stored[k] == tail[k] else plain[k] == tail[k]
    requires plain[|tail|..] == extra
    ensures CopySlots(b, plain, stored + extra, plain) == tail + extra
  {
    forall k: nat
      ensures RawAt(b, plain, k) == RawAt(b, tail, k)
      ensures k >= |tail| ==> !RawAt(b, plain, k)
    {
      SameRaw(b, tail, plain, k);
    }
    hide RawAt;
    assert forall k | 0 <= k < |extra| :: plain[|tail| + k] == plain[|tail|..][k];
  }

  lemma SameRaw(b: Base, tail: seq<byte>, plain: seq<byte>, k: nat)
    requires b.slotInfoSize > 4 && SlotsEnd(b) <= DC_BASE_SIZE + |tail| && |plain| >= |tail|
    requires forall k | 0 <= k < |tail| && !RawAt(b, tail, k) :: plain[k] == tail[k]
    ensures RawAt(b, plain, k) == RawAt(b, tail, k)
    ensures k >= |tail| ==> !RawAt(b, plain, k)
  {
    if k >= |tail| { DescriptorsSealed(b, plain, k); DescriptorsSealed(b, tail, k); }
    var n := SlotSize(b);
    if n > 0 && k < n * b.keySlotCount {
      SlotBound(k, n, b.keySlotCount);
      SameFlags(b, tail, plain, k / n);
    }
  }

  lemma SameFlags(b: Base, tail: seq<byte>, plain: seq<byte>, i: nat)
    requires b.slotInfoSize > 4 && SlotsEnd(b) <= DC_BASE_SIZE + |tail| && |plain| >= |tail| && i < b.keySlotCount
    requires forall k | 0 <= k < |tail| && !RawAt(b, tail, k) :: plain[k] == tail[k]
    ensures SlotFlags(b, plain, i) == SlotFlags(b, tail, i)
  {
    DescriptorFits(b, i);
    DescriptorsSealed(b, tail, b.slotAreaLen + b.slotInfoSize * i + 4);
  }

  lemma DescriptorFits(b: Base, i: nat)
    requires i < b.keySlotCount
    ensures DC_BASE_SIZE + b.slotAreaLen + b.slotInfoSize * i + b.slotInfoSize <= SlotsEnd(b)
  {
    TimesMonotone(b.slotInfoSize, i + 1, b.keySlotCount);
  }

  lemma OpenFits(c: Crypto, key: XtsKey, image: seq<byte>)
    requires Lawful(c) && |image| >= DC_AREA_SIZE
    ensures OpenBase(c, key, image).Some? ==> Fits(OpenBase(c, key, image).value)
  {
    hide Fits, Check;
  }

  // ----- the checksum of what is stored

  /** The sealed header's checksum is right when its first DC_AREA_SIZE bytes are decrypted, raw slots and all. */
  predicate SumHolds(c: Crypto, key: XtsKey, h: Header)
    requires |c.enc(key, h.tail)| == |h.tail| >= DC_AREA_SIZE - DC_BASE_SIZE && |h.salt| == HEADER_SALT_SIZE
    requires |c.seal(key, h.base, Check(c, h.base, h.tail))| == DC_BASE_SIZE - HEADER_SALT_SIZE
  {
    Check(c, h.base, Area(c, key, Seal(c, key, h))) == Check(c, h.base, h.tail)
  }

  /** A sealed header opens under its key exactly when it does. */
  lemma OpensBySum(c: Crypto, key: XtsKey, h: Header, image: seq<byte>)
    requires Lawful(c) && IsKey(key) && Fits(h.base) && |h.salt| == HEADER_SALT_SIZE && |h.tail| >= DC_AREA_SIZE - DC_BASE_SIZE
    requires |image| >= DC_AREA_SIZE && image[..DC_AREA_SIZE] == Seal(c, key, h)[..DC_AREA_SIZE]
    ensures ImageBase(image) == c.seal(key, h.base, Check(c, h.base, h.tail)) && ImageSalt(image) == h.salt
    ensures OpenBase(c, key, image) == if SumHolds(c, key, h) then Some(h.base) else None
  {
    var sealed := Seal(c, key, h);
    assert image[HEADER_SALT_SIZE..DC_BASE_SIZE] == image[..DC_AREA_SIZE][HEADER_SALT_SIZE..DC_BASE_SIZE] == sealed[HEADER_SALT_SIZE..DC_BASE_SIZE];
    assert image[..HEADER_SALT_SIZE] == image[..DC_AREA_SIZE][..HEADER_SALT_SIZE] == sealed[..HEADER_SALT_SIZE];
    assert image[DC_BASE_SIZE..DC_AREA_SIZE] == image[..DC_AREA_SIZE][DC_BASE_SIZE..] == sealed[DC_BASE_SIZE..DC_AREA_SIZE];
  }

  /** Which it does when the checksum covers nothing raw. */
  lemma ClearSumHolds(c: Crypto, key: XtsKey, h: Header)
    requires Lawful(c) && |h.salt| == HEADER_SALT_SIZE && |h.tail| >= DC_AREA_SIZE - DC_BASE_SIZE && SumClear(h)
    ensures SumHolds(c, key, h)
  {
    AreaCovered(c, key, h);
  }

  /** As far as the checksum covers nothing raw, what is decrypted is what was sealed. */
  lemma AreaCovered(c: Crypto, key: XtsKey, h: Header)
    requires Lawful(c) && |h.salt| == HEADER_SALT_SIZE && |h.tail| >= DC_AREA_SIZE - DC_BASE_SIZE && SumClear(h)
    ensures Covered(h.base, Area(c, key, Seal(c, key, h))) == Covered(h.base, h.tail)
  {
    var sealed, stored, n := c.enc(key, h.tail), ImageTail(Seal(c, key, h)), DC_AREA_SIZE - DC_BASE_SIZE;
    assert Seal(c, key, h)[DC_BASE_SIZE..DC_AREA_SIZE] == stored[..n];
    assert Area(c, key, Seal(c, key, h)) == c.dec(key, stored)[..n];
    forall k | 0 <= k < Reach(h.base)
      ensures c.dec(key, stored)[k] == h.tail[k]
    {
      var j := k / XTS_BLOCK_SIZE;
      forall i | 0 <= i < |stored| && i / XTS_BLOCK_SIZE == j
        ensures stored[i] == sealed[i]
      {
        ReachBlocks(h.base, i, k);
      }
      assert SameBlock(stored, sealed, j);
      assert SameBlock(c.dec(key, stored), c.dec(key, sealed), j);
    }
  }

  /** The checksum covers whole cipher blocks. */
  lemma ReachBlocks(b: Base, i: nat, k: nat)
    requires k < Reach(b) && i / XTS_BLOCK_SIZE == k / XTS_BLOCK_SIZE
    ensures i < Reach(b)
  {
  }

  /**
   * When it covers raw bytes everything hangs on what they decrypt to: unless two different contents happen to
   * have the same checksum, it is right exactly if every covered byte decrypts to itself.
   */
  lemma SumHoldsExactly(c: Crypto, key: XtsKey, h: Header)
    requires Lawful(c) && |h.salt| == HEADER_SALT_SIZE && |h.tail| >= DC_AREA_SIZE - DC_BASE_SIZE && SumInArea(h.base)
    requires var x, y := Covered(h.base, Area(c, key, Seal(c, key, h))), Covered(h.base, h.tail);
             c.sum(h.base, x) == c.sum(h.base, y) ==> x == y
    ensures SumHolds(c, key, h) <==> forall k | 0 <= k < Reach(h.base) :: Area(c, key, Seal(c, key, h))[k] == h.tail[k]
  {
    var x, y := Covered(h.base, Area(c, key, Seal(c, key, h))), Covered(h.base, h.tail);
    assert |x| == |y| == Reach(h.base);
    if SumHolds(c, key, h) {
      forall k | 0 <= k < Reach(h.base)
        ensures Area(c, key, Seal(c, key, h))[k] == h.tail[k]
      {
        assert x[k] == y[k];
      }
    }
    if forall k | 0 <= k < Reach(h.base) :: Area(c, key, Seal(c, key, h))[k] == h.tail[k] {
      assert x == y;
    }
  }

  /** Sealing and unsealing under the same key gives the header back. */
  lemma OpenSealed(c: Crypto, key: XtsKey, h: Header)
    requires Lawful(c) && WellLaid(h) && IsKey(key)
    ensures |Seal(c, key, h)| == DC_BASE_SIZE + |h.tail|
    ensures OpenWithKey(c, key, Seal(c, key, h)) == Some(h)
  {
    SealParts(c, key, h);
    ClearSumHolds(c, key, h);
    OpensBySum(c, key, h, Seal(c, key, h));
    OpenTailOfSealed(c, key, h, []);
    assert ImageTail(Seal(c, key, h)) + [] == ImageTail(Seal(c, key, h));
    assert h.tail + [] == h.tail;
  }
}
