/** Opening a volume header: the password search, and reading as much of the disk as the header needs. */
module HeaderOpen {
  import opened Bytes
  import opened Results
  import opened VolumeHeader

  const ERR_WRONG_PASSWORD := 4
  const ERR_KEY_REQUIRED := 5
  const ERR_INTERNAL := 7
  const ERR_INVALID_PARAM := 14
  const ERR_IO_FAILED := 17

  /** dc_derive_key: a raw key is itself, everything else goes through the key derivation. */
  function Derive(c: Crypto, text: seq<byte>, kdf: int, salt: seq<byte>): Option<seq<byte>> {
    if kdf == KDF_NONE then
      if |text| == DISKKEY_SIZE then Some(text[..PKCS_DERIVE_MAX]) else None
    else if 0 <= kdf <= KDF_ARGON_MAX || 1000 < kdf <= 1100 then Some(c.kdf(text, kdf, salt))
    else None
  }

  function XorByte(a: byte, b: byte): byte {
    a ^ b
  }

  function Xor(a: seq<byte>, b: seq<byte>): (r: seq<byte>)
    ensures |r| == Min(|a|, |b|)
    ensures forall i | 0 <= i < |r| :: r[i] == XorByte(a[i], b[i])
  {
    seq(Min(|a|, |b|), i requires 0 <= i < Min(|a|, |b|) => XorByte(a[i], b[i]))
  }

  datatype Found = Found(key: XtsKey, base: Base, slot: nat)

  /** try_decrypt_header: the first cipher under which the base comes out valid. */
  function TryCiphers(c: Crypto, dk: seq<byte>, image: seq<byte>, alg: nat): Option<Found>
    requires |image| >= DC_AREA_SIZE
    decreases CF_CIPHERS_NUM - alg
  {
    if alg >= CF_CIPHERS_NUM then None
    else
      match OpenBase(c, SetKey(dk, alg), image)
      case Some(b) => Some(Found(SetKey(dk, alg), b, 0))
      case None => TryCiphers(c, dk, image, alg + 1)
  }

  /** A wrapped key, where the search looks for it. */
  function SlotKey(tail: seq<byte>, i: nat): (r: seq<byte>)
    requires PKCS_DERIVE_MAX * (i + 1) <= |tail|
    ensures |r| == PKCS_DERIVE_MAX
  {
    tail[PKCS_DERIVE_MAX * i..PKCS_DERIVE_MAX * i + PKCS_DERIVE_MAX]
  }

  /** The slots from i on, as far as they were read. */
  function TrySlots(c: Crypto, dk: seq<byte>, image: seq<byte>, i: nat, limit: nat): Option<Found>
    requires |image| >= DC_AREA_SIZE
    decreases limit - i
  {
    if i >= limit || |image| < DC_BASE_SIZE + PKCS_DERIVE_MAX * (i + 1) then None
    else
      match TryCiphers(c, Xor(SlotKey(ImageTail(image), i), dk), image, 0)
      case Some(f) => Some(f.(slot := i + 1))
      case None => TrySlots(c, dk, image, i + 1, limit)
  }

  /** cp_decrypt_header_with_kdf: the header password first unless a slot is named, then the slots. */
  function TryKdf(c: Crypto, image: seq<byte>, pw: Pass, kdf: int): Option<Found>
    requires |image| >= DC_AREA_SIZE
  {
    match Derive(c, pw.text, kdf, ImageSalt(image))
    case None => None
    case Some(dk) =>
      if pw.slot <= 0 && TryCiphers(c, dk, image, 0).Some? then TryCiphers(c, dk, image, 0)
      else if pw.slot > 0 then TrySlots(c, dk, image, pw.slot - 1, pw.slot)
      else TrySlots(c, dk, image, 0, -pw.slot)
  }

  /** The key derivations a password admits, in the order they are tried. */
  function KdfList(kdf: int): seq<int> {
    if kdf == KDF_ALL then [0, 1, 2, 3, 4, 5, 6, 7, 8, 9, 10]
    else if kdf == KDF_DEFAULT then [0, KDF_ARGON_DEFAULT]
    else if kdf < KDF_NONE then []
    else [kdf]
  }

  /** cp_decrypt_header, with the derivation that worked. */
  function Search(c: Crypto, image: seq<byte>, pw: Pass, kdfs: seq<int>): Option<(Found, int)>
    requires |image| >= DC_AREA_SIZE
  {
    if kdfs == [] then None
    else
      match TryKdf(c, image, pw, kdfs[0])
      case Some(f) => Some((f, kdfs[0]))
      case None => Search(c, image, pw, kdfs[1..])
  }

  datatype Opened = Opened(header: Header, key: XtsKey, kdf: int, slot: nat)

  /** How much of the tail dc_decrypt_header unseals: whole sectors of what was read, up to the header's end. */
  function PlainLength(length: nat, b: Base): (r: nat)
    requires length >= DC_AREA_SIZE
    ensures r <= length - DC_BASE_SIZE
  {
    if b.version < DC_HDR_VERSION_2 then DC_AREA_SIZE - DC_BASE_SIZE
    else
      var have := if b.headLen < DC_AREA_SIZE then DC_AREA_SIZE else Min(length, b.headLen);
      DC_AREA_SIZE - DC_BASE_SIZE + (have - DC_AREA_SIZE) / XTS_SECTOR_SIZE * XTS_SECTOR_SIZE
  }

  /** dc_decrypt_header */
  function DecryptHeader(c: Crypto, image: seq<byte>, pw: Pass): Option<Opened>
    requires Sized(c)
  {
    if |image| < DC_AREA_SIZE then None
    else
      match Search(c, image, pw, KdfList(pw.kdf))
      case None => None
      case Some((f, kdf)) =>
        if f.base.version >= DC_HDR_VERSION_2 && (f.base.headLen < DC_AREA_SIZE || f.base.headLen > DC_AREA_MAX_SIZE) then None
        else
          var slots := f.base.version >= DC_HDR_VERSION_2 && SlotsEnd(f.base) <= |image|;
          var tail := OpenTail(c, f.key, f.base, ImageTail(image), PlainLength(|image|, f.base), slots);
          Some(Opened(Header(ImageSalt(image), f.base, tail), f.key, kdf, f.slot))
  }

  /** Encryption keeps lengths; all that evaluating the functions here needs. */
  ghost predicate Sized(c: Crypto) {
    forall k, s :: |c.enc(k, s)| == |s| && |c.dec(k, s)| == |s|
  }

  /** get_header_len */
  function HeaderLen(b: Base): Result<nat> {
    var len := if b.version >= DC_HDR_VERSION_2 then b.headLen else DC_AREA_SIZE;
    if len < DC_AREA_SIZE || len > DC_AREA_MAX_SIZE || len % XTS_SECTOR_SIZE != 0 then Err(ERR_INTERNAL)
    else if b.version >= DC_HDR_VERSION_2 && HasSlotFlag(b) && SlotsEnd(b) > len then Err(ERR_INTERNAL)
    else Ok(len)
  }

  /** A header is 2048 bytes to 32 MiB long, in whole sectors, and has its slots and their descriptors inside. */
  lemma HeaderLength(b: Base, n: nat)
    ensures HeaderLen(b) == Ok(n) <==>
            && n == (if b.version >= 3 then b.headLen else 2048) && 2048 <= n <= 32 * 1024 * 1024 && n % 512 == 0
            && (b.version >= 3 && b.featureFlags % 2 == 1 ==> 1024 + b.slotAreaLen + b.keySlotCount * b.slotInfoSize <= n)
  {
  }

  function SlotsNamed(slot: int): nat {
    var n := if slot < 0 then -slot else slot;
    if n < KEY_SLOT_MAX then n else KEY_SLOT_MAX
  }

  function RoundUp(k: nat): nat {
    (k + XTS_SECTOR_SIZE - 1) / XTS_SECTOR_SIZE * XTS_SECTOR_SIZE
  }

  /** get_read_len: as far as the slots the password names, but no further than the disk. */
  function ReadLen(size: nat, slot: int): nat {
    var reach := DC_BASE_SIZE + (PKCS_DERIVE_MAX + SLOT_INFO_SIZE) * SlotsNamed(slot);
    var len := RoundUp(if reach < DC_AREA_SIZE then DC_AREA_SIZE else reach);
    if len > size then size / XTS_SECTOR_SIZE * XTS_SECTOR_SIZE else len
  }

  /** ReadHeader once a key is known, reading `len` bytes. */
  function ReadWithKey(c: Crypto, disk: seq<byte>, key: XtsKey, len: nat): Result<Header>
    requires Sized(c) && DC_AREA_SIZE <= len <= |disk|
    decreases DC_AREA_MAX_SIZE - len
  {
    match OpenWithKey(c, key, disk[..len])
    case None => Err(ERR_INTERNAL)
    case Some(h) =>
      match HeaderLen(h.base)
      case Err(e) => Err(e)
      case Ok(headLen) =>
        if headLen <= len then Ok(h)
        else if headLen > |disk| then Err(ERR_INTERNAL)
        else ReadWithKey(c, disk, key, headLen)
  }

  /** ReadHeader on a disk that stays as it is. */
  function ReadHeader(c: Crypto, disk: seq<byte>, pw: Pass): Result<Opened>
    requires Sized(c)
  {
    var len := ReadLen(|disk|, pw.slot);
    match DecryptHeader(c, disk[..len], pw)
    case None => Err(ERR_WRONG_PASSWORD)
    case Some(o) =>
      match HeaderLen(o.header.base)
      case Err(e) => Err(e)
      case Ok(headLen) =>
        if headLen <= len then Ok(o)
        else if headLen > |disk| then Err(ERR_INTERNAL)
        else
          match ReadWithKey(c, disk, o.key, headLen)
          case Err(e) => Err(e)
          case Ok(h) => Ok(o.(header := h))
  }

  lemma Sectors(q: nat)
    ensures q * XTS_SECTOR_SIZE % XTS_SECTOR_SIZE == 0
  {
  }

  lemma RoundUpHolds(k: nat)
    ensures RoundUp(k) % XTS_SECTOR_SIZE == 0 && k <= RoundUp(k)
  {
    var q := (k + XTS_SECTOR_SIZE - 1) / XTS_SECTOR_SIZE;
    Sectors(q);
  }

  /** The first read is whole sectors, on the disk, and reaches every slot the password names if the disk does. */
  lemma ReadLenFits(size: nat, slot: int)
    ensures ReadLen(size, slot) <= size
    ensures ReadLen(size, slot) % XTS_SECTOR_SIZE == 0
    ensures size >= DC_AREA_SIZE ==> ReadLen(size, slot) >= DC_AREA_SIZE
    ensures size >= DC_BASE_SIZE + 224 * SlotsNamed(slot) + 1024 ==> ReadLen(size, slot) >= DC_BASE_SIZE + 224 * SlotsNamed(slot)
  {
    var reach := DC_BASE_SIZE + 224 * SlotsNamed(slot);
    var want := if reach < DC_AREA_SIZE then DC_AREA_SIZE else reach;
    RoundUpHolds(want);
    Sectors(size / XTS_SECTOR_SIZE);
  }

  // ----- what ReadHeader promises about any disk

  lemma {:induction false} CiphersOpened(c: Crypto, dk: seq<byte>, image: seq<byte>, alg: nat)
    requires |image| >= DC_AREA_SIZE
    ensures var f := TryCiphers(c, dk, image, alg);
            f.Some? ==> OpenBase(c, f.value.key, image) == Some(f.value.base)
    decreases CF_CIPHERS_NUM - alg
  {
    if alg < CF_CIPHERS_NUM {
      CiphersOpened(c, dk, image, alg + 1);
    }
  }

  lemma {:induction false} SlotsOpened(c: Crypto, dk: seq<byte>, image: seq<byte>, i: nat, limit: nat)
    requires |image| >= DC_AREA_SIZE
    ensures var f := TrySlots(c, dk, image, i, limit);
            f.Some? ==> OpenBase(c, f.value.key, image) == Some(f.value.base)
    decreases limit - i
  {
    if i < limit && |image| >= DC_BASE_SIZE + PKCS_DERIVE_MAX * (i + 1) {
      CiphersOpened(c, Xor(SlotKey(ImageTail(image), i), dk), image, 0);
      SlotsOpened(c, dk, image, i + 1, limit);
    }
  }

  lemma {:induction false} SearchOpened(c: Crypto, image: seq<byte>, pw: Pass, kdfs: seq<int>)
    requires |image| >= DC_AREA_SIZE
    ensures var f := Search(c, image, pw, kdfs);
            f.Some? ==> OpenBase(c, f.value.0.key, image) == Some(f.value.0.base)
  {
    if kdfs != [] {
      SearchOpened(c, image, pw, kdfs[1..]);
      match Derive(c, pw.text, kdfs[0], ImageSalt(image))
      case None =>
      case Some(dk) =>
        CiphersOpened(c, dk, image, 0);
        if pw.slot > 0 { SlotsOpened(c, dk, image, pw.slot - 1, pw.slot); } else { SlotsOpened(c, dk, image, 0, -pw.slot); }
    }
  }

  /** The first DC_AREA_SIZE bytes decide whether a key opens the base. */
  lemma SameFront(c: Crypto, key: XtsKey, image: seq<byte>, image': seq<byte>)
    requires |image| >= DC_AREA_SIZE && |image'| >= DC_AREA_SIZE && image[..DC_AREA_SIZE] == image'[..DC_AREA_SIZE]
    ensures OpenBase(c, key, image) == OpenBase(c, key, image') && ImageSalt(image) == ImageSalt(image') && ImageBase(image) == ImageBase(image')
  {
    hide Valid;
    assert image[HEADER_SALT_SIZE..DC_BASE_SIZE] == image[..DC_AREA_SIZE][HEADER_SALT_SIZE..DC_BASE_SIZE] == image'[HEADER_SALT_SIZE..DC_BASE_SIZE];
    assert image[..HEADER_SALT_SIZE] == image[..DC_AREA_SIZE][..HEADER_SALT_SIZE] == image'[..HEADER_SALT_SIZE];
    assert image[DC_BASE_SIZE..DC_AREA_SIZE] == image[..DC_AREA_SIZE][DC_BASE_SIZE..] == image'[DC_BASE_SIZE..DC_AREA_SIZE];
  }

  /** A longer read of the same disk unseals the same base, so the header is no longer than was asked for. */
  lemma SecondReadEnough(c: Crypto, disk: seq<byte>, key: XtsKey, b: Base, len: nat, headLen: nat)
    requires Sized(c) && DC_AREA_SIZE <= len <= |disk| && OpenBase(c, key, disk[..len]) == Some(b)
    requires HeaderLen(b) == Ok(headLen) && headLen <= |disk|
    ensures var o := OpenWithKey(c, key, disk[..headLen]);
            o.Some? && o.value.base == b && ReadWithKey(c, disk, key, headLen) == Ok(o.value)
  {
    SameFront(c, key, disk[..headLen], disk[..len]);
  }

  /** The header ReadHeader returns is all there, and its slots and descriptors are inside it. */
  lemma ReadCovers(c: Crypto, disk: seq<byte>, pw: Pass)
    requires Sized(c)
    ensures var r := ReadHeader(c, disk, pw);
            r.Ok? ==>
              && var b := r.value.header.base;
              && HeaderLen(b).Ok? && HeaderLen(b).value <= DC_BASE_SIZE + |r.value.header.tail| <= |disk|
              && (b.version >= DC_HDR_VERSION_2 && HasSlotFlag(b) ==> SlotsEnd(b) <= DC_BASE_SIZE + |r.value.header.tail|)
  {
    var len := ReadLen(|disk|, pw.slot);
    ReadLenFits(|disk|, pw.slot);
    if ReadHeader(c, disk, pw).Ok? {
      var o := DecryptHeader(c, disk[..len], pw).value;
      SearchOpened(c, disk[..len], pw, KdfList(pw.kdf));
      if HeaderLen(o.header.base).value > len {
        SecondReadEnough(c, disk, o.key, o.header.base, len, HeaderLen(o.header.base).value);
      }
    }
  }
}
