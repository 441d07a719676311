/** Updates that SetHeader accepts and that do harm, one for each condition stated in HeaderEdit. */
module HeaderEditInputs {
  import opened Bytes
  import opened Results
  import opened VolumeHeader
  import opened HeaderOpen
  import opened HeaderCredentials
  import opened KeySlots
  import opened PasswordChange
  import opened CredentialRuns
  import opened HeaderEdit
  import CryptoLaws

  /** Where the master key lies in a header. */
  const KEY_1_AT := 86

  /** The base of a header of 2048 bytes. */
  function ShortBase(version: nat, alg: nat, slotArea: nat, extHdrOff: nat): Base {
    Base(version, 0, 0, alg, Zeros(DISKKEY_SIZE), 0, 0, DC_AREA_SIZE, 0, if slotArea > 0 then 1 else 0, extHdrOff, 0,
         slotArea, if slotArea > 0 then 1 else 0, if slotArea > 0 then SLOT_INFO_SIZE else 0, Zeros(OTHER_SIZE))
  }

  /** An extended header of 1000 bytes at the front of a tail. */
  function ExtTail(c: Crypto): seq<byte> {
    var body: seq<byte> := [0xE8, 3, 0, 0] + Zeros(1016);
    c.crc(body[..996], []) + body
  }

  /** A salt that is not zero. */
  function Salt(): (r: seq<byte>)
    ensures |r| == HEADER_SALT_SIZE
  {
    [1] + Zeros(HEADER_SALT_SIZE - 1)
  }

  /** An update of 2048 bytes sealed throughout, slots and all. */
  function Update(c: Crypto, key: XtsKey, u: Base, tail: seq<byte>): seq<byte> {
    Salt() + c.seal(key, u, Check(c, u, tail)) + c.enc(key, tail)
  }

  ghost predicate IsUser(c: Crypto, key: XtsKey) {
    Lawful(c) && IsKey(key)
  }

  /** What SetHeader finds in an update. */
  lemma UpdateFound(c: Crypto, key: XtsKey, u: Base, tail: seq<byte>)
    requires IsUser(c, key) && Fits(u) && |tail| == DC_AREA_SIZE - DC_BASE_SIZE
    ensures var s := Update(c, key, u, tail);
            |s| == DC_AREA_SIZE && OpenBase(c, key, s) == Some(u) && (!HasSlotFlag(u) ==> UpdateTail(c, key, DC_AREA_SIZE, s, u) == tail)
  {
    hide Fits, Check;
    CheckSize(c, u, tail);
    var s := Update(c, key, u, tail);
    assert s[HEADER_SALT_SIZE..DC_BASE_SIZE] == c.seal(key, u, Check(c, u, tail));
    assert s[DC_BASE_SIZE..DC_AREA_SIZE] == c.enc(key, tail);
  }

  lemma ExtFound(c: Crypto, u: Base)
    requires Lawful(c) && u.version == DC_HDR_VERSION_2 && !HasSlotFlag(u) && u.extHdrOff == DC_BASE_SIZE && u.headLen == DC_AREA_SIZE
    ensures |ExtTail(c)| == DC_AREA_SIZE - DC_BASE_SIZE
    ensures ExtHeader(c, u, ExtTail(c)) == Some(ExtTail(c)[..1000])
  {
    var body: seq<byte> := [0xE8, 3, 0, 0] + Zeros(1016);
    var t := ExtTail(c);
    assert t[4..] == body;
    assert At(t, 4) == 0xE8 && At(t, 5) == 3 && At(t, 6) == 0 && At(t, 7) == 0;
    SizeField(t);
    assert Peek(t, 4, 996) == body[..996];
    assert Peek(t, 0, 4) == c.crc(body[..996], []);
    assert Peek(t, 0, 1000) == t[..1000];
  }

  lemma SizeField(t: seq<byte>)
    requires At(t, 4) == 0xE8 && At(t, 5) == 3 && At(t, 6) == 0 && At(t, 7) == 0
    ensures Le32(t, 4) == 1000
  {
  }

  const EXT_ONLY := Parts(false, false, true, false)

  /** An update for the extended header alone, against a header whose offset for it is `extHdrOff`. */
  lemma ExtOnly(c: Crypto, key: XtsKey, extHdrOff: nat, noise: seq<byte>, noise': seq<byte>) returns (h: Header, sealed: seq<byte>)
    requires IsUser(c, key) && 0 < extHdrOff < 0x1_0000
    ensures h == Header(Salt(), ShortBase(DC_HDR_VERSION_2, key.alg, 0, extHdrOff), Zeros(1024))
    ensures WellLaid(h) && HeaderLen(h.base) == Ok(DC_AREA_SIZE) && Length(h) == DC_AREA_SIZE == |sealed|
    ensures SameVersion(c, h, key, sealed) && LeavesSlots(h.base, OpenBase(c, key, sealed).value, Normalised(EXT_ONLY))
    ensures var ext := ExtTail(c)[..1000];
            Edited(c, h, key, DC_AREA_SIZE, sealed, EXT_ONLY, noise, noise') ==
            Ok(if InTail(extHdrOff, ext, DC_AREA_SIZE) then Intact(h.(tail := Poke(h.tail, extHdrOff - DC_BASE_SIZE, ext))) else Overrun(extHdrOff, ext))
  {
    hide ExtHeader, UpdateTail, Seal;
    h := Header(Salt(), ShortBase(DC_HDR_VERSION_2, key.alg, 0, extHdrOff), Zeros(1024));
    var u := ShortBase(DC_HDR_VERSION_2, key.alg, 0, DC_BASE_SIZE);
    ExtFound(c, u);
    UpdateFound(c, key, u, ExtTail(c));
    sealed := Update(c, key, u, ExtTail(c));
  }

  /** Offset 2000 on the disk and an extended header of 1000 bytes: the copy runs past the end of the header. */
  lemma CopyPastTheEnd(c: Crypto, key: XtsKey, noise: seq<byte>, noise': seq<byte>) returns (h: Header, sealed: seq<byte>)
    requires IsUser(c, key)
    ensures WellLaid(h) && HeaderLen(h.base) == Ok(DC_AREA_SIZE) && Length(h) == DC_AREA_SIZE == |sealed|
    ensures SameVersion(c, h, key, sealed) && LeavesSlots(h.base, OpenBase(c, key, sealed).value, Normalised(EXT_ONLY))
    ensures AreaEnd(h.base) <= h.base.extHdrOff
    ensures var r := Edited(c, h, key, DC_AREA_SIZE, sealed, EXT_ONLY, noise, noise');
            r.Ok? && r.value.Overrun? && r.value.at + |r.value.bytes| > DC_AREA_SIZE
  {
    h, sealed := ExtOnly(c, key, 2000, noise, noise');
    ExtFound(c, ShortBase(DC_HDR_VERSION_2, key.alg, 0, DC_BASE_SIZE));
  }

  /** A change of version leaves any offset behind, here 100; the next extended header goes over the master key. */
  lemma CopyOverTheKey(c: Crypto, key: XtsKey, noise: seq<byte>, noise': seq<byte>)
    returns (h: Header, sealed: seq<byte>, h': Header, sealed': seq<byte>)
    requires IsUser(c, key)
    ensures WellLaid(h) && HeaderLen(h.base) == Ok(DC_AREA_SIZE) && Length(h) == DC_AREA_SIZE == |sealed| == |sealed'|
    ensures Edited(c, h, key, DC_AREA_SIZE, sealed, EXT_ONLY, noise, noise') == Ok(Intact(h'))
    ensures h'.base.version == DC_HDR_VERSION_2 && HeaderLen(h'.base) == Ok(DC_AREA_SIZE)
    ensures var r := Edited(c, h', key, DC_AREA_SIZE, sealed', EXT_ONLY, noise, noise');
            r.Ok? && r.value.Overrun? && r.value.at < KEY_1_AT + DISKKEY_SIZE && r.value.at + |r.value.bytes| > KEY_1_AT + DISKKEY_SIZE
  {
    hide Edited, ExtHeader, Update, OpenBase, Zeros;
    var u := ShortBase(DC_HDR_VERSION_2, key.alg, 0, 100);
    h := Header(Salt(), ShortBase(1, key.alg, 0, 0), Zeros(1024));
    sealed := Update(c, key, u, Zeros(1024));
    UpdateFound(c, key, u, Zeros(1024));
    SwitchTakes(c, h, key, sealed, u, noise, noise');
    h' := Edited(c, h, key, DC_AREA_SIZE, sealed, EXT_ONLY, noise, noise').value.header;
    var h0;
    h0, sealed' := ExtOnly(c, key, 100, noise, noise');
    assert h'.base == h0.base.(storLen := DC_AREA_SIZE);
    StorLenUnused(c, h0, h', key, sealed', noise, noise');
    ExtFound(c, ShortBase(DC_HDR_VERSION_2, key.alg, 0, DC_BASE_SIZE));
  }

  lemma SwitchTakes(c: Crypto, h: Header, key: XtsKey, sealed: seq<byte>, u: Base, noise: seq<byte>, noise': seq<byte>)
    requires IsUser(c, key) && |sealed| == DC_AREA_SIZE && OpenBase(c, key, sealed) == Some(u)
    requires u.version == DC_HDR_VERSION_2 && u.headLen == DC_AREA_SIZE && h.base.version != u.version
    requires u.alg == h.base.alg && u.key1 == h.base.key1 && u.tmpSize == h.base.tmpSize
    ensures var r := Edited(c, h, key, DC_AREA_SIZE, sealed, EXT_ONLY, noise, noise');
            && r.Ok? && r.value.Intact? && r.value.header.salt == h.salt && |r.value.header.tail| == 1024
            && r.value.header.base == u.(storLen := DC_AREA_SIZE)
  {
  }

  /** An overrun does not depend on the tail, nor on the length that is kept beside the header's. */
  lemma StorLenUnused(c: Crypto, h: Header, h': Header, key: XtsKey, sealed: seq<byte>, noise: seq<byte>, noise': seq<byte>)
    requires Sized(c) && |sealed| == DC_AREA_SIZE && h'.base == h.base.(storLen := h'.base.storLen)
    requires var r := Edited(c, h, key, DC_AREA_SIZE, sealed, EXT_ONLY, noise, noise'); r.Ok? && r.value.Overrun?
    ensures Edited(c, h', key, DC_AREA_SIZE, sealed, EXT_ONLY, noise, noise') == Edited(c, h, key, DC_AREA_SIZE, sealed, EXT_ONLY, noise, noise')
  {
    hide ExtHeader, UpdateTail;
  }

  /** A change of version takes slots that do not fit: the header it leaves is refused by the length check. */
  lemma SlotsPastTheEnd(c: Crypto, key: XtsKey, noise: seq<byte>, noise': seq<byte>) returns (h: Header, sealed: seq<byte>)
    requires IsUser(c, key)
    ensures WellLaid(h) && HeaderLen(h.base) == Ok(DC_AREA_SIZE) && Length(h) == DC_AREA_SIZE == |sealed|
    ensures var r := Edited(c, h, key, DC_AREA_SIZE, sealed, EXT_ONLY, noise, noise');
            r.Ok? && r.value.Intact? && HeaderLen(r.value.header.base).Err?
    ensures OpenBase(c, key, sealed).Some? && !KeepsReadable(h, OpenBase(c, key, sealed).value)
  {
    var u := ShortBase(DC_HDR_VERSION_2, key.alg, 1920, 0);
    h := Header(Salt(), ShortBase(1, key.alg, 0, 0), Zeros(1024));
    sealed := Update(c, key, u, Zeros(1024));
    UpdateFound(c, key, u, Zeros(1024));
    SwitchTakes(c, h, key, sealed, u, noise, noise');
  }

  // ----- slots of another size

  /** A base with two slots of 384 bytes. */
  function LargeSlots(alg: nat): Base {
    ShortBase(DC_HDR_VERSION_2, alg, 0, 0).(featureFlags := 1, slotAreaLen := 768, keySlotCount := 2, slotInfoSize := SLOT_INFO_SIZE)
  }

  /** An accepted update brings them, and the search does not find what is then set in the second one. */
  lemma LargeSlotsMissed(c: Crypto, key: XtsKey, kdf: int, noise: seq<byte>, noise': seq<byte>) returns (h: Header, sealed: seq<byte>, h': Header)
    requires IsUser(c, key)
    ensures WellLaid(h) && HeaderLen(h.base) == Ok(DC_AREA_SIZE) && Length(h) == DC_AREA_SIZE == |sealed|
    ensures Edited(c, h, key, DC_AREA_SIZE, sealed, BASE_ONLY, noise, noise') == Ok(Intact(h'))
    ensures h'.base == LargeSlots(key.alg) && HeaderLen(h'.base) == Ok(DC_AREA_SIZE) && |h'.tail| == DC_AREA_SIZE - DC_BASE_SIZE
    ensures exists sk, dk :: |sk| == |dk| == PKCS_DERIVE_MAX && !FoundAsSet(c, h'.base, h'.tail, 1, sk, dk, kdf)
  {
    hide Fits, WellLaid, HeaderLen, Edited, Update, OpenBase, FoundAsSet, SlotOffset, SlotSize;
    h := Header(Salt(), ShortBase(DC_HDR_VERSION_2, key.alg, 0, 0), Zeros(1024));
    PlainLaid(h, key.alg);
    LargeFits(key.alg);
    var u := LargeSlots(key.alg);
    sealed := Update(c, key, u, Zeros(1024));
    UpdateFound(c, key, u, Zeros(1024));
    h' := LargeSlotsTaken(c, h, key, sealed, noise, noise');
    SlotElsewhere(c, h'.base, h'.tail, 1, kdf);
  }

  lemma PlainLaid(h: Header, alg: nat)
    requires alg < CF_CIPHERS_NUM && h == Header(Salt(), ShortBase(DC_HDR_VERSION_2, alg, 0, 0), Zeros(1024))
    ensures WellLaid(h) && HeaderLen(h.base) == Ok(DC_AREA_SIZE) && Length(h) == DC_AREA_SIZE
  {
  }

  lemma LargeFits(alg: nat)
    requires alg < CF_CIPHERS_NUM
    ensures Fits(LargeSlots(alg)) && SlotOffset(LargeSlots(alg), 1) == 384
  {
  }

  lemma LargeSlotsTaken(c: Crypto, h: Header, key: XtsKey, sealed: seq<byte>, noise: seq<byte>, noise': seq<byte>) returns (h': Header)
    requires IsUser(c, key) && |sealed| == DC_AREA_SIZE && OpenBase(c, key, sealed) == Some(LargeSlots(key.alg))
    requires h.base == ShortBase(DC_HDR_VERSION_2, key.alg, 0, 0) && |h.tail| == DC_AREA_SIZE - DC_BASE_SIZE
    ensures Edited(c, h, key, DC_AREA_SIZE, sealed, BASE_ONLY, noise, noise') == Ok(Intact(h'))
    ensures h'.base == LargeSlots(key.alg) && HeaderLen(h'.base) == Ok(DC_AREA_SIZE) && |h'.tail| == DC_AREA_SIZE - DC_BASE_SIZE
  {
    hide OpenBase, UpdateTail, Peek;
    h' := Edited(c, h, key, DC_AREA_SIZE, sealed, BASE_ONLY, noise, noise').value.header;
  }

  // ----- the footer count

  const BASE_ONLY := Parts(true, false, false, false)

  /** A header with one slot, not in use, and a footer count. */
  function OneSlot(footerCnt: int): Header {
    Header(Salt(), ShortBase(DC_HDR_VERSION_2, 0, PKCS_DERIVE_MAX, 0).(footerCnt := footerCnt), Zeros(1024))
  }

  const TEXT: seq<byte> := [1]

  /** The key that every password derives in the crypto record of CryptoLaws. */
  function OneKey(): XtsKey {
    SetKey(Zeros(PKCS_DERIVE_MAX), 0)
  }

  lemma OneSlotLaid(footerCnt: int)
    requires footerCnt == 0 || footerCnt == -1
    ensures var h := OneSlot(footerCnt);
            && SlotSize(h.base) == PKCS_DERIVE_MAX && SlotFlags(h.base, h.tail, 0) == 0 && Standard(h.base, h.tail)
            && HeaderLen(h.base) == Ok(DC_AREA_SIZE) && Length(h) == DC_AREA_SIZE && Fits(h.base)
            && RawAt(h.base, h.tail, 0) && (footerCnt == 0 ==> WellLaid(h))
  {
    assert SlotSize(OneSlot(footerCnt).base) == PKCS_DERIVE_MAX;
    assert SlotFlags(OneSlot(footerCnt).base, Zeros(1024), 0) == 0;
  }

  lemma OneSlotKeyed(c: Crypto)
    requires c == CryptoLaws.Model()
    ensures Keyed(c, OneSlot(0), OneKey(), Creds(Cred(TEXT, 0), [None])) && IsKey(OneKey()) && OneKey().alg == 0
  {
    hide SlotUsed, WellLaid, RawAt, HeaderLen, Fits;
    var h := OneSlot(0);
    OneSlotLaid(0);
    StandardSizes(h.base, h.tail, 0);
    assert SlotIs(c, h, OneKey(), 0, None);
  }

  lemma OneSlotHolds(disk: seq<byte>)
    requires Lawful(CryptoLaws.Model()) && disk == Seal(CryptoLaws.Model(), OneKey(), OneSlot(0)) + [0]
    ensures Holds(CryptoLaws.Model(), disk, OneKey(), OneSlot(0), Creds(Cred(TEXT, 0), [None]))
  {
    hide Seal, WellLaid, Keyed, Standard, RawAt, HeaderLen, CryptoLaws.Model, Fits;
    var c, h := CryptoLaws.Model(), OneSlot(0);
    OneSlotLaid(0);
    OneSlotKeyed(c);
    SealParts(c, OneKey(), h);
    assert disk[..Length(h)] == Seal(c, OneKey(), h);
  }

  /** An update of the base alone, with a footer count of -1, is merged as it stands. */
  lemma FooterTaken(c: Crypto, key: XtsKey, sealed: seq<byte>, noise: seq<byte>, noise': seq<byte>)
    requires Lawful(c) && |sealed| == DC_AREA_SIZE && OpenBase(c, key, sealed) == Some(OneSlot(-1).base)
    ensures Edited(c, OneSlot(0), key, DC_AREA_SIZE, sealed, BASE_ONLY, noise, noise') == Ok(Intact(OneSlot(-1)))
    ensures CopyFits(c, OneSlot(0), key, DC_AREA_SIZE, sealed, BASE_ONLY)
  {
    hide OpenBase, UpdateTail;
  }

  /** The checksum of that header is taken over a slot that is stored raw, and tested over what the slot decrypts to. */
  lemma FooterSumFails()
    requires Lawful(CryptoLaws.Model())
    ensures !SumHolds(CryptoLaws.Model(), OneKey(), OneSlot(-1))
  {
    hide RawAt, WellLaid, Standard, HeaderLen, Fits, Seal, CryptoLaws.Sealed;
    var c, key, h := CryptoLaws.Model(), OneKey(), OneSlot(-1);
    OneSlotLaid(-1);
    RawStored(c, key, h);
    var area, sealed := Area(c, key, Seal(c, key, h)), Seal(c, key, h);
    assert sealed[DC_BASE_SIZE..DC_AREA_SIZE][0] == 0 && area[0] == 255;
    assert Covered(h.base, area)[0] == 255 && Covered(h.base, h.tail)[0] == 0;
    assert c.sum(h.base, Covered(h.base, area))[0] == 255 && c.sum(h.base, Covered(h.base, h.tail))[0] == 0;
  }

  /** A raw slot's first byte is stored as it is. */
  lemma RawStored(c: Crypto, key: XtsKey, h: Header)
    requires Lawful(c) && |h.salt| == HEADER_SALT_SIZE && |h.tail| == DC_AREA_SIZE - DC_BASE_SIZE
    requires h.base.version >= DC_HDR_VERSION_2 && RawAt(h.base, h.tail, 0)
    ensures |Seal(c, key, h)| == DC_AREA_SIZE && Seal(c, key, h)[DC_BASE_SIZE] == h.tail[0]
  {
    hide RawAt, Check;
    CheckSize(c, h.base, h.tail);
  }

  lemma OneSlotFits(footerCnt: int)
    requires -128 <= footerCnt < 128
    ensures Fits(OneSlot(footerCnt).base) && IsKey(OneKey())
  {
  }

  /** The password opens the header, and the update is accepted. */
  lemma FooterAccepted(c: Crypto, disk: seq<byte>, sealed: seq<byte>, noise: seq<byte>, noise': seq<byte>)
    requires Lawful(c) && c == CryptoLaws.Model() && Holds(c, disk, OneKey(), OneSlot(0), Creds(Cred(TEXT, 0), [None]))
    requires |sealed| == DC_AREA_SIZE && OpenBase(c, OneKey(), sealed) == Some(OneSlot(-1).base)
    ensures IsHeaderPass(c, OneSlot(0), OneKey(), TEXT, 0) && ReadHeader(c, disk, Pass(TEXT, 0, 0)).Ok?
    ensures SetHeader(c, disk, Pass(TEXT, 0, 0), sealed, BASE_ONLY, noise, noise') == Ok(Disk(Poke(disk, 0, Seal(c, OneKey(), OneSlot(-1)))))
  {
    hide Seal, OpenBase, Edited, ReadHeader, Fits, WellLaid, SetHeader;
    var pw := Pass(TEXT, 0, 0);
    HeaderPassOpens(c, disk, OneKey(), OneSlot(0), pw, 0);
    ReadsHeader(c, disk, OneKey(), OneSlot(0), pw);
    FooterTaken(c, OneKey(), sealed, noise, noise');
    SetHeaderSteps(c, disk, pw, sealed, BASE_ONLY, noise, noise');
  }

  /**
   * An accepted update of the base with a footer count of -1 locks the header password out, although it leaves the
   * slots alone and meets every condition of UpdateLeavesPasswords but the guard on the footer count.
   */
  lemma FooterOverSlots(noise: seq<byte>, noise': seq<byte>) returns (c: Crypto, disk: seq<byte>, key: XtsKey, h: Header, sealed: seq<byte>)
    ensures Holds(c, disk, key, h, Creds(Cred(TEXT, 0), [None])) && |sealed| == DC_AREA_SIZE == Length(h)
    ensures SameVersion(c, h, key, sealed) && LeavesSlots(h.base, OpenBase(c, key, sealed).value, Normalised(BASE_ONLY))
    ensures h.base.extHdrOff == 0 && CopyFits(c, h, key, Length(h), sealed, BASE_ONLY)
    ensures ReadHeader(c, disk, Pass(TEXT, 0, 0)).Ok?
    ensures var r := SetHeader(c, disk, Pass(TEXT, 0, 0), sealed, BASE_ONLY, noise, noise');
            r.Ok? && r.value.Disk? && ReadHeader(c, r.value.bytes, Pass(TEXT, 0, 0)).Err?
  {
    hide Seal, OpenBase, Edited, ReadHeader, Keyed, SumHolds, CryptoLaws.Model, CopyFits, Zeros, SetHeader, WellLaid, Fits, Update;
    CryptoLaws.LawsCanBeMet();
    c, key, h := CryptoLaws.Model(), OneKey(), OneSlot(0);
    var pw := Pass(TEXT, 0, 0);
    disk := Seal(c, key, h) + [0];
    OneSlotHolds(disk);
    var u := OneSlot(-1).base;
    OneSlotFits(-1);
    sealed := Update(c, key, u, Zeros(1024));
    UpdateFound(c, key, u, Zeros(1024));
    FooterTaken(c, key, sealed, noise, noise');
    FooterAccepted(c, disk, sealed, noise, noise');
    SetHeaderReadable(c, disk, key, h, pw, sealed, BASE_ONLY, noise, noise', pw, 0);
    FooterSumFails();
  }
}
