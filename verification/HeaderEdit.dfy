/** SetHeader: an edited header, sealed under the volume's own key, merged into the one on the disk. */
module HeaderEdit {
  import opened Bytes
  import opened Results
  import opened VolumeHeader
  import opened HeaderOpen
  import opened HeaderCredentials
  import opened KeySlots
  import opened PasswordChange
  import opened CredentialRuns

  const MIN_EXT_HDR_SIZE := 10

  /** The parts an update is for: HF_UPDATE_BASE, HF_UPDATE_SLOTS, HF_UPDATE_EXT and HF_CLEAR_SLOTS. */
  datatype Parts = Parts(base: bool, slots: bool, ext: bool, clear: bool)

  /** Clearing the slots means writing them, and an update that names nothing is for everything. */
  function Normalised(p: Parts): Parts {
    var q := p.(slots := p.slots || p.clear);
    if q.base || q.slots || q.ext then q else Parts(true, true, true, false)
  }

  // ----- the extended header

  function Le32(tail: seq<byte>, at: nat): nat {
    (At(tail, at) as int) + 0x100 * (At(tail, at + 1) as int) + 0x1_0000 * (At(tail, at + 2) as int) + 0x100_0000 * (At(tail, at + 3) as int)
  }

  /** Where the slots end, if there are any. */
  function AreaEnd(b: Base): nat {
    if HasSlotFlag(b) then SlotsEnd(b) else DC_BASE_SIZE
  }

  /** get_ext_header: its bytes, if it lies past the slots and inside the header and its CRC is right. */
  function ExtHeader(c: Crypto, b: Base, tail: seq<byte>): (r: Option<seq<byte>>)
    ensures r.Some? ==> AreaEnd(b) <= b.extHdrOff && b.extHdrOff + |r.value| <= b.headLen && |r.value| >= MIN_EXT_HDR_SIZE
  {
    if b.version < DC_HDR_VERSION_2 || b.extHdrOff == 0 || b.extHdrOff < AreaEnd(b) || b.extHdrOff + MIN_EXT_HDR_SIZE > b.headLen then None
    else
      var at := b.extHdrOff - DC_BASE_SIZE;
      var size := Le32(tail, at + 4);
      if b.extHdrOff + size > b.headLen || size < MIN_EXT_HDR_SIZE then None
      else if Peek(tail, at, 4) != c.crc(Peek(tail, at + 4, size - 4), []) then None
      else Some(Peek(tail, at, size))
  }

  // ----- the merge

  function SlotBytes(b: Base): nat {
    b.slotAreaLen + b.keySlotCount * b.slotInfoSize
  }

  predicate SameLayout(a: Base, b: Base) {
    a.slotAreaLen == b.slotAreaLen && a.keySlotCount == b.keySlotCount && a.slotInfoSize == b.slotInfoSize
  }

  /** The base fields an update may set. */
  function MergedBase(b: Base, u: Base): Base {
    b.(featureFlags := u.featureFlags, slotAreaLen := u.slotAreaLen, keySlotCount := u.keySlotCount,
       slotInfoSize := u.slotInfoSize, extHdrOff := u.extHdrOff, flags := u.flags, diskId := u.diskId, footerCnt := u.footerCnt)
  }

  /** The old slots and descriptors drowned in random bytes. */
  function Drowned(h: Header, headLen: nat, noise: seq<byte>): seq<byte> {
    if DC_BASE_SIZE + SlotBytes(h.base) <= headLen then Poke(h.tail, 0, Peek(noise, 0, SlotBytes(h.base))) else h.tail
  }

  function MergedSlots(b: Base, tail: seq<byte>, update: seq<byte>, p: Parts, noise: seq<byte>): seq<byte> {
    if !p.slots || !HasSlotFlag(b) then tail
    else if p.clear then Poke(Poke(tail, 0, Peek(noise, 0, b.slotAreaLen)), b.slotAreaLen, Zeros(b.keySlotCount * b.slotInfoSize))
    else Poke(tail, 0, Peek(update, 0, SlotBytes(b)))
  }

  /**
   * A header after the update has been merged in. The extended header is copied without a look at where it
   * goes; a copy that leaves the tail runs over the base or past the end of the header.
   */
  datatype Edit = Intact(header: Header) | Overrun(at: nat, bytes: seq<byte>)

  predicate InTail(at: nat, bytes: seq<byte>, headLen: nat) {
    DC_BASE_SIZE <= at && at + |bytes| <= headLen
  }

  /** The copy of the extended header, to the offset that the base now names. */
  function PutExt(h: Header, headLen: nat, ext: Option<seq<byte>>, p: Parts): Edit {
    var at := h.base.extHdrOff;
    if !p.ext || ext.None? || at == 0 then Intact(h)
    else if InTail(at, ext.value, headLen) then Intact(h.(tail := Poke(h.tail, at - DC_BASE_SIZE, ext.value)))
    else Overrun(at, ext.value)
  }

  /** The header on the disk with the named parts of the update. `noise` is for drowning, `noise'` for clearing. */
  function Merged(h: Header, headLen: nat, u: Base, update: seq<byte>, ext: Option<seq<byte>>, p: Parts, noise: seq<byte>, noise': seq<byte>): Edit {
    if !p.base then
      PutExt(Header(h.salt, h.base, MergedSlots(h.base, h.tail, update, p, noise')), headLen, ext, p)
    else
      var moved := !SameLayout(h.base, u);
      var b := MergedBase(h.base, u);
      var tail := if moved then Drowned(h, headLen, noise) else h.tail;
      var q := p.(slots := p.slots || moved, ext := p.ext || ext.Some?);
      PutExt(Header(h.salt, b, MergedSlots(b, tail, update, q, noise')), headLen, ext, q)
  }

  /**
   * What has to hold for the copy to stay in the tail: there is none, or it goes to the offset the update
   * names, which has been checked, or the offset on the disk leaves room for it.
   */
  predicate ExtCopyFits(b: Base, headLen: nat, ext: Option<seq<byte>>, p: Parts) {
    p.base || !p.ext || ext.None? || b.extHdrOff == 0 || InTail(b.extHdrOff, ext.value, headLen)
  }

  // ----- SetHeader

  /** What the header becomes: `sealed` is the update as the editor sent it, `key` the volume's header key. */
  function Edited(c: Crypto, h: Header, key: XtsKey, headLen: nat, sealed: seq<byte>, p: Parts, noise: seq<byte>, noise': seq<byte>): Result<Edit>
    requires Sized(c) && DC_AREA_SIZE <= headLen <= |sealed|
  {
    match OpenBase(c, key, sealed)
    case None => Err(ERR_INTERNAL)
    case Some(u) =>
      if headLen != (if u.version >= DC_HDR_VERSION_2 then u.headLen else DC_AREA_SIZE) then Err(ERR_INVALID_PARAM)
      else if u.alg != h.base.alg || u.key1 != h.base.key1 || u.tmpSize != h.base.tmpSize then Err(ERR_INVALID_PARAM)
      else if u.version != h.base.version then Switched(c, h, key, headLen, sealed, u)
      else if u.version < DC_HDR_VERSION_2 then Ok(Intact(h))
      else
        var update := UpdateTail(c, key, headLen, sealed, u);
        var ext := ExtHeader(c, u, update);
        if AreaEnd(u) > headLen || (u.extHdrOff != 0 && ext.None?) then Err(ERR_INVALID_PARAM)
        else Ok(Merged(h, headLen, u, update, ext, Normalised(p), noise, noise'))
  }

  /** A change of version replaces the header by the update's first DC_AREA_SIZE bytes, with zeros behind them. */
  function Switched(c: Crypto, h: Header, key: XtsKey, headLen: nat, sealed: seq<byte>, u: Base): Result<Edit>
    requires Sized(c) && DC_AREA_SIZE <= headLen <= |sealed|
  {
    if u.version < DC_HDR_VERSION_2 && headLen != DC_AREA_SIZE then Err(ERR_INVALID_PARAM)
    else
      var len := if u.version >= DC_HDR_VERSION_2 then headLen else 0;
      var tail := c.dec(key, sealed[DC_BASE_SIZE..DC_AREA_SIZE]) + Zeros(headLen - DC_AREA_SIZE);
      Ok(Intact(Header(h.salt, u.(headLen := len, storLen := len), tail)))
  }

  /** The disk afterwards, of which nothing is known once a copy or the checksum has left the header. */
  datatype Rewrite = Disk(bytes: seq<byte>) | Unknown

  function SetHeader(c: Crypto, disk: seq<byte>, pw: Pass, sealed: seq<byte>, p: Parts, noise: seq<byte>, noise': seq<byte>): Result<Rewrite>
    requires Sized(c)
  {
    match ReadHeader(c, disk, pw)
    case Err(e) => Err(e)
    case Ok(o) =>
      ReadCovers(c, disk, pw);
      var headLen := HeaderLen(o.header.base).value;
      if o.slot != 0 || |sealed| < headLen then Err(ERR_INVALID_PARAM)
      else
        match Edited(c, Cut(o.header), o.key, headLen, sealed, p, noise, noise')
        case Err(e) => Err(e)
        case Ok(Intact(h)) => Ok(if SumInArea(h.base) then Disk(Poke(disk, 0, Seal(c, o.key, h))) else Unknown)
        case Ok(Overrun(_, _)) => Ok(Unknown)
  }

  /** SetHeader, step by step. */
  lemma SetHeaderSteps(c: Crypto, disk: seq<byte>, pw: Pass, sealed: seq<byte>, p: Parts, noise: seq<byte>, noise': seq<byte>)
    requires Sized(c)
    ensures var r, s := ReadHeader(c, disk, pw), SetHeader(c, disk, pw, sealed, p, noise, noise');
            if r.Err? then s == Err(r.code)
            else
              && HeaderLen(r.value.header.base).Ok?
              && var headLen := HeaderLen(r.value.header.base).value;
              if r.value.slot != 0 || |sealed| < headLen then s == Err(ERR_INVALID_PARAM)
              else
                && headLen >= DC_AREA_SIZE
                && s == match Edited(c, Cut(r.value.header), r.value.key, headLen, sealed, p, noise, noise')
                        case Err(e) => Err(e)
                        case Ok(Intact(h)) => Ok(if SumInArea(h.base) then Disk(Poke(disk, 0, Seal(c, r.value.key, h))) else Unknown)
                        case Ok(Overrun(_, _)) => Ok(Unknown)
  {
    hide Edited, ReadHeader, Seal, Cut;
    ReadCovers(c, disk, pw);
  }

  // ----- what no update changes

  ghost predicate Kept(h: Header, h': Header) {
    && h'.salt == h.salt && |h'.tail| == |h.tail|
    && h'.base.key1 == h.base.key1 && h'.base.alg == h.base.alg && h'.base.tmpSize == h.base.tmpSize
  }

  /** The length get_header_len works with. */
  function EffectiveLength(b: Base): nat {
    if b.version >= DC_HDR_VERSION_2 then b.headLen else DC_AREA_SIZE
  }

  lemma MergedKeeps(h: Header, headLen: nat, u: Base, update: seq<byte>, ext: Option<seq<byte>>, p: Parts, noise: seq<byte>, noise': seq<byte>)
    ensures var r := Merged(h, headLen, u, update, ext, p, noise, noise');
            r.Intact? ==> Kept(h, r.header) && r.header.base == if p.base then MergedBase(h.base, u) else h.base
  {
    hide Peek, SlotBytes, SameLayout;
  }

  /** Byte k of a header is behind the base and before its end. */
  predicate TailByte(k: nat, headLen: nat) {
    DC_BASE_SIZE <= k < headLen
  }

  /** A copy is in the tail when every byte it writes is. */
  lemma InTailExactly(at: nat, bytes: seq<byte>, headLen: nat)
    requires bytes != []
    ensures InTail(at, bytes, headLen) <==> forall k: nat | at <= k < at + |bytes| :: TailByte(k, headLen)
  {
    if forall k: nat | at <= k < at + |bytes| :: TailByte(k, headLen) {
      assert TailByte(at, headLen) && TailByte(at + |bytes| - 1, headLen);
    }
  }

  /** The copy stays in the tail exactly when ExtCopyFits says so; otherwise it goes to the old offset. */
  lemma CopyStaysInTail(c: Crypto, h: Header, headLen: nat, u: Base, update: seq<byte>, p: Parts, noise: seq<byte>, noise': seq<byte>)
    requires u.headLen == headLen
    ensures var ext := ExtHeader(c, u, update);
            var r := Merged(h, headLen, u, update, ext, p, noise, noise');
            && (r.Intact? <==> ExtCopyFits(h.base, headLen, ext, p))
            && (r.Overrun? ==> ext == Some(r.bytes) && r.at == h.base.extHdrOff)
  {
    hide Peek, SlotBytes, SameLayout, MergedSlots, Drowned;
  }

  /**
   * No update whose extended header fits changes the salt, the master key, the cipher, the re-encryption
   * position or the length of the header, and no other accepted update stays inside the header's tail.
   */
  lemma UpdateKeeps(c: Crypto, h: Header, key: XtsKey, headLen: nat, sealed: seq<byte>, p: Parts, noise: seq<byte>, noise': seq<byte>)
    requires Sized(c) && DC_AREA_SIZE <= headLen <= |sealed| && HeaderLen(h.base) == Ok(headLen) && headLen == Length(h)
    ensures var r := Edited(c, h, key, headLen, sealed, p, noise, noise');
            r.Ok? ==>
              && (r.value.Intact? <==> CopyFits(c, h, key, headLen, sealed, p))
              && (r.value.Intact? ==> Kept(h, r.value.header) && EffectiveLength(r.value.header.base) == headLen)
  {
    hide Merged, ExtHeader, ExtCopyFits, CopySlots, AreaEnd, OpenBase;
    var r := Edited(c, h, key, headLen, sealed, p, noise, noise');
    if r.Ok? && SameVersion(c, h, key, sealed) {
      var u, update, ext := UpdateParts(c, h, key, headLen, sealed, p, noise, noise');
      MergedKeeps(h, headLen, u, update, ext, Normalised(p), noise, noise');
      CopyStaysInTail(c, h, headLen, u, update, Normalised(p), noise, noise');
    }
  }

  /** The update's tail in the clear, with its slots as they came. */
  function UpdateTail(c: Crypto, key: XtsKey, headLen: nat, sealed: seq<byte>, u: Base): (r: seq<byte>)
    requires Sized(c) && DC_AREA_SIZE <= headLen <= |sealed|
    ensures |r| == headLen - DC_BASE_SIZE
  {
    var stored := sealed[DC_BASE_SIZE..headLen];
    var plain := c.dec(key, stored);
    if HasSlotFlag(u) then CopySlots(u, plain, stored, plain) else plain
  }

  /** What a caller can check beforehand: an update of another version copies nothing, any other one fits. */
  predicate CopyFits(c: Crypto, h: Header, key: XtsKey, headLen: nat, sealed: seq<byte>, p: Parts)
    requires Sized(c) && DC_AREA_SIZE <= headLen <= |sealed|
  {
    SameVersion(c, h, key, sealed) ==>
      var u := OpenBase(c, key, sealed).value;
      ExtCopyFits(h.base, headLen, ExtHeader(c, u, UpdateTail(c, key, headLen, sealed, u)), Normalised(p))
  }

  /** The update is of the version on the disk, one that has slots. */
  predicate SameVersion(c: Crypto, h: Header, key: XtsKey, sealed: seq<byte>)
    requires |sealed| >= DC_AREA_SIZE
  {
    var u := OpenBase(c, key, sealed);
    u.Some? && u.value.version == h.base.version >= DC_HDR_VERSION_2
  }

  /** The pieces of an accepted update of the same version. */
  lemma UpdateParts(c: Crypto, h: Header, key: XtsKey, headLen: nat, sealed: seq<byte>, p: Parts, noise: seq<byte>, noise': seq<byte>)
    returns (u: Base, update: seq<byte>, ext: Option<seq<byte>>)
    requires Sized(c) && DC_AREA_SIZE <= headLen <= |sealed| && HeaderLen(h.base) == Ok(headLen) && headLen == Length(h)
    requires Edited(c, h, key, headLen, sealed, p, noise, noise').Ok? && SameVersion(c, h, key, sealed)
    ensures OpenBase(c, key, sealed) == Some(u) && |update| == |h.tail| && u.headLen == headLen && u.version == h.base.version
    ensures update == UpdateTail(c, key, headLen, sealed, u)
    ensures ext == ExtHeader(c, u, update) && AreaEnd(u) <= headLen && (u.extHdrOff != 0 ==> ext.Some?)
    ensures Edited(c, h, key, headLen, sealed, p, noise, noise') == Ok(Merged(h, headLen, u, update, ext, Normalised(p), noise, noise'))
  {
    hide Merged, ExtHeader, AreaEnd, OpenBase, UpdateTail;
    u := OpenBase(c, key, sealed).value;
    update := UpdateTail(c, key, headLen, sealed, u);
    ext := ExtHeader(c, u, update);
  }

  /**
   * Within a version an update that is for the base, or for nothing in particular, sets eight fields of it to what
   * the update says; any other update, and the other fields, leave the base alone.
   */
  lemma FieldsSelected(c: Crypto, h: Header, key: XtsKey, headLen: nat, sealed: seq<byte>, p: Parts, noise: seq<byte>, noise': seq<byte>)
    requires Sized(c) && DC_AREA_SIZE <= headLen <= |sealed| && HeaderLen(h.base) == Ok(headLen) && headLen == Length(h)
    ensures var r := Edited(c, h, key, headLen, sealed, p, noise, noise');
            r.Ok? && r.value.Intact? && SameVersion(c, h, key, sealed) ==>
              var b, u := r.value.header.base, OpenBase(c, key, sealed).value;
              if p.base || !(p.slots || p.ext || p.clear) then
                && b.flags == u.flags && b.diskId == u.diskId && b.footerCnt == u.footerCnt
                && b.extHdrOff == u.extHdrOff && b.featureFlags == u.featureFlags
                && b.slotAreaLen == u.slotAreaLen && b.keySlotCount == u.keySlotCount && b.slotInfoSize == u.slotInfoSize
                && b.version == h.base.version && b.alg == h.base.alg && b.key1 == h.base.key1 && b.tmpSize == h.base.tmpSize
                && b.storLen == h.base.storLen && b.headLen == h.base.headLen && b.headKdf == h.base.headKdf && b.other == h.base.other
              else b == h.base
  {
    hide Merged, ExtHeader, CopySlots, AreaEnd, OpenBase;
    var r := Edited(c, h, key, headLen, sealed, p, noise, noise');
    if r.Ok? && SameVersion(c, h, key, sealed) {
      var u, update, ext := UpdateParts(c, h, key, headLen, sealed, p, noise, noise');
      MergedKeeps(h, headLen, u, update, ext, Normalised(p), noise, noise');
    }
  }

  /** An update of the same version leaves a header that can be read again. */
  lemma UpdateReadable(c: Crypto, h: Header, key: XtsKey, headLen: nat, sealed: seq<byte>, p: Parts, noise: seq<byte>, noise': seq<byte>)
    requires Sized(c) && DC_AREA_SIZE <= headLen <= |sealed| && HeaderLen(h.base) == Ok(headLen) && headLen == Length(h)
    ensures var r := Edited(c, h, key, headLen, sealed, p, noise, noise');
            r.Ok? && r.value.Intact? && SameVersion(c, h, key, sealed) ==> HeaderLen(r.value.header.base) == Ok(headLen)
  {
    hide Merged, ExtHeader, OpenBase, OpenTail;
    var r := Edited(c, h, key, headLen, sealed, p, noise, noise');
    if r.Ok? && SameVersion(c, h, key, sealed) {
      var u, update, ext := UpdateParts(c, h, key, headLen, sealed, p, noise, noise');
      MergedKeeps(h, headLen, u, update, ext, Normalised(p), noise, noise');
    }
  }

  /** A change of version does not look at the slots: the header can be read again exactly when they fit. */
  lemma SwitchReadable(c: Crypto, h: Header, key: XtsKey, headLen: nat, sealed: seq<byte>, u: Base)
    requires Sized(c) && DC_AREA_SIZE <= headLen <= |sealed| && HeaderLen(h.base) == Ok(headLen)
    requires Switched(c, h, key, headLen, sealed, u).Ok?
    ensures HeaderLen(Switched(c, h, key, headLen, sealed, u).value.header.base).Ok? <==>
            u.version < DC_HDR_VERSION_2 || AreaEnd(u) <= headLen
  {
  }

  /** The front of a disk holds this header, sealed, with slots that may or may not fit. */
  ghost predicate Fronts(c: Crypto, disk: seq<byte>, key: XtsKey, h: Header) {
    && Lawful(c) && IsKey(key) && Fits(h.base) && |h.salt| == HEADER_SALT_SIZE
    && EffectiveLength(h.base) == Length(h) && DC_AREA_SIZE <= Length(h) <= DC_AREA_MAX_SIZE && Length(h) % XTS_SECTOR_SIZE == 0
    && Length(h) < |disk| && |Seal(c, key, h)| == Length(h) && disk[..Length(h)] == Seal(c, key, h)
  }

  /**
   * With the header password such a disk can be read exactly when its checksum holds and it passes the length check,
   * and what is read is this base.
   */
  lemma FrontReadable(c: Crypto, disk: seq<byte>, key: XtsKey, h: Header, pw: Pass, kdf: int)
    requires Fronts(c, disk, key, h) && IsHeaderPass(c, h, key, pw.text, kdf) && Tries(pw.kdf, kdf) && pw.slot <= 0
    ensures var r := ReadHeader(c, disk, pw);
            && (r.Ok? <==> HeaderLen(h.base).Ok? && SumHolds(c, key, h))
            && (r.Ok? ==> r.value.key == key && r.value.header.salt == h.salt && r.value.header.base == h.base)
  {
    hide Fits, OpenBase, Seal, SumHolds, Search, OpenTail, TryCiphers;
    var len := ReadLen(|disk|, pw.slot);
    ReadLenFits(|disk|, pw.slot);
    FrontParts(c, disk, key, h, len);
    var image := disk[..len];
    SearchFindsKey(c, image, pw, KdfList(pw.kdf), key, h.base);
    SearchOpened(c, image, pw, KdfList(pw.kdf));
    if SumHolds(c, key, h) {
      FrontSearch(c, image, key, h, pw, kdf);
      if HeaderLen(h.base).Ok? && Length(h) > len {
        SecondReadEnough(c, disk, key, h.base, len, Length(h));
      }
    }
  }

  lemma FrontSearch(c: Crypto, image: seq<byte>, key: XtsKey, h: Header, pw: Pass, kdf: int)
    requires IsKey(key) && |image| >= DC_AREA_SIZE && OpenBase(c, key, image).Some? && ImageSalt(image) == h.salt
    requires IsHeaderPass(c, h, key, pw.text, kdf) && Tries(pw.kdf, kdf) && pw.slot <= 0
    ensures Search(c, image, pw, KdfList(pw.kdf)).Some?
  {
    hide OpenBase, TryCiphers;
    CiphersOpen(c, Derive(c, pw.text, kdf, h.salt).value, image, key, 0);
    TriesExactly(pw.kdf, kdf);
    SearchOpens(c, image, pw, KdfList(pw.kdf), kdf);
  }

  lemma FrontParts(c: Crypto, disk: seq<byte>, key: XtsKey, h: Header, len: nat)
    requires Fronts(c, disk, key, h) && DC_AREA_SIZE <= len <= |disk|
    ensures ImageSalt(disk[..len]) == h.salt && SealedAs(c, disk[..len], key, h.base)
    ensures OpenBase(c, key, disk[..len]) == if SumHolds(c, key, h) then Some(h.base) else None
  {
    hide Seal, Fits, Check;
    assert disk[..len][..DC_AREA_SIZE] == disk[..Length(h)][..DC_AREA_SIZE] == Seal(c, key, h)[..DC_AREA_SIZE];
    OpensBySum(c, key, h, disk[..len]);
    CheckSize(c, h.base, h.tail);
    AsSealed(c, disk[..len], key, h.base, Check(c, h.base, h.tail));
  }

  lemma CheckSize(c: Crypto, b: Base, tail: seq<byte>)
    requires Lawful(c)
    ensures |Check(c, b, tail)| == 4
  {
  }

  /** What an accepted update leaves in front of the disk. */
  lemma EditFronts(c: Crypto, disk: seq<byte>, key: XtsKey, h: Header, sealed: seq<byte>, p: Parts, noise: seq<byte>, noise': seq<byte>)
    requires OnDisk(c, disk, key, h) && |sealed| >= Length(h)
    requires var r := Edited(c, h, key, Length(h), sealed, p, noise, noise'); r.Ok? && r.value.Intact?
    ensures var h' := Edited(c, h, key, Length(h), sealed, p, noise, noise').value.header;
            h'.salt == h.salt && Fronts(c, Poke(disk, 0, Seal(c, key, h')), key, h')
  {
    hide Merged, ExtHeader, OpenBase, UpdateTail, CopyFits, Fits, Seal;
    var h' := Edited(c, h, key, Length(h), sealed, p, noise, noise').value.header;
    UpdateKeeps(c, h, key, Length(h), sealed, p, noise, noise');
    EditFits(c, h, key, sealed, p, noise, noise');
    SealSize(c, key, h');
    FrontWritten(disk, Seal(c, key, h'));
  }

  lemma SealSize(c: Crypto, key: XtsKey, h: Header)
    requires Lawful(c) && |h.salt| == HEADER_SALT_SIZE
    ensures |Seal(c, key, h)| == Length(h)
  {
  }

  lemma FrontWritten(disk: seq<byte>, data: seq<byte>)
    requires |data| <= |disk|
    ensures Poke(disk, 0, data)[..|data|] == data
  {
  }

  /** The fields of an edited base fit as those of the two headers did. */
  lemma EditFits(c: Crypto, h: Header, key: XtsKey, sealed: seq<byte>, p: Parts, noise: seq<byte>, noise': seq<byte>)
    requires Lawful(c) && Fits(h.base) && HeaderLen(h.base) == Ok(Length(h)) && |sealed| >= Length(h)
    requires var r := Edited(c, h, key, Length(h), sealed, p, noise, noise'); r.Ok? && r.value.Intact?
    ensures Fits(Edited(c, h, key, Length(h), sealed, p, noise, noise').value.header.base)
  {
    hide Merged, ExtHeader, OpenBase, UpdateTail, CopyFits;
    OpenFits(c, key, sealed);
    if SameVersion(c, h, key, sealed) {
      var u, update, ext := UpdateParts(c, h, key, Length(h), sealed, p, noise, noise');
      MergedKeeps(h, Length(h), u, update, ext, Normalised(p), noise, noise');
      MergedFits(h.base, u);
    }
  }

  /** Which updates leave a header that can be read: those that keep the version, or drop slots, or have slots that fit. */
  predicate KeepsReadable(h: Header, u: Base) {
    u.version == h.base.version || u.version < DC_HDR_VERSION_2 || AreaEnd(u) <= Length(h)
  }

  lemma EditReadable(c: Crypto, h: Header, key: XtsKey, sealed: seq<byte>, p: Parts, noise: seq<byte>, noise': seq<byte>)
    requires Sized(c) && HeaderLen(h.base) == Ok(Length(h)) && |sealed| >= Length(h)
    requires var r := Edited(c, h, key, Length(h), sealed, p, noise, noise'); r.Ok? && r.value.Intact?
    ensures OpenBase(c, key, sealed).Some?
    ensures HeaderLen(Edited(c, h, key, Length(h), sealed, p, noise, noise').value.header.base).Ok? <==>
            KeepsReadable(h, OpenBase(c, key, sealed).value)
  {
    hide Merged, ExtHeader, OpenBase, UpdateTail, CopyFits;
    if SameVersion(c, h, key, sealed) {
      UpdateReadable(c, h, key, Length(h), sealed, p, noise, noise');
    } else {
      var u := OpenBase(c, key, sealed).value;
      if u.version != h.base.version { SwitchReadable(c, h, key, Length(h), sealed, u); }
    }
  }

  /** What a caller can check beforehand: the footer count in force leaves the checksum before the slots. */
  predicate SumGuard(h: Header, u: Base, p: Parts) {
    SumBeforeSlots(if Normalised(p).base || u.version != h.base.version then u else h.base)
  }

  lemma EditedSum(c: Crypto, h: Header, key: XtsKey, sealed: seq<byte>, p: Parts, noise: seq<byte>, noise': seq<byte>)
    requires Sized(c) && HeaderLen(h.base) == Ok(Length(h)) && |sealed| >= Length(h) && h.base.version >= DC_HDR_VERSION_2
    requires var r := Edited(c, h, key, Length(h), sealed, p, noise, noise'); r.Ok? && r.value.Intact?
    ensures OpenBase(c, key, sealed).Some?
    ensures SumBeforeSlots(Edited(c, h, key, Length(h), sealed, p, noise, noise').value.header.base) <==>
            SumGuard(h, OpenBase(c, key, sealed).value, p)
  {
    hide Merged, ExtHeader, OpenBase, UpdateTail, CopyFits;
    if SameVersion(c, h, key, sealed) {
      var u, update, ext := UpdateParts(c, h, key, Length(h), sealed, p, noise, noise');
      MergedKeeps(h, Length(h), u, update, ext, Normalised(p), noise, noise');
    }
  }

  /** A checksum that ends before the slots covers nothing raw. */
  lemma BeforeSlotsClear(h: Header)
    requires SumBeforeSlots(h.base)
    ensures SumClear(h)
  {
  }

  /**
   * After an accepted SetHeader the header password still reads the header, with the base as edited, exactly when
   * the slots fit and the checksum holds over what is stored; which it does if the footer count leaves it before
   * the slots.
   */
  lemma SetHeaderReadable(c: Crypto, disk: seq<byte>, key: XtsKey, h: Header, editor: Pass, sealed: seq<byte>, p: Parts,
                          noise: seq<byte>, noise': seq<byte>, pw: Pass, kdf: int)
    requires OnDisk(c, disk, key, h) && IsHeaderPass(c, h, key, pw.text, kdf) && Tries(pw.kdf, kdf) && pw.slot <= 0
    requires var r := SetHeader(c, disk, editor, sealed, p, noise, noise'); r.Ok? && r.value.Disk?
    ensures |sealed| >= Length(h) && OpenBase(c, key, sealed).Some?
    ensures var r, e := SetHeader(c, disk, editor, sealed, p, noise, noise').value.bytes, Edited(c, h, key, Length(h), sealed, p, noise, noise');
            && e.Ok? && e.value.Intact? && |e.value.header.salt| == HEADER_SALT_SIZE && |e.value.header.tail| >= DC_AREA_SIZE - DC_BASE_SIZE
            && (ReadHeader(c, r, pw).Ok? <==> KeepsReadable(h, OpenBase(c, key, sealed).value) && SumHolds(c, key, e.value.header))
            && (ReadHeader(c, r, pw).Ok? ==>
                  && ReadHeader(c, r, pw).value.key == key && ReadHeader(c, r, pw).value.header.salt == h.salt
                  && ReadHeader(c, r, pw).value.header.base == e.value.header.base)
            && (h.base.version >= DC_HDR_VERSION_2 && SumGuard(h, OpenBase(c, key, sealed).value, p) ==> SumHolds(c, key, e.value.header))
  {
    hide Edited, ReadHeader, Fits, KeepsReadable, Seal, OpenBase, SumHolds, SumGuard, SumBeforeSlots, SumClear;
    ReadsHeader(c, disk, key, h, editor);
    var h' := Edited(c, h, key, Length(h), sealed, p, noise, noise').value.header;
    EditFronts(c, disk, key, h, sealed, p, noise, noise');
    EditReadable(c, h, key, sealed, p, noise, noise');
    SamePassword(c, h, h', key, pw.text, kdf);
    FrontReadable(c, Poke(disk, 0, Seal(c, key, h')), key, h', pw, kdf);
    if h.base.version >= DC_HDR_VERSION_2 && SumGuard(h, OpenBase(c, key, sealed).value, p) {
      EditedSum(c, h, key, sealed, p, noise, noise');
      BeforeSlotsClear(h');
      ClearSumHolds(c, key, h');
    }
  }

  /** Whether a password is the header's depends on the salt and the key alone. */
  lemma SamePassword(c: Crypto, h: Header, h': Header, key: XtsKey, text: seq<byte>, kdf: int)
    requires h'.salt == h.salt && IsHeaderPass(c, h, key, text, kdf)
    ensures IsHeaderPass(c, h', key, text, kdf)
  {
  }

  // ----- slots that are not selected

  /** The slots are where they were, and the update is for something else. */
  predicate LeavesSlots(b: Base, u: Base, p: Parts) {
    !p.slots && (p.base ==> SameLayout(b, u) && HasSlotFlag(u) == HasSlotFlag(b))
  }

  lemma SlotsIgnoreRest(c: Crypto, b: Base, b': Base, tail: seq<byte>, i: nat)
    requires SameLayout(b, b')
    ensures SlotUsed(c, b', tail, i) == SlotUsed(c, b, tail, i) && SlotFlags(b', tail, i) == SlotFlags(b, tail, i)
    ensures SlotType(b', tail, i) == SlotType(b, tail, i)
  {
    assert SlotSize(b') == SlotSize(b);
  }

  /** Slots and descriptors that keep their bytes keep their passwords. */
  lemma SameAreaKeyed(c: Crypto, h: Header, h': Header, key: XtsKey, creds: Creds)
    requires Keyed(c, h, key, creds) && h'.salt == h.salt && |h'.tail| == |h.tail| && SameLayout(h.base, h'.base)
    requires h'.base.version >= DC_HDR_VERSION_2 && HasSlotFlag(h'.base) == HasSlotFlag(h.base)
    requires forall k | 0 <= k < |h.tail| && DC_BASE_SIZE + k < AreaEnd(h.base) :: h'.tail[k] == h.tail[k]
    ensures Keyed(c, h', key, creds)
  {
    hide SlotUsed, SlotFlags, SlotType, Derive, SetKey;
    forall i | 0 <= i < |creds.slots|
      ensures SlotIs(c, h', key, i, creds.slots[i])
    {
      assert SlotIs(c, h, key, i, creds.slots[i]);
      SameAreaSlots(c, h, h', i);
      SameMeaning(c, h.base, h.tail, h'.tail, i);
      SlotsIgnoreRest(c, h.base, h'.base, h'.tail, i);
    }
  }

  lemma SameAreaSlots(c: Crypto, h: Header, h': Header, i: nat)
    requires Standard(h.base, h.tail) && i < h.base.keySlotCount && |h'.tail| == |h.tail|
    requires forall k | 0 <= k < |h.tail| && DC_BASE_SIZE + k < AreaEnd(h.base) :: h'.tail[k] == h.tail[k]
    ensures SameSlots(c, h.base, h.tail, h'.tail, i)
  {
    StandardSizes(h.base, h.tail, i);
    assert h.base.keySlotCount * h.base.slotInfoSize == 32 * h.base.keySlotCount;
    assert forall k: nat | 192 * i <= k < 192 * i + 192 :: At(h'.tail, k) == At(h.tail, k);
    assert forall k: nat | InfoOffset(h.base, i) <= k < InfoOffset(h.base, i) + 32 :: At(h'.tail, k) == At(h.tail, k);
  }

  /** An update for something else than the slots leaves their bytes alone, if the extended header lies past them. */
  lemma MergeLeavesArea(c: Crypto, h: Header, headLen: nat, u: Base, update: seq<byte>, p: Parts, noise: seq<byte>, noise': seq<byte>)
    requires LeavesSlots(h.base, u, p) && u.version == h.base.version && (p.base || h.base.extHdrOff == 0 || AreaEnd(h.base) <= h.base.extHdrOff)
    ensures var r := Merged(h, headLen, u, update, ExtHeader(c, u, update), p, noise, noise');
            r.Intact? ==>
              && |r.header.tail| == |h.tail| && SameLayout(h.base, r.header.base) && HasSlotFlag(r.header.base) == HasSlotFlag(h.base)
              && forall k | 0 <= k < |h.tail| && DC_BASE_SIZE + k < AreaEnd(h.base) :: r.header.tail[k] == h.tail[k]
  {
    hide Peek;
    var ext := ExtHeader(c, u, update);
    assert SlotsEnd(u) == SlotsEnd(h.base) || !p.base;
  }

  /** The bytes of the tail that an update can change: old slots it drowns, slots it writes, and the extended header. */
  predicate Touchable(h: Header, u: Base, ext: Option<seq<byte>>, p: Parts, k: nat) {
    var b := if p.base then MergedBase(h.base, u) else h.base;
    var moved := p.base && !SameLayout(h.base, u);
    || (moved && k < SlotBytes(h.base))
    || ((p.slots || moved) && HasSlotFlag(b) && k < SlotBytes(b))
    || ((p.base || p.ext) && ext.Some? && b.extHdrOff != 0 && b.extHdrOff <= DC_BASE_SIZE + k < b.extHdrOff + |ext.value|)
  }

  /** Every other byte stays as it was. */
  lemma UpdateTouches(h: Header, headLen: nat, u: Base, update: seq<byte>, ext: Option<seq<byte>>, p: Parts, noise: seq<byte>, noise': seq<byte>, k: nat)
    requires k < |h.tail| && !Touchable(h, u, ext, p, k)
    ensures var r := Merged(h, headLen, u, update, ext, p, noise, noise');
            r.Intact? ==> |r.header.tail| == |h.tail| && r.header.tail[k] == h.tail[k]
  {
    hide Peek;
  }

  /** Every password goes on working when the update is for something else than the slots. */
  lemma UpdateLeavesPasswords(c: Crypto, disk: seq<byte>, key: XtsKey, h: Header, creds: Creds,
                              pw: Pass, sealed: seq<byte>, p: Parts, noise: seq<byte>, noise': seq<byte>)
    returns (h': Header)
    requires Holds(c, disk, key, h, creds) && SetHeader(c, disk, pw, sealed, p, noise, noise').Ok?
    requires |sealed| >= DC_AREA_SIZE && SameVersion(c, h, key, sealed) && LeavesSlots(h.base, OpenBase(c, key, sealed).value, Normalised(p))
    requires Normalised(p).base || h.base.extHdrOff == 0 || AreaEnd(h.base) <= h.base.extHdrOff
    requires |sealed| >= Length(h) && CopyFits(c, h, key, Length(h), sealed, p) && SumGuard(h, OpenBase(c, key, sealed).value, p)
    ensures var w := SetHeader(c, disk, pw, sealed, p, noise, noise').value;
            w.Disk? && Holds(c, w.bytes, key, h', creds) && Kept(h, h') && w.bytes[Length(h)..] == disk[Length(h)..]
  {
    hide Keyed, Merged, UpdateTail, Seal, ReadHeader, Fits, CopyFits, OpenBase, SumClear, SumInArea;
    ReadsHeader(c, disk, key, h, pw);
    var headLen := Length(h);
    var r := Edited(c, h, key, headLen, sealed, p, noise, noise');
    var u, update, ext := UpdateParts(c, h, key, headLen, sealed, p, noise, noise');
    UpdateKeeps(c, h, key, headLen, sealed, p, noise, noise');
    h' := r.value.header;
    MergedKeeps(h, headLen, u, update, ext, Normalised(p), noise, noise');
    MergeLeavesArea(c, h, headLen, u, update, Normalised(p), noise, noise');
    UpdateReadable(c, h, key, headLen, sealed, p, noise, noise');
    KeyedVersion(c, h, key, creds);
    EditedSum(c, h, key, sealed, p, noise, noise');
    SameAreaKeyed(c, h, h', key, creds);
    OpenFits(c, key, sealed);
    MergedFits(h.base, u);
    KeyedLaid(c, h', key, creds);
    Written(c, disk, key, h');
  }

  lemma KeyedVersion(c: Crypto, h: Header, key: XtsKey, creds: Creds)
    requires Keyed(c, h, key, creds)
    ensures h.base.version >= DC_HDR_VERSION_2
  {
  }

  lemma MergedFits(b: Base, u: Base)
    requires Fits(b) && Fits(u)
    ensures Fits(MergedBase(b, u))
  {
  }

  // ----- a new slot layout

  /** After a change of layout nothing is left of what the old slots and descriptors held. */
  lemma LayoutChangeForgets(h: Header, old1: seq<byte>, old2: seq<byte>, headLen: nat, u: Base, update: seq<byte>,
                            ext: Option<seq<byte>>, p: Parts, noise: seq<byte>, noise': seq<byte>)
    requires p.base && !SameLayout(h.base, u) && DC_BASE_SIZE + SlotBytes(h.base) <= headLen
    requires |old1| == |old2| && forall k | SlotBytes(h.base) <= k < |old1| :: old1[k] == old2[k]
    ensures Merged(h.(tail := old1), headLen, u, update, ext, p, noise, noise') == Merged(h.(tail := old2), headLen, u, update, ext, p, noise, noise')
  {
    assert Drowned(h.(tail := old1), headLen, noise) == Drowned(h.(tail := old2), headLen, noise);
  }

  /** The new slots are those of the update, unless they were to be cleared. */
  lemma NewSlots(c: Crypto, h: Header, headLen: nat, u: Base, update: seq<byte>, p: Parts, noise: seq<byte>, noise': seq<byte>, k: nat)
    requires u.version >= DC_HDR_VERSION_2 && p.base && HasSlotFlag(u) && (p.slots || !SameLayout(h.base, u))
    requires |update| == |h.tail| && k < SlotBytes(u) && k < |h.tail| && u.headLen == headLen
    ensures var r := Merged(h, headLen, u, update, ExtHeader(c, u, update), p, noise, noise');
            r.Intact? && r.header.tail[k] == if !p.clear then update[k] else if k < u.slotAreaLen then At(noise', k) else 0
  {
    hide ExtHeader;
    var b, ext := MergedBase(h.base, u), ExtHeader(c, u, update);
    var moved := !SameLayout(h.base, u);
    var q := p.(slots := p.slots || moved, ext := p.ext || ext.Some?);
    var tail := if moved then Drowned(h, headLen, noise) else h.tail;
    var t := MergedSlots(b, tail, update, q, noise');
    assert SlotBytes(b) == SlotBytes(u) == b.slotAreaLen + b.keySlotCount * b.slotInfoSize && |tail| == |h.tail|;
    assert t[k] == if !p.clear then update[k] else if k < u.slotAreaLen then At(noise', k) else 0;
    assert AreaEnd(u) == DC_BASE_SIZE + SlotBytes(u);
  }
}
