/** The static header operations of CCryptoIO as they run: editing a header in place, backing it up and restoring it. */
module HeaderFiles {
  import opened Bytes
  import opened Results
  import opened VolumeHeader
  import opened HeaderOpen
  import opened HeaderCredentials
  import opened KeySlots
  import opened PasswordChange
  import opened CredentialRuns
  import opened CryptoIO
  import Backup = HeaderBackup
  import Edit = HeaderEdit

  /** Seals a header and writes it to the front of the store. */
  method WriteSealed(c: Crypto, io: Store, h: Header, key: XtsKey) returns (r: nat)
    requires Lawful(c) && |h.salt| == HEADER_SALT_SIZE && DC_BASE_SIZE + |h.tail| <= |io.bytes|
    modifies io
    ensures Did(r, io.failed != old(io.failed), old(io.bytes), io.bytes, Ok(Poke(old(io.bytes), 0, Seal(c, key, h))))
  {
    var image := Seal(c, key, h);
    SealLength(c, key, h);
    PokeFront(io.bytes, image);
    var ok := io.DiskWrite(image, 0);
    r := if ok then ERR_OK else ERR_IO_FAILED;
  }

  /** The base fields, and the old slots drowned when the layout changes; says what else is to be taken. */
  method TakeBase(h: Header, headLen: nat, u: Base, hasExt: bool, p: Edit.Parts, noise: seq<byte>) returns (b: Base, tail: seq<byte>, q: Edit.Parts)
    requires p.base
    ensures b == Edit.MergedBase(h.base, u)
    ensures tail == if Edit.SameLayout(h.base, u) then h.tail else Edit.Drowned(h, headLen, noise)
    ensures q == p.(slots := p.slots || !Edit.SameLayout(h.base, u), ext := p.ext || hasExt)
  {
    b, tail, q := h.base.(featureFlags := u.featureFlags), h.tail, p;
    if b.slotAreaLen != u.slotAreaLen || b.keySlotCount != u.keySlotCount || b.slotInfoSize != u.slotInfoSize {
      var oldLen := b.slotAreaLen + b.keySlotCount * b.slotInfoSize;
      if DC_BASE_SIZE + oldLen <= headLen { tail := Poke(tail, 0, Peek(noise, 0, oldLen)); }
      b := b.(slotAreaLen := u.slotAreaLen, keySlotCount := u.keySlotCount, slotInfoSize := u.slotInfoSize);
      q := q.(slots := true);
    }
    b := b.(extHdrOff := u.extHdrOff);
    if hasExt { q := q.(ext := true); }
    b := b.(flags := u.flags, diskId := u.diskId, footerCnt := u.footerCnt);
  }

  method TakeSlots(b: Base, before: seq<byte>, update: seq<byte>, q: Edit.Parts, noise: seq<byte>) returns (tail: seq<byte>)
    ensures tail == Edit.MergedSlots(b, before, update, q, noise)
  {
    tail := before;
    if q.slots && HasSlotFlag(b) {
      if q.clear {
        tail := Poke(tail, 0, Peek(noise, 0, b.slotAreaLen));
        tail := Poke(tail, b.slotAreaLen, Zeros(b.keySlotCount * b.slotInfoSize));
      } else {
        tail := Poke(tail, 0, Peek(update, 0, b.slotAreaLen + b.keySlotCount * b.slotInfoSize));
      }
    }
  }

  /** The part of SetHeader that takes the named fields, one after the other. */
  method TakeFields(h: Header, headLen: nat, u: Base, update: seq<byte>, ext: Option<seq<byte>>, p: Edit.Parts, noise: seq<byte>, noise': seq<byte>)
    returns (r: Edit.Edit)
    ensures r == Edit.Merged(h, headLen, u, update, ext, p, noise, noise')
  {
    hide Edit.MergedSlots, Edit.Drowned, Edit.MergedBase;
    var q, b, tail := p, h.base, h.tail;
    if q.base { b, tail, q := TakeBase(h, headLen, u, ext.Some?, p, noise); }
    tail := TakeSlots(b, tail, update, q, noise');
    if q.ext && ext.Some? && b.extHdrOff != 0 {
      // nothing in the code looks at where this goes
      if !Edit.InTail(b.extHdrOff, ext.value, headLen) { return Edit.Overrun(b.extHdrOff, ext.value); }
      tail := Poke(tail, b.extHdrOff - DC_BASE_SIZE, ext.value);
    }
    r := Edit.Intact(Header(h.salt, b, tail));
  }

  /** The checks of SetHeader on the update, and the header it makes. */
  method EditHeader(c: Crypto, h0: Header, key: XtsKey, headLen: nat, sealed: seq<byte>, flags: Edit.Parts, noise: seq<byte>, noise': seq<byte>)
    returns (r: Result<Edit.Edit>)
    requires Sized(c) && DC_AREA_SIZE <= headLen <= |sealed|
    ensures r == Edit.Edited(c, h0, key, headLen, sealed, flags, noise, noise')
  {
    hide Edit.Merged, Edit.ExtHeader, Edit.UpdateTail, Edit.AreaEnd;
    var h := h0;
    var opened' := OpenBase(c, key, sealed);
    if opened'.None? { return Err(ERR_INTERNAL); }
    var u := opened'.value;
    if headLen != (if u.version >= DC_HDR_VERSION_2 then u.headLen else DC_AREA_SIZE) { return Err(ERR_INVALID_PARAM); }
    if u.alg != h.base.alg || u.key1 != h.base.key1 || u.tmpSize != h.base.tmpSize { return Err(ERR_INVALID_PARAM); }
    if u.version != h.base.version {
      // the length check above has already refused this
      if u.version < DC_HDR_VERSION_2 && headLen != DC_AREA_SIZE { assert false; }
      var len := if u.version >= DC_HDR_VERSION_2 then headLen else 0;
      h := Header(h.salt, u.(headLen := len, storLen := len), c.dec(key, sealed[DC_BASE_SIZE..DC_AREA_SIZE]) + Zeros(headLen - DC_AREA_SIZE));
    } else if u.version >= DC_HDR_VERSION_2 {
      var update := Edit.UpdateTail(c, key, headLen, sealed, u);
      var ext := Edit.ExtHeader(c, u, update);
      if Edit.AreaEnd(u) > headLen || (u.extHdrOff != 0 && ext.None?) { return Err(ERR_INVALID_PARAM); }
      var merged := TakeFields(h, headLen, u, update, ext, Edit.Normalised(flags), noise, noise');
      return Ok(merged);
    }
    return Ok(Edit.Intact(h));
  }

  /** SetHeader */
  method SetHeader(c: Crypto, io: Store, pw: Pass, sealed: seq<byte>, flags: Edit.Parts, noise: seq<byte>, noise': seq<byte>) returns (r: nat)
    requires Lawful(c) && !io.shared
    modifies io
    ensures match Edit.SetHeader(c, old(io.bytes), pw, sealed, flags, noise, noise') {
              case Err(e) => Did(r, io.failed != old(io.failed), old(io.bytes), io.bytes, Err(e))
              case Ok(Disk(bytes)) => Did(r, io.failed != old(io.failed), old(io.bytes), io.bytes, Ok(bytes))
              case Ok(Unknown) => true }
  {
    hide Edit.SetHeader, Edit.Edited, Cut, ReadHeader, HeaderLen, Seal;
    ReadFails(c, io.bytes, pw);
    Edit.SetHeaderSteps(c, io.bytes, pw, sealed, flags, noise, noise');
    var o, _, _ := ReadHeaderFrom(c, io, pw);
    if o.Err? { return o.code; }
    if o.value.slot != 0 { return ERR_INVALID_PARAM; }
    var h, key := Cut(o.value.header), o.value.key;
    CutLength(o.value.header);
    LengthBounds(h.base);
    var headLen := HeaderLen(h.base).value;
    if |sealed| < headLen { return ERR_INVALID_PARAM; }
    var edited := EditHeader(c, h, key, headLen, sealed, flags, noise, noise');
    if edited.Err? {
      EditFails(c, h, key, headLen, sealed, flags, noise, noise');
      return edited.code;
    }
    // the copy, or the checksum, has left the header
    if edited.value.Overrun? || !SumInArea(edited.value.header.base) { return *; }
    EditedSize(c, h, key, headLen, sealed, flags, noise, noise');
    r := WriteSealed(c, io, edited.value.header, key);
  }

  /** The ways an update is refused. */
  lemma EditFails(c: Crypto, h: Header, key: XtsKey, headLen: nat, sealed: seq<byte>, p: Edit.Parts, noise: seq<byte>, noise': seq<byte>)
    requires Sized(c) && DC_AREA_SIZE <= headLen <= |sealed|
    ensures var r := Edit.Edited(c, h, key, headLen, sealed, p, noise, noise'); r.Err? ==> r.code == ERR_INTERNAL || r.code == ERR_INVALID_PARAM
  {
    hide Edit.Merged, Edit.ExtHeader, Edit.UpdateTail, Edit.AreaEnd;
  }

  /** An edited header is as long as the one it came from. */
  lemma EditedSize(c: Crypto, h: Header, key: XtsKey, headLen: nat, sealed: seq<byte>, p: Edit.Parts, noise: seq<byte>, noise': seq<byte>)
    requires Sized(c) && DC_AREA_SIZE <= headLen <= |sealed| && headLen == DC_BASE_SIZE + |h.tail|
    ensures var r := Edit.Edited(c, h, key, headLen, sealed, p, noise, noise');
            r.Ok? && r.value.Intact? ==> r.value.header.salt == h.salt && |r.value.header.tail| == |h.tail|
  {
    hide Edit.Merged, Edit.ExtHeader, Edit.UpdateTail, Edit.AreaEnd;
    var opened' := OpenBase(c, key, sealed);
    if opened'.Some? {
      var u := opened'.value;
      var update := Edit.UpdateTail(c, key, headLen, sealed, u);
      Edit.MergedKeeps(h, headLen, u, update, Edit.ExtHeader(c, u, update), Edit.Normalised(p), noise, noise');
    }
  }

  lemma LengthBounds(b: Base)
    ensures if HeaderLen(b).Ok? then DC_AREA_SIZE <= HeaderLen(b).value else HeaderLen(b).code == ERR_INTERNAL
  {
  }

  /** How BackupHeader and RestoreHeader seal their copy. */
  method SealCopy(c: Crypto, o: Opened, text: seq<byte>, salt: seq<byte>) returns (r: Result<Sealing>)
    ensures r == Backup.CopySealing(c, o, text, salt)
    ensures r.Err? ==> r.code == ERR_INVALID_PARAM || r.code == ERR_INTERNAL
  {
    var h := Cut(o.header);
    if HasKeySlots(h.base) { return Ok(Sealing(h, o.key)); }
    if o.slot != 0 { return Err(ERR_INVALID_PARAM); }
    var dk := Derive(c, text, o.kdf, salt);
    if dk.None? || h.base.alg >= CF_CIPHERS_NUM { return Err(ERR_INTERNAL); }
    return Ok(Sealing(h.(salt := salt), SetKey(dk.value, h.base.alg)));
  }

  /** BackupHeader, with the backup file as its result. */
  method BackupHeader(c: Crypto, io: Store, pw: Pass, salt: seq<byte>) returns (r: Result<seq<byte>>)
    requires Lawful(c) && !io.shared
    modifies io
    ensures io.bytes == old(io.bytes) && (r == Err(ERR_IO_FAILED) <==> io.failed != old(io.failed))
    ensures io.failed == old(io.failed) ==> r == Backup.BackupHeader(c, io.bytes, pw, salt)
  {
    hide ReadHeader, Seal, Backup.CopySealing;
    var o, _, _ := ReadHeaderFrom(c, io, pw);
    if o.Err? { return Err(o.code); }
    var s := SealCopy(c, o.value, pw.text, salt);
    if s.Err? { return Err(s.code); }
    return Ok(Seal(c, s.value.key, s.value.header));
  }

  /** RestoreHeader */
  method RestoreHeader(c: Crypto, file: seq<byte>, io: Store, pw: Pass, salt: seq<byte>) returns (r: nat)
    requires Lawful(c) && |salt| == HEADER_SALT_SIZE
    modifies io
    ensures Did(r, io.failed != old(io.failed), old(io.bytes), io.bytes, Backup.RestoreHeader(c, file, old(io.bytes), pw, salt))
  {
    hide Search, OpenTail, Seal, HeaderLen;
    if |file| < DC_AREA_SIZE || |file| > DC_AREA_MAX_SIZE || |file| % XTS_SECTOR_SIZE != 0 { return Backup.ERR_FILE_NOT_OPENED; }
    var d := DecryptHeader(c, file, pw);
    if d.None? { return ERR_WRONG_PASSWORD; }
    var o := d.value;
    var headLen := HeaderLen(o.header.base);
    LengthBounds(o.header.base);
    if headLen.Err? { return headLen.code; }
    if headLen.value > |file| || headLen.value >= |io.bytes| { return ERR_INTERNAL; }
    var s := SealCopy(c, o, pw.text, salt);
    if s.Err? { return s.code; }
    CutShort(o.header);
    r := WriteSealed(c, io, s.value.header, s.value.key);
  }

  lemma CutShort(h: Header)
    requires HeaderLen(h.base).Ok?
    ensures DC_BASE_SIZE + |Cut(h).tail| <= HeaderLen(h.base).value
  {
  }
}
