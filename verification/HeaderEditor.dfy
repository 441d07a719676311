/** What SetHeader does with a header as an editor seals it: when it is taken, and which bytes come of it. */
module HeaderEditor {
  import opened Bytes
  import opened Results
  import opened VolumeHeader
  import opened HeaderOpen
  import opened HeaderCredentials
  import opened KeySlots
  import opened PasswordChange
  import opened CredentialRuns
  import opened HeaderEdit

  /** A header that can be sealed, and opened again. */
  ghost predicate Sealable(h: Header) {
    WellLaid(h) && HeaderLen(h.base) == Ok(Length(h))
  }

  /** SetHeader finds in an update the header that was sealed. */
  lemma SealedUpdate(c: Crypto, key: XtsKey, u: Header)
    requires Lawful(c) && IsKey(key) && Sealable(u)
    ensures var sealed := Seal(c, key, u);
            && |sealed| == Length(u) >= DC_AREA_SIZE && OpenBase(c, key, sealed) == Some(u.base)
            && (u.base.version >= DC_HDR_VERSION_2 ==> UpdateTail(c, key, Length(u), sealed, u.base) == u.tail)
  {
    hide Seal, Fits, RawAt, OpenBase, SumClear;
    SealParts(c, key, u);
    OpensBySum(c, key, u, Seal(c, key, u));
    ClearSumHolds(c, key, u);
    OpenTailOfSealed(c, key, u, []);
    var tail := ImageTail(Seal(c, key, u));
    assert tail + [] == tail && tail[..|tail|] == tail && u.tail + [] == u.tail;
    assert c.dec(key, tail) + tail[|tail|..] == c.dec(key, tail);
    assert Seal(c, key, u)[DC_BASE_SIZE..Length(u)] == tail;
  }

  /** The same for the merge of an update that says what it is for. */
  lemma MergedByte(h: Header, headLen: nat, u: Base, update: seq<byte>, ext: Option<seq<byte>>, p: Parts, noise: seq<byte>, noise': seq<byte>, k: nat)
    requires k < |h.tail| == |update| && Merged(h, headLen, u, update, ext, p, noise, noise').Intact?
    ensures var r := Merged(h, headLen, u, update, ext, p, noise, noise').header;
            var b, moved := r.base, p.base && !SameLayout(h.base, u);
            && |r.tail| == |h.tail|
            && r.tail[k] ==
               if ext.Some? && (p.base || p.ext) && b.extHdrOff != 0 && b.extHdrOff <= DC_BASE_SIZE + k < b.extHdrOff + |ext.value|
               then ext.value[DC_BASE_SIZE + k - b.extHdrOff]
               else if (p.slots || moved) && HasSlotFlag(b) && k < b.slotAreaLen + b.keySlotCount * b.slotInfoSize
               then if !p.clear then update[k] else if k < b.slotAreaLen then At(noise', k) else 0
               else if moved && DC_BASE_SIZE + SlotBytes(h.base) <= headLen && k < SlotBytes(h.base) then At(noise, k)
               else h.tail[k]
  {
    hide SameLayout;
    var moved := p.base && !SameLayout(h.base, u);
    var b := if p.base then MergedBase(h.base, u) else h.base;
    var q := if p.base then p.(slots := p.slots || moved, ext := p.ext || ext.Some?) else p;
    var tail := if moved then Drowned(h, headLen, noise) else h.tail;
    var slots := MergedSlots(b, tail, update, q, noise');
    SlotByte(b, tail, update, q, noise', k);
    hide MergedSlots, Drowned, MergedBase;
    assert Merged(h, headLen, u, update, ext, p, noise, noise') == PutExt(Header(h.salt, b, slots), headLen, ext, q);
    ExtByte(Header(h.salt, b, slots), headLen, ext, q, k);
    DrownedByte(h, headLen, noise, k);
  }

  lemma SlotByte(b: Base, tail: seq<byte>, update: seq<byte>, q: Parts, noise: seq<byte>, k: nat)
    requires k < |tail| == |update|
    ensures var t := MergedSlots(b, tail, update, q, noise);
            && |t| == |tail|
            && t[k] == if q.slots && HasSlotFlag(b) && k < b.slotAreaLen + b.keySlotCount * b.slotInfoSize
                       then if !q.clear then update[k] else if k < b.slotAreaLen then At(noise, k) else 0
                       else tail[k]
  {
  }

  lemma ExtByte(h: Header, headLen: nat, ext: Option<seq<byte>>, q: Parts, k: nat)
    requires k < |h.tail| && PutExt(h, headLen, ext, q).Intact?
    ensures var r, at := PutExt(h, headLen, ext, q).header, h.base.extHdrOff;
            && r.salt == h.salt && r.base == h.base && |r.tail| == |h.tail|
            && r.tail[k] == if q.ext && ext.Some? && at != 0 && at <= DC_BASE_SIZE + k < at + |ext.value| then ext.value[DC_BASE_SIZE + k - at] else h.tail[k]
  {
  }

  lemma DrownedByte(h: Header, headLen: nat, noise: seq<byte>, k: nat)
    requires k < |h.tail|
    ensures var t := Drowned(h, headLen, noise);
            |t| == |h.tail| && t[k] == if DC_BASE_SIZE + SlotBytes(h.base) <= headLen && k < SlotBytes(h.base) then At(noise, k) else h.tail[k]
  {
  }

  /**
   * Every byte behind the base after an update of the same version: it is the extended header's, or the slots', or
   * what is left of slots that have moved, or what it was.
   */
  lemma UpdateBytes(c: Crypto, h: Header, key: XtsKey, headLen: nat, sealed: seq<byte>, p: Parts, noise: seq<byte>, noise': seq<byte>, k: nat)
    requires Sized(c) && DC_AREA_SIZE <= headLen <= |sealed| && HeaderLen(h.base) == Ok(headLen) && headLen == Length(h)
    requires SameVersion(c, h, key, sealed) && k < |h.tail|
    requires var r := Edited(c, h, key, headLen, sealed, p, noise, noise'); r.Ok? && r.value.Intact?
    ensures var r, u := Edited(c, h, key, headLen, sealed, p, noise, noise').value.header, OpenBase(c, key, sealed).value;
            var update, b := UpdateTail(c, key, headLen, sealed, u), r.base;
            var ext := ExtHeader(c, u, update);
            var all, was := !(p.base || p.slots || p.ext || p.clear), h.base.slotAreaLen + h.base.keySlotCount * h.base.slotInfoSize;
            var moved := (p.base || all) && (h.base.slotAreaLen != u.slotAreaLen || h.base.keySlotCount != u.keySlotCount || h.base.slotInfoSize != u.slotInfoSize);
            && |r.tail| == |h.tail| == |update|
            && r.tail[k] ==
               if ext.Some? && (p.base || p.ext || all) && b.extHdrOff != 0 && b.extHdrOff <= DC_BASE_SIZE + k < b.extHdrOff + |ext.value|
               then ext.value[DC_BASE_SIZE + k - b.extHdrOff]
               else if (p.slots || p.clear || all || moved) && HasSlotFlag(b) && k < b.slotAreaLen + b.keySlotCount * b.slotInfoSize
               then if !p.clear then update[k] else if k < b.slotAreaLen then At(noise', k) else 0
               else if moved && DC_BASE_SIZE + was <= headLen && k < was then At(noise, k)
               else h.tail[k]
  {
    hide ExtHeader, OpenBase, UpdateTail, Edited, Merged, HeaderLen, MergedBase;
    var u, update, ext := UpdateParts(c, h, key, headLen, sealed, p, noise, noise');
    MergedKeeps(h, headLen, u, update, ext, Normalised(p), noise, noise');
    MergedByte(h, headLen, u, update, ext, Normalised(p), noise, noise', k);
  }

  // ----- when an update is taken

  lemma PeekParts(tail: seq<byte>, at: nat, bytes: seq<byte>)
    requires |bytes| >= 10 && Peek(tail, at, |bytes|) == bytes
    ensures Le32(tail, at + 4) == Le32(bytes, 4) && Peek(tail, at, 4) == bytes[..4] && Peek(tail, at + 4, |bytes| - 4) == bytes[4..]
  {
    assert forall k: nat | k < |bytes| :: At(tail, at + k) == bytes[k];
    assert At(tail, at + 4 + 1) == bytes[5] && At(tail, at + 4 + 2) == bytes[6] && At(tail, at + 4 + 3) == bytes[7];
  }

  /** An extended header is found where the base says it is, if its size field and its CRC are right. */
  lemma ExtHeaderFound(c: Crypto, b: Base, tail: seq<byte>, bytes: seq<byte>)
    requires b.version >= DC_HDR_VERSION_2 && AreaEnd(b) <= b.extHdrOff && b.extHdrOff + |bytes| <= b.headLen && |bytes| >= 10
    requires Peek(tail, b.extHdrOff - DC_BASE_SIZE, |bytes|) == bytes
    ensures ExtHeader(c, b, tail) == Some(bytes) <==> Le32(bytes, 4) == |bytes| && bytes[..4] == c.crc(bytes[4..], [])
  {
    assert AreaEnd(b) >= DC_BASE_SIZE;
    hide AreaEnd;
    var at := b.extHdrOff - DC_BASE_SIZE;
    PeekParts(tail, at, bytes);
    hide Le32;
    hide Peek;
  }

  /** What an update may not change, and what it must bring. */
  predicate MayReplace(c: Crypto, h: Header, u: Header) {
    && Length(u) == Length(h) && u.base.alg == h.base.alg && u.base.key1 == h.base.key1 && u.base.tmpSize == h.base.tmpSize
    && (u.base.version == h.base.version >= DC_HDR_VERSION_2 ==> u.base.extHdrOff == 0 || ExtHeader(c, u.base, u.tail).Some?)
  }

  lemma EditTaken(c: Crypto, h: Header, key: XtsKey, u: Header, p: Parts, noise: seq<byte>, noise': seq<byte>)
    requires Lawful(c) && IsKey(key) && Sealable(u) && HeaderLen(h.base) == Ok(Length(h)) && Length(u) >= Length(h) >= DC_AREA_SIZE
    ensures |Seal(c, key, u)| == Length(u)
    ensures var r := Edited(c, h, key, Length(h), Seal(c, key, u), p, noise, noise');
            (r.Ok? <==> MayReplace(c, h, u)) && (r.Err? ==> r.code == ERR_INVALID_PARAM)
  {
    hide Seal, Fits, WellLaid, OpenBase, UpdateTail, ExtHeader, Merged, SealsBase;
    SealedUpdate(c, key, u);
  }

  /**
   * A header sealed under the volume's key is taken exactly when the password is the header's own, and the length,
   * the cipher, the master key and the re-encryption position are those of the volume; one of the same version has
   * to bring a valid extended header, if it names one.
   */
  lemma UpdateTaken(c: Crypto, disk: seq<byte>, key: XtsKey, h: Header, editor: Pass, u: Header, p: Parts, noise: seq<byte>, noise': seq<byte>)
    requires OnDisk(c, disk, key, h) && Sealable(u)
    ensures |Seal(c, key, u)| == Length(u)
    ensures var o, r := ReadHeader(c, disk, editor), SetHeader(c, disk, editor, Seal(c, key, u), p, noise, noise');
            && (r.Ok? <==> o.Ok? && o.value.slot == 0 && MayReplace(c, h, u))
            && (r.Err? ==> r.code == if o.Err? then o.code else ERR_INVALID_PARAM)
  {
    hide Seal, Fits, WellLaid, OpenBase, ReadHeader, Edited, SetHeader, ExtHeader;
    SealedUpdate(c, key, u);
    ReadsHeader(c, disk, key, h, editor);
    SetHeaderSteps(c, disk, editor, Seal(c, key, u), p, noise, noise');
    if Length(u) >= Length(h) && ReadHeader(c, disk, editor).Ok? {
      SameSize(ReadHeader(c, disk, editor).value.header, h);
      EditTaken(c, h, key, u, p, noise, noise');
    }
  }

  lemma SameSize(o: Header, h: Header)
    requires Cut(o) == h && HeaderLen(h.base) == Ok(Length(h))
    ensures HeaderLen(o.base) == Ok(Length(h)) && Length(h) >= DC_AREA_SIZE
  {
  }

  // ----- what comes of it

  /** An extended header that goes back to where it was found stays in the tail. */
  lemma OwnExtFits(c: Crypto, h: Header, p: Parts)
    requires HeaderLen(h.base) == Ok(Length(h)) && h.base.version >= DC_HDR_VERSION_2
    ensures ExtCopyFits(h.base, Length(h), ExtHeader(c, h.base, h.tail), p)
  {
  }

  /** The header itself as the update: nothing changes, whatever is selected, unless the slots are to be cleared. */
  lemma OwnHeader(c: Crypto, h: Header, key: XtsKey, p: Parts, noise: seq<byte>, noise': seq<byte>)
    requires Lawful(c) && IsKey(key) && Sealable(h) && !p.clear && MayReplace(c, h, h)
    ensures |Seal(c, key, h)| == Length(h) >= DC_AREA_SIZE
    ensures Edited(c, h, key, Length(h), Seal(c, key, h), p, noise, noise') == Ok(Intact(h))
  {
    hide Seal, Fits, WellLaid, OpenBase, UpdateTail, ExtHeader, Merged, SealsBase, Edited, HeaderLen;
    SealedUpdate(c, key, h);
    EditTaken(c, h, key, h, p, noise, noise');
    var e := Edited(c, h, key, Length(h), Seal(c, key, h), p, noise, noise').value;
    if h.base.version >= DC_HDR_VERSION_2 {
      OwnExtFits(c, h, Normalised(p));
      UpdateKeeps(c, h, key, Length(h), Seal(c, key, h), p, noise, noise');
      FieldsSelected(c, h, key, Length(h), Seal(c, key, h), p, noise, noise');
      forall k | 0 <= k < |h.tail|
        ensures |e.header.tail| == |h.tail| && e.header.tail[k] == h.tail[k]
      {
        UpdateBytes(c, h, key, Length(h), Seal(c, key, h), p, noise, noise', k);
        OwnExtByte(c, h, k);
      }
      assert e.header.tail == h.tail && e.header.base == h.base;
    } else {
      OldVersionKept(c, h, key, Seal(c, key, h), p, noise, noise');
    }
  }

  /** The bytes of the extended header are those of the header it is in. */
  lemma OwnExtByte(c: Crypto, h: Header, k: nat)
    requires HeaderLen(h.base) == Ok(Length(h)) && k < |h.tail|
    ensures var ext := ExtHeader(c, h.base, h.tail);
            ext.Some? && h.base.extHdrOff <= DC_BASE_SIZE + k < h.base.extHdrOff + |ext.value| ==>
              ext.value[DC_BASE_SIZE + k - h.base.extHdrOff] == h.tail[k]
  {
    hide Le32;
  }

  lemma OldVersionKept(c: Crypto, h: Header, key: XtsKey, sealed: seq<byte>, p: Parts, noise: seq<byte>, noise': seq<byte>)
    requires Sized(c) && DC_AREA_SIZE <= Length(h) <= |sealed| && OpenBase(c, key, sealed) == Some(h.base) && h.base.version < DC_HDR_VERSION_2
    ensures var r := Edited(c, h, key, Length(h), sealed, p, noise, noise'); r.Ok? ==> r.value == Intact(h)
  {
    hide OpenBase, UpdateTail, Merged;
  }

  /** An editor that changes nothing leaves the disk as it is. */
  lemma UnchangedUpdate(c: Crypto, disk: seq<byte>, key: XtsKey, h: Header, editor: Pass, p: Parts, noise: seq<byte>, noise': seq<byte>)
    requires OnDisk(c, disk, key, h) && !p.clear && ReadHeader(c, disk, editor).Ok? && ReadHeader(c, disk, editor).value.slot == 0
    requires h.base.version < DC_HDR_VERSION_2 || h.base.extHdrOff == 0 || ExtHeader(c, h.base, h.tail).Some?
    ensures SetHeader(c, disk, editor, disk[..Length(h)], p, noise, noise') == Ok(Disk(disk))
  {
    hide Seal, Fits, OpenBase, ReadHeader, Edited, SetHeader, ExtHeader, SumInArea, HeaderLen, Check;
    OwnHeader(c, h, key, p, noise, noise');
    ReadsHeader(c, disk, key, h, editor);
    SetHeaderSteps(c, disk, editor, Seal(c, key, h), p, noise, noise');
    SameSize(ReadHeader(c, disk, editor).value.header, h);
    assert Poke(disk, 0, disk[..Length(h)]) == disk;
  }

  /**
   * After an update of the same version that was taken, whoever opens the header with its password reads the fields
   * the editor set, and the others as they were; and the password does open it if the checksum in force ends before
   * the slots.
   */
  lemma UpdateReadBack(c: Crypto, disk: seq<byte>, key: XtsKey, h: Header, editor: Pass, u: Header, p: Parts,
                       noise: seq<byte>, noise': seq<byte>, pw: Pass, kdf: int)
    requires OnDisk(c, disk, key, h) && IsHeaderPass(c, h, key, pw.text, kdf) && Tries(pw.kdf, kdf) && pw.slot <= 0
    requires Sealable(u) && u.base.version == h.base.version >= DC_HDR_VERSION_2 && |Seal(c, key, u)| == Length(u)
    requires var r := SetHeader(c, disk, editor, Seal(c, key, u), p, noise, noise'); r.Ok? && r.value.Disk?
    ensures var base := p.base || !(p.slots || p.ext || p.clear);
            var r := ReadHeader(c, SetHeader(c, disk, editor, Seal(c, key, u), p, noise, noise').value.bytes, pw);
            && (SumBeforeSlots(if base then u.base else h.base) ==> r.Ok?)
            && (r.Ok? ==>
                  var b := r.value.header.base;
                  && r.value.key == key && r.value.header.salt == h.salt
                  && (if base then
                        && b.flags == u.base.flags && b.diskId == u.base.diskId && b.footerCnt == u.base.footerCnt
                        && b.extHdrOff == u.base.extHdrOff && b.featureFlags == u.base.featureFlags
                        && b.slotAreaLen == u.base.slotAreaLen && b.keySlotCount == u.base.keySlotCount && b.slotInfoSize == u.base.slotInfoSize
                        && b.version == h.base.version && b.alg == h.base.alg && b.key1 == h.base.key1 && b.tmpSize == h.base.tmpSize
                        && b.storLen == h.base.storLen && b.headLen == h.base.headLen && b.headKdf == h.base.headKdf && b.other == h.base.other
                      else b == h.base))
  {
    hide Seal, Fits, WellLaid, OpenBase, ReadHeader, Edited, SetHeader, ExtHeader, SumHolds, SumBeforeSlots, SealsBase;
    SealedUpdate(c, key, u);
    UpdateTaken(c, disk, key, h, editor, u, p, noise, noise');
    SetHeaderReadable(c, disk, key, h, editor, Seal(c, key, u), p, noise, noise', pw, kdf);
    FieldsSelected(c, h, key, Length(h), Seal(c, key, u), p, noise, noise');
  }

  /**
   * A change of version takes the whole base, with the length of the header kept, but of the rest only what the first
   * DC_AREA_SIZE bytes hold and is not stored raw: a slot comes out as what its bytes decrypt to.
   */
  lemma VersionSwitched(c: Crypto, h: Header, key: XtsKey, u: Header, p: Parts, noise: seq<byte>, noise': seq<byte>)
    requires Lawful(c) && IsKey(key) && Sealable(u) && HeaderLen(h.base) == Ok(Length(h)) && MayReplace(c, h, u) && u.base.version != h.base.version
    ensures |Seal(c, key, u)| == Length(u) == Length(h) >= DC_AREA_SIZE
    ensures var r := Edited(c, h, key, Length(h), Seal(c, key, u), p, noise, noise');
            && r.Ok? && r.value.Intact? && r.value.header.salt == h.salt && |r.value.header.tail| == |h.tail|
            && r.value.header.base == (var len := if u.base.version >= DC_HDR_VERSION_2 then Length(h) else 0; u.base.(headLen := len, storLen := len))
            && forall k | 0 <= k < |h.tail| ::
                 if k >= DC_AREA_SIZE - DC_BASE_SIZE then r.value.header.tail[k] == 0
                 else RawAt(u.base, u.tail, k) || r.value.header.tail[k] == u.tail[k]
  {
    hide Seal, Fits, WellLaid, OpenBase, UpdateTail, ExtHeader, Merged, SealsBase, RawAt;
    SealedUpdate(c, key, u);
    EditTaken(c, h, key, u, p, noise, noise');
    var sealed, n := Seal(c, key, u), DC_AREA_SIZE - DC_BASE_SIZE;
    var stored := ImageTail(sealed);
    assert sealed[DC_BASE_SIZE..DC_AREA_SIZE] == stored[..n];
    assert c.dec(key, stored[..n]) == c.dec(key, stored)[..n];
    forall k | 0 <= k < n && !RawAt(u.base, u.tail, k)
      ensures c.dec(key, stored)[k] == u.tail[k]
    {
      SealedByte(c, key, u, k);
    }
  }
}
