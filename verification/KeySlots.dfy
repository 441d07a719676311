/** Key slots: what volume_head.c and head_util.c do to the slots and descriptors of a header in the clear. */
module KeySlots {
  import opened Bytes
  import opened Results
  import opened VolumeHeader
  import opened HeaderOpen

  /** `n` bytes from `at` on, zero past the end. */
  function Peek(tail: seq<byte>, at: nat, n: nat): (r: seq<byte>)
    ensures |r| == n
    ensures forall k | 0 <= k < n :: r[k] == At(tail, at + k)
  {
    seq(n, k requires 0 <= k => At(tail, at + k))
  }

  /** `data` put at `at`, as far as there is room. */
  function Poke(tail: seq<byte>, at: nat, data: seq<byte>): (r: seq<byte>)
    ensures |r| == |tail|
    ensures forall k | 0 <= k < |tail| :: r[k] == if at <= k < at + |data| then data[k - at] else tail[k]
  {
    seq(|tail|, k requires 0 <= k < |tail| => if at <= k < at + |data| then data[k - at] else tail[k])
  }

  /** Where slot i and its descriptor start in the tail. */
  function SlotOffset(b: Base, i: nat): nat {
    SlotSize(b) * i
  }

  function InfoOffset(b: Base, i: nat): nat {
    b.slotAreaLen + b.slotInfoSize * i
  }

  /** A descriptor is its CRC (4 bytes), flags (4), type (2), name (20) and the slot's KDF. */
  const FLAGS_AT := 4
  const TYPE_AT := 8
  const NAME_AT := 10
  const KDF_AT := 30

  function SlotType(b: Base, tail: seq<byte>, i: nat): seq<byte> {
    Peek(tail, InfoOffset(b, i) + TYPE_AT, 2)
  }

  function SlotName(b: Base, tail: seq<byte>, i: nat): seq<byte> {
    Peek(tail, InfoOffset(b, i) + NAME_AT, 20)
  }

  function SlotKdf(b: Base, tail: seq<byte>, i: nat): byte {
    At(tail, InfoOffset(b, i) + KDF_AT)
  }

  /** The CRC over the descriptor past its first field and over the slot. */
  function SlotCrc(c: Crypto, b: Base, tail: seq<byte>, i: nat): seq<byte> {
    c.crc(Peek(tail, InfoOffset(b, i) + FLAGS_AT, if b.slotInfoSize < FLAGS_AT then 0 else b.slotInfoSize - FLAGS_AT),
          Peek(tail, SlotOffset(b, i), SlotSize(b)))
  }

  function RefreshCrc(c: Crypto, b: Base, tail: seq<byte>, i: nat): seq<byte> {
    Poke(tail, InfoOffset(b, i), SlotCrc(c, b, tail, i))
  }

  /** The slot is active, not marked corrupt, and its CRC is right. */
  predicate SlotUsed(c: Crypto, b: Base, tail: seq<byte>, i: nat) {
    && SlotFlags(b, tail, i) & SF_ACTIVE != 0 && SlotFlags(b, tail, i) & SF_CORRUPT == 0
    && Peek(tail, InfoOffset(b, i), 4) == SlotCrc(c, b, tail, i)
  }

  ghost predicate AnyUsed(c: Crypto, b: Base, tail: seq<byte>, from: nat) {
    exists i | from <= i < b.keySlotCount :: SlotUsed(c, b, tail, i)
  }

  function KdfByte(kdf: int): byte {
    (kdf % 256) as byte
  }

  /** The descriptor and the key of slot i replaced, its CRC not yet refreshed. */
  function PutSlot(b: Base, tail: seq<byte>, i: nat, flags: byte, kdf: int, slotKey: seq<byte>): seq<byte> {
    var t := Poke(Poke(tail, InfoOffset(b, i) + FLAGS_AT, [flags]), InfoOffset(b, i) + TYPE_AT, [0, 0]);
    Poke(Poke(t, InfoOffset(b, i) + KDF_AT, [KdfByte(kdf)]), SlotOffset(b, i), slotKey)
  }

  /** dc_change_slot_pass: the header key `dk` wrapped under the slot key `sk`. */
  function SetSlot(c: Crypto, b: Base, tail: seq<byte>, i: nat, sk: seq<byte>, dk: seq<byte>, kdf: int): seq<byte> {
    RefreshCrc(c, b, PutSlot(b, tail, i, (SlotFlags(b, tail, i) | SF_ACTIVE) & !SF_CORRUPT, kdf, Xor(sk, dk)), i)
  }

  /** cp_set_slot, clearing: no descriptor, and random bytes in the slot. */
  function EraseSlot(c: Crypto, b: Base, tail: seq<byte>, i: nat, noise: seq<byte>): seq<byte> {
    var t := Poke(tail, InfoOffset(b, i), Zeros(b.slotInfoSize));
    RefreshCrc(c, b, Poke(t, SlotOffset(b, i), Peek(noise, SlotOffset(b, i), SlotSize(b))), i)
  }

  /** One turn of dc_update_key_slots: a slot in use is wrapped anew, any other one is filled with random bytes. */
  function UpdateSlot(c: Crypto, b: Base, tail: seq<byte>, i: nat, oldDk: seq<byte>, newDk: seq<byte>, noise: seq<byte>): seq<byte> {
    if SlotUsed(c, b, tail, i) then
      RefreshCrc(c, b, Poke(tail, SlotOffset(b, i), Xor(Xor(Peek(tail, SlotOffset(b, i), PKCS_DERIVE_MAX), oldDk), newDk)), i)
    else
      var flags := SlotFlags(b, tail, i);
      var spoilt := flags & SF_ACTIVE != 0 && flags & SF_CORRUPT == 0;
      var t := if spoilt then Poke(tail, InfoOffset(b, i) + FLAGS_AT, [flags | SF_CORRUPT]) else tail;
      Poke(Poke(t, SlotOffset(b, i), Peek(noise, SlotOffset(b, i), SlotSize(b))), InfoOffset(b, i), Zeros(4))
  }

  /** The tail after the update, and whether any slot was in use. */
  datatype Update = Update(tail: seq<byte>, used: bool)

  /** dc_update_key_slots from slot i on. A slot of an unknown type stops it. */
  function UpdateSlots(c: Crypto, b: Base, u: Update, i: nat, oldDk: seq<byte>, newDk: seq<byte>, noise: seq<byte>): Result<Update>
    decreases b.keySlotCount - i
  {
    if i >= b.keySlotCount then Ok(u)
    else if SlotUsed(c, b, u.tail, i) && SlotType(b, u.tail, i) != [0, 0] then Err(ERR_INTERNAL)
    else
      var u' := Update(UpdateSlot(c, b, u.tail, i, oldDk, newDk, noise), u.used || SlotUsed(c, b, u.tail, i));
      UpdateSlots(c, b, u', i + 1, oldDk, newDk, noise)
  }

  // ----- slots as CreateHeader lays them out

  ghost predicate Standard(b: Base, tail: seq<byte>) {
    && b.version >= DC_HDR_VERSION_2 && HasSlotFlag(b) && 0 < b.keySlotCount <= KEY_SLOT_MAX
    && b.slotAreaLen == PKCS_DERIVE_MAX * b.keySlotCount && b.slotInfoSize == SLOT_INFO_SIZE
    && SlotsEnd(b) <= DC_BASE_SIZE + |tail|
  }

  lemma StandardSizes(b: Base, tail: seq<byte>, i: nat)
    requires Standard(b, tail) && i < b.keySlotCount
    ensures SlotSize(b) == PKCS_DERIVE_MAX && SlotOffset(b, i) == 192 * i && InfoOffset(b, i) == 192 * b.keySlotCount + 32 * i
    ensures 192 * i + 192 <= 192 * b.keySlotCount && InfoOffset(b, i) + 32 <= |tail|
  {
    QuotientIs(b.slotAreaLen, b.keySlotCount, 192);
    assert b.slotInfoSize * i == 32 * i && b.keySlotCount * b.slotInfoSize == 32 * b.keySlotCount;
  }

  /** Slot i's key and descriptor are the same in both. */
  ghost predicate SameSlots(c: Crypto, b: Base, tail: seq<byte>, tail': seq<byte>, i: nat) {
    && Peek(tail', 192 * i, 192) == Peek(tail, 192 * i, 192)
    && Peek(tail', InfoOffset(b, i), 32) == Peek(tail, InfoOffset(b, i), 32)
  }

  /** A change that stays inside slot i and its descriptor. */
  ghost predicate Touches(b: Base, tail: seq<byte>, tail': seq<byte>, i: nat) {
    && |tail'| == |tail|
    && forall k | 0 <= k < |tail| && tail'[k] != tail[k] ::
         192 * i <= k < 192 * i + 192 || InfoOffset(b, i) <= k < InfoOffset(b, i) + 32
  }

  lemma TouchesOne(c: Crypto, b: Base, tail: seq<byte>, tail': seq<byte>, i: nat, j: nat)
    requires Standard(b, tail) && i < b.keySlotCount && j < b.keySlotCount && i != j && Touches(b, tail, tail', i)
    ensures SameSlots(c, b, tail, tail', j)
  {
    StandardSizes(b, tail, i);
    StandardSizes(b, tail, j);
    assert forall k: nat | 192 * j <= k < 192 * j + 192 :: At(tail', k) == At(tail, k);
    assert forall k: nat | InfoOffset(b, j) <= k < InfoOffset(b, j) + 32 :: At(tail', k) == At(tail, k);
  }

  /** What a slot means depends on its key and its descriptor only. */
  lemma SameMeaning(c: Crypto, b: Base, tail: seq<byte>, tail': seq<byte>, i: nat)
    requires Standard(b, tail) && i < b.keySlotCount && |tail'| == |tail| && SameSlots(c, b, tail, tail', i)
    ensures SlotUsed(c, b, tail', i) == SlotUsed(c, b, tail, i) && SlotFlags(b, tail', i) == SlotFlags(b, tail, i)
    ensures SlotType(b, tail', i) == SlotType(b, tail, i) && SlotKey(tail', i) == SlotKey(tail, i)
  {
    StandardSizes(b, tail, i);
    var o := InfoOffset(b, i);
    forall k: nat | o <= k < o + 32
      ensures At(tail', k) == At(tail, k)
    {
      assert Peek(tail', o, 32)[k - o] == Peek(tail, o, 32)[k - o];
    }
    assert Peek(tail', o + 4, 28) == Peek(tail, o + 4, 28);
    assert Peek(tail', o, 4) == Peek(tail, o, 4);
    assert Peek(tail', o + 8, 2) == Peek(tail, o + 8, 2);
    forall k | 192 * i <= k < 192 * i + 192
      ensures tail'[k] == tail[k]
    {
      assert Peek(tail', 192 * i, 192)[k - 192 * i] == Peek(tail, 192 * i, 192)[k - 192 * i];
    }
  }

  /** A slot whose CRC has just been refreshed. */
  lemma Refreshed(c: Crypto, b: Base, tail: seq<byte>, i: nat)
    requires Standard(b, tail) && i < b.keySlotCount && forall a, d :: |c.crc(a, d)| == 4
    ensures var t := RefreshCrc(c, b, tail, i);
            && Touches(b, tail, t, i) && SlotKey(t, i) == SlotKey(tail, i)
            && SlotFlags(b, t, i) == SlotFlags(b, tail, i) && SlotType(b, t, i) == SlotType(b, tail, i)
            && Peek(t, InfoOffset(b, i), 4) == SlotCrc(c, b, t, i)
            && SlotKdf(b, t, i) == SlotKdf(b, tail, i) && SlotName(b, t, i) == SlotName(b, tail, i)
  {
    StandardSizes(b, tail, i);
    var t, o := RefreshCrc(c, b, tail, i), InfoOffset(b, i);
    assert Peek(t, o + 4, 28) == Peek(tail, o + 4, 28);
    assert Peek(t, 192 * i, 192) == Peek(tail, 192 * i, 192);
    assert Peek(t, o + 8, 2) == Peek(tail, o + 8, 2);
    assert SlotName(b, t, i) == SlotName(b, tail, i);
    assert Peek(t, o, 4) == SlotCrc(c, b, tail, i);
  }

  lemma PutSlotHolds(b: Base, tail: seq<byte>, i: nat, flags: byte, kdf: int, slotKey: seq<byte>)
    requires Standard(b, tail) && i < b.keySlotCount && |slotKey| == 192
    ensures var t := PutSlot(b, tail, i, flags, kdf, slotKey);
            && Touches(b, tail, t, i) && SlotKey(t, i) == slotKey && SlotType(b, t, i) == [0, 0] && SlotFlags(b, t, i) == flags
            && SlotKdf(b, t, i) == KdfByte(kdf) && SlotName(b, t, i) == SlotName(b, tail, i)
  {
    hide Standard;
    StandardSizes(b, tail, i);
  }

  lemma SetSlotHolds(c: Crypto, b: Base, tail: seq<byte>, i: nat, sk: seq<byte>, dk: seq<byte>, kdf: int)
    requires Standard(b, tail) && i < b.keySlotCount && |sk| == 192 && |dk| == 192 && forall a, d :: |c.crc(a, d)| == 4
    ensures var t := SetSlot(c, b, tail, i, sk, dk, kdf);
            && Touches(b, tail, t, i) && SlotKey(t, i) == Xor(sk, dk) && SlotUsed(c, b, t, i) && SlotType(b, t, i) == [0, 0]
            && SlotFlags(b, t, i) & SF_DISABLED == SlotFlags(b, tail, i) & SF_DISABLED
            && SlotKdf(b, t, i) == (kdf % 256) as byte && SlotName(b, t, i) == SlotName(b, tail, i)
  {
    hide PutSlot, RefreshCrc, SlotCrc, SlotType, SlotFlags, SlotKey, SlotKdf, SlotName;
    var flags := (SlotFlags(b, tail, i) | SF_ACTIVE) & !SF_CORRUPT;
    var t := PutSlot(b, tail, i, flags, kdf, Xor(sk, dk));
    StandardSizes(b, tail, i);
    PutSlotHolds(b, tail, i, flags, kdf, Xor(sk, dk));
    Refreshed(c, b, t, i);
  }

  lemma EraseSlotHolds(c: Crypto, b: Base, tail: seq<byte>, i: nat, noise: seq<byte>)
    requires Standard(b, tail) && i < b.keySlotCount && forall a, d :: |c.crc(a, d)| == 4
    ensures var t := EraseSlot(c, b, tail, i, noise);
            Touches(b, tail, t, i) && SlotFlags(b, t, i) == 0 && SlotKey(t, i) == Peek(noise, 192 * i, 192)
  {
    StandardSizes(b, tail, i);
    var o := InfoOffset(b, i);
    var t1 := Poke(Poke(tail, o, Zeros(32)), 192 * i, Peek(noise, 192 * i, 192));
    assert SlotFlags(b, t1, i) == 0;
    assert SlotKey(t1, i) == Peek(noise, 192 * i, 192);
    Refreshed(c, b, t1, i);
  }

  /** A slot in use stays in use, with the old header key taken off and the new one put on. */
  lemma UpdateUsed(c: Crypto, b: Base, tail: seq<byte>, i: nat, oldDk: seq<byte>, newDk: seq<byte>, noise: seq<byte>)
    requires Standard(b, tail) && i < b.keySlotCount && SlotUsed(c, b, tail, i) && forall a, d :: |c.crc(a, d)| == 4
    requires |oldDk| == 192 && |newDk| == 192
    ensures var t := UpdateSlot(c, b, tail, i, oldDk, newDk, noise);
            && Touches(b, tail, t, i) && SlotUsed(c, b, t, i)
            && SlotFlags(b, t, i) == SlotFlags(b, tail, i) && SlotType(b, t, i) == SlotType(b, tail, i)
            && SlotKey(t, i) == Xor(Xor(SlotKey(tail, i), oldDk), newDk)
  {
    hide Xor, SlotCrc;
    StandardSizes(b, tail, i);
    assert SlotKey(tail, i) == Peek(tail, 192 * i, 192);
    var t1 := Poke(tail, 192 * i, Xor(Xor(SlotKey(tail, i), oldDk), newDk));
    assert SlotKey(t1, i) == Xor(Xor(SlotKey(tail, i), oldDk), newDk);
    assert SlotType(b, t1, i) == SlotType(b, tail, i);
    Refreshed(c, b, t1, i);
  }

  /** A slot not in use stays that way. */
  lemma UpdateUnused(c: Crypto, b: Base, tail: seq<byte>, i: nat, oldDk: seq<byte>, newDk: seq<byte>, noise: seq<byte>)
    requires Standard(b, tail) && i < b.keySlotCount && !SlotUsed(c, b, tail, i)
    ensures var t := UpdateSlot(c, b, tail, i, oldDk, newDk, noise);
            && Touches(b, tail, t, i) && !SlotUsed(c, b, t, i)
            && SlotFlags(b, t, i) & SF_DISABLED == SlotFlags(b, tail, i) & SF_DISABLED
            && SlotFlags(b, t, i) & SF_ACTIVE == SlotFlags(b, tail, i) & SF_ACTIVE
            && SlotKey(t, i) == Peek(noise, 192 * i, 192)
  {
    StandardSizes(b, tail, i);
    var t := UpdateSlot(c, b, tail, i, oldDk, newDk, noise);
    assert SlotKey(t, i) == Peek(noise, 192 * i, 192);
  }

  /**
   * In bytes: the descriptors of 32 bytes follow the n slots of 192, and a slot is in use if bit 0 of its flags is
   * set, bit 2 is not, and the CRC at the front of its descriptor is that of the other 28 bytes and of the slot.
   */
  lemma UsedExactly(c: Crypto, b: Base, tail: seq<byte>, i: nat)
    requires Standard(b, tail) && i < b.keySlotCount
    ensures var info := 192 * b.keySlotCount + 32 * i;
            && info + 32 <= |tail| && 192 * i + 192 <= |tail|
            && (SlotUsed(c, b, tail, i) <==>
                  tail[info + 4] & 1 == 1 && tail[info + 4] & 4 == 0 && tail[info..info + 4] == c.crc(tail[info + 4..info + 32], tail[192 * i..192 * i + 192]))
  {
    hide Standard;
    StandardSizes(b, tail, i);
    var info := 192 * b.keySlotCount + 32 * i;
    StandardInfo(b, tail);
    assert InfoOffset(b, i) == info && SlotOffset(b, i) == 192 * i && SlotSize(b) == 192;
    assert SlotFlags(b, tail, i) == tail[info + 4];
    assert Peek(tail, info, 4) == tail[info..info + 4] && Peek(tail, info + 4, 28) == tail[info + 4..info + 32];
    assert Peek(tail, 192 * i, 192) == tail[192 * i..192 * i + 192];
    Bit0(tail[info + 4]);
  }

  lemma StandardInfo(b: Base, tail: seq<byte>)
    requires Standard(b, tail)
    ensures b.slotInfoSize == 32
  {
  }

  lemma Bit0(f: byte)
    ensures f & 1 == 1 <==> f & 1 != 0
  {
  }

  // ----- dc_update_key_slots as a whole

  /** What dc_update_key_slots makes of slot j. */
  ghost predicate Updated(c: Crypto, b: Base, tail: seq<byte>, t: seq<byte>, j: nat, oldDk: seq<byte>, newDk: seq<byte>)
    requires Standard(b, tail) && j < b.keySlotCount && |t| == |tail|
  {
    StandardSizes(b, tail, j);
    && SlotUsed(c, b, t, j) == SlotUsed(c, b, tail, j)
    && SlotFlags(b, t, j) & SF_DISABLED == SlotFlags(b, tail, j) & SF_DISABLED
    && SlotFlags(b, t, j) & SF_ACTIVE == SlotFlags(b, tail, j) & SF_ACTIVE
    && (SlotUsed(c, b, tail, j) ==>
          SlotType(b, t, j) == SlotType(b, tail, j) && SlotKey(t, j) == Xor(Xor(SlotKey(tail, j), oldDk), newDk))
  }

  /** Nothing past the descriptors changes. */
  ghost predicate SlotsOnly(b: Base, tail: seq<byte>, t: seq<byte>) {
    |t| == |tail| && forall k | 0 <= k < |tail| && DC_BASE_SIZE + k >= SlotsEnd(b) :: t[k] == tail[k]
  }

  lemma TouchesOnlySlots(b: Base, tail: seq<byte>, t: seq<byte>, i: nat)
    requires Standard(b, tail) && i < b.keySlotCount && Touches(b, tail, t, i)
    ensures SlotsOnly(b, tail, t)
  {
    StandardSizes(b, tail, i);
    assert b.keySlotCount * b.slotInfoSize == 32 * b.keySlotCount;
  }

  lemma UpdateSlotHolds(c: Crypto, b: Base, tail: seq<byte>, i: nat, oldDk: seq<byte>, newDk: seq<byte>, noise: seq<byte>)
    requires Standard(b, tail) && i < b.keySlotCount && |oldDk| == 192 && |newDk| == 192 && forall a, d :: |c.crc(a, d)| == 4
    ensures var t := UpdateSlot(c, b, tail, i, oldDk, newDk, noise);
            && Touches(b, tail, t, i) && SlotsOnly(b, tail, t) && Updated(c, b, tail, t, i, oldDk, newDk)
  {
    if SlotUsed(c, b, tail, i) {
      UpdateUsed(c, b, tail, i, oldDk, newDk, noise);
    } else {
      UpdateUnused(c, b, tail, i, oldDk, newDk, noise);
    }
    TouchesOnlySlots(b, tail, UpdateSlot(c, b, tail, i, oldDk, newDk, noise), i);
  }

  /** Every slot in use is wrapped anew, and no slot comes into use or goes out of it. */
  lemma {:induction false} UpdateSlotsHolds(c: Crypto, b: Base, u: Update, i: nat, oldDk: seq<byte>, newDk: seq<byte>, noise: seq<byte>)
    requires Standard(b, u.tail) && i <= b.keySlotCount && |oldDk| == 192 && |newDk| == 192 && forall a, d :: |c.crc(a, d)| == 4
    requires forall j | i <= j < b.keySlotCount && SlotUsed(c, b, u.tail, j) :: SlotType(b, u.tail, j) == [0, 0]
    ensures var r := UpdateSlots(c, b, u, i, oldDk, newDk, noise);
            && r.Ok? && SlotsOnly(b, u.tail, r.value.tail) && r.value.used == (u.used || AnyUsed(c, b, u.tail, i))
            && (forall j | 0 <= j < i :: SameSlots(c, b, u.tail, r.value.tail, j))
            && (forall j | i <= j < b.keySlotCount :: Updated(c, b, u.tail, r.value.tail, j, oldDk, newDk))
    decreases b.keySlotCount - i
  {
    hide UpdateSlot, SlotUsed, SlotType, Touches;
    if i < b.keySlotCount {
      var tail := u.tail;
      var t := UpdateSlot(c, b, tail, i, oldDk, newDk, noise);
      var u' := Update(t, u.used || SlotUsed(c, b, tail, i));
      UpdateSlotHolds(c, b, tail, i, oldDk, newDk, noise);
      forall j | 0 <= j < b.keySlotCount && j != i
        ensures SameSlots(c, b, tail, t, j)
        ensures SlotUsed(c, b, t, j) == SlotUsed(c, b, tail, j) && SlotType(b, t, j) == SlotType(b, tail, j)
      {
        TouchesOne(c, b, tail, t, i, j);
        SameMeaning(c, b, tail, t, j);
      }
      UpdateSlotsHolds(c, b, u', i + 1, oldDk, newDk, noise);
      var r := UpdateSlots(c, b, u', i + 1, oldDk, newDk, noise).value.tail;
      assert UpdateSlots(c, b, u, i, oldDk, newDk, noise) == UpdateSlots(c, b, u', i + 1, oldDk, newDk, noise);
      assert AnyUsed(c, b, tail, i) == (SlotUsed(c, b, tail, i) || AnyUsed(c, b, t, i + 1));
      forall j | 0 <= j < i
        ensures SameSlots(c, b, tail, r, j)
      {
        assert SameSlots(c, b, tail, t, j) && SameSlots(c, b, t, r, j);
      }
      forall j | i <= j < b.keySlotCount
        ensures Updated(c, b, tail, r, j, oldDk, newDk)
      {
        if j == i {
          SameMeaning(c, b, t, r, i);
          assert Updated(c, b, tail, t, i, oldDk, newDk);
        } else {
          SameMeaning(c, b, tail, t, j);
          assert Updated(c, b, t, r, j, oldDk, newDk);
        }
      }
    }
  }

  // ----- other layouts

  /**
   * The search looks for slot i at 192 * i whatever size the slots have. In slots that can hold a key, it finds
   * every key that is set exactly when the slots are of that size, or the slot is the first.
   */
  lemma SlotFoundExactly(c: Crypto, b: Base, tail: seq<byte>, i: nat, kdf: int)
    requires i < b.keySlotCount && SlotSize(b) >= PKCS_DERIVE_MAX && PKCS_DERIVE_MAX * (i + 1) <= |tail|
    ensures (forall sk, dk | |sk| == |dk| == PKCS_DERIVE_MAX :: FoundAsSet(c, b, tail, i, sk, dk, kdf)) <==> i == 0 || SlotSize(b) == PKCS_DERIVE_MAX
  {
    TimesMonotone(i, PKCS_DERIVE_MAX, SlotSize(b));
    if i == 0 || SlotSize(b) == PKCS_DERIVE_MAX {
      forall sk, dk | |sk| == |dk| == PKCS_DERIVE_MAX
        ensures FoundAsSet(c, b, tail, i, sk, dk, kdf)
      {
        SlotAtItsPlace(c, b, tail, i, sk, dk, kdf);
      }
    } else {
      TimesMonotone(i, PKCS_DERIVE_MAX + 1, SlotSize(b));
      SlotElsewhere(c, b, tail, i, kdf);
    }
  }

  /** What the search reads for slot i after it has been set is the header key wrapped under the slot key. */
  predicate FoundAsSet(c: Crypto, b: Base, tail: seq<byte>, i: nat, sk: seq<byte>, dk: seq<byte>, kdf: int)
    requires PKCS_DERIVE_MAX * (i + 1) <= |tail|
  {
    SlotKey(SetSlot(c, b, tail, i, sk, dk, kdf), i) == Xor(sk, dk)
  }

  lemma SlotAtItsPlace(c: Crypto, b: Base, tail: seq<byte>, i: nat, sk: seq<byte>, dk: seq<byte>, kdf: int)
    requires i < b.keySlotCount && SlotSize(b) >= PKCS_DERIVE_MAX && PKCS_DERIVE_MAX * (i + 1) <= |tail| && |sk| == |dk| == PKCS_DERIVE_MAX
    requires SlotOffset(b, i) == PKCS_DERIVE_MAX * i
    ensures FoundAsSet(c, b, tail, i, sk, dk, kdf)
  {
    SlotBeforeInfo(b, i);
    hide Xor, SlotCrc, SlotOffset, InfoOffset, SlotSize, SlotFlags;
    var t, at := SetSlot(c, b, tail, i, sk, dk, kdf), PKCS_DERIVE_MAX * i;
    assert forall k | at <= k < at + PKCS_DERIVE_MAX :: t[k] == Xor(sk, dk)[k - at];
  }

  /** A slot that starts further on leaves the byte the search starts with as it was. */
  lemma SlotElsewhere(c: Crypto, b: Base, tail: seq<byte>, i: nat, kdf: int)
    requires i < b.keySlotCount && PKCS_DERIVE_MAX * (i + 1) <= |tail| && SlotOffset(b, i) > PKCS_DERIVE_MAX * i
    ensures exists sk, dk :: |sk| == |dk| == PKCS_DERIVE_MAX && !FoundAsSet(c, b, tail, i, sk, dk, kdf)
  {
    SlotBeforeInfo(b, i);
    var at := PKCS_DERIVE_MAX * i;
    var first: byte := if tail[at] == 0 then 1 else 0;
    var sk, dk := [first] + Zeros(PKCS_DERIVE_MAX - 1), Zeros(PKCS_DERIVE_MAX);
    assert Xor(sk, dk)[0] == XorByte(first, 0) == first;
    hide Xor, SlotCrc, SlotOffset, InfoOffset, SlotSize, SlotFlags;
    var t := SetSlot(c, b, tail, i, sk, dk, kdf);
    assert t[at] == tail[at] && SlotKey(t, i)[0] == t[at];
    assert !FoundAsSet(c, b, tail, i, sk, dk, kdf);
  }

  lemma SlotBeforeInfo(b: Base, i: nat)
    requires i < b.keySlotCount
    ensures SlotOffset(b, i) + SlotSize(b) <= b.slotAreaLen <= InfoOffset(b, i)
  {
    var s, n := SlotSize(b), b.keySlotCount;
    QuotientBelow(b.slotAreaLen, n);
    TimesMonotone(s, i + 1, n);
    hide SlotSize;
    assert SlotOffset(b, i) + s == s * (i + 1) <= s * n <= b.slotAreaLen;
    TimesMonotone(b.slotInfoSize, 0, i);
  }

  lemma QuotientBelow(a: nat, n: nat)
    requires n > 0
    ensures a / n * n <= a
  {
  }

  /** Where the room for slot i ends: at the next slot, or at the descriptors. */
  function SlotLimit(b: Base, i: nat): nat {
    if i + 1 < b.keySlotCount then SlotOffset(b, i + 1) else b.slotAreaLen
  }

  /** Slot j and its descriptor are as they were after slot i has been set. */
  predicate OtherKept(c: Crypto, b: Base, tail: seq<byte>, i: nat, sk: seq<byte>, dk: seq<byte>, kdf: int, j: nat) {
    var t := SetSlot(c, b, tail, i, sk, dk, kdf);
    && Peek(t, SlotOffset(b, j), SlotSize(b)) == Peek(tail, SlotOffset(b, j), SlotSize(b))
    && Peek(t, InfoOffset(b, j), b.slotInfoSize) == Peek(tail, InfoOffset(b, j), b.slotInfoSize)
  }

  /**
   * In any layout, setting slot i leaves the others alone, whatever is put into it, exactly when there is room for a
   * wrapped key before the next slot or the descriptors, or there is no other slot.
   */
  lemma SetKeepsOthers(c: Crypto, b: Base, tail: seq<byte>, i: nat, kdf: int)
    requires i < b.keySlotCount && b.slotInfoSize >= SLOT_INFO_SIZE && SlotSize(b) > 0 && SlotsEnd(b) <= DC_BASE_SIZE + |tail|
    requires forall a, d :: |c.crc(a, d)| == 4
    ensures (forall sk, dk, j: nat | |sk| == |dk| == PKCS_DERIVE_MAX && j < b.keySlotCount && j != i :: OtherKept(c, b, tail, i, sk, dk, kdf, j)) <==>
            b.keySlotCount == 1 || SlotOffset(b, i) + PKCS_DERIVE_MAX <= SlotLimit(b, i)
  {
    hide SlotOffset, InfoOffset, SlotSize, OtherKept;
    if b.keySlotCount == 1 || SlotOffset(b, i) + PKCS_DERIVE_MAX <= SlotLimit(b, i) {
      forall sk, dk, j: nat | |sk| == |dk| == PKCS_DERIVE_MAX && j < b.keySlotCount && j != i
        ensures OtherKept(c, b, tail, i, sk, dk, kdf, j)
      {
        RoomKeeps(c, b, tail, i, sk, dk, kdf, j);
      }
    } else {
      var j := if i + 1 < b.keySlotCount then i + 1 else 0;
      var sk, dk := SpillsOver(c, b, tail, i, kdf, j);
      assert !OtherKept(c, b, tail, i, sk, dk, kdf, j);
    }
  }

  /** All that SetSlot writes: the slot, and 32 bytes of its descriptor. */
  lemma SetWrites(c: Crypto, b: Base, tail: seq<byte>, i: nat, sk: seq<byte>, dk: seq<byte>, kdf: int)
    requires i < b.keySlotCount && |sk| == |dk| == PKCS_DERIVE_MAX && forall a, d :: |c.crc(a, d)| == 4
    ensures var t, at, info := SetSlot(c, b, tail, i, sk, dk, kdf), SlotOffset(b, i), InfoOffset(b, i);
            && |t| == |tail|
            && (forall k | 0 <= k < |tail| && !(at <= k < at + PKCS_DERIVE_MAX) && !(info <= k < info + SLOT_INFO_SIZE) :: t[k] == tail[k])
            && (forall k | 0 <= k < |tail| && at <= k < at + PKCS_DERIVE_MAX && !(info <= k < info + SLOT_INFO_SIZE) :: t[k] == Xor(sk, dk)[k - at])
  {
    hide Xor, SlotOffset, InfoOffset, SlotSize, SlotFlags, SlotCrc;
    var slot := PutSlot(b, tail, i, (SlotFlags(b, tail, i) | SF_ACTIVE) & !SF_CORRUPT, kdf, Xor(sk, dk));
    assert |SlotCrc(c, b, slot, i)| == 4 by { CrcSize(c, b, slot, i); }
  }

  lemma CrcSize(c: Crypto, b: Base, tail: seq<byte>, i: nat)
    requires forall a, d :: |c.crc(a, d)| == 4
    ensures |SlotCrc(c, b, tail, i)| == 4
  {
  }

  lemma SlotsInOrder(b: Base, i: nat, j: nat)
    requires i < j < b.keySlotCount
    ensures SlotOffset(b, i) + SlotSize(b) <= SlotOffset(b, i + 1) <= SlotOffset(b, j)
    ensures InfoOffset(b, i) + b.slotInfoSize <= InfoOffset(b, j)
  {
    TimesMonotone(SlotSize(b), i + 1, j);
    TimesMonotone(b.slotInfoSize, i + 1, j);
    hide SlotSize;
    assert SlotSize(b) * (i + 1) == SlotSize(b) * i + SlotSize(b);
    assert b.slotInfoSize * (i + 1) == b.slotInfoSize * i + b.slotInfoSize;
  }

  lemma RoomKeeps(c: Crypto, b: Base, tail: seq<byte>, i: nat, sk: seq<byte>, dk: seq<byte>, kdf: int, j: nat)
    requires i < b.keySlotCount && j < b.keySlotCount && j != i && b.slotInfoSize >= SLOT_INFO_SIZE
    requires |sk| == |dk| == PKCS_DERIVE_MAX && (forall a, d :: |c.crc(a, d)| == 4) && SlotOffset(b, i) + PKCS_DERIVE_MAX <= SlotLimit(b, i)
    ensures OtherKept(c, b, tail, i, sk, dk, kdf, j)
  {
    hide Xor, SlotOffset, InfoOffset, SlotSize, SetSlot;
    SetWrites(c, b, tail, i, sk, dk, kdf);
    SlotBeforeInfo(b, i);
    SlotBeforeInfo(b, j);
    if i < j { SlotsInOrder(b, i, j); } else { SlotsInOrder(b, j, i); }
    if i + 1 < b.keySlotCount { SlotBeforeInfo(b, i + 1); }
    var t := SetSlot(c, b, tail, i, sk, dk, kdf);
    forall k: nat | SlotOffset(b, j) <= k < SlotOffset(b, j) + SlotSize(b) || InfoOffset(b, j) <= k < InfoOffset(b, j) + b.slotInfoSize
      ensures At(t, k) == At(tail, k)
    {
    }
  }

  /** A key that makes a difference to the first byte behind the room. */
  lemma SpillsOver(c: Crypto, b: Base, tail: seq<byte>, i: nat, kdf: int, j: nat) returns (sk: seq<byte>, dk: seq<byte>)
    requires i < b.keySlotCount && b.keySlotCount > 1 && b.slotInfoSize >= SLOT_INFO_SIZE && SlotSize(b) > 0 && SlotsEnd(b) <= DC_BASE_SIZE + |tail|
    requires (forall a, d :: |c.crc(a, d)| == 4) && SlotOffset(b, i) + PKCS_DERIVE_MAX > SlotLimit(b, i)
    requires j == if i + 1 < b.keySlotCount then i + 1 else 0
    ensures |sk| == |dk| == PKCS_DERIVE_MAX && !OtherKept(c, b, tail, i, sk, dk, kdf, j)
  {
    hide SlotOffset, InfoOffset, SlotSize, SetSlot, Xor, SlotsEnd;
    var p := SlotLimit(b, i);
    LimitInside(b, tail, i, j);
    var x: byte := if tail[p] == 0 then 1 else 0;
    sk, dk := seq(PKCS_DERIVE_MAX, _ => x), Zeros(PKCS_DERIVE_MAX);
    SetWrites(c, b, tail, i, sk, dk, kdf);
    XorZeros(sk);
    var t := SetSlot(c, b, tail, i, sk, dk, kdf);
    assert t[p] == x != tail[p];
    if i + 1 < b.keySlotCount {
      assert Peek(t, SlotOffset(b, j), SlotSize(b))[0] != Peek(tail, SlotOffset(b, j), SlotSize(b))[0];
    } else {
      assert Peek(t, InfoOffset(b, j), b.slotInfoSize)[0] != Peek(tail, InfoOffset(b, j), b.slotInfoSize)[0];
    }
  }

  lemma XorZeros(sk: seq<byte>)
    requires |sk| == PKCS_DERIVE_MAX
    ensures Xor(sk, Zeros(PKCS_DERIVE_MAX)) == sk
  {
  }

  /** The first byte behind the room of slot i, and whose it is. */
  lemma LimitInside(b: Base, tail: seq<byte>, i: nat, j: nat)
    requires i < b.keySlotCount && b.keySlotCount > 1 && b.slotInfoSize >= SLOT_INFO_SIZE && SlotSize(b) > 0 && SlotsEnd(b) <= DC_BASE_SIZE + |tail|
    requires j == if i + 1 < b.keySlotCount then i + 1 else 0
    ensures var p := SlotLimit(b, i);
            && SlotOffset(b, i) <= p < |tail| && !(InfoOffset(b, i) <= p < InfoOffset(b, i) + SLOT_INFO_SIZE)
            && p == if i + 1 < b.keySlotCount then SlotOffset(b, j) else InfoOffset(b, j)
  {
    SlotBeforeInfo(b, i);
    TimesMonotone(b.slotInfoSize, 1, b.keySlotCount);
    if i + 1 < b.keySlotCount {
      SlotsInOrder(b, i, i + 1);
      SlotBeforeInfo(b, i + 1);
    } else {
      SlotsInOrder(b, 0, i);
    }
  }
}
