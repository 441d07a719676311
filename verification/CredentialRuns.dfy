/** Every run of password changes keeps the header password and every slot password working on the same volume. */
module CredentialRuns {
  import opened Bytes
  import opened Results
  import opened VolumeHeader
  import opened HeaderOpen
  import opened HeaderCredentials
  import opened KeySlots
  import opened PasswordChange

  // ----- one change, on the header

  /** Taking the old header key off a slot and putting the new one on, as far as the cipher looks. */
  lemma Rewrap(slot: seq<byte>, sk: seq<byte>, oldDk: seq<byte>, newDk: seq<byte>, alg: nat)
    requires |slot| == 192 && |sk| == 192 && |oldDk| == 192 && |newDk| == 192
    requires SetKey(Xor(slot, sk), alg) == SetKey(oldDk, alg)
    ensures SetKey(Xor(Xor(Xor(slot, oldDk), newDk), sk), alg) == SetKey(newDk, alg)
  {
    hide Xor;
    var n, a, r := KeyBytes(alg), Xor(slot, sk), Xor(Xor(Xor(slot, oldDk), newDk), sk);
    assert a[..n] == oldDk[..n];
    forall k | 0 <= k < n
      ensures r[..n][k] == newDk[..n][k]
    {
      assert a[..n][k] == a[k] && oldDk[..n][k] == oldDk[k];
      RewrapByte(slot, sk, oldDk, newDk, k);
    }
    assert r[..n] == newDk[..n];
  }

  lemma RewrapByte(slot: seq<byte>, sk: seq<byte>, oldDk: seq<byte>, newDk: seq<byte>, k: nat)
    requires |slot| == 192 && |sk| == 192 && |oldDk| == 192 && |newDk| == 192 && k < 192
    requires Xor(slot, sk)[k] == oldDk[k]
    ensures Xor(Xor(Xor(slot, oldDk), newDk), sk)[k] == newDk[k]
  {
    hide Xor, XorByte;
    XorOut(slot[k], sk[k], oldDk[k], newDk[k]);
  }

  lemma XorOut(p: byte, s: byte, o: byte, w: byte)
    requires XorByte(p, s) == o
    ensures XorByte(XorByte(XorByte(p, o), w), s) == w
  {
  }

  /** A wrapped key unwraps under the key that wrapped it. */
  lemma Unwrap(sk: seq<byte>, dk: seq<byte>)
    requires |sk| == 192 && |dk| == 192
    ensures Xor(Xor(sk, dk), sk) == dk
  {
    hide XorByte;
    forall k | 0 <= k < 192
      ensures Xor(Xor(sk, dk), sk)[k] == dk[k]
    {
      XorTwice(sk[k], dk[k]);
    }
  }

  lemma XorTwice(s: byte, d: byte)
    ensures XorByte(XorByte(s, d), s) == d
  {
  }

  lemma DerivedSize(c: Crypto, text: seq<byte>, kdf: int, salt: seq<byte>)
    requires Lawful(c)
    ensures Derive(c, text, kdf, salt).Some? ==> |Derive(c, text, kdf, salt).value| == 192
  {
  }

  /** Changing slot i leaves what the other slots are. */
  lemma OthersStay(c: Crypto, h: Header, tail: seq<byte>, key: XtsKey, i: nat, j: nat, cred: Option<Cred>)
    requires Standard(h.base, h.tail) && i < h.base.keySlotCount && j < h.base.keySlotCount && i != j
    requires Touches(h.base, h.tail, tail, i) && SlotIs(c, h, key, j, cred)
    ensures SlotIs(c, h.(tail := tail), key, j, cred)
  {
    hide SlotUsed, SlotFlags, SlotType, SetKey;
    TouchesOne(c, h.base, h.tail, tail, i, j);
    SameMeaning(c, h.base, h.tail, tail, j);
  }

  /** A header with slot i replaced is keyed as before but for that slot. */
  lemma SlotReplaced(c: Crypto, h: Header, tail: seq<byte>, key: XtsKey, creds: Creds, i: nat, cred: Option<Cred>)
    requires Keyed(c, h, key, creds) && HasSlotFlag(h.base) && i < |creds.slots|
    requires Touches(h.base, h.tail, tail, i) && SlotIs(c, h.(tail := tail), key, i, cred)
    ensures Keyed(c, h.(tail := tail), key, creds.(slots := creds.slots[i := cred]))
  {
    hide SlotIs;
    var slots := creds.slots[i := cred];
    forall j | 0 <= j < |slots|
      ensures SlotIs(c, h.(tail := tail), key, j, slots[j])
    {
      if j != i { OthersStay(c, h, tail, key, i, j, creds.slots[j]); }
    }
  }

  lemma EraseKeeps(c: Crypto, h: Header, key: XtsKey, creds: Creds, i: nat, noise: seq<byte>)
    requires Lawful(c) && Keyed(c, h, key, creds) && HasSlotFlag(h.base) && i < |creds.slots|
    ensures Keyed(c, h.(tail := EraseSlot(c, h.base, h.tail, i, noise)), key, creds.(slots := creds.slots[i := None]))
  {
    hide EraseSlot;
    EraseSlotHolds(c, h.base, h.tail, i, noise);
    SlotReplaced(c, h, EraseSlot(c, h.base, h.tail, i, noise), key, creds, i, None);
  }

  lemma SetKeeps(c: Crypto, h: Header, key: XtsKey, creds: Creds, i: nat, dk: seq<byte>, cred: Cred)
    requires Lawful(c) && Keyed(c, h, key, creds) && HasSlotFlag(h.base) && i < |creds.slots|
    requires |dk| == 192 && SetKey(dk, key.alg) == key && Derive(c, cred.text, cred.kdf, h.salt).Some?
    ensures var sk := Derive(c, cred.text, cred.kdf, h.salt).value;
            Keyed(c, h.(tail := SetSlot(c, h.base, h.tail, i, sk, dk, cred.kdf)), key, creds.(slots := creds.slots[i := Some(cred)]))
  {
    hide SetSlot, SlotUsed;
    var sk := Derive(c, cred.text, cred.kdf, h.salt).value;
    DerivedSize(c, cred.text, cred.kdf, h.salt);
    SetSlotHolds(c, h.base, h.tail, i, sk, dk, cred.kdf);
    Unwrap(sk, dk);
    assert SlotIs(c, h, key, i, creds.slots[i]);
    SlotReplaced(c, h, SetSlot(c, h.base, h.tail, i, sk, dk, cred.kdf), key, creds, i, Some(cred));
  }

  /** Which slots are in use is what the credentials say. */
  lemma UsedByCreds(c: Crypto, h: Header, key: XtsKey, creds: Creds)
    requires Keyed(c, h, key, creds) && HasSlotFlag(h.base)
    ensures AnyUsed(c, h.base, h.tail, 0) <==> !NoSlots(creds)
    ensures forall i | 0 <= i < |creds.slots| :: SlotUsed(c, h.base, h.tail, i) == creds.slots[i].Some?
  {
    forall i | 0 <= i < |creds.slots|
      ensures SlotUsed(c, h.base, h.tail, i) == creds.slots[i].Some?
    {
      assert SlotIs(c, h, key, i, creds.slots[i]);
    }
  }

  /** dc_update_key_slots moves one slot from the old header key to the new one. */
  lemma SlotMoved(c: Crypto, h: Header, tail: seq<byte>, key: XtsKey, i: nat, cred: Option<Cred>, oldDk: seq<byte>, newDk: seq<byte>, b: Base)
    requires Lawful(c) && Standard(h.base, h.tail) && i < h.base.keySlotCount && SlotIs(c, h, key, i, cred)
    requires |oldDk| == 192 && |newDk| == 192 && SetKey(oldDk, key.alg) == key
    requires |tail| == |h.tail| && Updated(c, h.base, h.tail, tail, i, oldDk, newDk) && b == h.base.(headKdf := b.headKdf)
    ensures SlotIs(c, Header(h.salt, b, tail), SetKey(newDk, key.alg), i, cred)
  {
    StandardSizes(h.base, h.tail, i);
    SlotsIgnoreKdf(c, h.base, b, tail, i);
    match cred
    case None =>
    case Some(cr) =>
      DerivedSize(c, cr.text, cr.kdf, h.salt);
      Rewrap(SlotKey(h.tail, i), Derive(c, cr.text, cr.kdf, h.salt).value, oldDk, newDk, key.alg);
  }

  /** The KDF field has no say in what a slot is. */
  lemma SlotsIgnoreKdf(c: Crypto, b: Base, b': Base, tail: seq<byte>, i: nat)
    requires b' == b.(headKdf := b'.headKdf)
    ensures SlotUsed(c, b', tail, i) == SlotUsed(c, b, tail, i) && SlotFlags(b', tail, i) == SlotFlags(b, tail, i)
    ensures SlotType(b', tail, i) == SlotType(b, tail, i)
  {
    assert SlotSize(b') == SlotSize(b);
  }

  /** Re-wrapping with slots in use: the same salt, and every slot password follows to the new header key. */
  lemma RewrapKeeps(c: Crypto, h: Header, key: XtsKey, creds: Creds, before: Cred, after: Pass, salt: seq<byte>, noise: seq<byte>)
    requires Lawful(c) && Keyed(c, h, key, creds) && key.alg == h.base.alg < CF_CIPHERS_NUM && HasKeySlots(h.base) && !NoSlots(creds)
    requires IsHeaderPass(c, h, key, before.text, before.kdf) && 0 <= after.kdf <= KDF_ARGON_MAX
    ensures var r := Rewrapped(c, h, before, after, salt, noise);
            && r.Ok? && SameVolume(h, r.value.header) && r.value.header.salt == h.salt && r.value.key.alg == h.base.alg
            && r.value.header.base == WithKdf(h, after.kdf).base
            && Keyed(c, r.value.header, r.value.key, creds.(head := Cred(after.text, after.kdf)))
  {
    hide SlotIs, SetKey, Updated, Rewrapped, WithKdf, Derive;
    var tail := RewrapOutcome(c, h, key, creds, before, after, salt, noise);
    var oldDk, newDk := Derive(c, before.text, before.kdf, h.salt).value, Derive(c, after.text, after.kdf, h.salt).value;
    var h', key' := WithKdf(h.(tail := tail), after.kdf), SetKey(newDk, key.alg);
    KdfNamed(h, after.kdf);
    KdfNamed(h.(tail := tail), after.kdf);
    KeyAlg(newDk, key.alg);
    forall i | 0 <= i < |creds.slots|
      ensures SlotIs(c, h', key', i, creds.slots[i])
    {
      SlotMoved(c, h, tail, key, i, creds.slots[i], oldDk, newDk, h'.base);
    }
  }

  /** What re-wrapping makes of a header with slots in use. */
  lemma RewrapOutcome(c: Crypto, h: Header, key: XtsKey, creds: Creds, before: Cred, after: Pass, salt: seq<byte>, noise: seq<byte>)
    returns (tail: seq<byte>)
    requires Lawful(c) && Keyed(c, h, key, creds) && key.alg == h.base.alg < CF_CIPHERS_NUM && HasKeySlots(h.base) && !NoSlots(creds)
    requires IsHeaderPass(c, h, key, before.text, before.kdf) && 0 <= after.kdf <= KDF_ARGON_MAX
    ensures Derive(c, before.text, before.kdf, h.salt).Some? && Derive(c, after.text, after.kdf, h.salt).Some?
    ensures var oldDk, newDk := Derive(c, before.text, before.kdf, h.salt).value, Derive(c, after.text, after.kdf, h.salt).value;
            && |oldDk| == 192 && |newDk| == 192 && |tail| == |h.tail|
            && Rewrapped(c, h, before, after, salt, noise) == Ok(Sealing(WithKdf(h.(tail := tail), after.kdf), SetKey(newDk, key.alg)))
            && forall i | 0 <= i < h.base.keySlotCount :: Updated(c, h.base, h.tail, tail, i, oldDk, newDk)
  {
    hide SlotUsed, SlotType, SlotFlags, SlotIs, SetKey, Updated, WithKdf, UpdateSlots;
    var oldDk, newDk := Derive(c, before.text, before.kdf, h.salt).value, Derive(c, after.text, after.kdf, h.salt).value;
    DerivedSize(c, before.text, before.kdf, h.salt);
    DerivedSize(c, after.text, after.kdf, h.salt);
    UsedByCreds(c, h, key, creds);
    UsedTypes(c, h, key, creds);
    UpdateSlotsHolds(c, h.base, Update(h.tail, false), 0, oldDk, newDk, noise);
    tail := UpdateSlots(c, h.base, Update(h.tail, false), 0, oldDk, newDk, noise).value.tail;
  }

  lemma KeyAlg(dk: seq<byte>, alg: nat)
    ensures SetKey(dk, alg).alg == alg
  {
  }

  lemma UsedTypes(c: Crypto, h: Header, key: XtsKey, creds: Creds)
    requires Keyed(c, h, key, creds) && HasSlotFlag(h.base)
    ensures forall i | 0 <= i < h.base.keySlotCount && SlotUsed(c, h.base, h.tail, i) :: SlotType(h.base, h.tail, i) == [0, 0]
  {
    forall i | 0 <= i < |creds.slots| && SlotUsed(c, h.base, h.tail, i)
      ensures SlotType(h.base, h.tail, i) == [0, 0]
    {
      assert SlotIs(c, h, key, i, creds.slots[i]);
    }
  }

  /** A slot that is free says nothing about the salt or the key. */
  lemma FreeSlot(c: Crypto, h: Header, key: XtsKey, h': Header, key': XtsKey, i: nat)
    requires Standard(h.base, h.tail) && Standard(h'.base, h'.tail) && i < h.base.keySlotCount == h'.base.keySlotCount
    requires SlotIs(c, h, key, i, None) && SlotFlags(h'.base, h'.tail, i) & SF_DISABLED == SlotFlags(h.base, h.tail, i) & SF_DISABLED
    requires SlotFlags(h'.base, h'.tail, i) & SF_ACTIVE == SlotFlags(h.base, h.tail, i) & SF_ACTIVE
    ensures SlotIs(c, h', key', i, None)
  {
  }

  /** A new salt, when no slot is in use. */
  lemma ResaltKeeps(c: Crypto, h: Header, key: XtsKey, creds: Creds, pw: Cred, salt: seq<byte>)
    requires Lawful(c) && Keyed(c, h, key, creds) && h.base.alg < CF_CIPHERS_NUM && NoSlots(creds)
    requires pw.text != [] && 0 <= pw.kdf <= KDF_ARGON_MAX
    ensures var r := Resalt(c, WithKdf(h, pw.kdf), pw, salt);
            && r.Ok? && SameVolume(h, r.value.header) && r.value.header.salt == salt && r.value.key.alg == h.base.alg
            && r.value.header.base == WithKdf(h, pw.kdf).base
            && Keyed(c, r.value.header, r.value.key, creds.(head := pw))
  {
    hide SlotIs, SlotFlags;
    var r := Resalt(c, WithKdf(h, pw.kdf), pw, salt);
    var h', key' := r.value.header, r.value.key;
    forall i | 0 <= i < |creds.slots|
      ensures SlotIs(c, h', key', i, creds.slots[i])
    {
      SlotsIgnoreKdf(c, h.base, h'.base, h.tail, i);
      assert creds.slots[i] == None && SlotIs(c, h, key, i, creds.slots[i]);
      FreeSlot(c, h, key, h', key', i);
    }
  }

  /** With no slot in use, re-wrapping only fills the slots with random bytes. */
  lemma RefillKeeps(c: Crypto, h: Header, key: XtsKey, creds: Creds, oldDk: seq<byte>, newDk: seq<byte>, noise: seq<byte>)
    requires Lawful(c) && Keyed(c, h, key, creds) && HasSlotFlag(h.base) && NoSlots(creds) && |oldDk| == 192 && |newDk| == 192
    ensures var r := UpdateSlots(c, h.base, Update(h.tail, false), 0, oldDk, newDk, noise);
            r.Ok? && !r.value.used && |r.value.tail| == |h.tail| && Keyed(c, h.(tail := r.value.tail), key, creds)
  {
    hide SlotIs, SlotUsed, SlotFlags, SlotType;
    UsedByCreds(c, h, key, creds);
    UpdateSlotsHolds(c, h.base, Update(h.tail, false), 0, oldDk, newDk, noise);
    var h' := h.(tail := UpdateSlots(c, h.base, Update(h.tail, false), 0, oldDk, newDk, noise).value.tail);
    forall i | 0 <= i < |creds.slots|
      ensures SlotIs(c, h', key, i, creds.slots[i])
    {
      assert Updated(c, h.base, h.tail, h'.tail, i, oldDk, newDk);
      FreeSlot(c, h, key, h', key, i);
    }
  }

  lemma KdfNamed(h: Header, kdf: int)
    requires h.base.version >= DC_HDR_VERSION_2 && 0 <= kdf <= KDF_ARGON_MAX
    ensures WithKdf(h, kdf) == h.(base := h.base.(headKdf := kdf))
  {
  }

  /** Re-wrapping with no slot in use: a new salt, like a header without slots. */
  lemma RefillAndResalt(c: Crypto, h: Header, key: XtsKey, creds: Creds, before: Cred, after: Pass, salt: seq<byte>, noise: seq<byte>)
    requires Lawful(c) && Keyed(c, h, key, creds) && h.base.alg < CF_CIPHERS_NUM && HasKeySlots(h.base) && NoSlots(creds)
    requires IsHeaderPass(c, h, key, before.text, before.kdf) && 0 <= after.kdf <= KDF_ARGON_MAX && after.text != []
    ensures var r := Rewrapped(c, h, before, after, salt, noise);
            && r.Ok? && |r.value.header.tail| == |h.tail| && r.value.header.salt == salt && r.value.key.alg == h.base.alg
            && r.value.header.base == WithKdf(h, after.kdf).base
            && Keyed(c, r.value.header, r.value.key, creds.(head := Cred(after.text, after.kdf)))
  {
    hide UpdateSlots, SlotUsed, SetKey;
    var oldDk, newDk := Derive(c, before.text, before.kdf, h.salt).value, Derive(c, after.text, after.kdf, h.salt).value;
    DerivedSize(c, before.text, before.kdf, h.salt);
    RefillKeeps(c, h, key, creds, oldDk, newDk, noise);
    var h1 := h.(tail := UpdateSlots(c, h.base, Update(h.tail, false), 0, oldDk, newDk, noise).value.tail);
    ResaltKeeps(c, h1, key, creds, Cred(after.text, after.kdf), salt);
  }

  /** A changed header password works, and the salt is new only when no slot is in use. */
  lemma HeaderChangeKeeps(c: Crypto, h: Header, key: XtsKey, creds: Creds, before: Cred, after: Pass, salt: seq<byte>, noise: seq<byte>)
    requires Lawful(c) && Keyed(c, h, key, creds) && key.alg == h.base.alg < CF_CIPHERS_NUM
    requires IsHeaderPass(c, h, key, before.text, before.kdf) && 0 <= after.kdf <= KDF_ARGON_MAX && after.text != [] && after.slot == 0
    ensures var r := ChangedHeader(c, h, key, before, after, salt, noise);
            && r.Ok? && |r.value.header.tail| == |h.tail| && r.value.key.alg == h.base.alg
            && r.value.header.base == h.base.(headKdf := after.kdf)
            && Keyed(c, r.value.header, r.value.key, NextCreds(creds, after))
            && r.value.header.salt == if NoSlots(creds) then salt else h.salt
  {
    hide Rewrapped, Resalt, WithKdf, SlotIs, IsHeaderPass;
    KdfNamed(h, after.kdf);
    if !HasKeySlots(h.base) {
      NoSlotsWithoutFlag(c, h, key, creds);
      ResaltKeeps(c, h, key, creds, Cred(after.text, after.kdf), salt);
    } else if NoSlots(creds) {
      RefillAndResalt(c, h, key, creds, before, after, salt, noise);
    } else {
      RewrapKeeps(c, h, key, creds, before, after, salt, noise);
    }
  }

  lemma NoSlotsWithoutFlag(c: Crypto, h: Header, key: XtsKey, creds: Creds)
    requires Keyed(c, h, key, creds) && !HasKeySlots(h.base)
    ensures NoSlots(creds)
  {
  }

  /** Every accepted change: the new passwords work, the volume is the same, and the salt is new only when no slot is in use. */
  lemma ChangeKeeps(c: Crypto, h: Header, key: XtsKey, creds: Creds, before: Cred, after: Pass, salt: seq<byte>, noise: seq<byte>)
    requires Lawful(c) && Keyed(c, h, key, creds) && key.alg == h.base.alg < CF_CIPHERS_NUM
    requires IsHeaderPass(c, h, key, before.text, before.kdf) && 0 <= after.kdf <= KDF_ARGON_MAX && (after.text == [] ==> after.slot != 0)
    ensures var r := ChangedHeader(c, h, key, before, after, salt, noise);
            r.Ok? ==>
              && SameVolume(h, r.value.header) && r.value.key.alg == h.base.alg
              && Keyed(c, r.value.header, r.value.key, NextCreds(creds, after))
              && r.value.header.base == (if after.slot == 0 then h.base.(headKdf := after.kdf) else h.base)
              && r.value.header.salt == if after.slot == 0 && NoSlots(creds) then salt else h.salt
  {
    hide EraseSlot, SetSlot, SlotIs, Rewrapped, Resalt, SetKey;
    if after.slot == 0 {
      HeaderChangeKeeps(c, h, key, creds, before, after, salt, noise);
    } else if HasKeySlots(h.base) && 1 <= after.slot <= h.base.keySlotCount {
      SlotChangeKeeps(c, h, key, creds, before, after, noise);
    }
  }

  lemma SlotChangeKeeps(c: Crypto, h: Header, key: XtsKey, creds: Creds, before: Cred, after: Pass, noise: seq<byte>)
    requires Lawful(c) && Keyed(c, h, key, creds) && HasKeySlots(h.base) && 1 <= after.slot <= h.base.keySlotCount
    requires IsHeaderPass(c, h, key, before.text, before.kdf)
    ensures after.text == [] ==> Keyed(c, h.(tail := EraseSlot(c, h.base, h.tail, after.slot - 1, noise)), key, NextCreds(creds, after))
    ensures after.text == [] ==> |EraseSlot(c, h.base, h.tail, after.slot - 1, noise)| == |h.tail|
    ensures var r := WithSlotPass(c, h, key, before, after);
            after.text != [] && r.Ok? ==>
              r.value.key == key && SameVolume(h, r.value.header) && r.value.header.salt == h.salt && Keyed(c, r.value.header, key, NextCreds(creds, after))
  {
    hide SlotUsed, Keyed, EraseSlot, SetSlot, Derive;
    var i := after.slot - 1;
    KeyedCount(c, h, key, creds);
    if after.text == [] {
      EraseKeeps(c, h, key, creds, i, noise);
      EraseLength(c, h, key, creds, i, noise);
    } else if WithSlotPass(c, h, key, before, after).Ok? {
      DerivedSize(c, before.text, before.kdf, h.salt);
      SetKeeps(c, h, key, creds, i, Derive(c, before.text, before.kdf, h.salt).value, Cred(after.text, after.kdf));
      SetLength(c, h, key, creds, i, Derive(c, after.text, after.kdf, h.salt).value, Derive(c, before.text, before.kdf, h.salt).value, after.kdf);
    }
  }

  lemma KeyedCount(c: Crypto, h: Header, key: XtsKey, creds: Creds)
    requires Keyed(c, h, key, creds) && HasSlotFlag(h.base)
    ensures |creds.slots| == h.base.keySlotCount
  {
  }

  lemma EraseLength(c: Crypto, h: Header, key: XtsKey, creds: Creds, i: nat, noise: seq<byte>)
    requires Lawful(c) && Keyed(c, h, key, creds) && HasSlotFlag(h.base) && i < |creds.slots|
    ensures |EraseSlot(c, h.base, h.tail, i, noise)| == |h.tail|
  {
  }

  lemma SetLength(c: Crypto, h: Header, key: XtsKey, creds: Creds, i: nat, sk: seq<byte>, dk: seq<byte>, kdf: int)
    requires Lawful(c) && Keyed(c, h, key, creds) && HasSlotFlag(h.base) && i < |creds.slots|
    ensures |SetSlot(c, h.base, h.tail, i, sk, dk, kdf)| == |h.tail|
  {
  }

  // ----- one change, on the disk

  /** The disk starts with a header that is keyed as `creds` say. */
  ghost predicate Holds(c: Crypto, disk: seq<byte>, key: XtsKey, h: Header, creds: Creds) {
    OnDisk(c, disk, key, h) && Keyed(c, h, key, creds)
  }

  lemma KeyedLaid(c: Crypto, h: Header, key: XtsKey, creds: Creds)
    requires Keyed(c, h, key, creds) && |h.salt| == HEADER_SALT_SIZE && |h.tail| >= DC_AREA_SIZE - DC_BASE_SIZE && Fits(h.base)
    requires HeaderLen(h.base) == Ok(Length(h)) && SumBeforeSlots(h.base)
    ensures WellLaid(h)
  {
    hide Fits;
    if HasSlotFlag(h.base) {
      StandardSizes(h.base, h.tail, 0);
    }
  }

  /** The checksum stays in the area, and covers nothing behind the base if slots begin there. */
  predicate SumBeforeSlots(b: Base) {
    SumInArea(b) && (HasSlotFlag(b) ==> Reach(b) == 0)
  }

  /** Slots that passwords are kept in are stored raw, so the checksum ends before them. */
  lemma KeyedSum(c: Crypto, h: Header, key: XtsKey, creds: Creds)
    requires Keyed(c, h, key, creds) && WellLaid(h)
    ensures SumBeforeSlots(h.base)
  {
    hide Fits, SlotUsed;
    if HasSlotFlag(h.base) {
      StandardSizes(h.base, h.tail, 0);
      assert SlotIs(c, h, key, 0, creds.slots[0]);
      assert RawAt(h.base, h.tail, 0);
    }
  }

  /** Sealing a header over the front of a disk puts it there. */
  lemma Written(c: Crypto, disk: seq<byte>, key: XtsKey, h: Header)
    requires Lawful(c) && WellLaid(h) && IsKey(key) && key.alg == h.base.alg && HeaderLen(h.base) == Ok(Length(h)) && Length(h) < |disk|
    ensures var d := Poke(disk, 0, Seal(c, key, h));
            |d| == |disk| && OnDisk(c, d, key, h) && d[Length(h)..] == disk[Length(h)..]
  {
    hide Fits;
    SealParts(c, key, h);
    var d := Poke(disk, 0, Seal(c, key, h));
    assert d[..Length(h)] == Seal(c, key, h);
  }

  /** What ChangePassword reads is the header on the disk, and what opened it is the header password. */
  lemma ReadsHeader(c: Crypto, disk: seq<byte>, key: XtsKey, h: Header, opener: Pass)
    requires OnDisk(c, disk, key, h)
    ensures var r := ReadHeader(c, disk, opener);
            r.Ok? ==> Cut(r.value.header) == h && r.value.key == key && (r.value.slot == 0 ==> IsHeaderPass(c, h, key, opener.text, r.value.kdf))
  {
    hide OpenedBy, ReadHeader, Fits;
    OpensOnlyThis(c, disk, key, h, opener);
    OpensByPassword(c, disk, key, h, opener);
  }

  /** An accepted ChangePassword: the header's place now holds one keyed by the next credentials, for the same volume. */
  lemma PasswordChanged(c: Crypto, disk: seq<byte>, key: XtsKey, h: Header, creds: Creds, opener: Pass, after: Pass, salt: seq<byte>, noise: seq<byte>)
    returns (key': XtsKey, h': Header)
    requires Holds(c, disk, key, h, creds) && |salt| == HEADER_SALT_SIZE && ChangePassword(c, disk, opener, after, salt, noise).Ok?
    ensures var d := ChangePassword(c, disk, opener, after, salt, noise).value;
            && Holds(c, d, key', h', NextCreds(creds, after)) && SameVolume(h, h')
            && |d| == |disk| && d[Length(h)..] == disk[Length(h)..]
            && h'.salt == if after.slot == 0 && NoSlots(creds) then salt else h.salt
  {
    hide Keyed, ChangedHeader, ReadHeader, Seal;
    var o := ReadHeader(c, disk, opener).value;
    ReadsHeader(c, disk, key, h, opener);
    var s := ChangedHeader(c, h, key, Cred(opener.text, o.kdf), after, salt, noise);
    ChangeKeeps(c, h, key, creds, Cred(opener.text, o.kdf), after, salt, noise);
    h', key' := s.value.header, s.value.key;
    KeyedSum(c, h, key, creds);
    StillSealable(c, h, h', key', NextCreds(creds, after));
    Written(c, disk, key', h');
  }

  /** A slot of a header that is laid out as CreateHeader does it can be set. */
  lemma SlotCanBeSet(c: Crypto, h: Header, key: XtsKey, creds: Creds, before: Cred, after: Pass)
    requires Lawful(c) && Keyed(c, h, key, creds) && HeaderLen(h.base).Ok? && 1 <= after.slot <= |creds.slots| && 0 <= after.kdf <= KDF_ARGON_MAX
    requires IsHeaderPass(c, h, key, before.text, before.kdf)
    ensures HasKeySlots(h.base) && |creds.slots| == h.base.keySlotCount && WithSlotPass(c, h, key, before, after).Ok?
  {
    hide SlotIs, SetSlot;
    var n := h.base.keySlotCount;
    StandardSizes(h.base, h.tail, after.slot - 1);
    assert n * h.base.slotInfoSize == 32 * n;
  }

  /** On a keyed header a change of the header password takes any text, and a change of a slot any slot there is. */
  lemma HeaderChangeAccepted(c: Crypto, h: Header, key: XtsKey, creds: Creds, before: Cred, after: Pass, salt: seq<byte>, noise: seq<byte>)
    requires Lawful(c) && Keyed(c, h, key, creds) && key.alg == h.base.alg < CF_CIPHERS_NUM && HeaderLen(h.base).Ok?
    requires IsHeaderPass(c, h, key, before.text, before.kdf) && 0 <= after.kdf <= KDF_ARGON_MAX && (after.text == [] ==> after.slot != 0)
    ensures var r := ChangedHeader(c, h, key, before, after, salt, noise);
            (r.Ok? <==> after.slot == 0 || 1 <= after.slot <= |creds.slots|) && (r.Err? ==> r.code == ERR_INVALID_PARAM)
  {
    hide SlotIs, SetSlot, EraseSlot, WithSlotPass, Rewrapped, Resalt;
    if after.slot == 0 {
      HeaderChangeKeeps(c, h, key, creds, before, after, salt, noise);
    } else if 1 <= after.slot <= |creds.slots| {
      SlotCanBeSet(c, h, key, creds, before, after);
    }
  }

  /**
   * ChangePassword succeeds exactly for a password that opens the header as its own, a derivation of 0 to 10, and
   * either a new header password that is not empty or a slot that the header has; a slot can be set and erased.
   */
  lemma ChangeAccepted(c: Crypto, disk: seq<byte>, key: XtsKey, h: Header, creds: Creds, opener: Pass, after: Pass, salt: seq<byte>, noise: seq<byte>)
    requires Holds(c, disk, key, h, creds)
    ensures var o, r := ReadHeader(c, disk, opener), ChangePassword(c, disk, opener, after, salt, noise);
            && (r.Ok? <==> o.Ok? && o.value.slot == 0 && 0 <= after.kdf <= 10
                           && ((after.slot == 0 && after.text != []) || 1 <= after.slot <= |creds.slots|))
            && (r.Err? ==> r.code == if 0 <= after.kdf <= 10 && (after.text != [] || after.slot != 0) && o.Err? then o.code else ERR_INVALID_PARAM)
  {
    hide Keyed, ChangedHeader, ReadHeader, Seal, Fits, WellLaid, HeaderLen;
    var o := ReadHeader(c, disk, opener);
    ReadsHeader(c, disk, key, h, opener);
    if o.Ok? && o.value.slot == 0 && 0 <= after.kdf <= 10 && (after.text != [] || after.slot != 0) {
      HeaderChangeAccepted(c, h, key, creds, Cred(opener.text, o.value.kdf), after, salt, noise);
    }
  }

  lemma StillSealable(c: Crypto, h: Header, h': Header, key': XtsKey, creds: Creds)
    requires WellLaid(h) && HeaderLen(h.base) == Ok(Length(h)) && SameVolume(h, h') && |h'.salt| == HEADER_SALT_SIZE
    requires Keyed(c, h', key', creds) && key'.alg < CF_CIPHERS_NUM && SumBeforeSlots(h.base)
    ensures WellLaid(h') && HeaderLen(h'.base) == Ok(Length(h')) && Length(h') == Length(h) && IsKey(key')
  {
    KeyedLaid(c, h', key', creds);
  }

  // ----- every credential opens

  lemma StandardReadable(c: Crypto, disk: seq<byte>, key: XtsKey, h: Header, creds: Creds, i: nat)
    requires Holds(c, disk, key, h, creds) && i < |creds.slots|
    ensures SlotReadable(h, i)
  {
    hide SlotUsed;
    assert SlotIs(c, h, key, i, creds.slots[i]);
    StandardSizes(h.base, h.tail, i);
    forall k | PKCS_DERIVE_MAX * i <= k < PKCS_DERIVE_MAX * (i + 1)
      ensures RawAt(h.base, h.tail, k)
    {
      QuotientIs(k, PKCS_DERIVE_MAX, i);
    }
  }

  /** The header password and the password of every slot in use open the header, each under the key it was sealed with. */
  lemma CredentialsOpen(c: Crypto, disk: seq<byte>, key: XtsKey, h: Header, creds: Creds)
    requires Holds(c, disk, key, h, creds)
    ensures Reads(c, key, h, ReadHeader(c, disk, Pass(creds.head.text, creds.head.kdf, 0)))
    ensures forall i | 0 <= i < |creds.slots| && creds.slots[i].Some? ::
              SlotOpens(c, disk, key, h, i, creds.slots[i].value)
  {
    HeaderPassOpens(c, disk, key, h, Pass(creds.head.text, creds.head.kdf, 0), creds.head.kdf);
    forall i | 0 <= i < |creds.slots| && creds.slots[i].Some?
      ensures SlotOpens(c, disk, key, h, i, creds.slots[i].value)
    {
      var cr := creds.slots[i].value;
      SlotCredential(c, disk, key, h, creds, i);
      SlotPassOpens(c, disk, key, h, i, Pass(cr.text, cr.kdf, i + 1), cr.kdf);
      SlotPassOpens(c, disk, key, h, i, Pass(cr.text, cr.kdf, -KEY_SLOT_MAX), cr.kdf);
    }
  }

  /** Naming the slot opens it, and so does a search of all slots. */
  ghost predicate SlotOpens(c: Crypto, disk: seq<byte>, key: XtsKey, h: Header, i: nat, cr: Cred)
    requires Sized(c)
  {
    && Reads(c, key, h, ReadHeader(c, disk, Pass(cr.text, cr.kdf, i + 1)))
    && Reads(c, key, h, ReadHeader(c, disk, Pass(cr.text, cr.kdf, -KEY_SLOT_MAX)))
  }

  lemma SlotCredential(c: Crypto, disk: seq<byte>, key: XtsKey, h: Header, creds: Creds, i: nat)
    requires Holds(c, disk, key, h, creds) && i < |creds.slots| && creds.slots[i].Some?
    ensures var cr := creds.slots[i].value;
            IsSlotPass(c, h, key, i, cr.text, cr.kdf) && i < KEY_SLOT_MAX && Tries(cr.kdf, cr.kdf)
  {
    hide SlotUsed, SlotReadable;
    assert SlotIs(c, h, key, i, creds.slots[i]);
    StandardReadable(c, disk, key, h, creds, i);
  }

  // ----- runs

  datatype Call = Call(opener: Pass, after: Pass, salt: seq<byte>, noise: seq<byte>)

  ghost predicate IsCall(call: Call) {
    |call.salt| == HEADER_SALT_SIZE
  }

  function Change(c: Crypto, disk: seq<byte>, call: Call): (r: Result<seq<byte>>)
    requires Sized(c)
    ensures r.Ok? ==> |r.value| == |disk|
  {
    ChangePassword(c, disk, call.opener, call.after, call.salt, call.noise)
  }

  /** The disk after a run: a refused call leaves it as it was. */
  function Run(c: Crypto, disk: seq<byte>, calls: seq<Call>): (d: seq<byte>)
    requires Sized(c)
    ensures |d| == |disk|
    decreases |calls|
  {
    if calls == [] then disk
    else
      match Change(c, disk, calls[0])
      case Ok(d) => Run(c, d, calls[1..])
      case Err(_) => Run(c, disk, calls[1..])
  }

  /** Who can open the header after a run. */
  function RunCreds(c: Crypto, disk: seq<byte>, creds: Creds, calls: seq<Call>): Creds
    requires Sized(c)
    decreases |calls|
  {
    if calls == [] then creds
    else
      match Change(c, disk, calls[0])
      case Ok(d) => RunCreds(c, d, NextCreds(creds, calls[0].after), calls[1..])
      case Err(_) => RunCreds(c, disk, creds, calls[1..])
  }

  /** After any run the current passwords are in the header, which is still that of the same volume; the data is untouched. */
  lemma {:induction false} RunKeeps(c: Crypto, disk: seq<byte>, key: XtsKey, h: Header, creds: Creds, calls: seq<Call>)
    returns (key': XtsKey, h': Header)
    requires Holds(c, disk, key, h, creds) && forall call <- calls :: IsCall(call)
    ensures var d := Run(c, disk, calls);
            && Holds(c, d, key', h', RunCreds(c, disk, creds, calls)) && SameVolume(h, h')
            && |d| == |disk| && d[Length(h)..] == disk[Length(h)..]
    decreases |calls|
  {
    hide Keyed, ChangePassword, Fits, WellLaid;
    if calls == [] {
      key', h' := key, h;
    } else {
      match Change(c, disk, calls[0])
      case Ok(d) =>
        var call := calls[0];
        assert call in calls && IsCall(call);
        var k1, h1 := PasswordChanged(c, disk, key, h, creds, call.opener, call.after, call.salt, call.noise);
        key', h' := RunKeeps(c, d, k1, h1, NextCreds(creds, call.after), calls[1..]);
      case Err(_) => key', h' := RunKeeps(c, disk, key, h, creds, calls[1..]);
    }
  }

  /** From creation on: after any run every current credential opens the volume the header was created for. */
  lemma CreatedRunOpens(c: Crypto, disk: seq<byte>, cipher: string, slotCount: int, pw: Cred, r: Fresh, calls: seq<Call>)
    returns (key: XtsKey, h: Header)
    requires Lawful(c) && IsFresh(r) && |disk| > NEW_HEADER_SIZE && CreateHeader(c, cipher, slotCount, pw, r).Ok?
    requires forall call <- calls :: IsCall(call)
    ensures h.base.key1 == r.key1 && Some(h.base.alg) == CipherOf(cipher) && Length(h) == NEW_HEADER_SIZE
    ensures var s := CreateHeader(c, cipher, slotCount, pw, r).value;
            var created := Poke(disk, 0, Seal(c, s.key, s.header));
            var creds := RunCreds(c, created, NewCreds(slotCount, pw), calls);
            var d := Run(c, created, calls);
            && d[NEW_HEADER_SIZE..] == disk[NEW_HEADER_SIZE..]
            && Reads(c, key, h, ReadHeader(c, d, Pass(creds.head.text, creds.head.kdf, 0)))
            && forall i | 0 <= i < |creds.slots| && creds.slots[i].Some? :: SlotOpens(c, d, key, h, i, creds.slots[i].value)
  {
    hide WellLaid, Keyed, Reads, SlotOpens, Seal, Run, RunCreds, NewCreds;
    var s := CreateHeader(c, cipher, slotCount, pw, r).value;
    CreatedKeyed(c, cipher, slotCount, pw, r);
    Written(c, disk, s.key, s.header);
    var created := Poke(disk, 0, Seal(c, s.key, s.header));
    key, h := RunKeeps(c, created, s.key, s.header, NewCreds(slotCount, pw), calls);
    CredentialsOpen(c, Run(c, created, calls), key, h, RunCreds(c, created, NewCreds(slotCount, pw), calls));
  }
}
