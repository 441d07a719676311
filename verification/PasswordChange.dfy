/** CreateHeader and ChangePassword: which salt, key and slots a header is given, and what every run of them keeps. */
module PasswordChange {
  import opened Bytes
  import opened Results
  import opened VolumeHeader
  import opened HeaderOpen
  import opened HeaderCredentials
  import opened KeySlots

  const ERR_UNKNOWN_CIPHER := 3
  const VF_NO_REDIR := 8
  const NEW_HEADER_SIZE := 65536
  const CRYPTO_SLOTS_DEFAULT := -1

  // ----- creating a header

  function Upper(s: string): string {
    seq(|s|, i requires 0 <= i < |s| => if 'a' <= s[i] <= 'z' then s[i] - 'a' + 'A' else s[i])
  }

  function CipherOf(name: string): Option<nat> {
    var n := Upper(name);
    if n == "" || n == "AES" || n == "RIJNDAEL" then Some(0)
    else if n == "TWOFISH" then Some(1)
    else if n == "SERPENT" then Some(2)
    else if n == "AES-TWOFISH" then Some(3)
    else if n == "TWOFISH-SERPENT" then Some(4)
    else if n == "SERPENT-AES" then Some(5)
    else if n == "AES-TWOFISH-SERPENT" then Some(6)
    else None
  }

  /** What make_rand hands out for a new header. */
  datatype Fresh = Fresh(diskId: nat, key1: seq<byte>, salt: seq<byte>, noise: seq<byte>)

  ghost predicate IsFresh(r: Fresh) {
    r.diskId < 0x1_0000_0000 && |r.key1| == DISKKEY_SIZE && |r.salt| == HEADER_SALT_SIZE
  }

  /** alg_2 and key_2 are zero, data_off is the header size, tmp_wp_mode is zero. */
  function NewOther(): (r: seq<byte>)
    ensures |r| == OTHER_SIZE
  {
    Zeros(260) + [0, 0, 1, 0, 0, 0, 0, 0, 0]
  }

  function NewBase(alg: nat, kdf: nat, slots: nat, r: Fresh): Base {
    var flags := if slots > 0 then 1 else 0;
    var info := if slots > 0 then SLOT_INFO_SIZE else 0;
    Base(DC_HDR_VERSION_2, VF_NO_REDIR, r.diskId, alg, r.key1, 0, 0, NEW_HEADER_SIZE, 0,
         flags, 0, kdf, slots * PKCS_DERIVE_MAX, slots, info, NewOther())
  }

  /** Random bytes in the slots, zeros everywhere else past the base. */
  function NewTail(slots: nat, noise: seq<byte>): (t: seq<byte>)
    requires slots <= KEY_SLOT_MAX
    ensures |t| == NEW_HEADER_SIZE - DC_BASE_SIZE
  {
    Peek(noise, 0, slots * PKCS_DERIVE_MAX) + Zeros(NEW_HEADER_SIZE - DC_BASE_SIZE - slots * PKCS_DERIVE_MAX)
  }

  /** WriteHeader without a key: a fresh salt, and a key from the password over it. */
  function Resalt(c: Crypto, h: Header, pw: Cred, salt: seq<byte>): Result<Sealing> {
    if |pw.text| == 0 then Err(ERR_KEY_REQUIRED)
    else
      match Derive(c, pw.text, pw.kdf, salt)
      case None => Err(ERR_INTERNAL)
      case Some(dk) => if h.base.alg >= CF_CIPHERS_NUM then Err(ERR_INTERNAL) else Ok(Sealing(h.(salt := salt), SetKey(dk, h.base.alg)))
  }

  /** A header and the key to seal it with. */
  datatype Sealing = Sealing(header: Header, key: XtsKey)

  /** WriteHeader up to the write: under the key handed in, or salted anew. */
  function ToWrite(c: Crypto, h: Header, key: Option<XtsKey>, pw: Cred, salt: seq<byte>): Result<Sealing> {
    match key
    case Some(k) => Ok(Sealing(h, k))
    case None => Resalt(c, h, pw, salt)
  }

  /** The KDF a new header is made with: a selector becomes a choice. */
  function NewKdf(kdf: int): Result<nat> {
    if kdf == KDF_DEFAULT then Ok(KDF_ARGON_DEFAULT)
    else if kdf < 0 || kdf > KDF_ARGON_MAX then Err(ERR_INVALID_PARAM)
    else Ok(kdf)
  }

  /** CreateHeader up to the write. */
  function CreateHeader(c: Crypto, cipher: string, slotCount: int, pw: Cred, r: Fresh): Result<Sealing> {
    match (CipherOf(cipher), NewKdf(pw.kdf))
    case (None, _) => Err(ERR_UNKNOWN_CIPHER)
    case (_, Err(e)) => Err(e)
    case (Some(alg), Ok(kdf)) =>
      var slots := if slotCount == CRYPTO_SLOTS_DEFAULT then KEY_SLOT_COUNT else slotCount;
      if slots < 0 || slots > KEY_SLOT_MAX then Err(ERR_INVALID_PARAM)
      else Resalt(c, Header(r.salt, NewBase(alg, kdf, slots, r), NewTail(slots, r.noise)), Cred(pw.text, kdf), r.salt)
  }

  // ----- changing passwords

  /** The header ChangePassword writes, and the key it seals it with. `before` opened the header. */
  function ChangedHeader(c: Crypto, h: Header, key: XtsKey, before: Cred, after: Pass, salt: seq<byte>, noise: seq<byte>): Result<Sealing> {
    if after.slot != 0 then
      if !HasKeySlots(h.base) || after.slot < 1 || after.slot > h.base.keySlotCount then Err(ERR_INVALID_PARAM)
      else if |after.text| == 0 then Ok(Sealing(h.(tail := EraseSlot(c, h.base, h.tail, after.slot - 1, noise)), key))
      else WithSlotPass(c, h, key, before, after)
    else if HasKeySlots(h.base) then Rewrapped(c, h, before, after, salt, noise)
    else Resalt(c, WithKdf(h, after.kdf), Cred(after.text, after.kdf), salt)
  }

  function WithSlotPass(c: Crypto, h: Header, key: XtsKey, before: Cred, after: Pass): Result<Sealing>
    requires after.slot > 0
  {
    var i := after.slot - 1;
    if h.base.slotInfoSize < SLOT_INFO_SIZE
      || DC_BASE_SIZE + SlotOffset(h.base, i) + SlotSize(h.base) > h.base.headLen
      || DC_BASE_SIZE + InfoOffset(h.base, i) + h.base.slotInfoSize > h.base.headLen then Err(ERR_INTERNAL)
    else
      match (Derive(c, before.text, before.kdf, h.salt), Derive(c, after.text, after.kdf, h.salt))
      case (Some(dk), Some(sk)) => Ok(Sealing(h.(tail := SetSlot(c, h.base, h.tail, i, sk, dk, after.kdf)), key))
      case _ => Err(ERR_INVALID_PARAM)
  }

  function WithKdf(h: Header, kdf: int): Header {
    if h.base.version >= DC_HDR_VERSION_2 && kdf >= 0 then h.(base := h.base.(headKdf := kdf % 256)) else h
  }

  /** Slots in use keep the salt and are wrapped anew; without any, the header gets a new salt. */
  function Rewrapped(c: Crypto, h: Header, before: Cred, after: Pass, salt: seq<byte>, noise: seq<byte>): Result<Sealing> {
    match (Derive(c, before.text, before.kdf, h.salt), Derive(c, after.text, after.kdf, h.salt))
    case (Some(oldDk), Some(newDk)) =>
      (match UpdateSlots(c, h.base, Update(h.tail, false), 0, oldDk, newDk, noise)
       case Err(e) => Err(e)
       case Ok(u) =>
         var h' := WithKdf(h.(tail := u.tail), after.kdf);
         if !u.used then Resalt(c, h', Cred(after.text, after.kdf), salt)
         else if h.base.alg >= CF_CIPHERS_NUM then Err(ERR_INVALID_PARAM)
         else Ok(Sealing(h', SetKey(newDk, h.base.alg))))
    case _ => Err(ERR_INVALID_PARAM)
  }

  /** The part of what was read that is the header. */
  function Cut(h: Header): Header {
    match HeaderLen(h.base)
    case Err(_) => h
    case Ok(len) => h.(tail := h.tail[..Min(|h.tail|, len - DC_BASE_SIZE)])
  }

  /** ChangePassword on a disk that can be read and written: the disk afterwards. */
  function ChangePassword(c: Crypto, disk: seq<byte>, opener: Pass, after: Pass, salt: seq<byte>, noise: seq<byte>): Result<seq<byte>>
    requires Sized(c)
  {
    if (|after.text| == 0 && after.slot == 0) || after.kdf < 0 || after.kdf > KDF_ARGON_MAX then Err(ERR_INVALID_PARAM)
    else
      match ReadHeader(c, disk, opener)
      case Err(e) => Err(e)
      case Ok(o) =>
        if o.slot != 0 then Err(ERR_INVALID_PARAM)
        else
          match ChangedHeader(c, Cut(o.header), o.key, Cred(opener.text, o.kdf), after, salt, noise)
          case Err(e) => Err(e)
          case Ok(s) => Ok(Poke(disk, 0, Seal(c, s.key, s.header)))
  }

  // ----- who can open the header

  datatype Cred = Cred(text: seq<byte>, kdf: int)

  /** The header password, and the password of each slot in use. */
  datatype Creds = Creds(head: Cred, slots: seq<Option<Cred>>)

  /** Slot i is free, or wraps the header key under this password. */
  ghost predicate SlotIs(c: Crypto, h: Header, key: XtsKey, i: nat, cred: Option<Cred>)
    requires Standard(h.base, h.tail) && i < h.base.keySlotCount
  {
    StandardSizes(h.base, h.tail, i);
    && SlotFlags(h.base, h.tail, i) & SF_DISABLED == 0
    && match cred
       case None => SlotFlags(h.base, h.tail, i) & SF_ACTIVE == 0
       case Some(cr) => SlotUsed(c, h.base, h.tail, i) && SlotType(h.base, h.tail, i) == [0, 0] && Wraps(c, h, key, SlotKey(h.tail, i), cr)
  }

  ghost predicate Wraps(c: Crypto, h: Header, key: XtsKey, slot: seq<byte>, cred: Cred) {
    && Derive(c, cred.text, cred.kdf, h.salt).Some?
    && SetKey(Xor(slot, Derive(c, cred.text, cred.kdf, h.salt).value), key.alg) == key
  }

  /** The header is laid out as CreateHeader does it, and exactly these passwords are in it. */
  ghost predicate Keyed(c: Crypto, h: Header, key: XtsKey, creds: Creds) {
    && h.base.version >= DC_HDR_VERSION_2
    && IsHeaderPass(c, h, key, creds.head.text, creds.head.kdf)
    && |creds.slots| == (if HasSlotFlag(h.base) then h.base.keySlotCount else 0)
    && (HasSlotFlag(h.base) ==>
          && Standard(h.base, h.tail)
          && forall i | 0 <= i < |creds.slots| :: SlotIs(c, h, key, i, creds.slots[i]))
  }

  /** No slot is in use. */
  predicate NoSlots(creds: Creds) {
    forall i | 0 <= i < |creds.slots| :: creds.slots[i].None?
  }

  /** Who can open the header after an accepted change. */
  function NextCreds(creds: Creds, after: Pass): Creds {
    if after.slot == 0 then creds.(head := Cred(after.text, after.kdf))
    else if after.slot < 1 || after.slot > |creds.slots| then creds
    else creds.(slots := creds.slots[after.slot - 1 := if |after.text| == 0 then None else Some(Cred(after.text, after.kdf))])
  }

  /** What no change of password changes. */
  ghost predicate SameVolume(h: Header, h': Header) {
    && h'.base == h.base.(headKdf := h'.base.headKdf) && |h'.tail| == |h.tail|
    && (h'.base.headKdf < 0x100 || h'.base.headKdf == h.base.headKdf)
  }

  // ----- the creation of a header

  lemma CreatedSlots(c: Crypto, slots: nat, alg: nat, kdf: nat, r: Fresh, i: nat)
    requires i < slots <= KEY_SLOT_MAX
    ensures var b, t := NewBase(alg, kdf, slots, r), NewTail(slots, r.noise);
            Standard(b, t) && SlotFlags(b, t, i) == 0
  {
    var b, t := NewBase(alg, kdf, slots, r), NewTail(slots, r.noise);
    assert b.keySlotCount * b.slotInfoSize == 32 * slots;
    assert b.slotInfoSize * i == 32 * i;
  }

  lemma CreatedLaid(slots: nat, alg: nat, kdf: nat, r: Fresh, salt: seq<byte>)
    requires slots <= KEY_SLOT_MAX && IsFresh(r) && alg < CF_CIPHERS_NUM && kdf <= KDF_ARGON_MAX && |salt| == HEADER_SALT_SIZE
    ensures var h := Header(salt, NewBase(alg, kdf, slots, r), NewTail(slots, r.noise));
            WellLaid(h) && HeaderLen(h.base) == Ok(Length(h)) && Length(h) == NEW_HEADER_SIZE
  {
    var b := NewBase(alg, kdf, slots, r);
    assert b.keySlotCount * b.slotInfoSize <= 32 * slots;
    if slots > 0 {
      QuotientIs(b.slotAreaLen, slots, 192);
    }
  }

  /** A created header opens with the password it was made for, and has no slot in use. */
  lemma CreatedKeyed(c: Crypto, cipher: string, slotCount: int, pw: Cred, r: Fresh)
    requires Lawful(c) && IsFresh(r)
    ensures var s := CreateHeader(c, cipher, slotCount, pw, r);
            s.Ok? ==>
              && WellLaid(s.value.header) && IsKey(s.value.key) && s.value.key.alg == s.value.header.base.alg
              && HeaderLen(s.value.header.base) == Ok(Length(s.value.header)) && Length(s.value.header) == NEW_HEADER_SIZE
              && Keyed(c, s.value.header, s.value.key, NewCreds(slotCount, pw)) && NoSlots(NewCreds(slotCount, pw))
  {
    hide Fits;
    var s := CreateHeader(c, cipher, slotCount, pw, r);
    if s.Ok? {
      var slots := if slotCount == CRYPTO_SLOTS_DEFAULT then KEY_SLOT_COUNT else slotCount;
      var h := s.value.header;
      CreatedLaid(slots, h.base.alg, h.base.headKdf, r, r.salt);
      forall i | 0 <= i < slots
        ensures Standard(h.base, h.tail) && SlotFlags(h.base, h.tail, i) == 0
      {
        CreatedSlots(c, slots, h.base.alg, h.base.headKdf, r, i);
      }
      if slots > 0 { CreatedSlots(c, slots, h.base.alg, h.base.headKdf, r, 0); }
    }
  }

  function NewCreds(slotCount: int, pw: Cred): Creds {
    var slots := if slotCount == CRYPTO_SLOTS_DEFAULT then KEY_SLOT_COUNT else slotCount;
    var kdf := if pw.kdf == KDF_DEFAULT then KDF_ARGON_DEFAULT else pw.kdf;
    Creds(Cred(pw.text, kdf), if slots < 0 then [] else seq(slots, _ => None))
  }
}
