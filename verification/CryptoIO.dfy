/** CCryptoIO over a store: the header operations and the encrypted data path. */
module CryptoIO {
  import opened Bytes
  import opened Results
  import opened VolumeHeader
  import opened HeaderOpen
  import opened HeaderCredentials
  import opened KeySlots
  import opened PasswordChange
  import opened CredentialRuns
  import opened CryptoData

  /**
   * The store below: any transfer may fail, and a failed write leaves the range it was for in no known state.
   * Others may write to a shared store between two transfers. `failed` counts the transfers that have failed.
   */
  class Store {
    var bytes: seq<byte>
    ghost var failed: nat
    const shared: bool

    constructor (bytes: seq<byte>, shared: bool)
      ensures this.bytes == bytes && this.shared == shared
    {
      this.bytes, this.shared := bytes, shared;
      this.failed := 0;
    }

    method DiskRead(len: nat, off: nat) returns (ok: bool, buf: seq<byte>)
      requires off + len <= |bytes|
      modifies this
      ensures |bytes| == old(|bytes|) && (!shared ==> bytes == old(bytes))
      ensures ok ==> buf == bytes[off..off + len]
      ensures failed == old(failed) + if ok then 0 else 1
    {
      if shared {
        var others: seq<byte> :| |others| == |bytes|;
        bytes := others;
      }
      ok, buf := *, [];
      if ok { buf := bytes[off..off + len]; } else { failed := failed + 1; }
    }

    /** A write that reaches past the end may be refused, or makes the store longer. */
    method DiskWrite(buf: seq<byte>, off: nat) returns (ok: bool)
      requires off <= |bytes|
      modifies this
      ensures off + |buf| <= old(|bytes|) ==>
                && |bytes| == old(|bytes|) && (ok ==> bytes == Splice(old(bytes), off, buf))
                && bytes[..off] == old(bytes[..off]) && bytes[off + |buf|..] == old(bytes[off + |buf|..])
      ensures off + |buf| > old(|bytes|) && ok ==> bytes == old(bytes[..off]) + buf
      ensures failed == old(failed) + if ok then 0 else 1
    {
      ok := *;
      var done: nat :| done <= |buf| && (ok ==> done == |buf|);
      var rest := if off + done <= |bytes| then bytes[off + done..] else [];
      assert ok ==> buf[..done] == buf;
      bytes := bytes[..off] + buf[..done] + rest;
      if !ok { failed := failed + 1; }
    }

    /** Zeros in the part of every range that is on the disk. */
    method TrimProcess(ranges: seq<(nat, nat)>)
      modifies this`bytes
      ensures bytes == Trimmed(old(bytes), ranges)
    {
      bytes := Trimmed(bytes, ranges);
    }
  }

  /**
   * ReadHeader. It ends whatever others do to the store, and searches for the password only once;
   * a store of its own it reads at most twice.
   */
  method ReadHeaderFrom(c: Crypto, io: Store, pw: Pass) returns (r: Result<Opened>, ghost passes: nat, ghost searches: nat)
    requires Sized(c)
    modifies io
    ensures searches <= 1 && |io.bytes| == old(|io.bytes|)
    ensures io.failed == old(io.failed) + if r == Err(ERR_IO_FAILED) then 1 else 0
    ensures !io.shared ==> io.bytes == old(io.bytes) && passes <= 2 && (r == ReadHeader(c, io.bytes, pw) || r == Err(ERR_IO_FAILED))
    ensures r.Ok? ==> Covered(r.value.header) && DC_BASE_SIZE + |r.value.header.tail| <= |io.bytes|
  {
    hide DecryptHeader, OpenWithKey, ReadLen, Search;
    passes, searches := 0, 0;
    var size := |io.bytes|;
    var len := ReadLen(size, pw.slot);
    ReadLenFits(size, pw.slot);
    ghost var first := len;
    var found: Option<Opened> := None;
    while true
      invariant io.failed == old(io.failed) && |io.bytes| == size && len <= size && first == ReadLen(size, pw.slot) <= size
      invariant found.None? ==> len == first && passes == 0 && searches == 0
      invariant found.Some? ==> searches == 1 && DC_AREA_SIZE <= first < len
      invariant !io.shared ==> io.bytes == old(io.bytes)
      invariant !io.shared && found.Some? ==> passes == 1 && DecryptHeader(c, io.bytes[..first], pw) == found
      invariant !io.shared && found.Some? ==> HeaderLen(found.value.header.base) == Ok(len)
      decreases DC_AREA_MAX_SIZE - len
    {
      var ok, image := io.DiskRead(len, 0);
      if !ok { return Err(ERR_IO_FAILED), passes, searches; }
      assert image == io.bytes[..len];
      passes := passes + 1;
      var o: Opened;
      if found.None? {
        searches := searches + 1;
        var d := DecryptHeader(c, image, pw);
        if d.None? { return Err(ERR_WRONG_PASSWORD), passes, searches; }
        o := d.value;
        Decrypted(c, image, pw);
      } else {
        if !io.shared {
          Decrypted(c, io.bytes[..first], pw);
          SecondReadEnough(c, io.bytes, found.value.key, found.value.header.base, first, len);
        }
        var h := OpenWithKey(c, found.value.key, image);
        if h.None? { return Err(ERR_INTERNAL), passes, searches; }
        OpenedSize(c, found.value.key, image);
        o := found.value.(header := h.value);
      }
      match HeaderLen(o.header.base) {
        case Err(e) => return Err(e), passes, searches;
        case Ok(headLen) =>
          if headLen <= len { return Ok(o), passes, searches; }
          if headLen > |io.bytes| { return Err(ERR_INTERNAL), passes, searches; }
          found, len := Some(o), headLen;
      }
    }
  }

  /** The header that was unsealed reaches as far as it says, or as far as the image does. */
  ghost predicate Reaches(h: Header, length: nat) {
    && |h.salt| == HEADER_SALT_SIZE && DC_BASE_SIZE + |h.tail| <= length
    && (HeaderLen(h.base).Ok? && HeaderLen(h.base).value <= length ==> HeaderLen(h.base).value <= DC_BASE_SIZE + |h.tail|)
  }

  lemma Decrypted(c: Crypto, image: seq<byte>, pw: Pass)
    requires Sized(c)
    ensures var d := DecryptHeader(c, image, pw);
            d.Some? ==> |image| >= DC_AREA_SIZE && OpenBase(c, d.value.key, image) == Some(d.value.header.base) && Reaches(d.value.header, |image|)
  {
    hide Search;
    if |image| >= DC_AREA_SIZE { SearchOpened(c, image, pw, KdfList(pw.kdf)); }
  }

  lemma OpenedSize(c: Crypto, key: XtsKey, image: seq<byte>)
    requires Sized(c) && |image| >= DC_AREA_SIZE
    ensures var h := OpenWithKey(c, key, image); h.Some? ==> Reaches(h.value, |image|)
  {
  }

  /** All of the header is there, its slots and descriptors included. */
  ghost predicate Covered(h: Header) {
    && |h.salt| == HEADER_SALT_SIZE
    && HeaderLen(h.base).Ok? && HeaderLen(h.base).value <= DC_BASE_SIZE + |h.tail|
    && (h.base.version >= DC_HDR_VERSION_2 && HasSlotFlag(h.base) ==> SlotsEnd(h.base) <= HeaderLen(h.base).value)
  }

  /** dc_update_key_slots */
  method UpdateKeySlots(c: Crypto, b: Base, before: seq<byte>, oldDk: seq<byte>, newDk: seq<byte>, noise: seq<byte>) returns (r: Result<Update>)
    ensures r == UpdateSlots(c, b, Update(before, false), 0, oldDk, newDk, noise)
    ensures r.Ok? ==> |r.value.tail| == |before|
  {
    var tail, used, i := before, 0, 0;
    while i < b.keySlotCount
      invariant 0 <= i <= b.keySlotCount && used >= 0 && |tail| == |before|
      invariant UpdateSlots(c, b, Update(tail, used > 0), i, oldDk, newDk, noise) == UpdateSlots(c, b, Update(before, false), 0, oldDk, newDk, noise)
    {
      if SlotUsed(c, b, tail, i) {
        if SlotType(b, tail, i) != [0, 0] { return Err(ERR_INTERNAL); }
        used := used + 1;
        tail := UpdateSlot(c, b, tail, i, oldDk, newDk, noise);
      } else {
        tail := UpdateSlot(c, b, tail, i, oldDk, newDk, noise);
      }
      i := i + 1;
    }
    return Ok(Update(tail, used > 0));
  }

  const ERR_OK := 0

  /** The front of the disk may have been written, and nothing else. */
  ghost predicate FrontOnly(before: seq<byte>, after: seq<byte>, len: nat) {
    |after| == |before| && len <= |after| && after[len..] == before[len..]
  }

  /**
   * ERR_IO_FAILED is returned exactly when a transfer has failed. Otherwise the disk and the result are those the
   * specification gives, and an error leaves the disk alone.
   */
  ghost predicate Did(r: nat, failed: bool, before: seq<byte>, after: seq<byte>, spec: Result<seq<byte>>) {
    && (failed <==> r == ERR_IO_FAILED)
    && if failed then |after| == |before|
       else
         match spec
         case Ok(disk) => r == ERR_OK && after == disk
         case Err(e) => r == e && after == before
  }

  /** The same for a header that is written over a store too short for it. */
  ghost predicate Overwrote(c: Crypto, r: nat, failed: bool, before: seq<byte>, after: seq<byte>, spec: Result<Sealing>)
    requires Sized(c)
  {
    && (failed <==> r == ERR_IO_FAILED)
    && (!failed ==>
          match spec
          case Ok(s) => r == ERR_OK && after == Seal(c, s.key, s.header)
          case Err(e) => r == e && after == before)
  }

  /** The disk with a sealed header at its front. */
  function Put(c: Crypto, disk: seq<byte>, s: Result<Sealing>): Result<seq<byte>>
    requires Sized(c)
  {
    match s
    case Err(e) => Err(e)
    case Ok(v) => Ok(Poke(disk, 0, Seal(c, v.key, v.header)))
  }

  /** A header under a key already held. */
  function Under(w: Result<Header>, key: XtsKey): Result<Sealing> {
    match w
    case Err(e) => Err(e)
    case Ok(h) => Ok(Sealing(h, key))
  }

  lemma SealLength(c: Crypto, key: XtsKey, h: Header)
    requires Lawful(c) && |h.salt| == HEADER_SALT_SIZE
    ensures |Seal(c, key, h)| == DC_BASE_SIZE + |h.tail|
  {
  }

  lemma PokeFront(disk: seq<byte>, data: seq<byte>)
    requires |data| <= |disk|
    ensures Poke(disk, 0, data) == Splice(disk, 0, data)
  {
  }

  lemma CutLength(h: Header)
    requires Covered(h)
    ensures var t := Cut(h);
            t.base == h.base && t.salt == h.salt && DC_BASE_SIZE + |t.tail| == HeaderLen(h.base).value
  {
  }

  /** ChangePassword, step by step. */
  lemma ChangePasswordSteps(c: Crypto, disk: seq<byte>, opener: Pass, after: Pass, salt: seq<byte>, noise: seq<byte>)
    requires Sized(c) && (after.text != [] || after.slot != 0) && 0 <= after.kdf <= KDF_ARGON_MAX
    ensures var r := ReadHeader(c, disk, opener);
            PasswordChange.ChangePassword(c, disk, opener, after, salt, noise) ==
            if r.Err? then Err(r.code) else if r.value.slot != 0 then Err(ERR_INVALID_PARAM)
            else Put(c, disk, ChangedHeader(c, Cut(r.value.header), r.value.key, Cred(opener.text, r.value.kdf), after, salt, noise))
  {
    hide ReadHeader, ChangedHeader, Cut, Seal;
  }

  /** The ways ReadHeader fails on a store that can be read. */
  lemma ReadFails(c: Crypto, disk: seq<byte>, pw: Pass)
    requires Sized(c)
    ensures var r := ReadHeader(c, disk, pw); r.Err? ==> r.code == ERR_WRONG_PASSWORD || r.code == ERR_INTERNAL
  {
    hide DecryptHeader, OpenWithKey;
    var len := ReadLen(|disk|, pw.slot);
    ReadLenFits(|disk|, pw.slot);
    match DecryptHeader(c, disk[..len], pw)
    case None =>
    case Some(o) =>
      if HeaderLen(o.header.base).Ok? && len < HeaderLen(o.header.base).value <= |disk| {
        KeyReadFails(c, disk, o.key, HeaderLen(o.header.base).value);
      }
  }

  lemma {:induction false} KeyReadFails(c: Crypto, disk: seq<byte>, key: XtsKey, len: nat)
    requires Sized(c) && DC_AREA_SIZE <= len <= |disk|
    ensures var r := ReadWithKey(c, disk, key, len); r.Err? ==> r.code == ERR_INTERNAL
    decreases DC_AREA_MAX_SIZE - len
  {
    hide OpenWithKey;
    match OpenWithKey(c, key, disk[..len])
    case None =>
    case Some(h) =>
      if HeaderLen(h.base).Ok? && len < HeaderLen(h.base).value <= |disk| { KeyReadFails(c, disk, key, HeaderLen(h.base).value); }
  }

  /** The ways a change of password is refused. */
  lemma ChangeFails(c: Crypto, h: Header, key: XtsKey, before: Cred, after: Pass, salt: seq<byte>, noise: seq<byte>)
    ensures var r := ChangedHeader(c, h, key, before, after, salt, noise);
            r.Err? ==> r.code == ERR_KEY_REQUIRED || r.code == ERR_INTERNAL || r.code == ERR_INVALID_PARAM
  {
    hide UpdateSlots, EraseSlot, SetSlot, Derive;
    if after.slot == 0 && Derive(c, before.text, before.kdf, h.salt).Some? && Derive(c, after.text, after.kdf, h.salt).Some? {
      UpdateFails(c, h.base, Update(h.tail, false), 0, Derive(c, before.text, before.kdf, h.salt).value,
                  Derive(c, after.text, after.kdf, h.salt).value, noise);
    }
  }

  lemma {:induction false} UpdateFails(c: Crypto, b: Base, u: Update, i: nat, oldDk: seq<byte>, newDk: seq<byte>, noise: seq<byte>)
    ensures var r := UpdateSlots(c, b, u, i, oldDk, newDk, noise); r.Err? ==> r.code == ERR_INTERNAL
    decreases b.keySlotCount - i
  {
    hide SlotUsed, SlotType, UpdateSlot;
    if i < b.keySlotCount {
      UpdateFails(c, b, Update(UpdateSlot(c, b, u.tail, i, oldDk, newDk, noise), u.used || SlotUsed(c, b, u.tail, i)), i + 1, oldDk, newDk, noise);
    }
  }

  /** The outcome of formatting with a password that names a slot: the header is written, and then it may not open. */
  ghost predicate FormattedNamed(c: Crypto, r: nat, before: seq<byte>, after: seq<byte>, spec: Result<Sealing>, pw: Pass)
    requires Sized(c)
  {
    match spec
    case Err(e) => r == e && after == before
    case Ok(_) =>
      && Put(c, before, spec) == Ok(after) && NewKdf(pw.kdf).Ok?
      && r == if ReadHeader(c, after, pw.(kdf := NewKdf(pw.kdf).value)).Ok? then ERR_OK else ERR_INTERNAL
  }

  /** Which changes a header takes: the credentials it is keyed with say which slots it has. */
  lemma AcceptedAsKeyed(c: Crypto, disk: seq<byte>, opener: Pass, after: Pass, salt: seq<byte>, noise: seq<byte>)
    requires Sized(c)
    ensures forall key, h, creds | Holds(c, disk, key, h, creds) ::
              PasswordChange.ChangePassword(c, disk, opener, after, salt, noise).Ok? <==>
              HeaderOpens(c, disk, opener) && 0 <= after.kdf <= 10 && ((after.slot == 0 && after.text != []) || 1 <= after.slot <= |creds.slots|)
  {
    hide Holds, ReadHeader, PasswordChange.ChangePassword;
    forall key, h, creds | Holds(c, disk, key, h, creds)
      ensures PasswordChange.ChangePassword(c, disk, opener, after, salt, noise).Ok? <==>
              HeaderOpens(c, disk, opener) && 0 <= after.kdf <= 10 && ((after.slot == 0 && after.text != []) || 1 <= after.slot <= |creds.slots|)
    {
      ChangeAccepted(c, disk, key, h, creds, opener, after, salt, noise);
    }
  }

  /** The password opens the header as its own, not by way of a slot. */
  ghost predicate HeaderOpens(c: Crypto, disk: seq<byte>, pw: Pass)
    requires Sized(c)
  {
    ReadHeader(c, disk, pw).Ok? && ReadHeader(c, disk, pw).value.slot == 0
  }

  /** Whatever opens a store that is all header finds that header. */
  lemma OnlyThisLength(c: Crypto, disk: seq<byte>, key: XtsKey, h: Header, pw: Pass)
    requires OnDisk(c, disk + [0], key, h) && |disk| == Length(h)
    ensures var r := ReadHeader(c, disk, pw); r.Ok? ==> HeaderLen(r.value.header.base) == Ok(|disk|)
  {
    hide Fits, Search, OpenTail, OpenedBy, Seal;
    var len := ReadLen(|disk|, pw.slot);
    ReadLenFits(|disk|, pw.slot);
    if ReadHeader(c, disk, pw).Ok? {
      var image := disk[..len];
      assert (disk + [0])[..len] == image;
      ReadParts(c, disk + [0], key, h, len);
      SearchFindsKey(c, image, pw, KdfList(pw.kdf), key, h.base);
      SearchOpened(c, image, pw, KdfList(pw.kdf));
      if Length(h) > len { SecondReadEnough(c, disk, key, h.base, len, Length(h)); }
    }
  }

  /** xts_encrypt and xts_decrypt on whole sectors, in place. */
  method CryptBuffer(f: SectorFunction, k: XtsKey, n: nat, buf: array<byte>)
    requires KeepsSize(f) && Whole(buf.Length)
    modifies buf
    ensures buf[..] == Crypt(f, k, n, old(buf[..]))
  {
    hide Crypt;
    var e := Crypt(f, k, n, buf[..]);
    forall i | 0 <= i < buf.Length { buf[i] := e[i]; }
    assert buf[..] == e;
  }

  lemma RangeFits(bytes: seq<byte>, hdrLen: nat, off: nat, len: nat)
    requires InRange(|bytes|, hdrLen, off, len) && hdrLen <= |bytes|
    ensures Whole(len) && hdrLen + off + len <= |bytes|
  {
  }

  /** What writing an encrypted buffer behind the header does to the plaintext disk. */
  lemma Stored(x: Xts, k: XtsKey, hdrLen: nat, before: seq<byte>, after: seq<byte>, off: nat, data: seq<byte>, ok: bool)
    requires Bijective(x) && hdrLen <= |before| && InRange(|before|, hdrLen, off, |data|) && hdrLen + off + |data| <= |before|
    requires |after| == |before| && after[..hdrLen + off] == before[..hdrLen + off]
    requires ok ==> after == Splice(before, hdrLen + off, Crypt(x.enc, k, off / XTS_SECTOR_SIZE, data))
    ensures after[..hdrLen] == before[..hdrLen] && off + |data| <= |Plain(x, k, hdrLen, before)|
    ensures ok ==> Plain(x, k, hdrLen, after) == Splice(Plain(x, k, hdrLen, before), off, data)
  {
    hide Crypt, Plain, Whole;
    WriteSplicesPlain(x, k, hdrLen, before, off, data);
    assert after[..hdrLen] == after[..hdrLen + off][..hdrLen] == before[..hdrLen + off][..hdrLen];
  }

  class CryptoIO {
    const c: Crypto
    const x: Xts
    const io: Store
    const cipher: string
    const slotCount: int
    var password: Option<Pass>
    var hdrLen: nat
    var dataKey: XtsKey

    constructor (c: Crypto, x: Xts, io: Store, pw: Option<Pass>, cipher: string, slotCount: int)
      ensures this.c == c && this.x == x && this.io == io && this.cipher == cipher && this.slotCount == slotCount
      ensures password == pw && hdrLen == DC_AREA_SIZE
    {
      this.c, this.x, this.io, this.cipher, this.slotCount := c, x, io, cipher, slotCount;
      this.password, this.hdrLen, this.dataKey := pw, DC_AREA_SIZE, XtsKey(0, []);
    }

    /** Nobody else writes to the store, and the primitives keep their laws. */
    ghost predicate Valid() {
      !io.shared && Lawful(c) && Bijective(x)
    }

    function Credential(): Cred
      reads this
    {
      match password
      case None => Cred([], 0)
      case Some(pw) => Cred(pw.text, pw.kdf)
    }

    /**
     * WriteHeader: the header, sealed as ToWrite says, goes to the front of the disk. On a store that is too short
     * it goes over everything there is.
     */
    method WriteHeader(h: Header, key: Option<XtsKey>, salt: seq<byte>) returns (r: nat)
      requires Valid() && |h.salt| == |salt| == HEADER_SALT_SIZE && DC_BASE_SIZE + |h.tail| == hdrLen
      modifies io
      ensures hdrLen <= old(|io.bytes|) ==>
                && FrontOnly(old(io.bytes), io.bytes, hdrLen)
                && Did(r, io.failed != old(io.failed), old(io.bytes), io.bytes, Put(c, old(io.bytes), ToWrite(c, h, key, Credential(), salt)))
      ensures hdrLen > old(|io.bytes|) ==> Overwrote(c, r, io.failed != old(io.failed), old(io.bytes), io.bytes, ToWrite(c, h, key, Credential(), salt))
    {
      hide Seal;
      var header, k := h, XtsKey(0, []);
      if key.None? {
        if password.None? || |password.value.text| == 0 { return ERR_KEY_REQUIRED; }
        header := h.(salt := salt);
        var dk := Derive(c, password.value.text, password.value.kdf, salt);
        if dk.None? || header.base.alg >= CF_CIPHERS_NUM { return ERR_INTERNAL; }
        k := SetKey(dk.value, header.base.alg);
      } else {
        k := key.value;
      }
      var image := Seal(c, k, header);
      SealLength(c, k, header);
      if |image| <= |io.bytes| { PokeFront(io.bytes, image); }
      assert io.bytes[..0] + image == image;
      var ok := io.DiskWrite(image, 0);
      r := if ok then ERR_OK else ERR_IO_FAILED;
    }

    /** CreateHeader: a header laid out afresh. */
    method CreateHeader(drawn: Fresh) returns (r: nat)
      requires Valid() && IsFresh(drawn) && password.Some?
      modifies this`hdrLen, this`password, io
      ensures var spec := PasswordChange.CreateHeader(c, cipher, slotCount, old(Credential()), drawn);
              if NEW_HEADER_SIZE <= old(|io.bytes|) then
                FrontOnly(old(io.bytes), io.bytes, hdrLen) && Did(r, io.failed != old(io.failed), old(io.bytes), io.bytes, Put(c, old(io.bytes), spec))
              else Overwrote(c, r, io.failed != old(io.failed), old(io.bytes), io.bytes, spec)
      ensures hdrLen == NEW_HEADER_SIZE
      ensures password.Some? && password.value.text == old(password).value.text && password.value.slot == old(password).value.slot
      ensures r == ERR_OK ==> NewKdf(old(password).value.kdf) == Ok(password.value.kdf)
    {
      hide Seal, Resalt, NewBase, NewTail;
      hdrLen := NEW_HEADER_SIZE;
      var alg := CipherOf(cipher);
      if alg.None? { return ERR_UNKNOWN_CIPHER; }
      var pw := password.value;
      if pw.kdf < 0 {
        if pw.kdf != KDF_DEFAULT { return ERR_INVALID_PARAM; }
        pw := pw.(kdf := KDF_ARGON_DEFAULT);
      } else if pw.kdf > KDF_ARGON_MAX { return ERR_INVALID_PARAM; }
      password := Some(pw);
      var slots := if slotCount == CRYPTO_SLOTS_DEFAULT then KEY_SLOT_COUNT else slotCount;
      if slots < 0 || slots > KEY_SLOT_MAX { return ERR_INVALID_PARAM; }
      if DC_BASE_SIZE + slots * (PKCS_DERIVE_MAX + SLOT_INFO_SIZE) > hdrLen { assert false; }
      var header := Header(drawn.salt, NewBase(alg.value, pw.kdf, slots, drawn), NewTail(slots, drawn.noise));
      r := WriteHeader(header, None, drawn.salt);
    }

    /** The two halves of ChangePassword between the read and the write: a slot, or the header password. */
    method ChangeSlot(h: Header, held: XtsKey, before: Cred, after: Pass, ghost salt: seq<byte>, noise: seq<byte>) returns (w: Result<Header>)
      requires after.slot != 0
      ensures ChangedHeader(c, h, held, before, after, salt, noise) == Under(w, held)
      ensures w.Ok? ==> w.value.salt == h.salt && |w.value.tail| == |h.tail|
    {
      if !HasKeySlots(h.base) || after.slot < 1 || after.slot > h.base.keySlotCount { return Err(ERR_INVALID_PARAM); }
      if |after.text| == 0 { return Ok(h.(tail := EraseSlot(c, h.base, h.tail, after.slot - 1, noise))); }
      match WithSlotPass(c, h, held, before, after) {
        case Err(e) => return Err(e);
        case Ok(s) => return Ok(s.header);
      }
    }

    method ChangeHeaderPass(h: Header, held: XtsKey, before: Cred, after: Pass, ghost salt: seq<byte>, noise: seq<byte>)
      returns (w: Result<Header>, key: Option<XtsKey>)
      requires after.slot == 0
      ensures var s := ChangedHeader(c, h, held, before, after, salt, noise);
              match w { case Err(e) => s == Err(e) case Ok(h') => s == ToWrite(c, h', key, Cred(after.text, after.kdf), salt) }
      ensures w.Ok? ==> w.value.salt == h.salt && |w.value.tail| == |h.tail|
    {
      key := None;
      var tail := h.tail;
      if HasKeySlots(h.base) {
        var oldDk, newDk := Derive(c, before.text, before.kdf, h.salt), Derive(c, after.text, after.kdf, h.salt);
        if oldDk.None? || newDk.None? { return Err(ERR_INVALID_PARAM), None; }
        var u := UpdateKeySlots(c, h.base, h.tail, oldDk.value, newDk.value, noise);
        if u.Err? { return Err(u.code), None; }
        tail := u.value.tail;
        if u.value.used {
          if h.base.alg >= CF_CIPHERS_NUM { return Err(ERR_INVALID_PARAM), None; }
          key := Some(SetKey(newDk.value, h.base.alg));
        }
      }
      assert h.(tail := h.tail) == h;
      w := Ok(WithKdf(h.(tail := tail), after.kdf));
    }

    /** The header that ChangePassword is to write, and the key to seal it with unless it is to be salted anew. */
    method NextHeader(h: Header, held: XtsKey, before: Cred, after: Pass, ghost salt: seq<byte>, noise: seq<byte>)
      returns (w: Result<Header>, key: Option<XtsKey>)
      ensures WritesChanged(w, key, ChangedHeader(c, h, held, before, after, salt, noise), after, salt)
      ensures w.Ok? ==> w.value.salt == h.salt && |w.value.tail| == |h.tail|
    {
      hide ChangedHeader, Resalt;
      if after.slot != 0 {
        w := ChangeSlot(h, held, before, after, salt, noise);
        key := Some(held);
      } else {
        w, key := ChangeHeaderPass(h, held, before, after, salt, noise);
      }
    }

    /** What WriteHeader makes of it is what the specification says, whatever password is set if a key is given. */
    ghost predicate WritesChanged(w: Result<Header>, key: Option<XtsKey>, spec: Result<Sealing>, after: Pass, salt: seq<byte>) {
      && (after.slot != 0 ==> key.Some?)
      && match w
         case Err(e) => spec == Err(e)
         case Ok(h) => spec == ToWrite(c, h, key, Cred(after.text, after.kdf), salt)
    }

    /** ChangePassword once the header has been read. */
    method WriteChanged(h: Header, held: XtsKey, before: Cred, after: Pass, salt: seq<byte>, noise: seq<byte>) returns (r: nat)
      requires Valid() && |salt| == |h.salt| == HEADER_SALT_SIZE && DC_BASE_SIZE + |h.tail| == hdrLen <= |io.bytes|
      modifies this`password, io
      ensures Did(r, io.failed != old(io.failed), old(io.bytes), io.bytes,
                  Put(c, old(io.bytes), ChangedHeader(c, h, held, before, after, salt, noise)))
      ensures io.bytes == old(io.bytes) || FrontOnly(old(io.bytes), io.bytes, hdrLen)
      ensures password == old(password) || password == Some(after)
      ensures r == ERR_OK ==> password == if after.slot == 0 then Some(after) else old(password)
    {
      hide ChangedHeader, Resalt, Seal;
      ChangeFails(c, h, held, before, after, salt, noise);
      var w, key := NextHeader(h, held, before, after, salt, noise);
      if w.Err? { return w.code; }
      if after.slot == 0 { password := Some(after); }
      r := WriteHeader(w.value, key, salt);
    }

    /** ChangePassword: the disk afterwards is the one the specification gives, or nothing has been written. */
    method ChangePassword(after: Pass, salt: seq<byte>, noise: seq<byte>) returns (r: nat)
      requires Valid() && |salt| == HEADER_SALT_SIZE
      modifies this`hdrLen, this`password, io
      ensures old(password).None? ==> r == ERR_KEY_REQUIRED && io.bytes == old(io.bytes)
      ensures old(password).Some? ==>
                Did(r, io.failed != old(io.failed), old(io.bytes), io.bytes,
                    PasswordChange.ChangePassword(c, old(io.bytes), old(password).value, after, salt, noise))
      ensures old(password).Some? && io.failed == old(io.failed) ==>
                forall key, h, creds | Holds(c, old(io.bytes), key, h, creds) ::
                  r == ERR_OK <==>
                  && HeaderOpens(c, old(io.bytes), old(password).value) && 0 <= after.kdf <= 10
                  && ((after.slot == 0 && after.text != []) || 1 <= after.slot <= |creds.slots|)
      ensures r == ERR_IO_FAILED ==> io.bytes == old(io.bytes) || FrontOnly(old(io.bytes), io.bytes, hdrLen)
      ensures r == ERR_OK ==>
                var o := ReadHeader(c, old(io.bytes), old(password).value);
                && o.Ok? && HeaderLen(o.value.header.base) == Ok(hdrLen)
                && password == Some(if after.slot == 0 then after else old(password).value.(kdf := o.value.kdf))
    {
      hide Holds, HeaderOpens;
      if password.None? { return ERR_KEY_REQUIRED; }
      AcceptedAsKeyed(c, io.bytes, password.value, after, salt, noise);
      if |after.text| == 0 && after.slot == 0 { return ERR_INVALID_PARAM; }
      if after.kdf < 0 || after.kdf > KDF_ARGON_MAX { return ERR_INVALID_PARAM; }
      hide PasswordChange.ChangePassword, ReadHeader, ChangedHeader, Resalt, Seal, HeaderLen;
      var pw := password.value;
      ghost var disk := io.bytes;
      ChangePasswordSteps(c, disk, pw, after, salt, noise);
      var o, _, _ := ReadHeaderFrom(c, io, pw);
      if o.Err? { return o.code; }
      password := Some(pw.(kdf := o.value.kdf));
      var h, before := Cut(o.value.header), Cred(pw.text, o.value.kdf);
      CutLength(o.value.header);
      hdrLen := HeaderLen(h.base).value;
      if o.value.slot != 0 { return ERR_INVALID_PARAM; }

      r := WriteChanged(h, o.value.key, before, after, salt, noise);
    }

    /** The password InitCrypto opens the header with. */
    function Opener(format: bool): Pass
      requires password.Some? && (format ==> NewKdf(password.value.kdf).Ok?)
      reads this
    {
      if format then password.value.(kdf := NewKdf(password.value.kdf).value) else password.value
    }

    /**
     * InitCrypto: mounts the volume the header describes, after creating the header on a blank store. A store with
     * no room behind the header is not mounted. Any other header that opens is, unless a transfer fails.
     */
    method InitCrypto(format: bool, drawn: Fresh) returns (r: nat)
      requires Valid() && IsFresh(drawn)
      modifies this`hdrLen, this`password, this`dataKey, io
      ensures !format ==> io.bytes == old(io.bytes)
      ensures old(password).None? ==> r == ERR_KEY_REQUIRED && io.bytes == old(io.bytes)
      ensures r == ERR_IO_FAILED <==> io.failed != old(io.failed)
      ensures r == ERR_OK ==>
                && old(password).Some? && (format ==> NewKdf(old(password).value.kdf).Ok?)
                && Mounted(ReadHeader(c, io.bytes, old(Opener(format))))
                && password == Some(old(password).value.(kdf := ReadHeader(c, io.bytes, old(Opener(format))).value.kdf))
      ensures !format && old(password).Some? && io.failed == old(io.failed) ==>
                MountResult(r, ReadHeader(c, io.bytes, old(password).value), |io.bytes|)
      ensures format && old(password).Some? && io.failed == old(io.failed) ==>
                var spec := PasswordChange.CreateHeader(c, cipher, slotCount, old(Credential()), drawn);
                if old(|io.bytes|) <= NEW_HEADER_SIZE then r == if spec.Ok? then ERR_INTERNAL else spec.code
                else if old(password).value.slot <= 0 then r == if spec.Ok? then ERR_OK else spec.code
                else FormattedNamed(c, r, old(io.bytes), io.bytes, spec, old(password).value)
    {
      hide ReadHeader, PasswordChange.CreateHeader, Seal, HeaderLen;
      if password.None? { return ERR_KEY_REQUIRED; }
      if format {
        r := CreateHeader(drawn);
        if r != ERR_OK { return; }
        if |old(io.bytes)| > NEW_HEADER_SIZE {
          if password.value.slot <= 0 {
            CreatedOpens(old(Credential()), old(io.bytes), drawn, password.value);
          } else {
            CreatedNamed(old(Credential()), old(io.bytes), drawn, password.value);
          }
        } else {
          CreatedFills(old(Credential()), old(io.bytes), drawn, io.bytes, password.value);
          ReadFails(c, io.bytes, password.value);
        }
      }
      r := Mount(format);
    }

    /** InitCrypto once there is a header. */
    method Mount(format: bool) returns (r: nat)
      requires Valid() && password.Some?
      modifies this`hdrLen, this`password, this`dataKey, io
      ensures io.bytes == old(io.bytes) && io.failed == old(io.failed) + if r == ERR_IO_FAILED then 1 else 0
      ensures io.failed == old(io.failed) ==>
                var o := ReadHeader(c, io.bytes, old(password).value);
                if format && o == Err(ERR_WRONG_PASSWORD) then r == ERR_INTERNAL else MountResult(r, o, |io.bytes|)
      ensures r == ERR_OK ==>
                && Mounted(ReadHeader(c, io.bytes, old(password).value))
                && password == Some(old(password).value.(kdf := ReadHeader(c, io.bytes, old(password).value).value.kdf))
    {
      hide ReadHeader, HeaderLen;
      var pw := password.value;
      var o, _, _ := ReadHeaderFrom(c, io, pw);
      if o.Err? {
        r := if format && o.code == ERR_WRONG_PASSWORD then ERR_INTERNAL else o.code;
        return;
      }
      password := Some(pw.(kdf := o.value.kdf));
      var headLen := HeaderLen(o.value.header.base).value;
      if headLen >= |io.bytes| { return ERR_INTERNAL; }
      dataKey := SetKey(o.value.header.base.key1, o.value.header.base.alg);
      hdrLen := headLen;
      return ERR_OK;
    }

    /** A header that opens is mounted if the store is longer than it is. */
    ghost predicate MountResult(r: nat, o: Result<Opened>, size: nat) {
      match o
      case Err(e) => r == e
      case Ok(v) => HeaderLen(v.header.base).Ok? && r == if HeaderLen(v.header.base).value < size then ERR_OK else ERR_INTERNAL
    }

    /** On a store no longer than a new header whatever opens it finds a header as long as the store. */
    lemma CreatedFills(pw: Cred, before: seq<byte>, drawn: Fresh, disk: seq<byte>, opener: Pass)
      requires Valid() && IsFresh(drawn) && |before| <= NEW_HEADER_SIZE
      requires PasswordChange.CreateHeader(c, cipher, slotCount, pw, drawn).Ok?
      requires var s := PasswordChange.CreateHeader(c, cipher, slotCount, pw, drawn).value;
               disk == if |before| == NEW_HEADER_SIZE then Poke(before, 0, Seal(c, s.key, s.header)) else Seal(c, s.key, s.header)
      ensures |disk| == NEW_HEADER_SIZE
      ensures var r := ReadHeader(c, disk, opener); r.Ok? ==> HeaderLen(r.value.header.base) == Ok(NEW_HEADER_SIZE)
    {
      hide Fits, PasswordChange.CreateHeader, ReadHeader;
      var s := PasswordChange.CreateHeader(c, cipher, slotCount, pw, drawn).value;
      CreatedKeyed(c, cipher, slotCount, pw, drawn);
      SealLength(c, s.key, s.header);
      assert disk == Seal(c, s.key, s.header);
      Written(c, disk + [0], s.key, s.header);
      assert Poke(disk + [0], 0, disk) == disk + [0];
      OnlyThisLength(c, disk, s.key, s.header, opener);
    }

    /** The data key and the place of the data are those of the header that was read. */
    ghost predicate Mounted(r: Result<Opened>)
      reads this, io
    {
      && r.Ok? && HeaderLen(r.value.header.base) == Ok(hdrLen) && hdrLen < |io.bytes|
      && dataKey == SetKey(r.value.header.base.key1, r.value.header.base.alg)
    }

    /** A header just created opens with the password it was created for. */
    lemma CreatedOpens(pw: Cred, disk: seq<byte>, drawn: Fresh, opener: Pass)
      requires Valid() && IsFresh(drawn) && |disk| > NEW_HEADER_SIZE && opener.text == pw.text && opener.slot <= 0
      requires NewKdf(pw.kdf) == Ok(opener.kdf)
      requires PasswordChange.CreateHeader(c, cipher, slotCount, pw, drawn).Ok?
      ensures var s := PasswordChange.CreateHeader(c, cipher, slotCount, pw, drawn).value;
              var r := ReadHeader(c, Poke(disk, 0, Seal(c, s.key, s.header)), opener);
              r.Ok? && HeaderLen(r.value.header.base) == Ok(NEW_HEADER_SIZE)
    {
      hide WellLaid, PasswordChange.CreateHeader;
      var s := PasswordChange.CreateHeader(c, cipher, slotCount, pw, drawn).value;
      CreatedKeyed(c, cipher, slotCount, pw, drawn);
      Written(c, disk, s.key, s.header);
      HeaderPassOpens(c, Poke(disk, 0, Seal(c, s.key, s.header)), s.key, s.header, opener, opener.kdf);
    }

    /**
     * With a password that names a slot it opens only if the random bytes in that slot happen to unwrap to its key:
     * a new header keeps no password but its own.
     */
    lemma CreatedNamed(pw: Cred, disk: seq<byte>, drawn: Fresh, opener: Pass)
      requires Valid() && IsFresh(drawn) && |disk| > NEW_HEADER_SIZE && opener.text == pw.text && opener.slot > 0
      requires NewKdf(pw.kdf) == Ok(opener.kdf)
      requires PasswordChange.CreateHeader(c, cipher, slotCount, pw, drawn).Ok?
      ensures var s := PasswordChange.CreateHeader(c, cipher, slotCount, pw, drawn).value;
              var d := Poke(disk, 0, Seal(c, s.key, s.header));
              var r := ReadHeader(c, d, opener);
              && (r.Ok? ==> HeaderLen(r.value.header.base) == Ok(NEW_HEADER_SIZE)) && (r.Err? ==> r.code == ERR_WRONG_PASSWORD || r.code == ERR_INTERNAL)
              && Derive(c, opener.text, opener.kdf, s.header.salt).Some? && DC_AREA_SIZE <= ReadLen(|d|, opener.slot) <= |d|
              && (r.Ok? <==> Unwraps(d[..ReadLen(|d|, opener.slot)], opener.slot, Derive(c, opener.text, opener.kdf, s.header.salt).value, s.key))
    {
      hide WellLaid, PasswordChange.CreateHeader, Seal, Unwraps, Derive, ReadHeader;
      var s := PasswordChange.CreateHeader(c, cipher, slotCount, pw, drawn).value;
      CreatedKeyed(c, cipher, slotCount, pw, drawn);
      Written(c, disk, s.key, s.header);
      var d := Poke(disk, 0, Seal(c, s.key, s.header));
      ReadLenFits(|d|, opener.slot);
      ReadFails(c, d, opener);
      NamedSlotOpens(c, d, s.key, s.header, opener);
      ReadsHeader(c, d, s.key, s.header, opener);
      OpensOnlyThis(c, d, s.key, s.header, opener);
    }

    /** GetDiskSize */
    function GetDiskSize(): nat
      reads this, io
    {
      DataSize(|io.bytes|, hdrLen)
    }

    /** The plaintext disk. */
    ghost function Disk(): seq<byte>
      requires Valid()
      reads this, io
    {
      Plain(x, dataKey, hdrLen, io.bytes)
    }

    /** DiskWrite splices the buffer into the plaintext disk; the caller's buffer is left encrypted. */
    method DiskWrite(buf: array<byte>, offset: nat) returns (ok: bool)
      requires Valid() && hdrLen <= |io.bytes| && buf.Length > 0 && InRange(|io.bytes|, hdrLen, offset, buf.Length)
      modifies buf, io
      ensures |io.bytes| == old(|io.bytes|) && io.bytes[..hdrLen] == old(io.bytes[..hdrLen])
      ensures buf[..] == Crypt(x.enc, dataKey, offset / XTS_SECTOR_SIZE, old(buf[..]))
      ensures var at := hdrLen + offset;
              && at + buf.Length <= |io.bytes|
              && io.bytes[..at] == old(io.bytes)[..at] && io.bytes[at + buf.Length..] == old(io.bytes)[at + buf.Length..]
      ensures offset + buf.Length <= old(|Disk()|)
      ensures ok <==> io.failed == old(io.failed)
      ensures ok ==> Disk() == Splice(old(Disk()), offset, old(buf[..]))
    {
      hide Crypt, Plain, Whole, InRange, Splice;
      ghost var disk, data := io.bytes, buf[..];
      RangeFits(disk, hdrLen, offset, buf.Length);
      CryptBuffer(x.enc, dataKey, offset / XTS_SECTOR_SIZE, buf);
      ok := io.DiskWrite(buf[..], hdrLen + offset);
      Stored(x, dataKey, hdrLen, disk, io.bytes, offset, data, ok);
    }

    /** DiskRead returns the slice of the plaintext disk. */
    method DiskRead(buf: array<byte>, offset: nat) returns (ok: bool)
      requires Valid() && hdrLen <= |io.bytes| && buf.Length > 0 && InRange(|io.bytes|, hdrLen, offset, buf.Length)
      modifies buf, io
      ensures io.bytes == old(io.bytes) && offset + buf.Length <= |Disk()|
      ensures ok <==> io.failed == old(io.failed)
      ensures ok ==> buf[..] == Disk()[offset..offset + buf.Length]
    {
      hide Crypt, Plain, Whole;
      ghost var disk := io.bytes;
      var from := hdrLen + offset;
      ReadSlicesPlain(x, dataKey, hdrLen, disk, offset, buf.Length);
      var data: seq<byte>;
      ok, data := io.DiskRead(buf.Length, from);
      if ok {
        forall i | 0 <= i < buf.Length { buf[i] := data[i]; }
        assert buf[..] == data == disk[from..from + buf.Length];
        CryptBuffer(x.dec, dataKey, offset / XTS_SECTOR_SIZE, buf);
      }
    }

    /** TrimProcess moves the caller's ranges behind the header, and zeros what they cover. */
    method TrimProcess(ranges: array<(nat, nat)>)
      requires Valid()
      modifies ranges, io
      ensures ranges[..] == Shifted(old(ranges[..]), hdrLen)
      ensures |io.bytes| == |old(io.bytes)|
      ensures hdrLen <= |io.bytes| ==> io.bytes[..hdrLen] == old(io.bytes)[..hdrLen]
      ensures hdrLen <= |io.bytes| && AllInRange(|io.bytes|, hdrLen, old(ranges[..])) ==>
                Disk() == TrimmedPlain(x, dataKey, old(Disk()), old(ranges[..]))
    {
      var i := 0;
      while i < ranges.Length
        invariant 0 <= i <= ranges.Length && io.bytes == old(io.bytes)
        invariant forall j | 0 <= j < i :: ranges[j] == (old(ranges[j]).0 + hdrLen, old(ranges[j]).1)
        invariant forall j | i <= j < ranges.Length :: ranges[j] == old(ranges[j])
      {
        ranges[i] := (ranges[i].0 + hdrLen, ranges[i].1);
        i := i + 1;
      }
      assert ranges[..] == Shifted(old(ranges[..]), hdrLen);
      TrimBehind(io.bytes, hdrLen, old(ranges[..]));
      if hdrLen <= |io.bytes| && AllInRange(|io.bytes|, hdrLen, old(ranges[..])) {
        TrimPlain(x, dataKey, hdrLen, io.bytes, old(ranges[..]));
      }
      io.TrimProcess(ranges[..]);
    }
  }
}
