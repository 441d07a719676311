/**
 * Which passwords open a sealed header, and what they open: the header password,
 * and the password of every slot that wraps the header key.
 */
module HeaderCredentials {
  import opened Bytes
  import opened Results
  import opened VolumeHeader
  import opened HeaderOpen

  function Length(h: Header): nat {
    DC_BASE_SIZE + |h.tail|
  }

  /** The disk starts with the header `h`, sealed under `key`, a key for the cipher it names. */
  ghost predicate OnDisk(c: Crypto, disk: seq<byte>, key: XtsKey, h: Header) {
    && Lawful(c) && WellLaid(h) && IsKey(key) && key.alg == h.base.alg
    && HeaderLen(h.base) == Ok(Length(h)) && Length(h) < |disk|
    && disk[..Length(h)] == Seal(c, key, h)
  }

  /** The header password: what the KDF it names derives makes the header key. */
  ghost predicate IsHeaderPass(c: Crypto, h: Header, key: XtsKey, text: seq<byte>, kdf: int) {
    Derive(c, text, kdf, h.salt).Some? && SetKey(Derive(c, text, kdf, h.salt).value, key.alg) == key
  }

  /** Slot i is stored raw where the search looks, and wraps the header key for this password. */
  ghost predicate IsSlotPass(c: Crypto, h: Header, key: XtsKey, i: nat, text: seq<byte>, kdf: int) {
    && SlotReadable(h, i)
    && Derive(c, text, kdf, h.salt).Some?
    && SetKey(Xor(SlotKey(h.tail, i), Derive(c, text, kdf, h.salt).value), key.alg) == key
  }

  ghost predicate SlotReadable(h: Header, i: nat) {
    && i < KEY_SLOT_MAX && PKCS_DERIVE_MAX * (i + 1) <= |h.tail| && HasSlotFlag(h.base)
    && forall k | PKCS_DERIVE_MAX * i <= k < PKCS_DERIVE_MAX * (i + 1) :: RawAt(h.base, h.tail, k)
  }

  // ----- the parts of what is read

  /** The image holds this base, sealed under this key with some checksum. */
  ghost predicate SealedAs(c: Crypto, image: seq<byte>, key: XtsKey, b: Base)
    requires |image| >= DC_AREA_SIZE
  {
    exists x :: |x| == 4 && ImageBase(image) == c.seal(key, b, x)
  }

  lemma AsSealed(c: Crypto, image: seq<byte>, key: XtsKey, b: Base, x: seq<byte>)
    requires Lawful(c) && |image| >= DC_AREA_SIZE && |x| == 4 && ImageBase(image) == c.seal(key, b, x)
    ensures SealedAs(c, image, key, b)
  {
  }

  /** No other key opens it, and no other base comes out. */
  lemma OnlyThisBase(c: Crypto, image: seq<byte>, key: XtsKey, b: Base, key': XtsKey)
    requires Lawful(c) && IsKey(key) && IsKey(key') && Fits(b) && |image| >= DC_AREA_SIZE && SealedAs(c, image, key, b)
    ensures OpenBase(c, key', image).Some? ==> key' == key && OpenBase(c, key', image) == Some(b)
  {
    hide Fits, Check;
    var x :| |x| == 4 && ImageBase(image) == c.seal(key, b, x);
  }

  lemma ReadParts(c: Crypto, disk: seq<byte>, key: XtsKey, h: Header, len: nat)
    requires OnDisk(c, disk, key, h) && DC_AREA_SIZE <= len <= |disk|
    ensures var image := disk[..len];
            && ImageSalt(image) == h.salt && SealedAs(c, image, key, h.base) && OpenBase(c, key, image) == Some(h.base)
            && (Length(h) <= len ==> ImageTail(image) == ImageTail(Seal(c, key, h)) + disk[Length(h)..len])
  {
    hide Seal, Fits, RawAt, OpenBase;
    SealParts(c, key, h);
    var image, sealed := disk[..len], Seal(c, key, h);
    assert image[..DC_AREA_SIZE] == sealed[..DC_AREA_SIZE];
    SameFront(c, key, image, sealed);
    OpensBySum(c, key, h, image);
    ClearSumHolds(c, key, h);
    AsSealed(c, image, key, h.base, Check(c, h.base, h.tail));
    if Length(h) <= len {
      assert image == sealed + disk[Length(h)..len];
      assert ImageTail(image) == ImageTail(sealed) + disk[Length(h)..len];
    }
  }

  lemma SlotOnDisk(c: Crypto, disk: seq<byte>, key: XtsKey, h: Header, len: nat, i: nat)
    requires OnDisk(c, disk, key, h) && DC_AREA_SIZE <= len <= |disk| && SlotReadable(h, i)
    requires DC_BASE_SIZE + PKCS_DERIVE_MAX * (i + 1) <= len
    ensures SlotKey(ImageTail(disk[..len]), i) == SlotKey(h.tail, i)
  {
    hide Seal, RawAt, Fits, SumClear;
    SealParts(c, key, h);
    var sealed := Seal(c, key, h);
    forall k | PKCS_DERIVE_MAX * i <= k < PKCS_DERIVE_MAX * (i + 1)
      ensures ImageTail(disk[..len])[k] == h.tail[k]
    {
      assert disk[..len][DC_BASE_SIZE + k] == disk[..Length(h)][DC_BASE_SIZE + k] == ImageTail(sealed)[k];
    }
  }

  // ----- soundness: whatever opens, opens this header

  lemma {:induction false} CiphersFindKey(c: Crypto, dk: seq<byte>, image: seq<byte>, key: XtsKey, b: Base, alg: nat)
    requires Lawful(c) && IsKey(key) && Fits(b) && |image| >= DC_AREA_SIZE && SealedAs(c, image, key, b)
    ensures var f := TryCiphers(c, dk, image, alg);
            f.Some? ==> f.value == Found(key, b, 0) && SetKey(dk, key.alg) == key
    decreases CF_CIPHERS_NUM - alg
  {
    hide Fits, OpenBase;
    if alg < CF_CIPHERS_NUM {
      assert IsKey(SetKey(dk, alg));
      OnlyThisBase(c, image, key, b, SetKey(dk, alg));
      CiphersFindKey(c, dk, image, key, b, alg + 1);
    }
  }

  /** The slot numbered from 1 unwraps, under this derived key, to the header key. */
  ghost predicate Unwraps(image: seq<byte>, slot: nat, dk: seq<byte>, key: XtsKey)
    requires |image| >= DC_AREA_SIZE
  {
    && slot > 0 && DC_BASE_SIZE + PKCS_DERIVE_MAX * slot <= |image|
    && SetKey(Xor(SlotKey(ImageTail(image), slot - 1), dk), key.alg) == key
  }

  lemma {:induction false} SlotsFindKey(c: Crypto, dk: seq<byte>, image: seq<byte>, i: nat, limit: nat, key: XtsKey, b: Base)
    requires Lawful(c) && IsKey(key) && Fits(b) && |image| >= DC_AREA_SIZE && SealedAs(c, image, key, b)
    ensures var f := TrySlots(c, dk, image, i, limit);
            f.Some? ==> f.value.key == key && f.value.base == b && i < f.value.slot <= limit && Unwraps(image, f.value.slot, dk, key)
    decreases limit - i
  {
    hide Fits, SealedAs, TryCiphers, Xor;
    if i < limit && |image| >= DC_BASE_SIZE + PKCS_DERIVE_MAX * (i + 1) {
      CiphersFindKey(c, Xor(SlotKey(ImageTail(image), i), dk), image, key, b, 0);
      SlotsFindKey(c, dk, image, i + 1, limit, key, b);
    }
  }

  /** How the password opened it: itself (slot 0), or by unwrapping the slot reported. */
  ghost predicate OpenedBy(c: Crypto, image: seq<byte>, pw: Pass, kdf: int, slot: nat, key: XtsKey)
    requires |image| >= DC_AREA_SIZE
  {
    && Derive(c, pw.text, kdf, ImageSalt(image)).Some?
    && (pw.slot == 0 ==> slot == 0) && (pw.slot > 0 ==> slot == pw.slot) && (pw.slot < 0 ==> slot <= -pw.slot)
    && var dk := Derive(c, pw.text, kdf, ImageSalt(image)).value;
       if slot == 0 then SetKey(dk, key.alg) == key else Unwraps(image, slot, dk, key)
  }

  lemma {:induction false} SearchFindsKey(c: Crypto, image: seq<byte>, pw: Pass, kdfs: seq<int>, key: XtsKey, b: Base)
    requires Lawful(c) && IsKey(key) && Fits(b) && |image| >= DC_AREA_SIZE && SealedAs(c, image, key, b)
    ensures var f := Search(c, image, pw, kdfs);
            f.Some? ==> f.value.0.key == key && f.value.0.base == b && f.value.1 in kdfs && OpenedBy(c, image, pw, f.value.1, f.value.0.slot, key)
  {
    if kdfs != [] {
      SearchFindsKey(c, image, pw, kdfs[1..], key, b);
      KdfFindsKey(c, image, pw, kdfs[0], key, b);
    }
  }

  lemma KdfFindsKey(c: Crypto, image: seq<byte>, pw: Pass, kdf: int, key: XtsKey, b: Base)
    requires Lawful(c) && IsKey(key) && Fits(b) && |image| >= DC_AREA_SIZE && SealedAs(c, image, key, b)
    ensures var f := TryKdf(c, image, pw, kdf);
            f.Some? ==> f.value.key == key && f.value.base == b && OpenedBy(c, image, pw, kdf, f.value.slot, key)
  {
    hide Fits, SealedAs, TryCiphers, TrySlots, Unwraps;
    match Derive(c, pw.text, kdf, ImageSalt(image))
    case None =>
    case Some(dk) =>
      CiphersFindKey(c, dk, image, key, b, 0);
      if pw.slot > 0 { SlotsFindKey(c, dk, image, pw.slot - 1, pw.slot, key, b); }
      else { SlotsFindKey(c, dk, image, 0, -pw.slot, key, b); }
  }

  // ----- completeness: a credential opens

  lemma {:induction false} CiphersOpen(c: Crypto, dk: seq<byte>, image: seq<byte>, key: XtsKey, alg: nat)
    requires IsKey(key) && |image| >= DC_AREA_SIZE && OpenBase(c, key, image).Some? && SetKey(dk, key.alg) == key && alg <= key.alg
    ensures TryCiphers(c, dk, image, alg).Some?
    decreases CF_CIPHERS_NUM - alg
  {
    hide OpenBase;
    if alg < key.alg {
      CiphersOpen(c, dk, image, key, alg + 1);
    }
  }

  lemma {:induction false} SlotsOpen(c: Crypto, dk: seq<byte>, image: seq<byte>, i: nat, limit: nat, k: nat)
    requires |image| >= DC_AREA_SIZE && i <= k < limit && DC_BASE_SIZE + PKCS_DERIVE_MAX * (k + 1) <= |image|
    requires TryCiphers(c, Xor(SlotKey(ImageTail(image), k), dk), image, 0).Some?
    ensures TrySlots(c, dk, image, i, limit).Some?
    decreases limit - i
  {
    if i < k {
      SlotsOpen(c, dk, image, i + 1, limit, k);
    }
  }

  lemma {:induction false} SearchOpens(c: Crypto, image: seq<byte>, pw: Pass, kdfs: seq<int>, kdf: int)
    requires |image| >= DC_AREA_SIZE && kdf in kdfs && TryKdf(c, image, pw, kdf).Some?
    ensures Search(c, image, pw, kdfs).Some?
  {
    if kdfs[0] != kdf {
      SearchOpens(c, image, pw, kdfs[1..], kdf);
    }
  }

  // ----- ReadHeader

  /** What ReadHeader returns: the header, followed by whatever else was read. */
  ghost predicate Reads(c: Crypto, key: XtsKey, h: Header, r: Result<Opened>) {
    && r.Ok? && r.value.key == key
    && r.value.header.salt == h.salt && r.value.header.base == h.base
    && |h.tail| <= |r.value.header.tail| && r.value.header.tail[..|h.tail|] == h.tail
  }

  /** Once the search has found the key, ReadHeader returns the whole header. */
  lemma FoundReads(c: Crypto, disk: seq<byte>, key: XtsKey, h: Header, pw: Pass)
    requires OnDisk(c, disk, key, h)
    requires var image := disk[..ReadLen(|disk|, pw.slot)];
             |image| >= DC_AREA_SIZE && Search(c, image, pw, KdfList(pw.kdf)).Some?
    ensures Reads(c, key, h, ReadHeader(c, disk, pw))
    ensures ReadHeader(c, disk, pw).value.slot == Search(c, disk[..ReadLen(|disk|, pw.slot)], pw, KdfList(pw.kdf)).value.0.slot
    ensures ReadHeader(c, disk, pw).value.kdf == Search(c, disk[..ReadLen(|disk|, pw.slot)], pw, KdfList(pw.kdf)).value.1
  {
    var len := ReadLen(|disk|, pw.slot);
    var image := disk[..len];
    ReadParts(c, disk, key, h, len);
    SearchFindsKey(c, image, pw, KdfList(pw.kdf), key, h.base);
    if Length(h) <= len {
      OpenTailOfSealed(c, key, h, disk[Length(h)..len]);
      WholeTail(len, h);
      assert (h.tail + disk[Length(h)..len])[..|h.tail|] == h.tail;
    } else {
      OpenSealed(c, key, h);
    }
  }

  /** A read that covers the header unseals exactly its tail. */
  lemma WholeTail(len: nat, h: Header)
    requires HeaderLen(h.base) == Ok(Length(h)) && Length(h) <= len && WellLaid(h)
    ensures PlainLength(len, h.base) == |h.tail|
  {
    if h.base.version >= DC_HDR_VERSION_2 {
      var k := Length(h) / XTS_SECTOR_SIZE;
      assert Length(h) == XTS_SECTOR_SIZE * k;
      assert (Length(h) - DC_AREA_SIZE) / XTS_SECTOR_SIZE == k - 4;
    }
  }

  // ----- which derivations are tried

  /** A password that names a derivation is tried under that one; -2 stands for 0 and 5, and -3 for all from 0 to 10. */
  predicate Tries(selector: int, kdf: int) {
    || (selector >= -1 && kdf == selector)
    || (selector == -2 && (kdf == 0 || kdf == 5))
    || (selector == -3 && 0 <= kdf <= 10)
  }

  lemma TriesExactly(selector: int, kdf: int)
    ensures kdf in KdfList(selector) <==> Tries(selector, kdf)
  {
  }

  /** The search stops at the first derivation that finds anything. */
  lemma {:induction false} SearchStops(c: Crypto, image: seq<byte>, pw: Pass, kdfs: seq<int>) returns (i: nat)
    requires |image| >= DC_AREA_SIZE
    ensures i <= |kdfs| && forall j | 0 <= j < i :: TryKdf(c, image, pw, kdfs[j]).None?
    ensures i < |kdfs| ==> TryKdf(c, image, pw, kdfs[i]).Some? && Search(c, image, pw, kdfs) == Some((TryKdf(c, image, pw, kdfs[i]).value, kdfs[i]))
    ensures i == |kdfs| ==> Search(c, image, pw, kdfs).None?
  {
    hide TryKdf;
    i := 0;
    if kdfs != [] && TryKdf(c, image, pw, kdfs[0]).None? {
      var k := SearchStops(c, image, pw, kdfs[1..]);
      i := k + 1;
    }
  }

  /** ReadHeader looks at the selector only to search. */
  lemma SearchDecides(c: Crypto, disk: seq<byte>, pw: Pass, pw': Pass)
    requires Sized(c) && pw.slot == pw'.slot && ReadLen(|disk|, pw.slot) <= |disk|
    requires var image := disk[..ReadLen(|disk|, pw.slot)];
             |image| >= DC_AREA_SIZE ==> Search(c, image, pw, KdfList(pw.kdf)) == Search(c, image, pw', KdfList(pw'.kdf))
    ensures ReadHeader(c, disk, pw) == ReadHeader(c, disk, pw')
  {
    hide Search, OpenTail, ReadLen;
  }

  lemma NothingFound(c: Crypto, disk: seq<byte>, pw: Pass)
    requires Sized(c) && DC_AREA_SIZE <= ReadLen(|disk|, pw.slot) <= |disk|
    requires Search(c, disk[..ReadLen(|disk|, pw.slot)], pw, KdfList(pw.kdf)).None?
    ensures ReadHeader(c, disk, pw) == Err(ERR_WRONG_PASSWORD)
  {
  }

  lemma SearchOfOne(c: Crypto, image: seq<byte>, pw: Pass, kdf: int)
    requires |image| >= DC_AREA_SIZE
    ensures var t := TryKdf(c, image, pw, kdf); Search(c, image, pw, [kdf]) == if t.Some? then Some((t.value, kdf)) else None
  {
    assert Search(c, image, pw, [kdf][1..]).None?;
  }

  /** A password with a derivation named, on a header that is there. */
  lemma NamedKdf(c: Crypto, disk: seq<byte>, key: XtsKey, h: Header, text: seq<byte>, slot: int, kdf: int)
    requires OnDisk(c, disk, key, h) && kdf >= -1
    ensures DC_AREA_SIZE <= ReadLen(|disk|, slot) <= |disk|
    ensures var t, r := TryKdf(c, disk[..ReadLen(|disk|, slot)], Pass(text, kdf, slot), kdf), ReadHeader(c, disk, Pass(text, kdf, slot));
            (r.Ok? <==> t.Some?) && (r.Ok? ==> r.value.kdf == kdf) && (r.Err? ==> r.code == ERR_WRONG_PASSWORD)
  {
    hide TryKdf, Search, OpenTail, WellLaid, Seal, ReadLen, Fits, ReadHeader, SealsBase;
    ReadLenFits(|disk|, slot);
    var pw := Pass(text, kdf, slot);
    var image := disk[..ReadLen(|disk|, slot)];
    SearchOfOne(c, image, pw, kdf);
    if TryKdf(c, image, pw, kdf).Some? { FoundReads(c, disk, key, h, pw); } else { NothingFound(c, disk, pw); }
  }

  /** The derivation a password names is not what a single trial looks at. */
  lemma TrialIgnoresSelector(c: Crypto, image: seq<byte>, text: seq<byte>, slot: int, selector: int, selector': int, kdf: int)
    requires |image| >= DC_AREA_SIZE
    ensures TryKdf(c, image, Pass(text, selector, slot), kdf) == TryKdf(c, image, Pass(text, selector', slot), kdf)
  {
  }

  /** Without a derivation named, a password opens a header as it would with the first one, of those tried, that opens it. */
  lemma SelectorOpens(c: Crypto, disk: seq<byte>, key: XtsKey, h: Header, text: seq<byte>, slot: int)
    requires OnDisk(c, disk, key, h)
    ensures var r := ReadHeader(c, disk, Pass(text, -3, slot));
            if r.Err? then r.code == ERR_WRONG_PASSWORD && forall k | 0 <= k <= 10 :: ReadHeader(c, disk, Pass(text, k, slot)).Err?
            else
              && 0 <= r.value.kdf <= 10 && r == ReadHeader(c, disk, Pass(text, r.value.kdf, slot))
              && forall k | 0 <= k < r.value.kdf :: ReadHeader(c, disk, Pass(text, k, slot)).Err?
    ensures var zero, argon := ReadHeader(c, disk, Pass(text, 0, slot)), ReadHeader(c, disk, Pass(text, 5, slot));
            ReadHeader(c, disk, Pass(text, -2, slot)) == if zero.Ok? then zero else argon
    ensures forall selector | selector < -3 :: ReadHeader(c, disk, Pass(text, selector, slot)) == Err(ERR_WRONG_PASSWORD)
  {
    hide ReadHeader, WellLaid, Seal, Fits, SealsBase;
    var all := [0, 1, 2, 3, 4, 5, 6, 7, 8, 9, 10];
    var i := FirstOpens(c, disk, key, h, text, slot, -3, all);
    forall k | 0 <= k < i
      ensures all[k] == k && ReadHeader(c, disk, Pass(text, k, slot)).Err?
    {
    }
    assert i < |all| ==> all[i] == i;
    var n := FirstOpens(c, disk, key, h, text, slot, -2, [0, 5]);
    assert n > 0 ==> ReadHeader(c, disk, Pass(text, [0, 5][0], slot)) == Err(ERR_WRONG_PASSWORD);
    assert n > 1 ==> ReadHeader(c, disk, Pass(text, [0, 5][1], slot)) == Err(ERR_WRONG_PASSWORD);
    forall selector | selector < -3
      ensures ReadHeader(c, disk, Pass(text, selector, slot)) == Err(ERR_WRONG_PASSWORD)
    {
      var _ := FirstOpens(c, disk, key, h, text, slot, selector, []);
    }
  }

  lemma FirstOpens(c: Crypto, disk: seq<byte>, key: XtsKey, h: Header, text: seq<byte>, slot: int, selector: int, kdfs: seq<int>) returns (i: nat)
    requires OnDisk(c, disk, key, h) && selector < -1 && KdfList(selector) == kdfs && forall k <- kdfs :: k >= 0
    ensures i <= |kdfs| && forall j | 0 <= j < i :: ReadHeader(c, disk, Pass(text, kdfs[j], slot)) == Err(ERR_WRONG_PASSWORD)
    ensures var r := ReadHeader(c, disk, Pass(text, selector, slot));
            if i == |kdfs| then r == Err(ERR_WRONG_PASSWORD)
            else r.Ok? && r.value.kdf == kdfs[i] && r == ReadHeader(c, disk, Pass(text, kdfs[i], slot))
  {
    hide TryKdf, ReadLen, WellLaid, Seal, Fits, SealsBase, ReadHeader, Search;
    ReadLenFits(|disk|, slot);
    var image, pw := disk[..ReadLen(|disk|, slot)], Pass(text, selector, slot);
    NamedKdf(c, disk, key, h, text, slot, 0);
    i := SearchStops(c, image, pw, kdfs);
    forall j | 0 <= j < |kdfs|
      ensures var r := ReadHeader(c, disk, Pass(text, kdfs[j], slot));
              if TryKdf(c, image, pw, kdfs[j]).Some? then r.Ok? && r.value.kdf == kdfs[j] else r == Err(ERR_WRONG_PASSWORD)
    {
      NamedKdf(c, disk, key, h, text, slot, kdfs[j]);
      TrialIgnoresSelector(c, image, text, slot, selector, kdfs[j], kdfs[j]);
    }
    if i < |kdfs| {
      var named := Pass(text, kdfs[i], slot);
      TrialIgnoresSelector(c, image, text, slot, selector, kdfs[i], kdfs[i]);
      SearchOfOne(c, image, named, kdfs[i]);
      SearchDecides(c, disk, pw, named);
    } else {
      NothingFound(c, disk, pw);
    }
  }

  /** The header password opens the header, under its KDF or any search order that includes it. */
  lemma HeaderPassOpens(c: Crypto, disk: seq<byte>, key: XtsKey, h: Header, pw: Pass, kdf: int)
    requires OnDisk(c, disk, key, h) && IsHeaderPass(c, h, key, pw.text, kdf)
    requires Tries(pw.kdf, kdf) && pw.slot <= 0
    ensures Reads(c, key, h, ReadHeader(c, disk, pw))
    ensures pw.slot == 0 || pw.kdf == kdf ==> ReadHeader(c, disk, pw).value.slot == 0
    ensures pw.kdf == kdf ==> ReadHeader(c, disk, pw).value.kdf == kdf
  {
    ReadLenFits(|disk|, pw.slot);
    var image := disk[..ReadLen(|disk|, pw.slot)];
    ReadParts(c, disk, key, h, |image|);
    CiphersOpen(c, Derive(c, pw.text, kdf, h.salt).value, image, key, 0);
    TriesExactly(pw.kdf, kdf);
    SearchOpens(c, image, pw, KdfList(pw.kdf), kdf);
    SearchFindsKey(c, image, pw, KdfList(pw.kdf), key, h.base);
    if pw.kdf == kdf { SearchOfOne(c, image, pw, kdf); }
    FoundReads(c, disk, key, h, pw);
  }

  /** The derivation of a slot's password finds the header key in its slot. */
  lemma SlotKdfOpens(c: Crypto, disk: seq<byte>, key: XtsKey, h: Header, i: nat, pw: Pass, kdf: int, len: nat)
    requires OnDisk(c, disk, key, h) && IsSlotPass(c, h, key, i, pw.text, kdf)
    requires DC_AREA_SIZE <= len <= |disk| && DC_BASE_SIZE + PKCS_DERIVE_MAX * (i + 1) <= len
    requires pw.slot == i + 1 || pw.slot + i < 0
    ensures TryKdf(c, disk[..len], pw, kdf).Some?
  {
    hide OpenBase, WellLaid, Seal, RawAt, TryCiphers, Xor;
    var image := disk[..len];
    var d := Derive(c, pw.text, kdf, h.salt).value;
    assert ImageSalt(image) == h.salt && OpenBase(c, key, image).Some? by { ReadParts(c, disk, key, h, len); }
    assert SlotKey(ImageTail(image), i) == SlotKey(h.tail, i) by { SlotOnDisk(c, disk, key, h, len, i); }
    CiphersOpen(c, Xor(SlotKey(h.tail, i), d), image, key, 0);
    SlotsOpen(c, d, image, if pw.slot > 0 then i else 0, if pw.slot > 0 then pw.slot else -pw.slot, i);
  }

  /** A slot's password opens the header, named by its slot or by any search that reaches it. */
  lemma SlotPassOpens(c: Crypto, disk: seq<byte>, key: XtsKey, h: Header, i: nat, pw: Pass, kdf: int)
    requires OnDisk(c, disk, key, h) && IsSlotPass(c, h, key, i, pw.text, kdf)
    requires Tries(pw.kdf, kdf) && (pw.slot == i + 1 || pw.slot + i < 0)
    ensures Reads(c, key, h, ReadHeader(c, disk, pw))
    ensures pw.slot > 0 ==> ReadHeader(c, disk, pw).value.slot == i + 1
  {
    hide Fits, SlotReadable, TryKdf, Reads, ReadHeader;
    ReadLenFits(|disk|, pw.slot);
    SlotReached(|disk|, pw.slot, i, h);
    var image := disk[..ReadLen(|disk|, pw.slot)];
    SlotKdfOpens(c, disk, key, h, i, pw, kdf, |image|);
    TriesExactly(pw.kdf, kdf);
    SearchOpens(c, image, pw, KdfList(pw.kdf), kdf);
    FoundReads(c, disk, key, h, pw);
    ReadParts(c, disk, key, h, |image|);
    SearchFindsKey(c, image, pw, KdfList(pw.kdf), key, h.base);
  }

  /** A password that names a slot opens the header exactly when what is stored there unwraps to its key. */
  lemma NamedSlotOpens(c: Crypto, disk: seq<byte>, key: XtsKey, h: Header, pw: Pass)
    requires OnDisk(c, disk, key, h) && pw.slot > 0 && pw.kdf >= -1 && Derive(c, pw.text, pw.kdf, h.salt).Some?
    requires ReadLen(|disk|, pw.slot) >= DC_AREA_SIZE
    ensures ReadLen(|disk|, pw.slot) <= |disk|
    ensures ReadHeader(c, disk, pw).Ok? <==> Unwraps(disk[..ReadLen(|disk|, pw.slot)], pw.slot, Derive(c, pw.text, pw.kdf, h.salt).value, key)
  {
    hide OpenBase, WellLaid, Seal, RawAt, TryCiphers, ReadHeader, Xor;
    TriesExactly(pw.kdf, pw.kdf);
    ReadLenFits(|disk|, pw.slot);
    var image, dk := disk[..ReadLen(|disk|, pw.slot)], Derive(c, pw.text, pw.kdf, h.salt).value;
    ReadParts(c, disk, key, h, |image|);
    OpensOnlyThis(c, disk, key, h, pw);
    if Unwraps(image, pw.slot, dk, key) {
      CiphersOpen(c, Xor(SlotKey(ImageTail(image), pw.slot - 1), dk), image, key, 0);
      SlotsOpen(c, dk, image, pw.slot - 1, pw.slot, pw.slot - 1);
      assert TryKdf(c, image, pw, pw.kdf).Some?;
      SearchOpens(c, image, pw, KdfList(pw.kdf), pw.kdf);
      FoundReads(c, disk, key, h, pw);
    }
  }

  /** The first read reaches every slot that the password's slot number covers. */
  lemma SlotReached(size: nat, slot: int, i: nat, h: Header)
    requires HeaderLen(h.base) == Ok(Length(h)) && Length(h) < size && |h.tail| >= DC_AREA_SIZE - DC_BASE_SIZE
    requires SlotReadable(h, i) && (slot == i + 1 || slot + i < 0)
    ensures DC_BASE_SIZE + PKCS_DERIVE_MAX * (i + 1) <= ReadLen(size, slot)
  {
    assert i + 1 <= SlotsNamed(slot);
    var reach := DC_BASE_SIZE + 224 * SlotsNamed(slot);
    RoundUpHolds(if reach < DC_AREA_SIZE then DC_AREA_SIZE else reach);
    var k, q := Length(h) / XTS_SECTOR_SIZE, size / XTS_SECTOR_SIZE;
    assert Length(h) == XTS_SECTOR_SIZE * k;
    assert k <= q;
  }

  /** Every password that opens the header opens it as it is, and is the header password or wraps the key in its slot. */
  lemma OpensOnlyThis(c: Crypto, disk: seq<byte>, key: XtsKey, h: Header, pw: Pass)
    requires OnDisk(c, disk, key, h)
    ensures var r := ReadHeader(c, disk, pw);
            r.Ok? ==>
              && Reads(c, key, h, r) && Tries(pw.kdf, r.value.kdf) && ReadLen(|disk|, pw.slot) >= DC_AREA_SIZE
              && OpenedBy(c, disk[..ReadLen(|disk|, pw.slot)], pw, r.value.kdf, r.value.slot, key)
  {
    hide Fits, OpenedBy;
    ReadLenFits(|disk|, pw.slot);
    if ReadHeader(c, disk, pw).Ok? {
      var image := disk[..ReadLen(|disk|, pw.slot)];
      ReadParts(c, disk, key, h, |image|);
      SearchFindsKey(c, image, pw, KdfList(pw.kdf), key, h.base);
      TriesExactly(pw.kdf, ReadHeader(c, disk, pw).value.kdf);
      FoundReads(c, disk, key, h, pw);
    }
  }

  /** Without a slot named, only the header password opens. */
  lemma OpensByPassword(c: Crypto, disk: seq<byte>, key: XtsKey, h: Header, pw: Pass)
    requires OnDisk(c, disk, key, h)
    ensures var r := ReadHeader(c, disk, pw);
            r.Ok? && r.value.slot == 0 ==> IsHeaderPass(c, h, key, pw.text, r.value.kdf)
  {
    OpensOnlyThis(c, disk, key, h, pw);
    ReadLenFits(|disk|, pw.slot);
    ReadParts(c, disk, key, h, ReadLen(|disk|, pw.slot));
  }

  /**
   * The header password under derivation 0 to 10 opens the header when all are tried, and under 0 or 5 when the usual
   * ones are; so does the password of a slot, named or reached.
   */
  lemma SelectorsOpen(c: Crypto, disk: seq<byte>, key: XtsKey, h: Header, text: seq<byte>, kdf: int)
    requires OnDisk(c, disk, key, h) && 0 <= kdf <= 10
    ensures IsHeaderPass(c, h, key, text, kdf) ==>
              && Reads(c, key, h, ReadHeader(c, disk, Pass(text, -3, 0)))
              && (kdf == 0 || kdf == 5 ==> Reads(c, key, h, ReadHeader(c, disk, Pass(text, -2, 0))))
    ensures forall i: nat | IsSlotPass(c, h, key, i, text, kdf) ::
              && Reads(c, key, h, ReadHeader(c, disk, Pass(text, -3, i + 1))) && Reads(c, key, h, ReadHeader(c, disk, Pass(text, -3, -100)))
              && (kdf == 0 || kdf == 5 ==> Reads(c, key, h, ReadHeader(c, disk, Pass(text, -2, i + 1))))
  {
    hide WellLaid, Seal, Fits, SealsBase, IsHeaderPass, IsSlotPass, Reads, ReadHeader;
    if IsHeaderPass(c, h, key, text, kdf) {
      HeaderPassOpens(c, disk, key, h, Pass(text, -3, 0), kdf);
      if kdf == 0 || kdf == 5 { HeaderPassOpens(c, disk, key, h, Pass(text, -2, 0), kdf); }
    }
    forall i: nat | IsSlotPass(c, h, key, i, text, kdf)
      ensures Reads(c, key, h, ReadHeader(c, disk, Pass(text, -3, i + 1))) && Reads(c, key, h, ReadHeader(c, disk, Pass(text, -3, -100)))
      ensures kdf == 0 || kdf == 5 ==> Reads(c, key, h, ReadHeader(c, disk, Pass(text, -2, i + 1)))
    {
      SlotNumber(c, h, key, i, text, kdf);
      SlotPassOpens(c, disk, key, h, i, Pass(text, -3, i + 1), kdf);
      SlotPassOpens(c, disk, key, h, i, Pass(text, -3, -100), kdf);
      if kdf == 0 || kdf == 5 { SlotPassOpens(c, disk, key, h, i, Pass(text, -2, i + 1), kdf); }
    }
  }

  lemma SlotNumber(c: Crypto, h: Header, key: XtsKey, i: nat, text: seq<byte>, kdf: int)
    requires IsSlotPass(c, h, key, i, text, kdf)
    ensures i < 100
  {
  }

  /**
   * A password that names a derivation, and no slot, opens the header exactly when that derivation gives the header
   * key: the raw key of 256 bytes is cut to what the ciphers take, and derivations 0 to 10 and 1001 to 1100 are known.
   */
  lemma PasswordOpensExactly(c: Crypto, disk: seq<byte>, key: XtsKey, h: Header, text: seq<byte>, kdf: int)
    requires OnDisk(c, disk, key, h) && kdf >= -1
    ensures var r := ReadHeader(c, disk, Pass(text, kdf, 0));
            && (r.Ok? ==> Reads(c, key, h, r) && r.value.kdf == kdf && r.value.slot == 0)
            && (r.Err? ==> r.code == ERR_WRONG_PASSWORD)
            && (r.Ok? <==>
                  if kdf == -1 then |text| == 256 && SetKey(text[..192], h.base.alg) == key
                  else (0 <= kdf <= 10 || 1001 <= kdf <= 1100) && SetKey(c.kdf(text, kdf, h.salt), h.base.alg) == key)
  {
    hide ReadHeader, WellLaid, Seal, Fits, Reads, TryKdf, SealsBase, ReadLen;
    var pw := Pass(text, kdf, 0);
    NamedKdf(c, disk, key, h, text, 0, kdf);
    if ReadHeader(c, disk, pw).Ok? {
      OpensOnlyThis(c, disk, key, h, pw);
      OpensByPassword(c, disk, key, h, pw);
    } else if IsHeaderPass(c, h, key, text, kdf) {
      HeaderPassOpens(c, disk, key, h, pw, kdf);
    }
  }
}
