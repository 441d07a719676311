/** BackupHeader and RestoreHeader: what a backup holds, and what restoring it brings back. */
module HeaderBackup {
  import opened Bytes
  import opened Results
  import opened VolumeHeader
  import opened HeaderOpen
  import opened HeaderCredentials
  import opened KeySlots
  import opened PasswordChange
  import opened CredentialRuns

  const ERR_FILE_NOT_OPENED := 2

  /** How a copy of a header is sealed: slots keep the salt and the key, without any there is a new salt. */
  function CopySealing(c: Crypto, o: Opened, text: seq<byte>, salt: seq<byte>): Result<Sealing> {
    var h := Cut(o.header);
    if HasKeySlots(h.base) then Ok(Sealing(h, o.key))
    else if o.slot != 0 then Err(ERR_INVALID_PARAM)
    else
      match Derive(c, text, o.kdf, salt)
      case None => Err(ERR_INTERNAL)
      case Some(dk) => if h.base.alg >= CF_CIPHERS_NUM then Err(ERR_INTERNAL) else Ok(Sealing(h.(salt := salt), SetKey(dk, h.base.alg)))
  }

  /** BackupHeader: the bytes of the backup file. */
  function BackupHeader(c: Crypto, disk: seq<byte>, pw: Pass, salt: seq<byte>): Result<seq<byte>>
    requires Sized(c)
  {
    match ReadHeader(c, disk, pw)
    case Err(e) => Err(e)
    case Ok(o) =>
      match CopySealing(c, o, pw.text, salt)
      case Err(e) => Err(e)
      case Ok(s) => Ok(Seal(c, s.key, s.header))
  }

  /** RestoreHeader: the disk once the backup has been written to it. */
  function RestoreHeader(c: Crypto, file: seq<byte>, disk: seq<byte>, pw: Pass, salt: seq<byte>): Result<seq<byte>>
    requires Sized(c)
  {
    if |file| < DC_AREA_SIZE || |file| > DC_AREA_MAX_SIZE || |file| % XTS_SECTOR_SIZE != 0 then Err(ERR_FILE_NOT_OPENED)
    else
      match DecryptHeader(c, file, pw)
      case None => Err(ERR_WRONG_PASSWORD)
      case Some(o) =>
        match HeaderLen(o.header.base)
        case Err(e) => Err(e)
        case Ok(headLen) =>
          if headLen > |file| || headLen >= |disk| then Err(ERR_INTERNAL)
          else
            match CopySealing(c, o, pw.text, salt)
            case Err(e) => Err(e)
            case Ok(s) => Ok(Poke(disk, 0, Seal(c, s.key, s.header)))
  }

  // ----- opening a file that holds one sealed header

  /** The file is the sealed header and nothing else. */
  ghost predicate IsFile(c: Crypto, file: seq<byte>, key: XtsKey, h: Header) {
    OnDisk(c, file + [0], key, h) && |file| == Length(h)
  }

  lemma FileParts(c: Crypto, file: seq<byte>, key: XtsKey, h: Header)
    requires IsFile(c, file, key, h)
    ensures file == Seal(c, key, h) && (file + [0])[..|file|] == file
    ensures |file| >= DC_AREA_SIZE && |file| <= DC_AREA_MAX_SIZE && |file| % XTS_SECTOR_SIZE == 0
    ensures ImageSalt(file) == h.salt && SealedAs(c, file, key, h.base) && OpenBase(c, key, file) == Some(h.base)
  {
    hide Fits;
    assert (file + [0])[..|file|] == file;
    ReadParts(c, file + [0], key, h, |file|);
  }

  /** Whatever opens the file opens the whole header, by the header password or by unwrapping a slot. */
  lemma FileOpened(c: Crypto, file: seq<byte>, key: XtsKey, h: Header, pw: Pass)
    requires IsFile(c, file, key, h)
    ensures |file| >= DC_AREA_SIZE
    ensures var f := Search(c, file, pw, KdfList(pw.kdf));
            DecryptHeader(c, file, pw) == if f.Some? then Some(Opened(h, key, f.value.1, f.value.0.slot)) else None
    ensures var r := DecryptHeader(c, file, pw);
            r.Some? ==> OpenedBy(c, file, pw, r.value.kdf, r.value.slot, key)
  {
    hide Fits, OpenedBy;
    FileParts(c, file, key, h);
    SearchFindsKey(c, file, pw, KdfList(pw.kdf), key, h.base);
    WholeTail(|file|, h);
    OpenTailOfSealed(c, key, h, []);
    assert ImageTail(file) + [] == ImageTail(file) && h.tail + [] == h.tail;
  }

  // ----- with key slots

  /** A backup of a header with slots is the header as it stands. */
  lemma BackupIsCopy(c: Crypto, disk: seq<byte>, key: XtsKey, h: Header, pw: Pass, salt: seq<byte>)
    requires OnDisk(c, disk, key, h) && HasKeySlots(h.base)
    ensures var r := BackupHeader(c, disk, pw, salt);
            && r.Ok? == ReadHeader(c, disk, pw).Ok?
            && (r.Ok? ==> r.value == disk[..Length(h)] && IsFile(c, r.value, key, h))
  {
    hide Fits, ReadHeader;
    ReadsHeader(c, disk, key, h, pw);
    if ReadHeader(c, disk, pw).Ok? {
      assert (disk[..Length(h)] + [0])[..Length(h)] == disk[..Length(h)];
    }
  }

  /** Restoring it onto any disk that is long enough puts exactly that header back. */
  lemma RestoreIsCopy(c: Crypto, file: seq<byte>, key: XtsKey, h: Header, disk: seq<byte>, pw: Pass, salt: seq<byte>)
    requires IsFile(c, file, key, h) && HasKeySlots(h.base)
    ensures var r := RestoreHeader(c, file, disk, pw, salt);
            && r.Ok? == (DecryptHeader(c, file, pw).Some? && Length(h) < |disk|)
            && (r.Ok? ==> r.value == file + disk[Length(h)..])
  {
    hide Fits, DecryptHeader, OpenedBy;
    FileParts(c, file, key, h);
    FileOpened(c, file, key, h, pw);
    CutWhole(h);
  }

  lemma CutWhole(h: Header)
    requires HeaderLen(h.base) == Ok(Length(h))
    ensures Cut(h) == h
  {
    assert h.tail[..|h.tail|] == h.tail;
  }

  /** Every password that was in the header when it was backed up opens the backup. */
  lemma CredentialsOpenFile(c: Crypto, file: seq<byte>, key: XtsKey, h: Header, creds: Creds)
    requires IsFile(c, file, key, h) && Keyed(c, h, key, creds)
    ensures DecryptHeader(c, file, Pass(creds.head.text, creds.head.kdf, 0)).Some?
    ensures forall i | 0 <= i < |creds.slots| && creds.slots[i].Some? ::
              DecryptHeader(c, file, Pass(creds.slots[i].value.text, creds.slots[i].value.kdf, i + 1)).Some?
  {
    hide Fits, WellLaid, DecryptHeader;
    HeaderOpensFile(c, file, key, h, creds.head);
    forall i | 0 <= i < |creds.slots| && creds.slots[i].Some?
      ensures DecryptHeader(c, file, Pass(creds.slots[i].value.text, creds.slots[i].value.kdf, i + 1)).Some?
    {
      SlotOpensFile(c, file, key, h, creds, i);
    }
  }

  lemma HeaderOpensFile(c: Crypto, file: seq<byte>, key: XtsKey, h: Header, head: Cred)
    requires IsFile(c, file, key, h) && IsHeaderPass(c, h, key, head.text, head.kdf)
    ensures DecryptHeader(c, file, Pass(head.text, head.kdf, 0)).Some?
  {
    hide Fits, OpenedBy, DecryptHeader;
    FileParts(c, file, key, h);
    CiphersOpen(c, Derive(c, head.text, head.kdf, h.salt).value, file, key, 0);
    TriesExactly(head.kdf, head.kdf);
    SearchOpens(c, file, Pass(head.text, head.kdf, 0), KdfList(head.kdf), head.kdf);
    FileOpened(c, file, key, h, Pass(head.text, head.kdf, 0));
  }

  lemma SlotOpensFile(c: Crypto, file: seq<byte>, key: XtsKey, h: Header, creds: Creds, i: nat)
    requires IsFile(c, file, key, h) && Keyed(c, h, key, creds) && i < |creds.slots| && creds.slots[i].Some?
    ensures DecryptHeader(c, file, Pass(creds.slots[i].value.text, creds.slots[i].value.kdf, i + 1)).Some?
  {
    hide Fits, OpenedBy, DecryptHeader, WellLaid, TryKdf, Keyed;
    FileParts(c, file, key, h);
    var cr := creds.slots[i].value;
    var pw := Pass(cr.text, cr.kdf, i + 1);
    SlotCredential(c, file + [0], key, h, creds, i);
    SlotKdfOpens(c, file + [0], key, h, i, pw, cr.kdf, |file|);
    TriesExactly(cr.kdf, cr.kdf);
    SearchOpens(c, file, pw, KdfList(cr.kdf), cr.kdf);
    FileOpened(c, file, key, h, pw);
  }

  /** A backup with slots undoes any run of password changes: restoring it gives the very disk that was backed up. */
  lemma RestoreUndoesRun(c: Crypto, disk: seq<byte>, key: XtsKey, h: Header, creds: Creds, pw: Pass, calls: seq<Call>, again: Pass, salt: seq<byte>, salt': seq<byte>)
    requires Holds(c, disk, key, h, creds) && HasKeySlots(h.base) && forall call <- calls :: IsCall(call)
    requires BackupHeader(c, disk, pw, salt).Ok?
    ensures var file, now := BackupHeader(c, disk, pw, salt).value, Run(c, disk, calls);
            RestoreHeader(c, file, now, again, salt') == if DecryptHeader(c, file, again).Some? then Ok(disk) else Err(ERR_WRONG_PASSWORD)
    ensures DecryptHeader(c, BackupHeader(c, disk, pw, salt).value, Pass(creds.head.text, creds.head.kdf, 0)).Some?
    ensures forall i | 0 <= i < |creds.slots| && creds.slots[i].Some? ::
              DecryptHeader(c, BackupHeader(c, disk, pw, salt).value, Pass(creds.slots[i].value.text, creds.slots[i].value.kdf, i + 1)).Some?
  {
    hide Keyed, DecryptHeader, BackupHeader, Fits, WellLaid, Run, Seal, RestoreHeader, HeaderLen, IsFile, RunCreds;
    LaidParts(c, disk, key, h);
    BackupIsCopy(c, disk, key, h, pw, salt);
    var file, now := BackupHeader(c, disk, pw, salt).value, Run(c, disk, calls);
    var _, _ := RunKeeps(c, disk, key, h, creds, calls);
    RestoredDisk(c, file, key, h, disk, now, again, salt');
    CredentialsOpenFile(c, file, key, h, creds);
  }

  /** The front of a disk put back before what was behind it all the time. */
  lemma RestoredDisk(c: Crypto, file: seq<byte>, key: XtsKey, h: Header, disk: seq<byte>, now: seq<byte>, again: Pass, salt: seq<byte>)
    requires IsFile(c, file, key, h) && HasKeySlots(h.base) && Length(h) < |disk| == |now|
    requires file == disk[..Length(h)] && now[Length(h)..] == disk[Length(h)..]
    ensures RestoreHeader(c, file, now, again, salt) == if DecryptHeader(c, file, again).Some? then Ok(disk) else Err(ERR_WRONG_PASSWORD)
  {
    hide DecryptHeader, Fits, WellLaid, Seal, CopySealing, IsFile;
    FileParts(c, file, key, h);
    RestoreIsCopy(c, file, key, h, now, again, salt);
    assert file + now[Length(h)..] == disk;
  }

  // ----- without key slots

  /** A header sealed anew over another salt, under a key from this password. */
  ghost predicate Resealed(c: Crypto, h: Header, salt: seq<byte>, pw: Cred, h': Header, key': XtsKey) {
    && h' == h.(salt := salt) && IsKey(key') && key'.alg == h.base.alg && IsHeaderPass(c, h', key', pw.text, pw.kdf)
  }

  /**
   * A backup without slots is the header under a salt and a key of its own, from the password supplied; it is made
   * for every password that opens the header.
   */
  lemma BackupReseals(c: Crypto, disk: seq<byte>, key: XtsKey, h: Header, pw: Pass, salt: seq<byte>)
    returns (key': XtsKey, h': Header)
    requires OnDisk(c, disk, key, h) && !HasKeySlots(h.base) && |salt| == HEADER_SALT_SIZE
    ensures var o, r := ReadHeader(c, disk, pw), BackupHeader(c, disk, pw, salt);
            && (r.Ok? <==> o.Ok? && o.value.slot == 0)
            && (r.Ok? ==> Resealed(c, h, salt, Cred(pw.text, o.value.kdf), h', key') && IsFile(c, r.value, key', h'))
  {
    hide Fits, ReadHeader, Seal, WellLaid, HeaderLen, IsFile;
    ReadsHeader(c, disk, key, h, pw);
    LaidParts(c, disk, key, h);
    ResaltedLaid(h, salt);
    key', h' := key, h;
    var o := ReadHeader(c, disk, pw);
    if o.Ok? && o.value.slot == 0 {
      DerivesOver(c, h, key, pw.text, o.value.kdf, salt);
      h', key' := h.(salt := salt), SetKey(Derive(c, pw.text, o.value.kdf, salt).value, h.base.alg);
      FileOf(c, key', h');
    }
  }

  /** What derives a header's key derives one over any salt. */
  lemma DerivesOver(c: Crypto, h: Header, key: XtsKey, text: seq<byte>, kdf: int, salt: seq<byte>)
    requires Lawful(c) && IsHeaderPass(c, h, key, text, kdf)
    ensures Derive(c, text, kdf, salt).Some? && |Derive(c, text, kdf, salt).value| == PKCS_DERIVE_MAX
  {
  }

  lemma LaidParts(c: Crypto, disk: seq<byte>, key: XtsKey, h: Header)
    requires OnDisk(c, disk, key, h)
    ensures Lawful(c) && WellLaid(h) && HeaderLen(h.base) == Ok(Length(h)) && IsKey(key) && h.base.alg < CF_CIPHERS_NUM && Length(h) < |disk|
  {
  }

  /** A sealed header is a file. */
  lemma FileOf(c: Crypto, key: XtsKey, h: Header)
    requires Lawful(c) && WellLaid(h) && IsKey(key) && key.alg == h.base.alg && HeaderLen(h.base) == Ok(Length(h))
    ensures IsFile(c, Seal(c, key, h), key, h)
  {
    hide Fits, Seal;
    SealParts(c, key, h);
    assert (Seal(c, key, h) + [0])[..Length(h)] == Seal(c, key, h);
  }

  lemma ResaltedLaid(h: Header, salt: seq<byte>)
    requires WellLaid(h) && |salt| == HEADER_SALT_SIZE
    ensures WellLaid(h.(salt := salt)) && Length(h.(salt := salt)) == Length(h)
  {
    hide RawAt, Fits;
  }

  /**
   * Restoring it seals the header once more, and the password supplied opens it; the data is untouched. It takes
   * a password that opens the file as the header password, and a disk that is long enough.
   */
  lemma RestoreReseals(c: Crypto, file: seq<byte>, key: XtsKey, h: Header, disk: seq<byte>, pw: Pass, salt: seq<byte>)
    returns (key': XtsKey, h': Header)
    requires IsFile(c, file, key, h) && !HasKeySlots(h.base) && |salt| == HEADER_SALT_SIZE
    ensures var o, r := DecryptHeader(c, file, pw), RestoreHeader(c, file, disk, pw, salt);
            && (r.Ok? <==> o.Some? && o.value.slot == 0 && Length(h) < |disk|)
            && (r.Ok? ==>
                 && Resealed(c, h, salt, Cred(pw.text, o.value.kdf), h', key') && OnDisk(c, r.value, key', h')
                 && |r.value| == |disk| && r.value[Length(h)..] == disk[Length(h)..])
  {
    hide Fits, DecryptHeader, OpenedBy, Seal, WellLaid, HeaderLen;
    FileParts(c, file, key, h);
    FileOpened(c, file, key, h, pw);
    LaidParts(c, file + [0], key, h);
    CutWhole(h);
    ResaltedLaid(h, salt);
    key', h' := key, h;
    if DecryptHeader(c, file, pw).Some? && DecryptHeader(c, file, pw).value.slot == 0 && Length(h) < |disk| {
      var o := DecryptHeader(c, file, pw).value;
      DerivesAnew(c, file, pw, o.kdf, key, salt);
      h', key' := h.(salt := salt), SetKey(Derive(c, pw.text, o.kdf, salt).value, h.base.alg);
      Written(c, disk, key', h');
    }
  }

  /** A derivation that is known goes on to work over another salt. */
  lemma DerivesAnew(c: Crypto, image: seq<byte>, pw: Pass, kdf: int, key: XtsKey, salt: seq<byte>)
    requires Lawful(c) && |image| >= DC_AREA_SIZE && OpenedBy(c, image, pw, kdf, 0, key)
    ensures Derive(c, pw.text, kdf, salt).Some?
  {
  }

  /**
   * A backup without slots brings the header back after any run of password changes, for the password it was made
   * with and under a salt of its own.
   */
  lemma RestoreReopens(c: Crypto, disk: seq<byte>, key: XtsKey, h: Header, creds: Creds, pw: Pass, calls: seq<Call>, salt: seq<byte>, salt': seq<byte>)
    returns (key': XtsKey, h': Header)
    requires Holds(c, disk, key, h, creds) && !HasKeySlots(h.base) && forall call <- calls :: IsCall(call)
    requires |salt| == HEADER_SALT_SIZE && |salt'| == HEADER_SALT_SIZE && BackupHeader(c, disk, pw, salt).Ok?
    ensures ReadHeader(c, disk, pw).Ok? && h' == h.(salt := salt')
    ensures var again := Pass(pw.text, ReadHeader(c, disk, pw).value.kdf, 0);
            var r := RestoreHeader(c, BackupHeader(c, disk, pw, salt).value, Run(c, disk, calls), again, salt');
            && r.Ok? && OnDisk(c, r.value, key', h') && |r.value| == |disk| && r.value[Length(h)..] == disk[Length(h)..]
            && Reads(c, key', h', ReadHeader(c, r.value, again))
  {
    hide Keyed, DecryptHeader, BackupHeader, RestoreHeader, ReadHeader, Fits, WellLaid, Run, OpenedBy, Reads, Seal;
    var file, now := BackupHeader(c, disk, pw, salt).value, Run(c, disk, calls);
    var key1, h1 := BackupReseals(c, disk, key, h, pw, salt);
    var kdf := ReadHeader(c, disk, pw).value.kdf;
    var again := Pass(pw.text, kdf, 0);
    HeaderOpensFile(c, file, key1, h1, Cred(pw.text, kdf));
    FileOpened(c, file, key1, h1, again);
    OpenedDirectly(c, file, again, DecryptHeader(c, file, again).value.kdf, DecryptHeader(c, file, again).value.slot, key1);
    OnDiskLength(c, disk, key, h);
    var _, _ := RunKeeps(c, disk, key, h, creds, calls);
    key', h' := RestoreReseals(c, file, key1, h1, now, again, salt');
    var d := RestoreHeader(c, file, now, again, salt').value;
    OpenedKdf(c, file, key1, h1, again);
    HeaderPassOpens(c, d, key', h', again, kdf);
  }

  /** A password that names its derivation is found under that one. */
  lemma OpenedKdf(c: Crypto, file: seq<byte>, key: XtsKey, h: Header, pw: Pass)
    requires IsFile(c, file, key, h) && |file| >= DC_AREA_SIZE && Derive(c, pw.text, pw.kdf, h.salt).Some?
    ensures DecryptHeader(c, file, pw).Some? ==> DecryptHeader(c, file, pw).value.kdf == pw.kdf
  {
    hide Fits, OpenedBy;
    FileParts(c, file, key, h);
    SearchFindsKey(c, file, pw, KdfList(pw.kdf), key, h.base);
  }

  lemma OnDiskLength(c: Crypto, disk: seq<byte>, key: XtsKey, h: Header)
    requires OnDisk(c, disk, key, h)
    ensures Length(h) < |disk|
  {
  }

  lemma OpenedDirectly(c: Crypto, image: seq<byte>, pw: Pass, kdf: int, slot: nat, key: XtsKey)
    requires |image| >= DC_AREA_SIZE && OpenedBy(c, image, pw, kdf, slot, key) && pw.slot == 0
    ensures slot == 0
  {
  }
}
