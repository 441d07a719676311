/** When CreateHeader makes a header, and what is then read of it, field by field and byte by byte. */
module HeaderCreation {
  import opened Bytes
  import opened Results
  import opened VolumeHeader
  import opened HeaderOpen
  import opened HeaderCredentials
  import opened KeySlots
  import opened PasswordChange
  import opened CredentialRuns

  // ----- the cipher's name

  const CIPHERS := ["AES", "TWOFISH", "SERPENT", "AES-TWOFISH", "TWOFISH-SERPENT", "SERPENT-AES", "AES-TWOFISH-SERPENT"]

  predicate SameLetter(a: char, b: char) {
    || a == b
    || ('a' <= a <= 'z' && 'A' <= b <= 'Z' && a - 'a' == b - 'A')
    || ('A' <= a <= 'Z' && 'a' <= b <= 'z' && a - 'A' == b - 'a')
  }

  /** Two names that differ in nothing but upper and lower case. */
  predicate SameName(a: string, b: string) {
    |a| == |b| && forall i | 0 <= i < |a| :: SameLetter(a[i], b[i])
  }

  lemma UpperSame(name: string, known: string)
    requires forall i | 0 <= i < |known| :: 'A' <= known[i] <= 'Z' || known[i] == '-'
    ensures Upper(name) == known <==> SameName(name, known)
  {
    if SameName(name, known) {
      forall i | 0 <= i < |known|
        ensures Upper(name)[i] == known[i]
      {
        assert SameLetter(name[i], known[i]);
      }
    } else if Upper(name) == known {
      forall i | 0 <= i < |known|
        ensures SameLetter(name[i], known[i])
      {
        assert Upper(name)[i] == known[i];
      }
    }
  }

  /** The seven ciphers by their number, whatever the case; the first one has another name, and needs none. */
  lemma CipherNames(name: string, alg: nat)
    ensures CipherOf(name) == Some(alg) <==>
            (alg < 7 && SameName(name, CIPHERS[alg])) || (alg == 0 && (name == "" || SameName(name, "RIJNDAEL")))
  {
    forall k | 0 <= k < 7
      ensures Upper(name) == CIPHERS[k] <==> SameName(name, CIPHERS[k])
    {
      UpperSame(name, CIPHERS[k]);
    }
    UpperSame(name, "RIJNDAEL");
    hide SameName, Upper;
    assert Upper(name) == "" <==> name == "" by { UpperEmpty(name); }
    KnownNames(name, alg);
  }

  lemma UpperEmpty(name: string)
    ensures Upper(name) == "" <==> name == ""
  {
    assert |Upper(name)| == |name|;
  }

  lemma KnownNames(name: string, alg: nat)
    ensures CipherOf(name) == Some(alg) <==>
            (alg < 7 && Upper(name) == CIPHERS[alg]) || (alg == 0 && (Upper(name) == "" || Upper(name) == "RIJNDAEL"))
  {
    hide Upper;
    assert |CIPHERS[0]| == 3 && |CIPHERS[1]| == 7 && |CIPHERS[2]| == 7 && |CIPHERS[3]| == 11 && |CIPHERS[4]| == 15 && |CIPHERS[5]| == 11 && |CIPHERS[6]| == 19;
    assert CIPHERS[1][0] == 'T' && CIPHERS[2][0] == 'S' && CIPHERS[3][0] == 'A' && CIPHERS[5][0] == 'S' && "RIJNDAEL"[0] == 'R';
  }

  // ----- when a header is made

  /** Four slots unless another number is asked for. */
  function SlotsFor(slotCount: int): int {
    if slotCount == -1 then 4 else slotCount
  }

  /**
   * CreateHeader takes a known cipher, the default derivation or one of 0 to 10, at most 100 slots, and a password
   * that is not empty; the first that is wrong decides on the error.
   */
  lemma CreateTaken(c: Crypto, cipher: string, slotCount: int, pw: Cred, r: Fresh)
    ensures var s := CreateHeader(c, cipher, slotCount, pw, r);
            if CipherOf(cipher).None? then s == Err(3)
            else if !(pw.kdf == -2 || 0 <= pw.kdf <= 10) || !(0 <= SlotsFor(slotCount) <= 100) then s == Err(14)
            else if pw.text == [] then s == Err(5)
            else s.Ok?
  {
    hide Zeros, Peek, NewTail;
    CipherNumbers(cipher);
  }

  lemma CipherNumbers(cipher: string)
    ensures CipherOf(cipher).Some? ==> CipherOf(cipher).value < CF_CIPHERS_NUM
  {
  }

  // ----- what is read of it

  /** A little-endian number of 64 bits; data_off follows alg_2 and key_2. */
  function DataOffset(b: Base): nat
    requires |b.other| == OTHER_SIZE
  {
    Le32(b.other, 260) + 0x1_0000_0000 * Le32(b.other, 264)
  }

  function Le32(s: seq<byte>, at: nat): nat
    requires at + 4 <= |s|
  {
    (s[at] as int) + 0x100 * (s[at + 1] as int) + 0x1_0000 * (s[at + 2] as int) + 0x100_0000 * (s[at + 3] as int)
  }

  /** The fields of a new header: `slots` is a number of slots, `kdf` a derivation. */
  ghost predicate NewFields(b: Base, alg: nat, kdf: int, slots: int, r: Fresh) {
    && b.version == 3 && b.flags == 8 && b.diskId == r.diskId && b.alg == alg && b.key1 == r.key1
    && b.tmpSize == 0 && b.storLen == 0 && b.headLen == 65536 && b.footerCnt == 0 && b.extHdrOff == 0 && b.headKdf == kdf
    && b.featureFlags == (if slots > 0 then 1 else 0) && b.slotAreaLen == 192 * slots && b.keySlotCount == slots
    && b.slotInfoSize == (if slots > 0 then 32 else 0)
    && |b.other| == OTHER_SIZE && DataOffset(b) == 65536 && forall i | 0 <= i < 260 || i == 268 :: b.other[i] == 0
  }

  lemma NewHeader(c: Crypto, cipher: string, slotCount: int, pw: Cred, r: Fresh)
    requires CreateHeader(c, cipher, slotCount, pw, r).Ok?
    ensures var h, slots := CreateHeader(c, cipher, slotCount, pw, r).value.header, SlotsFor(slotCount);
            && h.salt == r.salt && slots >= 0 && CipherOf(cipher).Some?
            && NewFields(h.base, CipherOf(cipher).value, if pw.kdf == -2 then 5 else pw.kdf, slots, r)
            && |h.tail| == 64512
            && forall k | 0 <= k < 64512 :: h.tail[k] == if k < 192 * slots then At(r.noise, k) else 0
  {
  }

  /**
   * A header just created opens with the password it was made for, named as it was or as any derivation, and what is
   * read are the values drawn and the layout of a new header: random bytes in the slots, zeros behind them.
   */
  lemma CreatedReads(c: Crypto, disk: seq<byte>, cipher: string, slotCount: int, pw: Cred, r: Fresh, opener: Pass)
    requires Lawful(c) && IsFresh(r) && |disk| > 65536 && CreateHeader(c, cipher, slotCount, pw, r).Ok?
    requires opener.text == pw.text && opener.slot <= 0 && (opener.kdf == pw.kdf || opener.kdf == -3)
    ensures var s, slots := CreateHeader(c, cipher, slotCount, pw, r).value, SlotsFor(slotCount);
            var o := ReadHeader(c, Poke(disk, 0, Seal(c, s.key, s.header)), opener);
            && o.Ok? && o.value.header.salt == r.salt && CipherOf(cipher).Some?
            && NewFields(o.value.header.base, CipherOf(cipher).value, if pw.kdf == -2 then 5 else pw.kdf, slots, r)
            && |o.value.header.tail| >= 64512
            && forall k | 0 <= k < 64512 :: o.value.header.tail[k] == if k < 192 * slots then At(r.noise, k) else 0
  {
    hide WellLaid, CreateHeader, Seal, ReadHeader, NewFields, Keyed, Fits;
    var s := CreateHeader(c, cipher, slotCount, pw, r).value;
    CreatedKeyed(c, cipher, slotCount, pw, r);
    CreateTaken(c, cipher, slotCount, pw, r);
    NewHeader(c, cipher, slotCount, pw, r);
    Written(c, disk, s.key, s.header);
    var kdf := if pw.kdf == -2 then 5 else pw.kdf;
    assert IsHeaderPass(c, s.header, s.key, pw.text, kdf) by { KeyedHead(c, s.header, s.key, NewCreds(slotCount, pw)); }
    HeaderPassOpens(c, Poke(disk, 0, Seal(c, s.key, s.header)), s.key, s.header, opener, kdf);
  }

  lemma KeyedHead(c: Crypto, h: Header, key: XtsKey, creds: Creds)
    requires Keyed(c, h, key, creds)
    ensures IsHeaderPass(c, h, key, creds.head.text, creds.head.kdf)
  {
  }
}
