/**
 * CImageFileIO: a disk image opened without buffering, so that every raw read and
 * write has to be in whole sectors. Requests that are not are carried out through
 * a 64 KiB buffer by reading, changing and writing back the sectors they touch.
 */
module ImageFileIO {
  import opened Bytes
  import opened SparseDisk
  import opened SparseDiskTable
  import opened SparseDiskFlat
  import opened SparseDiskBytes

  const BUFFER_SIZE: nat := 65536

  /** A whole number of sectors. */
  predicate Whole(k: nat, sector: nat)
    requires sector > 0
  {
    k % sector == 0
  }

  /** A file after `bytes` are written at `at`: zeros fill a gap past the old end. */
  function WriteAt(data: seq<byte>, at: nat, bytes: seq<byte>): (r: seq<byte>)
    ensures bytes == [] ==> r == data
    ensures bytes != [] ==> |r| == if at + |bytes| < |data| then |data| else at + |bytes|
    ensures forall k | 0 <= k < |r| ::
              r[k] == if at <= k < at + |bytes| then bytes[k - at] else if k < |data| then data[k] else 0
  {
    if bytes == [] then data
    else
      var base := if |data| < at then data + Zeros(at - |data|) else data;
      base[..at] + bytes + (if at + |bytes| < |base| then base[at + |bytes|..] else [])
  }

  lemma WriteAtTwice(data: seq<byte>, at: nat, x: seq<byte>, y: seq<byte>)
    ensures WriteAt(WriteAt(data, at, x), at + |x|, y) == WriteAt(data, at, x + y)
  {
    if x == [] {
      assert x + y == y;
    } else if y == [] {
      assert x + y == x;
    }
  }

  /** How many bytes of a range lie inside the file. */
  function Inside(length: nat, at: nat, size: nat): (r: nat)
    ensures r <= size
  {
    if length <= at then 0 else Min(size, length - at)
  }

  /** The open file: its bytes, the file pointer, and how many reads and writes have failed. */
  class File {
    const sector: nat
    var data: seq<byte>
    var pos: nat
    ghost var failedReads: nat
    ghost var failedWrites: nat

    constructor (sector: nat, data: seq<byte>)
      ensures this.sector == sector && this.data == data
    {
      this.sector := sector;
      this.data := data;
      pos := 0;
      failedReads, failedWrites := 0, 0;
    }

    method SetFilePointer(at: nat)
      modifies this`pos
      ensures pos == at
    {
      pos := at;
    }

    /** Unbuffered: pointer and size in whole sectors. Short only at the end of the file. */
    method ReadFile(buf: array<byte>, from: nat, size: nat) returns (ok: bool, got: nat)
      requires sector > 0 && Whole(pos, sector) && Whole(size, sector) && from + size <= buf.Length
      modifies this`pos, this`failedReads, buf
      ensures failedReads == old(failedReads) + if ok then 0 else 1
      ensures ok ==> got == Inside(|data|, old(pos), size)
      ensures ok ==> buf[..] == Splice(old(buf[..]), from, data[Min(old(pos), |data|)..Min(old(pos), |data|) + got])
      ensures !ok ==> got == 0 && buf[..] == old(buf[..])
    {
      ok := *;
      got := 0;
      if ok {
        got := Inside(|data|, pos, size);
        forall i | 0 <= i < got {
          buf[from + i] := data[pos + i];
        }
        pos := pos + got;
      } else {
        failedReads := failedReads + 1;
      }
    }

    method WriteFile(buf: array<byte>, from: nat, size: nat) returns (ok: bool)
      requires sector > 0 && Whole(pos, sector) && Whole(size, sector) && from + size <= buf.Length
      modifies this`pos, this`data, this`failedWrites
      ensures failedWrites == old(failedWrites) + if ok then 0 else 1
      ensures data == if ok then WriteAt(old(data), old(pos), buf[from..from + size]) else old(data)
    {
      ok := *;
      if ok {
        data := WriteAt(data, pos, buf[from..from + size]);
        pos := pos + size;
      } else {
        failedWrites := failedWrites + 1;
      }
    }

    /** FSCTL_SET_ZERO_DATA, which never makes the file longer. */
    method SetZeroData(from: nat, beyond: int)
      modifies this`data
      ensures |data| == |old(data)|
      ensures forall k | 0 <= k < |data| :: data[k] == if from <= k < beyond then 0 else old(data)[k]
    {
      var was := data;
      data := seq(|was|, k requires 0 <= k < |was| => if from <= k < beyond then 0 else was[k]);
    }
  }

  /** The sectors one turn of a slow loop works on. */
  datatype Turn = Turn(at: nat, skip: nat, size: nat, full: nat)

  /** alignedOffset, offsetInSector, toWrite or toRead, and alignedSize. */
  function TurnAt(offset: nat, remaining: nat, sector: nat): (t: Turn)
    requires 0 < sector <= BUFFER_SIZE
  {
    var at := Base(EntryOf(offset, sector), sector);
    Position(offset, sector);
    var skip := offset - at;
    var size := Min(remaining, BUFFER_SIZE - skip);
    Turn(at, skip, size, Min(Base(Ceil(skip + size, sector), sector), BUFFER_SIZE))
  }

  lemma WholeSectors(k: nat, sector: nat)
    requires sector > 0
    ensures Whole(Base(k, sector), sector)
  {
    Position(Base(k, sector), sector);
    var q, r := Base(k, sector) / sector, Base(k, sector) % sector;
    if q < k { BlocksApart(q, k, sector); } else if k < q { BlocksApart(k, q, sector); }
  }

  /** A turn makes progress, fits the buffer, and is in whole sectors. */
  lemma TurnFits(offset: nat, remaining: nat, sector: nat)
    requires 0 < sector <= BUFFER_SIZE && Whole(BUFFER_SIZE, sector) && remaining > 0
    ensures var t := TurnAt(offset, remaining, sector);
            && t.at + t.skip == offset && t.skip < sector && 0 < t.size <= remaining
            && t.skip + t.size <= t.full <= BUFFER_SIZE && t.full == Base(Ceil(t.skip + t.size, sector), sector)
            && Whole(t.at, sector) && Whole(t.full, sector)
  {
    var t := TurnAt(offset, remaining, sector);
    Position(offset, sector);
    Position(BUFFER_SIZE, sector);
    CeilHolds(t.skip + t.size, sector, EntryOf(BUFFER_SIZE, sector));
    CeilHolds(t.skip + t.size, sector, Ceil(t.skip + t.size, sector));
    var c, b := Ceil(t.skip + t.size, sector), EntryOf(BUFFER_SIZE, sector);
    assert Base(c, sector) <= Base(b, sector) by { if c < b { BlocksApart(c, b, sector); } }
    WholeSectors(c, sector);
    WholeSectors(EntryOf(offset, sector), sector);
  }

  lemma BaseSum(a: nat, b: nat, n: nat)
    ensures Base(a, n) + Base(b, n) == Base(a + b, n)
  {
  }

  lemma WholeIsBase(k: nat, sector: nat)
    requires sector > 0 && Whole(k, sector)
    ensures k == Base(EntryOf(k, sector), sector)
  {
    Position(k, sector);
  }

  /** A turn that starts and ends on sector boundaries has nothing to read first. */
  lemma TurnExact(offset: nat, remaining: nat, sector: nat)
    requires 0 < sector <= BUFFER_SIZE && Whole(BUFFER_SIZE, sector) && remaining > 0
    requires TurnAt(offset, remaining, sector).skip == 0
    requires Whole(offset + TurnAt(offset, remaining, sector).size, sector)
    ensures TurnAt(offset, remaining, sector).full == TurnAt(offset, remaining, sector).size
  {
    var t := TurnAt(offset, remaining, sector);
    TurnFits(offset, remaining, sector);
    WholeIsBase(offset, sector);
    WholeIsBase(offset + t.size, sector);
    hide Base, Ceil, EntryOf, Within;
    var i, k := EntryOf(offset, sector), EntryOf(offset + t.size, sector);
    assert i < k by { if k < i { BlocksApart(k, i, sector); } }
    BaseSum(i, k - i, sector);
    hide TurnAt;
    CeilHolds(t.size, sector, k - i);
    CeilHolds(t.size, sector, Ceil(t.size, sector));
    if Ceil(t.size, sector) < k - i { BlocksApart(Ceil(t.size, sector), k - i, sector); }
  }

  lemma WholeParts(a: nat, b: nat, sector: nat)
    requires sector > 0 && Whole(a, sector) && Whole(b, sector)
    ensures Whole(a + b, sector)
    ensures a <= b ==> Whole(b - a, sector)
  {
    Position(a, sector);
    Position(b, sector);
    var i, k := EntryOf(a, sector), EntryOf(b, sector);
    assert a + b == Base(i + k, sector);
    WholeSectors(i + k, sector);
    if a <= b {
      assert k < i ==> Base(k, sector) + sector <= Base(i, sector) by { if k < i { BlocksApart(k, i, sector); } }
      assert b - a == Base(k - i, sector);
      WholeSectors(k - i, sector);
    }
  }

  /** A request in whole sectors stays in whole sectors, turn after turn, and reads nothing. */
  lemma TurnWhole(offset: nat, remaining: nat, sector: nat)
    requires 0 < sector <= BUFFER_SIZE && Whole(BUFFER_SIZE, sector) && remaining > 0
    requires Whole(offset, sector) && Whole(remaining, sector)
    ensures var t := TurnAt(offset, remaining, sector);
            && t.skip == 0 && t.at == offset && t.full == t.size
            && Whole(offset + t.size, sector) && Whole(remaining - t.size, sector)
  {
    var t := TurnAt(offset, remaining, sector);
    TurnFits(offset, remaining, sector);
    Position(offset, sector);
    WholeParts(offset, t.size, sector);
    WholeParts(t.size, remaining, sector);
    TurnExact(offset, remaining, sector);
  }

  /** The file after a write has got as far as `upTo`, which leaves the bytes it had alone outside the request. */
  ghost predicate WroteUpTo(before: seq<byte>, data: seq<byte>, offset: nat, bytes: seq<byte>, upTo: nat) {
    && |before| <= |data| && offset <= upTo <= offset + |bytes| && (offset < upTo ==> upTo <= |data|)
    && (forall k | offset <= k < upTo :: data[k] == bytes[k - offset])
    && forall k | 0 <= k < |before| && !(offset <= k < upTo) :: data[k] == before[k]
  }

  /** The range is written as far as `upTo`, and outside `from` and `to` the bytes are those there were. */
  ghost predicate PlacedWithin(before: seq<byte>, data: seq<byte>, offset: nat, bytes: seq<byte>, upTo: nat, from: nat, to: nat) {
    && |before| <= |data| && offset <= upTo <= offset + |bytes| && (offset < upTo ==> upTo <= |data|)
    && (forall k | offset <= k < upTo :: data[k] == bytes[k - offset])
    && forall k | 0 <= k < |before| && (k < from || to <= k) :: data[k] == before[k]
  }

  /** The same when a read has failed: the rest of the sectors at either end may be anything, and nothing else. */
  ghost predicate PlacedUpTo(before: seq<byte>, data: seq<byte>, offset: nat, bytes: seq<byte>, upTo: nat, sector: nat)
    requires sector > 0
  {
    && PlacedWithin(before, data, offset, bytes, upTo, Base(EntryOf(offset, sector), sector), Base(Ceil(upTo, sector), sector))
    && |data| == LengthAfter(|before|, offset, upTo, sector)
  }

  /** A write that passes the end makes the file end with the sector it has got to, whose last bytes may be anything. */
  function LengthAfter(length: nat, offset: nat, upTo: nat, sector: nat): nat
    requires sector > 0
  {
    if upTo == offset then length else Max(length, Base(Ceil(upTo, sector), sector))
  }

  function Max(a: nat, b: nat): nat {
    if a < b then b else a
  }

  /** With every read in order nothing more is lost than that allows. */
  lemma WroteIsPlaced(before: seq<byte>, data: seq<byte>, offset: nat, bytes: seq<byte>, upTo: nat, sector: nat)
    requires sector > 0 && WroteUpTo(before, data, offset, bytes, upTo) && |data| == LengthAfter(|before|, offset, upTo, sector)
    ensures PlacedUpTo(before, data, offset, bytes, upTo, sector)
  {
    Position(offset, sector);
    CeilHolds(upTo, sector, Ceil(upTo, sector));
  }

  lemma WholeEnd(offset: nat, size: nat, sector: nat)
    requires sector > 0 && Whole(offset, sector) && Whole(size, sector)
    ensures Base(Ceil(offset + size, sector), sector) == offset + size
  {
    WholeParts(offset, size, sector);
    WholeIsBase(offset + size, sector);
    var k, c := EntryOf(offset + size, sector), Ceil(offset + size, sector);
    CeilHolds(offset + size, sector, k);
    CeilHolds(offset + size, sector, c);
    if c < k { BlocksApart(c, k, sector); }
  }

  lemma NothingWritten(before: seq<byte>, offset: nat, bytes: seq<byte>, sector: nat)
    requires sector > 0
    ensures WroteUpTo(before, before, offset, bytes, offset) && PlacedUpTo(before, before, offset, bytes, offset, sector)
    ensures WriteAt(before, offset, []) == before
  {
  }

  /** A block put over the file, with the next part of the request behind its first `skip` bytes. */
  lemma BlockPlaces(before: seq<byte>, data: seq<byte>, offset: nat, bytes: seq<byte>, upTo: nat, from: nat, to: nat,
                    at: nat, skip: nat, size: nat, block: seq<byte>, to': nat)
    requires PlacedWithin(before, data, offset, bytes, upTo, from, to) && at + skip == upTo && (skip == 0 || upTo == offset)
    requires 0 < size && upTo + size <= offset + |bytes| && skip + size <= |block|
    requires forall i | skip <= i < skip + size :: block[i] == bytes[upTo - offset + (i - skip)]
    requires from <= at && at + |block| <= to' && to <= to'
    ensures PlacedWithin(before, WriteAt(data, at, block), offset, bytes, upTo + size, from, to')
    ensures |WriteAt(data, at, block)| == Max(|data|, at + |block|)
  {
    hide WriteAt;
    var after := WriteAt(data, at, block);
    forall k | offset <= k < upTo + size
      ensures k < |after| && after[k] == bytes[k - offset]
    {
      if upTo <= k { assert block[k - at] == bytes[k - offset]; }
    }
  }

  lemma SliceBytes(block: seq<byte>, skip: nat, bytes: seq<byte>, from: nat, size: nat)
    requires skip + size <= |block| && from + size <= |bytes| && block[skip..skip + size] == bytes[from..from + size]
    ensures forall i | skip <= i < skip + size :: block[i] == bytes[from + (i - skip)]
  {
    forall i | skip <= i < skip + size
      ensures block[i] == bytes[from + (i - skip)]
    {
      assert block[skip..skip + size][i - skip] == bytes[from..from + size][i - skip];
    }
  }

  /** One turn whatever was read; every turn but the first starts on a sector boundary. */
  lemma TurnPlaces(before: seq<byte>, data: seq<byte>, offset: nat, bytes: seq<byte>, upTo: nat, remaining: nat, block: seq<byte>, sector: nat)
    requires 0 < sector <= BUFFER_SIZE && Whole(BUFFER_SIZE, sector) && remaining > 0
    requires PlacedUpTo(before, data, offset, bytes, upTo, sector) && upTo + remaining == offset + |bytes| && offset <= upTo
    requires upTo == offset || Whole(upTo, sector)
    requires var t := TurnAt(upTo, remaining, sector);
             && |block| == t.full >= t.skip + t.size && block[t.skip..t.skip + t.size] == bytes[upTo - offset..upTo - offset + t.size]
    ensures var t := TurnAt(upTo, remaining, sector);
            PlacedUpTo(before, WriteAt(data, t.at, block), offset, bytes, upTo + t.size, sector)
  {
    hide WriteAt, PlacedWithin;
    var t := TurnAt(upTo, remaining, sector);
    TurnFits(upTo, remaining, sector);
    TurnReach(upTo, remaining, sector);
    TurnStarts(offset, upTo, sector);
    CeilMonotone(upTo, upTo + t.size, sector);
    hide TurnAt;
    SliceBytes(block, t.skip, bytes, upTo - offset, t.size);
    BlockPlaces(before, data, offset, bytes, upTo, Base(EntryOf(offset, sector), sector), Base(Ceil(upTo, sector), sector),
                t.at, t.skip, t.size, block, Base(Ceil(upTo + t.size, sector), sector));
  }

  lemma TurnStarts(offset: nat, upTo: nat, sector: nat)
    requires sector > 0 && offset <= upTo && (upTo == offset || Whole(upTo, sector))
    ensures var at := Base(EntryOf(upTo, sector), sector);
            at <= upTo && Base(EntryOf(offset, sector), sector) <= at && (at == upTo || upTo == offset)
  {
    Position(offset, sector);
    Position(upTo, sector);
  }

  lemma CeilMonotone(a: nat, b: nat, sector: nat)
    requires sector > 0 && a <= b
    ensures Base(Ceil(a, sector), sector) <= Base(Ceil(b, sector), sector)
  {
    CeilHolds(b, sector, Ceil(b, sector));
    CeilHolds(a, sector, Ceil(b, sector));
    if Ceil(a, sector) < Ceil(b, sector) { BlocksApart(Ceil(a, sector), Ceil(b, sector), sector); }
  }

  /** A turn writes up to the end of the sector its part of the request ends in. */
  lemma TurnReach(offset: nat, remaining: nat, sector: nat)
    requires 0 < sector <= BUFFER_SIZE && Whole(BUFFER_SIZE, sector) && remaining > 0
    ensures var t := TurnAt(offset, remaining, sector);
            && t.at + t.full == Base(Ceil(offset + t.size, sector), sector)
            && (t.size < remaining ==> Whole(offset + t.size, sector))
  {
    hide Base, Ceil, EntryOf, Within, Whole;
    var t := TurnAt(offset, remaining, sector);
    TurnFits(offset, remaining, sector);
    Position(offset, sector);
    var e, c, f := EntryOf(offset, sector), Ceil(offset + t.size, sector), Ceil(t.skip + t.size, sector);
    CeilHolds(offset + t.size, sector, c);
    CeilHolds(offset + t.size, sector, e);
    BaseSum(e, c - e, sector);
    CeilHolds(t.skip + t.size, sector, c - e);
    if f < c - e {
      BaseSum(e, f, sector);
      CeilHolds(t.skip + t.size, sector, f);
      CeilHolds(offset + t.size, sector, e + f);
    }
    WholeParts(t.at, BUFFER_SIZE, sector);
  }

  /** One read-modify-write turn. */
  lemma TurnWrites(before: seq<byte>, data: seq<byte>, offset: nat, bytes: seq<byte>, upTo: nat, t: Turn, block: seq<byte>)
    requires WroteUpTo(before, data, offset, bytes, upTo)
    requires t.at + t.skip == upTo && 0 < t.size && upTo + t.size <= offset + |bytes|
    requires |block| == t.full >= t.skip + t.size
    requires block[t.skip..t.skip + t.size] == bytes[upTo - offset..upTo - offset + t.size]
    requires forall i | 0 <= i < t.full && !(t.skip <= i < t.skip + t.size) && t.at + i < |data| :: block[i] == data[t.at + i]
    ensures WroteUpTo(before, WriteAt(data, t.at, block), offset, bytes, upTo + t.size)
  {
    hide WriteAt;
    var after := WriteAt(data, t.at, block);
    forall k | offset <= k < upTo + t.size
      ensures k < |after| && after[k] == bytes[k - offset]
    {
      if upTo <= k {
        assert block[k - t.at] == block[t.skip..t.skip + t.size][k - upTo];
        assert bytes[upTo - offset..upTo - offset + t.size][k - upTo] == bytes[k - offset];
      } else {
        assert t.at <= k ==> block[k - t.at] == data[k];
      }
    }
    forall k | 0 <= k < |before| && !(offset <= k < upTo + t.size)
      ensures after[k] == before[k]
    {
      assert t.at <= k < t.at + t.full ==> block[k - t.at] == data[k];
    }
  }

  /** The read that a turn starts with shows every byte the file has in its sectors. */
  ghost predicate ShowsFile(block: seq<byte>, data: seq<byte>, t: Turn) {
    t.full <= |block| && forall i | 0 <= i < t.full && t.at + i < |data| :: block[i] == data[t.at + i]
  }

  class ImageFileIO {
    const file: File

    constructor (file: File)
      ensures this.file == file
    {
      this.file := file;
    }

    /** What Init leaves: a sector size it accepted, that the buffer is a multiple of. */
    ghost predicate Valid() {
      0 < file.sector <= BUFFER_SIZE && Whole(BUFFER_SIZE, file.sector)
    }

    predicate WholeSectors(offset: nat, size: nat)
      requires Valid()
    {
      Whole(offset, file.sector) && Whole(size, file.sector)
    }

    /** The fast path: one raw write. */
    method WriteDirect(buf: array<byte>, size: nat, offset: nat) returns (ok: bool)
      requires Valid() && size <= buf.Length && WholeSectors(offset, size)
      modifies file
      ensures file.failedReads == old(file.failedReads) && file.failedWrites == old(file.failedWrites) + if ok then 0 else 1
      ensures file.data == if ok then WriteAt(old(file.data), offset, buf[..size]) else old(file.data)
    {
      file.SetFilePointer(offset);
      ok := file.WriteFile(buf, 0, size);
      assert buf[0..size] == buf[..size];
    }

    /** Read part of one turn of the slow write loop, if there is one; its outcome is not looked at. */
    method Fill(block: array<byte>, t: Turn, current: nat, remaining: nat) returns (ghost readOk: bool)
      requires Valid() && block.Length == BUFFER_SIZE && remaining > 0 && t == TurnAt(current, remaining, file.sector)
      modifies file`pos, file`failedReads, block
      ensures file.failedReads == old(file.failedReads) + if readOk then 0 else 1
      ensures readOk ==> ShowsFile(block[..], file.data, t) || (t.skip == 0 && t.full == t.size)
      ensures WholeSectors(current, remaining) ==> readOk
    {
      hide TurnAt, Whole;
      TurnFits(current, remaining, file.sector);
      if WholeSectors(current, remaining) { TurnWhole(current, remaining, file.sector); }
      readOk := true;
      if t.skip != 0 || !Whole(current + t.size, file.sector) {
        file.SetFilePointer(t.at);
        var ok, got := file.ReadFile(block, 0, t.full);
        readOk := ok;
      } else {
        TurnExact(current, remaining, file.sector);
      }
    }

    /** memcpy and write part of one turn of the slow write loop. */
    method PutBack(block: array<byte>, t: Turn, buf: array<byte>, from: nat) returns (ok: bool)
      requires Valid() && block != buf && block.Length == BUFFER_SIZE && t.skip + t.size <= t.full <= BUFFER_SIZE
      requires Whole(t.at, file.sector) && Whole(t.full, file.sector) && from + t.size <= buf.Length
      modifies file, block
      ensures file.failedReads == old(file.failedReads) && file.failedWrites == old(file.failedWrites) + if ok then 0 else 1
      ensures block[..] == Splice(old(block[..]), t.skip, buf[from..from + t.size])
      ensures file.data == if ok then WriteAt(old(file.data), t.at, block[..t.full]) else old(file.data)
    {
      forall i | 0 <= i < t.size {
        block[t.skip + i] := buf[from + i];
      }
      file.SetFilePointer(t.at);
      ok := file.WriteFile(block, 0, t.full);
      assert block[0..t.full] == block[..t.full];
    }

    /** One turn of the slow write loop. */
    method OneTurn(block: array<byte>, buf: array<byte>, from: nat, current: nat, remaining: nat,
                   ghost before: seq<byte>, ghost offset: nat, ghost bytes: seq<byte>)
      returns (size: nat, ok: bool, ghost readOk: bool)
      requires Valid() && block != buf && block.Length == BUFFER_SIZE && remaining > 0
      requires from + remaining == |bytes| <= buf.Length && buf[..|bytes|] == bytes && current == offset + from
      requires PlacedUpTo(before, file.data, offset, bytes, current, file.sector) && (from == 0 || Whole(current, file.sector))
      modifies file, block
      ensures file.failedReads == old(file.failedReads) + if readOk then 0 else 1
      ensures file.failedWrites == old(file.failedWrites) + if ok then 0 else 1
      ensures 0 < size <= remaining && (!ok ==> file.data == old(file.data)) && (size < remaining ==> Whole(current + size, file.sector))
      ensures ok ==> PlacedUpTo(before, file.data, offset, bytes, current + size, file.sector)
      ensures WroteUpTo(before, old(file.data), offset, bytes, current) && readOk && ok ==>
                WroteUpTo(before, file.data, offset, bytes, current + size)
      ensures WholeSectors(current, remaining) ==>
                && readOk && WholeSectors(current + size, remaining - size)
                && (ok ==> file.data == WriteAt(old(file.data), current, bytes[from..from + size]))
    {
      hide WriteAt, Whole, WroteUpTo, PlacedUpTo, TurnAt, ShowsFile, Splice;
      var t := TurnAt(current, remaining, file.sector);
      TurnFits(current, remaining, file.sector);
      TurnReach(current, remaining, file.sector);
      if WholeSectors(current, remaining) { TurnWhole(current, remaining, file.sector); }
      size := t.size;
      readOk := Fill(block, t, current, remaining);
      ghost var shown := block[..];
      PrefixSlice(buf[..], |bytes|, from, from + size);
      ok := PutBack(block, t, buf, from);
      TurnDone(before, old(file.data), offset, bytes, from, remaining, file.sector, t, shown, readOk, block[..]);
    }

    /**
     * The slow path. A write that returns true has put exactly the buffer into the
     * range. As long as the reads it does not check succeed no byte the file already
     * had outside the range changes; after a failed one only bytes of the sectors
     * the range starts and ends in can. On a request in whole sectors it leaves the
     * file that the fast path would.
     */
    method WriteBuffered(buf: array<byte>, size: nat, offset: nat) returns (ok: bool, ghost readsOk: bool, ghost upTo: nat)
      requires Valid() && size <= buf.Length
      modifies file
      ensures readsOk <==> file.failedReads == old(file.failedReads)
      ensures file.failedWrites == old(file.failedWrites) + if ok then 0 else 1
      ensures readsOk ==> WroteUpTo(old(file.data), file.data, offset, buf[..size], upTo)
      ensures PlacedUpTo(old(file.data), file.data, offset, buf[..size], upTo, file.sector)
      ensures ok ==> upTo == offset + size
      ensures WholeSectors(offset, size) ==> readsOk
      ensures WholeSectors(offset, size) && ok ==> file.data == WriteAt(old(file.data), offset, buf[..size])
    {
      hide WriteAt, Whole, WroteUpTo, PlacedUpTo;
      ghost var before := file.data;
      ghost var bytes := buf[..size];
      NothingWritten(before, offset, bytes, file.sector);
      assert bytes[..0] == [];
      var block := new byte[BUFFER_SIZE];
      var from: nat, remaining: nat, current: nat := 0, size, offset;
      readsOk := true;
      while remaining > 0
        invariant from + remaining == size && current == offset + from && fresh(block) && buf[..size] == bytes
        invariant file.failedWrites == old(file.failedWrites) && file.failedReads >= old(file.failedReads)
        invariant readsOk <==> file.failedReads == old(file.failedReads)
        invariant readsOk ==> WroteUpTo(before, file.data, offset, bytes, current)
        invariant PlacedUpTo(before, file.data, offset, bytes, current, file.sector)
        invariant remaining == 0 || from == 0 || Whole(current, file.sector)
        invariant WholeSectors(offset, size) ==> readsOk && WholeSectors(current, remaining)
        invariant WholeSectors(offset, size) ==> file.data == WriteAt(before, offset, bytes[..from])
      {
        var written, stored, readOk := OneTurn(block, buf, from, current, remaining, before, offset, bytes);
        if !stored {
          return false, readsOk && readOk, current;
        }
        readsOk := readsOk && readOk;
        WriteAtTwice(before, offset, bytes[..from], bytes[from..from + written]);
        assert bytes[..from] + bytes[from..from + written] == bytes[..from + written];
        from, remaining, current := from + written, remaining - written, current + written;
      }
      assert bytes[..from] == bytes;
      return true, readsOk, current;
    }

    /**
     * DiskWrite: a write that returns true has put exactly the buffer at the
     * offset and, unless a read failed, kept every other byte that the file had.
     */
    method DiskWrite(buf: array<byte>, size: nat, offset: nat) returns (ok: bool, ghost readsOk: bool, ghost upTo: nat)
      requires Valid() && size <= buf.Length
      modifies file
      ensures readsOk <==> file.failedReads == old(file.failedReads)
      ensures file.failedWrites == old(file.failedWrites) + if ok then 0 else 1
      ensures readsOk ==> WroteUpTo(old(file.data), file.data, offset, buf[..size], upTo)
      ensures PlacedUpTo(old(file.data), file.data, offset, buf[..size], upTo, file.sector)
      ensures ok ==> upTo == offset + size
      ensures WholeSectors(offset, size) ==> readsOk
    {
      if WholeSectors(offset, size) {
        ghost var before := file.data;
        ok := WriteDirect(buf, size, offset);
        readsOk := true;
        upTo := if ok then offset + size else offset;
        assert WroteUpTo(before, file.data, offset, buf[..size], upTo);
        if ok && size > 0 { WholeEnd(offset, size, file.sector); }
        WroteIsPlaced(before, file.data, offset, buf[..size], upTo, file.sector);
      } else {
        ok, readsOk, upTo := WriteBuffered(buf, size, offset);
      }
    }

    /** The fast path of DiskRead: true even when the file ends inside the range. */
    method ReadDirect(buf: array<byte>, size: nat, offset: nat) returns (ok: bool)
      requires Valid() && size <= buf.Length && WholeSectors(offset, size)
      modifies file`pos, file`failedReads, buf
      ensures file.failedReads == old(file.failedReads) + if ok then 0 else 1
      ensures if ok then FilledPrefix(old(buf[..]), buf[..], file.data, offset, size, Inside(|file.data|, offset, size)) else buf[..] == old(buf[..])
    {
      file.SetFilePointer(offset);
      var got;
      ok, got := file.ReadFile(buf, 0, size);
    }

    /** One turn of the slow read loop: it copies what the file has for it, and nothing at the end of the file. */
    method ReadTurn(block: array<byte>, buf: array<byte>, to: nat, current: nat, remaining: nat,
                    ghost before: seq<byte>, ghost offset: nat, ghost size: nat)
      returns (copied: nat, read: bool)
      requires Valid() && block != buf && block.Length == BUFFER_SIZE && remaining > 0
      requires to + remaining == size <= buf.Length && current == offset + to
      requires FilledPrefix(before, buf[..], file.data, offset, size, to)
      modifies file`pos, file`failedReads, block, buf
      ensures file.failedReads == old(file.failedReads) + if read then 0 else 1
      ensures !read ==> buf[..] == old(buf[..])
      ensures read ==> copied <= remaining && FilledPrefix(before, buf[..], file.data, offset, size, to + copied)
      ensures read ==> (copied == 0 <==> |file.data| <= current)
    {
      hide TurnAt, Whole, FilledPrefix, Splice;
      var t := TurnAt(current, remaining, file.sector);
      TurnFits(current, remaining, file.sector);
      file.SetFilePointer(t.at);
      copied := 0;
      var got;
      read, got := file.ReadFile(block, 0, t.full);
      if read && got > t.skip {
        copied := Min(t.size, got - t.skip);
        ReadShows(old(block[..]), block[..], file.data, t, got, copied);
        FilledOn(before, buf[..], file.data, offset, size, to, block[t.skip..t.skip + copied]);
        CopyBytes(buf, to, block, t.skip, copied);
      }
    }

    /**
     * The slow path of DiskRead. Unless a raw read fails it is true exactly when
     * the whole range lies inside the file, and it always fills a prefix of the
     * buffer with the file's own bytes and leaves the rest alone.
     */
    method ReadBuffered(buf: array<byte>, size: nat, offset: nat) returns (ok: bool, ghost readsOk: bool)
      requires Valid() && size <= buf.Length
      modifies file`pos, file`failedReads, buf
      ensures file.failedReads == old(file.failedReads) + if readsOk then 0 else 1
      ensures readsOk ==> (ok <==> size == 0 || offset + size <= |file.data|)
      ensures readsOk ==> FilledPrefix(old(buf[..]), buf[..], file.data, offset, size, Inside(|file.data|, offset, size))
      ensures !readsOk ==> !ok && exists got :: FilledPrefix(old(buf[..]), buf[..], file.data, offset, size, got)
    {
      ghost var before := buf[..];
      var block := new byte[BUFFER_SIZE];
      var to: nat, remaining: nat, current: nat := 0, size, offset;
      readsOk := true;
      while remaining > 0
        invariant to + remaining == size && current == offset + to && fresh(block) && file.failedReads == old(file.failedReads)
        invariant FilledPrefix(before, buf[..], file.data, offset, size, to)
      {
        var copied, read := ReadTurn(block, buf, to, current, remaining, before, offset, size);
        if !read {
          return false, false;
        }
        if copied == 0 {
          break;
        }
        to, remaining, current := to + copied, remaining - copied, current + copied;
      }
      return remaining == 0, true;
    }

    /** DiskRead: the two paths agree on the bytes; only the slow one reports a short file. */
    method DiskRead(buf: array<byte>, size: nat, offset: nat) returns (ok: bool, ghost readsOk: bool)
      requires Valid() && size <= buf.Length
      modifies file`pos, file`failedReads, buf
      ensures file.failedReads == old(file.failedReads) + if readsOk then 0 else 1
      ensures readsOk ==> FilledPrefix(old(buf[..]), buf[..], file.data, offset, size, Inside(|file.data|, offset, size))
      ensures readsOk ==> (ok <==> WholeSectors(offset, size) || size == 0 || offset + size <= |file.data|)
      ensures !readsOk ==> !ok && exists got :: FilledPrefix(old(buf[..]), buf[..], file.data, offset, size, got)
    {
      if WholeSectors(offset, size) {
        ghost var before := buf[..];
        ok := ReadDirect(buf, size, offset);
        readsOk := ok;
        assert !ok ==> FilledPrefix(before, buf[..], file.data, offset, size, 0);
      } else {
        ok, readsOk := ReadBuffered(buf, size, offset);
      }
    }

    /** TrimProcess: zeros over the parts of the ranges that lie inside the file. */
    method TrimProcess(ranges: seq<Range>)
      modifies file
      ensures file.data == ZeroRanges(old(file.data), ranges)
    {
      ghost var whole := ZeroRanges(file.data, ranges);
      var k := 0;
      while k < |ranges|
        invariant k <= |ranges| && whole == ZeroRanges(file.data, ranges[k..])
      {
        ghost var before := file.data;
        file.SetZeroData(ranges[k].start, ranges[k].start + ranges[k].length);
        assert file.data == Want(before, 0, ranges[k].start, Zeros(if ranges[k].length < 0 then 0 else ranges[k].length));
        assert ranges[k..][1..] == ranges[k + 1..];
        k := k + 1;
      }
    }
  }

  /** What a raw read put at the start of the block, as far as a turn uses it. */
  lemma ReadShows(was: seq<byte>, block: seq<byte>, data: seq<byte>, t: Turn, got: nat, copied: nat)
    requires t.full <= |was| && got == Inside(|data|, t.at, t.full) && t.skip + copied <= got
    requires block == Splice(was, 0, data[Min(t.at, |data|)..Min(t.at, |data|) + got])
    ensures t.at + t.skip + copied <= |data| || copied == 0
    ensures copied > 0 ==> block[t.skip..t.skip + copied] == data[t.at + t.skip..t.at + t.skip + copied]
  {
    if copied > 0 {
      var from := Min(t.at, |data|);
      var shown := data[from..from + got];
      SpliceSlices(was, 0, shown);
      assert block[..got] == shown by { assert was[..0] + shown == shown; }
      PrefixSlice(block, got, t.skip, t.skip + copied);
      SliceInside(data, from, got, t.skip, copied);
    }
  }

  lemma SliceInside(data: seq<byte>, from: nat, got: nat, skip: nat, n: nat)
    requires from + got <= |data| && skip + n <= got
    ensures data[from..from + got][skip..skip + n] == data[from + skip..from + skip + n]
  {
    var t := data[from..from + got][skip..skip + n];
    forall i | 0 <= i < n
      ensures t[i] == data[from + skip..from + skip + n][i]
    {
    }
  }

  /** The next bytes of the file put behind the prefix. */
  lemma FilledOn(before: seq<byte>, was: seq<byte>, data: seq<byte>, offset: nat, size: nat, to: nat, chunk: seq<byte>)
    requires FilledPrefix(before, was, data, offset, size, to) && to + |chunk| <= size && offset + to + |chunk| <= |data|
    requires chunk == data[offset + to..offset + to + |chunk|]
    ensures to + |chunk| <= |was| && FilledPrefix(before, Splice(was, to, chunk), data, offset, size, to + |chunk|)
  {
    forall k | 0 <= k < |chunk|
      ensures chunk[k] == data[offset + to + k]
    {
    }
  }

  /** A file that ends inside a range of whole sectors: the range is read without complaint, and one byte less is not. */
  method ShortReads(io: ImageFileIO) returns (aligned: bool, unaligned: bool)
    requires io.Valid() && io.file.sector == 512 && |io.file.data| == 512
    modifies io.file`pos, io.file`failedReads
    ensures io.file.failedReads == old(io.file.failedReads) ==> aligned && !unaligned
  {
    var buf := new byte[1024];
    ghost var readsOk;
    aligned, readsOk := io.DiskRead(buf, 1024, 0);
    unaligned, readsOk := io.DiskRead(buf, 1023, 0);
  }

  /** `got` bytes of the file are at the start of the buffer, whose rest is as it was. */
  ghost predicate FilledPrefix(before: seq<byte>, after: seq<byte>, data: seq<byte>, offset: nat, size: nat, got: nat) {
    && |after| == |before| && got <= size <= |before| && (got > 0 ==> offset + got <= |data|)
    && (forall k | 0 <= k < got :: after[k] == data[offset + k])
    && forall k | got <= k < |before| :: after[k] == before[k]
  }

  lemma TurnOfBlock(before: seq<byte>, data: seq<byte>, offset: nat, bytes: seq<byte>, upTo: nat, t: Turn, shown: seq<byte>, block: seq<byte>)
    requires WroteUpTo(before, data, offset, bytes, upTo)
    requires t.at + t.skip == upTo && 0 < t.size && upTo + t.size <= offset + |bytes| && t.skip + t.size <= t.full <= |shown|
    requires ShowsFile(shown, data, t) || (t.skip == 0 && t.full == t.size)
    requires block == Splice(shown, t.skip, bytes[upTo - offset..upTo - offset + t.size])
    ensures WroteUpTo(before, WriteAt(data, t.at, block[..t.full]), offset, bytes, upTo + t.size)
  {
    var chunk := bytes[upTo - offset..upTo - offset + t.size];
    SliceOfSplice(shown, t.skip, chunk, t.full);
    TurnWrites(before, data, offset, bytes, upTo, t, block[..t.full]);
  }

  /** What one turn makes of the file. */
  lemma TurnDone(before: seq<byte>, data: seq<byte>, offset: nat, bytes: seq<byte>, from: nat, remaining: nat, sector: nat,
                 t: Turn, shown: seq<byte>, readOk: bool, block: seq<byte>)
    requires 0 < sector <= BUFFER_SIZE && Whole(BUFFER_SIZE, sector) && remaining > 0 && from + remaining == |bytes|
    requires PlacedUpTo(before, data, offset, bytes, offset + from, sector) && (from == 0 || Whole(offset + from, sector))
    requires t == TurnAt(offset + from, remaining, sector) && t.skip + t.size <= t.full <= |shown| && t.size <= remaining
    requires readOk ==> ShowsFile(shown, data, t) || (t.skip == 0 && t.full == t.size)
    requires block == Splice(shown, t.skip, bytes[from..from + t.size])
    ensures var now := WriteAt(data, t.at, block[..t.full]);
            && PlacedUpTo(before, now, offset, bytes, offset + from + t.size, sector)
            && (WroteUpTo(before, data, offset, bytes, offset + from) && readOk ==> WroteUpTo(before, now, offset, bytes, offset + from + t.size))
            && (t.skip == 0 && t.full == t.size ==> now == WriteAt(data, t.at, bytes[from..from + t.size]))
  {
    hide WriteAt, Whole, WroteUpTo, PlacedUpTo, ShowsFile, Splice;
    TurnFits(offset + from, remaining, sector);
    var chunk := bytes[from..from + t.size];
    SliceOfSplice(shown, t.skip, chunk, t.full);
    TurnPlaces(before, data, offset, bytes, offset + from, remaining, block[..t.full], sector);
    hide TurnAt;
    if WroteUpTo(before, data, offset, bytes, offset + from) && readOk {
      TurnOfBlock(before, data, offset, bytes, offset + from, t, shown, block);
    }
  }

  lemma SliceOfSplice(s: seq<byte>, at: nat, chunk: seq<byte>, end: nat)
    requires at + |chunk| <= end <= |s|
    ensures Splice(s, at, chunk)[..end][at..at + |chunk|] == chunk
    ensures at == 0 && end == |chunk| ==> Splice(s, at, chunk)[..end] == chunk
  {
    var t := Splice(s, at, chunk);
    SpliceSlices(s, at, chunk);
    assert t[..end][at..at + |chunk|] == t[..at + |chunk|][at..] == (s[..at] + chunk)[at..] == chunk;
  }

  // ----- runs of writes

  datatype FileWrite = FileWrite(offset: nat, bytes: seq<byte>)

  /** The last write of a run that covers a byte, or none. */
  function LastTo(ws: seq<FileWrite>, k: nat): (r: int)
    ensures -1 <= r < |ws|
    ensures r >= 0 ==> ws[r].offset <= k < ws[r].offset + |ws[r].bytes|
    ensures forall i | r < i < |ws| :: !(ws[i].offset <= k < ws[i].offset + |ws[i].bytes|)
  {
    if ws == [] then -1
    else if ws[|ws| - 1].offset <= k < ws[|ws| - 1].offset + |ws[|ws| - 1].bytes| then |ws| - 1
    else LastTo(ws[..|ws| - 1], k)
  }

  /** The files that a run of successful writes went through. */
  ghost predicate WriteRun(files: seq<seq<byte>>, ws: seq<FileWrite>) {
    && |files| == |ws| + 1
    && forall i | 0 <= i < |ws| :: WroteUpTo(files[i], files[i + 1], ws[i].offset, ws[i].bytes, ws[i].offset + |ws[i].bytes|)
  }

  /** After any run of writes, aligned or not, a byte is what was last written to it, or what it was at first. */
  lemma {:induction false} LastWriteShows(files: seq<seq<byte>>, ws: seq<FileWrite>, k: nat)
    requires WriteRun(files, ws)
    ensures var last := LastTo(ws, k);
            && (last >= 0 ==> k < |files[|ws|]| && files[|ws|][k] == ws[last].bytes[k - ws[last].offset])
            && (last < 0 && k < |files[0]| ==> k < |files[|ws|]| && files[|ws|][k] == files[0][k])
    decreases |ws|
  {
    if ws != [] {
      var n := |ws| - 1;
      var front := files[..|ws|];
      assert WroteUpTo(files[n], files[n + 1], ws[n].offset, ws[n].bytes, ws[n].offset + |ws[n].bytes|);
      assert WriteRun(front, ws[..n]) by { hide WroteUpTo; }
      hide WriteRun;
      LastWriteShows(front, ws[..n], k);
      assert front[n] == files[n] && front[0] == files[0];
    }
  }
}
