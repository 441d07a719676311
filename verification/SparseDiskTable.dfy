/**
 * How the block loops walk the table. They call Expand(offset + size) with `size`
 * already reduced and `offset` not advanced, so a request that starts inside the
 * table and ends past it can run off the end of the table; this module says when.
 */
module SparseDiskTable {
  import opened Bytes
  import opened SparseDisk

  /** Where table entry `i` begins in the flat disk. */
  function Base(i: nat, n: nat): nat {
    i * n
  }

  lemma BlocksApart(i: nat, k: nat, n: nat)
    requires i < k
    ensures Base(i, n) + n == Base(i + 1, n) <= Base(k, n)
  {
    assert (i + 1) * n <= k * n;
  }

  /** `count` blocks hold `u` bytes exactly when Ceil(u, n) is no more than `count`. */
  lemma CeilHolds(u: nat, n: nat, count: nat)
    requires n > 0
    ensures Ceil(u, n) <= count <==> u <= Base(count, n)
  {
    var q, r := (u + n - 1) / n, (u + n - 1) % n;
    assert u + n - 1 == q * n + r;
    if q <= count {
      assert q * n <= count * n;
    } else {
      BlocksApart(count, q, n);
    }
  }

  lemma Position(offset: nat, n: nat)
    requires n > 0
    ensures Base(EntryOf(offset, n), n) + Within(offset, n) == offset
  {
  }

  /** The table after a loop: its entries, the disk size, and whether the loop stayed inside. */
  datatype Walk = Walk(count: nat, size: nat, inTable: bool)

  /** The loops of DiskWrite and DiskRead without the bytes they move. */
  function WalkFrom(count: nat, size: nat, n: nat, index: nat, blockOffset: nat, length: nat, offset: nat): Walk
    requires blockOffset < n
    decreases length
  {
    var grow := index >= count && offset + length > size;
    var count := if grow && Ceil(offset + length, n) > count then Ceil(offset + length, n) else count;
    var size := if grow then offset + length else size;
    if index >= count then Walk(count, size, false)
    else
      var chunk := ChunkSize(length, blockOffset, n);
      if chunk == length then Walk(count, size, true)
      else WalkFrom(count, size, n, index + 1, 0, length - chunk, offset)
  }

  lemma {:induction false} WalkInside(count: nat, size: nat, n: nat, index: nat, blockOffset: nat, length: nat, offset: nat)
    requires blockOffset < n && index < count
    requires Base(index, n) + blockOffset + length <= Base(count, n)
    ensures WalkFrom(count, size, n, index, blockOffset, length, offset) == Walk(count, size, true)
    decreases length
  {
    var chunk := ChunkSize(length, blockOffset, n);
    if chunk < length {
      BlocksApart(index, index + 1, n);
      if index + 1 >= count {
        assert false;
      }
      WalkInside(count, size, n, index + 1, 0, length - chunk, offset);
    }
  }

  /** Once the disk size covers offset + length, the table grows no more. */
  lemma {:induction false} WalkStuck(count: nat, size: nat, n: nat, index: nat, blockOffset: nat, length: nat, offset: nat)
    requires blockOffset < n && index <= count && (index == count ==> blockOffset == 0)
    requires offset + length <= size
    requires Base(index, n) + blockOffset + length > Base(count, n)
    ensures !WalkFrom(count, size, n, index, blockOffset, length, offset).inTable
    decreases length
  {
    if index < count {
      BlocksApart(index, count, n);
      var chunk := ChunkSize(length, blockOffset, n);
      BlocksApart(index, index + 1, n);
      WalkStuck(count, size, n, index + 1, 0, length - chunk, offset);
    }
  }

  /** A request that leaves the table reaches its end with what lies past it still to do. */
  lemma {:induction false} WalkToEnd(count: nat, size: nat, n: nat, index: nat, blockOffset: nat, length: nat, offset: nat)
    requires blockOffset < n && index < count
    requires Base(index, n) + blockOffset + length > Base(count, n)
    ensures WalkFrom(count, size, n, index, blockOffset, length, offset)
         == WalkFrom(count, size, n, count, 0, Base(index, n) + blockOffset + length - Base(count, n), offset)
    decreases length
  {
    BlocksApart(index, count, n);
    var chunk := ChunkSize(length, blockOffset, n);
    BlocksApart(index, index + 1, n);
    if index + 1 < count {
      WalkToEnd(count, size, n, index + 1, 0, length - chunk, offset);
    }
  }

  /** What a caller can check beforehand: the request stays in a table of blocks of `n` bytes that reaches to `end`. */
  predicate StaysInTable(end: nat, n: nat, offset: nat, length: nat)
    requires n > 0
  {
    if length == 0 then offset < end || Within(offset, n) != 0
    else offset + length <= end || end <= offset || end - offset <= (offset + length - 1) % n
  }

  /**
   * How far such a request grows the table, and the disk size it leaves. One that straddles the end grows the table
   * far enough, but the size falls short of where the request ends by what had been written before the table grew.
   */
  function Growth(size: nat, n: nat, offset: nat, length: nat): Walk
    requires n > 0
  {
    var end := Base(Ceil(size, n), n);
    if offset + length <= end then Walk(Ceil(size, n), size, true)
    else Walk(Ceil(offset + length, n), if end <= offset then offset + length else offset + (offset + length - end), true)
  }

  /** The requests that stay inside the table are exactly these, and this is how they grow it. */
  lemma WalkStaysInTable(size: nat, n: nat, offset: nat, length: nat)
    requires n > 0
    ensures var w := WalkFrom(Ceil(size, n), size, n, EntryOf(offset, n), Within(offset, n), length, offset);
            && (w.inTable <==> StaysInTable(Base(Ceil(size, n), n), n, offset, length))
            && (w.inTable ==> w == Growth(size, n, offset, length) && offset + length <= Base(w.count, n))
  {
    var count, index := Ceil(size, n), EntryOf(offset, n);
    var end := Base(count, n);
    Position(offset, n);
    CeilHolds(size, n, count);
    CeilHolds(offset + length, n, Ceil(offset + length, n));
    if index < count {
      BlocksApart(index, count, n);
      if offset + length <= end {
        WalkInside(count, size, n, index, Within(offset, n), length, offset);
      } else {
        WalkToEnd(count, size, n, index, Within(offset, n), length, offset);
        WalkPastEnd(count, size, n, offset, length);
      }
    } else {
      assert Base(count, n) <= Base(index, n) by { if count < index { BlocksApart(count, index, n); } }
      WalkFromPastEnd(size, n, offset, length);
    }
  }

  /** The turn at the end of the table, with offset + length past it. */
  lemma WalkPastEnd(count: nat, size: nat, n: nat, offset: nat, length: nat)
    requires n > 0 && size <= Base(count, n)
    requires offset < Base(count, n) < offset + length
    ensures var w := WalkFrom(count, size, n, count, 0, offset + length - Base(count, n), offset);
            && (w.inTable <==> Base(count, n) - offset <= (offset + length - 1) % n)
            && (w.inTable ==> w == Walk(Ceil(offset + length, n), offset + (offset + length - Base(count, n)), true))
  {
    var end := Base(count, n);
    var rest := offset + length - end;
    var q, t := (offset + length - 1) / n, (offset + length - 1) % n;
    assert offset + length - 1 == Base(q, n) + t;
    assert q >= count by { if q < count { BlocksApart(q, count, n); } }
    var grown := Ceil(offset + rest, n);
    CeilHolds(offset + rest, n, q);
    CeilHolds(offset + rest, n, count);
    CeilHolds(offset + length, n, grown);
    if end - offset <= t {
      assert Base(count, n) <= Base(q, n) by { if count < q { BlocksApart(count, q, n); } }
      assert offset + rest > Base(q, n) && grown >= q + 1;
      assert Base(q + 1, n) <= Base(grown, n) by { if q + 1 < grown { BlocksApart(q + 1, grown, n); } }
      BlocksApart(q, q + 1, n);
      CeilHolds(offset + rest, n, q + 1);
      CeilHolds(offset + length, n, q + 1);
      CeilHolds(offset + length, n, q);
      assert grown == q + 1 == Ceil(offset + length, n);
      WalkInside(grown, offset + rest, n, count, 0, rest, offset);
    } else {
      assert grown <= q;
      assert Base(grown, n) <= Base(q, n) by { if grown < q { BlocksApart(grown, q, n); } }
      if offset + rest > size && grown > count {
        WalkStuck(grown, offset + rest, n, count, 0, rest, offset);
      } else if offset + rest > size {
        WalkStuck(count, offset + rest, n, count, 0, rest, offset);
      } else {
        WalkStuck(count, size, n, count, 0, rest, offset);
      }
    }
  }

  /** A request that starts past the table expands it first. */
  lemma WalkFromPastEnd(size: nat, n: nat, offset: nat, length: nat)
    requires n > 0 && Ceil(size, n) <= EntryOf(offset, n)
    ensures var w := WalkFrom(Ceil(size, n), size, n, EntryOf(offset, n), Within(offset, n), length, offset);
            && (w.inTable <==> StaysInTable(Base(Ceil(size, n), n), n, offset, length))
            && (w.inTable ==> w == Growth(size, n, offset, length))
  {
    var count, index := Ceil(size, n), EntryOf(offset, n);
    Position(offset, n);
    CeilHolds(size, n, count);
    assert Base(count, n) <= Base(index, n) by { if count < index { BlocksApart(count, index, n); } }
    var grown := Ceil(offset + length, n);
    CeilHolds(offset + length, n, grown);
    CeilHolds(offset + length, n, index);
    CeilHolds(offset + length, n, count);
    if offset + length > Base(index, n) {
      WalkInside(grown, offset + length, n, index, Within(offset, n), length, offset);
    }
  }

  // ----- the walk is the walk of the real loops

  ghost predicate Walked(d: Disk, w: Walk, inTable: bool) {
    |d.blocks| == w.count && d.size == w.size && inTable == w.inTable
  }

  lemma {:induction false} WriteWalks(d: Disk, index: nat, blockOffset: nat, data: seq<byte>, offset: nat, grant: nat -> bool)
    requires d.n > 0 && Blocky(d.blocks, d.n) && blockOffset < d.n
    ensures var w := WriteFrom(d, index, blockOffset, data, offset, grant);
            Walked(w.disk, WalkFrom(|d.blocks|, d.size, d.n, index, blockOffset, |data|, offset), w.inTable)
    decreases |data|
  {
    hide PutChunk, Refused, Pad;
    var d0 := Reach(d, index, offset + |data|);
    ReachCount(d, index, offset + |data|);
    if index < |d0.blocks| {
      var size := ChunkSize(|data|, blockOffset, d.n);
      if size < |data| {
        WriteWalks(PutTurn(d0, index, blockOffset, data[..size], grant(index)), index + 1, 0, data[size..], offset, grant);
      }
    }
  }

  /** The table size after one turn has made room. */
  lemma ReachCount(d: Disk, index: nat, need: nat)
    requires d.n > 0
    ensures var d0 := Reach(d, index, need);
            var grow := index >= |d.blocks| && need > d.size;
            && |d0.blocks| == (if grow && Ceil(need, d.n) > |d.blocks| then Ceil(need, d.n) else |d.blocks|)
            && d0.size == if grow then need else d.size
  {
  }

  /** The blocks keep their size. */
  lemma {:induction false} WriteKeepsShape(d: Disk, index: nat, blockOffset: nat, data: seq<byte>, offset: nat, grant: nat -> bool)
    requires d.n > 0 && Blocky(d.blocks, d.n) && blockOffset < d.n
    ensures var w := WriteFrom(d, index, blockOffset, data, offset, grant);
            w.disk.n == d.n && Blocky(w.disk.blocks, d.n)
    decreases |data|
  {
    hide PutChunk, Refused, Ceil;
    var d0 := Reach(d, index, offset + |data|);
    if index < |d0.blocks| {
      var size := ChunkSize(|data|, blockOffset, d.n);
      if size < |data| {
        WriteKeepsShape(PutTurn(d0, index, blockOffset, data[..size], grant(index)), index + 1, 0, data[size..], offset, grant);
      }
    }
  }

  lemma PadTwice(blocks: seq<seq<byte>>, count: nat, more: nat, n: nat)
    requires |blocks| <= count <= more
    ensures Pad(Pad(blocks, count, n), more, n) == Pad(blocks, more, n)
  {
  }

  /** Reading only ever adds zero blocks. */
  lemma {:induction false} ReadPads(d: Disk, index: nat, blockOffset: nat, size: nat, offset: nat)
    requires d.n > 0 && Blocky(d.blocks, d.n) && blockOffset < d.n
    ensures var r := ReadFrom(d, index, blockOffset, size, offset);
            && r.disk.n == d.n && |r.disk.blocks| >= |d.blocks|
            && r.disk.blocks == Pad(d.blocks, |r.disk.blocks|, d.n)
    decreases size
  {
    var d0 := Reach(d, index, offset + size);
    if index < |d0.blocks| {
      var chunk := ChunkSize(size, blockOffset, d.n);
      if chunk < size {
        ReadPads(d0, index + 1, 0, size - chunk, offset);
        var r := ReadFrom(d0, index + 1, 0, size - chunk, offset);
        PadTwice(d.blocks, |d0.blocks|, |r.disk.blocks|, d.n);
      }
    }
  }

  lemma {:induction false} ReadWalks(d: Disk, index: nat, blockOffset: nat, size: nat, offset: nat)
    requires d.n > 0 && Blocky(d.blocks, d.n) && blockOffset < d.n
    ensures var r := ReadFrom(d, index, blockOffset, size, offset);
            Walked(r.disk, WalkFrom(|d.blocks|, d.size, d.n, index, blockOffset, size, offset), r.inTable)
    decreases size
  {
    var d0 := Reach(d, index, offset + size);
    if index < |d0.blocks| {
      var chunk := ChunkSize(size, blockOffset, d.n);
      if chunk < size {
        ReadWalks(d0, index + 1, 0, size - chunk, offset);
      }
    }
  }

  /** Growing keeps the table at exactly Ceil(size, n) entries. */
  lemma {:induction false} WalkKeepsCeil(size: nat, n: nat, index: nat, blockOffset: nat, length: nat, offset: nat)
    requires blockOffset < n
    ensures var w := WalkFrom(Ceil(size, n), size, n, index, blockOffset, length, offset);
            w.count == Ceil(w.size, n) && w.size >= size
    decreases length
  {
    var count := Ceil(size, n);
    var grow := index >= count && offset + length > size;
    var size' := if grow then offset + length else size;
    CeilHolds(size', n, Ceil(size', n));
    CeilHolds(size, n, Ceil(size', n));
    var chunk := ChunkSize(length, blockOffset, n);
    if index < Ceil(size', n) && chunk < length {
      WalkKeepsCeil(size', n, index + 1, 0, length - chunk, offset);
    }
  }

  // ----- the loops a turn at a time

  /** The outcome of the write loop from here on, after turns that returned `ok`. */
  ghost function Onward(d: Disk, index: nat, blockOffset: nat, data: seq<byte>, offset: nat, grant: nat -> bool, ok: bool): Written
    requires d.n > 0 && Blocky(d.blocks, d.n) && blockOffset < d.n
  {
    var w := WriteFrom(d, index, blockOffset, data, offset, grant);
    w.(ok := w.ok && ok)
  }

  lemma WriteStarts(d: Disk, offset: nat, data: seq<byte>, grant: nat -> bool)
    requires d.n > 0 && Blocky(d.blocks, d.n)
    ensures Write(d, offset, data, grant) == Onward(d, EntryOf(offset, d.n), Within(offset, d.n), data, offset, grant, true)
  {
  }

  lemma WriteTurn(d: Disk, index: nat, blockOffset: nat, data: seq<byte>, offset: nat, grant: nat -> bool, ok: bool)
    requires d.n > 0 && Blocky(d.blocks, d.n) && blockOffset < d.n
    ensures var d0 := Reach(d, index, offset + |data|);
            var size := ChunkSize(|data|, blockOffset, d.n);
            Onward(d, index, blockOffset, data, offset, grant, ok) ==
              if index >= |d0.blocks| then Written(d0, false, false)
              else
                var d1 := PutTurn(d0, index, blockOffset, data[..size], grant(index));
                var ok := ok && !Refused(d0.blocks[index], data[..size], grant(index));
                if size == |data| then Written(d1, ok, true)
                else Onward(d1, index + 1, 0, data[size..], offset, grant, ok)
  {
  }

  /** A turn that is not in the table ends the loop there. */
  lemma WriteEnds(d: Disk, index: nat, blockOffset: nat, data: seq<byte>, offset: nat, grant: nat -> bool, ok: bool)
    requires d.n > 0 && Blocky(d.blocks, d.n) && blockOffset < d.n && index >= |Reach(d, index, offset + |data|).blocks|
    ensures Onward(d, index, blockOffset, data, offset, grant, ok) == Written(Reach(d, index, offset + |data|), false, false)
  {
  }

  /** A turn that stayed in the table leaves the outcome of the whole request to the turns after it. */
  lemma WriteGoesOn(whole: Written, d: Disk, index: nat, blockOffset: nat, data: seq<byte>, pos: nat, offset: nat, grant: nat -> bool, ok: bool,
                    d1: Disk, chunk: nat, stored: bool)
    requires d.n > 0 && Blocky(d.blocks, d.n) && blockOffset < d.n && pos <= |data|
    requires whole == Onward(d, index, blockOffset, data[pos..], offset, grant, ok)
    requires chunk == ChunkSize(|data| - pos, blockOffset, d.n)
    requires var d0 := Reach(d, index, offset + (|data| - pos));
             && index < |d0.blocks|
             && d1 == PutTurn(d0, index, blockOffset, data[pos..pos + chunk], grant(index))
             && stored == !Refused(d0.blocks[index], data[pos..pos + chunk], grant(index))
    ensures d1.n == d.n && Blocky(d1.blocks, d.n)
    ensures whole == if pos + chunk == |data| then Written(d1, ok && stored, true)
                     else Onward(d1, index + 1, 0, data[pos + chunk..], offset, grant, ok && stored)
  {
    hide Onward, Reach, PutTurn, Refused, ChunkSize;
    TailSlices(data, pos, chunk);
    WriteTurn(d, index, blockOffset, data[pos..], offset, grant, ok);
  }

  /** The outcome of the read loop from here on, after turns that fetched `got`. */
  ghost function ReadOnward(d: Disk, index: nat, blockOffset: nat, size: nat, offset: nat, got: seq<byte>): Fetched
    requires d.n > 0 && Blocky(d.blocks, d.n) && blockOffset < d.n
  {
    var r := ReadFrom(d, index, blockOffset, size, offset);
    if r.inTable then r.(data := got + r.data) else Fetched(r.disk, [], false)
  }

  lemma ReadStarts(d: Disk, offset: nat, size: nat)
    requires d.n > 0 && Blocky(d.blocks, d.n)
    ensures var w, r := ReadOnward(d, EntryOf(offset, d.n), Within(offset, d.n), size, offset, []), Read(d, offset, size);
            w.disk == r.disk && w.inTable == r.inTable && (r.inTable ==> w.data == r.data)
  {
    hide ReadFrom;
  }

  lemma ReadTurn(d: Disk, index: nat, blockOffset: nat, size: nat, offset: nat, got: seq<byte>)
    requires d.n > 0 && Blocky(d.blocks, d.n) && blockOffset < d.n
    ensures var d0 := Reach(d, index, offset + size);
            var chunk := ChunkSize(size, blockOffset, d.n);
            ReadOnward(d, index, blockOffset, size, offset, got) ==
              if index >= |d0.blocks| then Fetched(d0, [], false)
              else
                var got := got + d0.blocks[index][blockOffset..blockOffset + chunk];
                if chunk == size then Fetched(d0, got, true)
                else ReadOnward(d0, index + 1, 0, size - chunk, offset, got)
  {
    var d0 := Reach(d, index, offset + size);
    var chunk := ChunkSize(size, blockOffset, d.n);
    if index < |d0.blocks| && chunk < size {
      var rest := ReadFrom(d0, index + 1, 0, size - chunk, offset);
      var block := d0.blocks[index][blockOffset..blockOffset + chunk];
      assert got + (block + rest.data) == (got + block) + rest.data;
    }
  }

  lemma ReadEnds(d: Disk, index: nat, blockOffset: nat, size: nat, offset: nat, got: seq<byte>)
    requires d.n > 0 && Blocky(d.blocks, d.n) && blockOffset < d.n && index >= |Reach(d, index, offset + size).blocks|
    ensures ReadOnward(d, index, blockOffset, size, offset, got) == Fetched(Reach(d, index, offset + size), [], false)
  {
  }

  lemma ReadGoesOn(whole: Fetched, d: Disk, index: nat, blockOffset: nat, rest: nat, offset: nat, got: seq<byte>,
                   d0: Disk, chunk: nat, more: seq<byte>)
    requires d.n > 0 && Blocky(d.blocks, d.n) && blockOffset < d.n
    requires whole == ReadOnward(d, index, blockOffset, rest, offset, got)
    requires d0 == Reach(d, index, offset + rest) && index < |d0.blocks|
    requires chunk == ChunkSize(rest, blockOffset, d.n) && |d0.blocks[index]| == d.n
    requires more == got + d0.blocks[index][blockOffset..blockOffset + chunk]
    ensures d0.n == d.n && Blocky(d0.blocks, d.n)
    ensures whole == if chunk == rest then Fetched(d0, more, true)
                     else ReadOnward(d0, index + 1, 0, rest - chunk, offset, more)
  {
    ReadTurn(d, index, blockOffset, rest, offset, got);
  }

  lemma TrimTurn(d: Disk, index: nat, blockOffset: nat, size: int)
    requires d.n > 0 && Blocky(d.blocks, d.n) && blockOffset < d.n
    requires size > 0 && index < |d.blocks|
    ensures TrimFrom(d, index, blockOffset, size) ==
            (var chunk := ChunkSize(size, blockOffset, d.n);
             TrimFrom(PutTurn(d, index, blockOffset, Zeros(chunk), true), index + 1, 0, size - chunk))
  {
  }
}
