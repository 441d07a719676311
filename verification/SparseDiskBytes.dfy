/** The sparse disk as one flat sequence of bytes, call by call. */
module SparseDiskBytes {
  import opened Bytes
  import opened SparseDisk
  import opened SparseDiskTable
  import opened SparseDiskFlat

  /** The whole disk, block after block. */
  ghost function Flat(blocks: seq<seq<byte>>): (r: seq<byte>) {
    if blocks == [] then [] else Flat(blocks[..|blocks| - 1]) + blocks[|blocks| - 1]
  }

  lemma {:induction false} FlatLength(blocks: seq<seq<byte>>, n: nat)
    requires Blocky(blocks, n)
    ensures |Flat(blocks)| == Base(|blocks|, n)
  {
    if blocks != [] {
      FlatLength(blocks[..|blocks| - 1], n);
      BlocksApart(|blocks| - 1, |blocks|, n);
    }
  }

  lemma WantOfConcat(x: seq<byte>, y: seq<byte>, at: nat, data: seq<byte>)
    ensures Want(x + y, 0, at, data) == Want(x, 0, at, data) + Want(y, |x|, at, data)
  {
  }

  lemma WantIsSplice(s: seq<byte>, at: nat, data: seq<byte>)
    requires at + |data| <= |s|
    ensures Want(s, 0, at, data) == Splice(s, at, data)
  {
  }

  /** A write that refuses no block splices its data into the flat disk. */
  lemma {:induction false} SettledIsSpliced(before: seq<seq<byte>>, n: nat, at: nat, data: seq<byte>, grant: nat -> bool)
    requires Blocky(before, n) && AllGranted(before, n, at, data, grant)
    ensures Flat(SettleAll(before, n, at, data, grant)) == Want(Flat(before), 0, at, data)
  {
    if before != [] {
      var last := |before| - 1;
      var after := SettleAll(before, n, at, data, grant);
      SettledIsSpliced(before[..last], n, at, data, grant);
      assert after[..last] == SettleAll(before[..last], n, at, data, grant);
      FlatLength(before[..last], n);
      WantOfConcat(Flat(before[..last]), before[last], at, data);
    }
  }

  lemma {:induction false} FlatPad(blocks: seq<seq<byte>>, count: nat, n: nat)
    requires Blocky(blocks, n) && |blocks| <= count
    ensures Flat(Pad(blocks, count, n)) == Flat(blocks) + Zeros(Base(count, n) - Base(|blocks|, n))
    decreases count
  {
    var last, k := count - 1, Base(count, n) - Base(|blocks|, n);
    if count > |blocks| {
      BlocksApart(|blocks|, count, n);
      BlocksApart(last, count, n);
      if |blocks| < last { BlocksApart(|blocks|, last, n); }
      FlatPad(blocks, last, n);
      PadLast(blocks, count, n);
      ZerosJoin(k - n, n);
      hide Pad, Base, Flat;
      assert Flat(blocks) + Zeros(k - n) + Zeros(n) == Flat(blocks) + (Zeros(k - n) + Zeros(n));
    }
  }

  /** The last of the blocks that were added. */
  lemma PadLast(blocks: seq<seq<byte>>, count: nat, n: nat)
    requires |blocks| < count
    ensures Flat(Pad(blocks, count, n)) == Flat(Pad(blocks, count - 1, n)) + Zeros(n)
  {
    var p := Pad(blocks, count, n);
    assert p[..count - 1] == Pad(blocks, count - 1, n) && p[count - 1] == Zeros(n);
  }

  lemma ZerosJoin(a: nat, b: nat)
    ensures Zeros(a) + Zeros(b) == Zeros(a + b)
  {
  }

  lemma {:induction false} FlatInjective(x: seq<seq<byte>>, y: seq<seq<byte>>, n: nat)
    requires Blocky(x, n) && Blocky(y, n) && |x| == |y| && Flat(x) == Flat(y)
    ensures x == y
  {
    if x != [] {
      var last := |x| - 1;
      FlatLength(x[..last], n);
      FlatLength(y[..last], n);
      assert Flat(x[..last]) == Flat(x)[..Base(last, n)] == Flat(y[..last]);
      assert x[last] == Flat(x)[Base(last, n)..] == y[last];
      FlatInjective(x[..last], y[..last], n);
      assert x == x[..last] + [x[last]] && y == y[..last] + [y[last]];
    }
  }

  /** The slice of the flat disk that one block holds. */
  lemma {:induction false} FlatSlice(blocks: seq<seq<byte>>, n: nat, i: nat, from: nat, to: nat)
    requires Blocky(blocks, n) && i < |blocks| && from <= to <= n
    ensures Base(i, n) + to <= |Flat(blocks)|
    ensures Flat(blocks)[Base(i, n) + from..Base(i, n) + to] == blocks[i][from..to]
    decreases |blocks|
  {
    var last := |blocks| - 1;
    FlatLength(blocks[..last], n);
    FlatLength(blocks, n);
    if i < last {
      BlocksApart(i, last, n);
      FlatSlice(blocks[..last], n, i, from, to);
      assert Flat(blocks)[Base(i, n) + from..Base(i, n) + to] == Flat(blocks[..last])[Base(i, n) + from..Base(i, n) + to];
    }
  }

  // ----- one call

  /** The flat disk after the table has grown as far as a loop grew it. */
  ghost function Grown(d: Disk, after: Disk): seq<byte>
  {
    Flat(Pad(d.blocks, |after.blocks|, d.n))
  }

  /**
   * DiskWrite: the request stays in the table exactly when StaysInTable says so,
   * and then the call returns true exactly when the flat disk is the grown one
   * with the data spliced in. Denied memory leaves a block all zero as it was
   * and every other block as the request wants it.
   */
  lemma WriteSplices(d: Disk, offset: nat, data: seq<byte>, grant: nat -> bool)
    requires Valid(d)
    ensures var w := Write(d, offset, data, grant);
            && (w.inTable <==> StaysInTable(Base(|d.blocks|, d.n), d.n, offset, |data|))
            && Valid(w.disk) && w.disk.n == d.n && w.disk.size >= d.size && |w.disk.blocks| >= |d.blocks|
            && (w.inTable ==>
                  && offset + |data| <= |Grown(d, w.disk)|
                  && (w.ok <==> Flat(w.disk.blocks) == Splice(Grown(d, w.disk), offset, data))
                  && w.disk.blocks == SettleAll(Pad(d.blocks, |w.disk.blocks|, d.n), d.n, offset, data, grant))
  {
    hide SettleAll, AllGranted, Flat, WriteFrom, WalkFrom;
    var n, w := d.n, Write(d, offset, data, grant);
    WriteKeepsShape(d, EntryOf(offset, n), Within(offset, n), data, offset, grant);
    WriteWalks(d, EntryOf(offset, n), Within(offset, n), data, offset, grant);
    WalkStaysInTable(d.size, n, offset, |data|);
    WalkKeepsCeil(d.size, n, EntryOf(offset, n), Within(offset, n), |data|, offset);
    CeilHolds(d.size, n, |w.disk.blocks|);
    CeilHolds(w.disk.size, n, |w.disk.blocks|);
    if w.inTable {
      WriteFromSettles(d, EntryOf(offset, n), Within(offset, n), data, offset, grant);
      Position(offset, n);
      SettledFlat(d, offset, data, grant, w);
    }
  }

  lemma SettledFlat(d: Disk, at: nat, data: seq<byte>, grant: nat -> bool, w: Written)
    requires Blocky(d.blocks, d.n) && Blocky(w.disk.blocks, d.n) && Settled(d, at, data, grant, w)
    requires at + |data| <= Base(|w.disk.blocks|, d.n)
    ensures at + |data| <= |Grown(d, w.disk)|
    ensures w.ok <==> Flat(w.disk.blocks) == Splice(Grown(d, w.disk), at, data)
  {
    hide Flat, SettleAll, Splice, Want, Pad, AllGranted;
    var n, before := d.n, Pad(d.blocks, |w.disk.blocks|, d.n);
    FlatLength(before, n);
    WantIsSplice(Flat(before), at, data);
    NeverRefused(before, n, at, data);
    SettledIsSpliced(before, n, at, data, Always);
    if w.ok {
      SettledIsSpliced(before, n, at, data, grant);
    } else {
      RefusedDiffers(before, n, at, data, grant);
      var wanted := SettleAll(before, n, at, data, Always);
      SettleBlocky(before, n, at, data, Always);
      if Flat(w.disk.blocks) == Flat(wanted) {
        FlatInjective(w.disk.blocks, wanted, n);
      }
    }
  }

  lemma NeverRefused(before: seq<seq<byte>>, n: nat, at: nat, data: seq<byte>)
    ensures AllGranted(before, n, at, data, Always)
  {
  }

  lemma SettleBlocky(before: seq<seq<byte>>, n: nat, at: nat, data: seq<byte>, grant: nat -> bool)
    requires Blocky(before, n)
    ensures Blocky(SettleAll(before, n, at, data, grant), n)
  {
    forall i | 0 <= i < |before|
      ensures |SettleAll(before, n, at, data, grant)[i]| == n
    {
      SettledAt(before, n, at, data, grant, i);
    }
  }

  lemma SettledAt(before: seq<seq<byte>>, n: nat, at: nat, data: seq<byte>, grant: nat -> bool, i: nat)
    requires i < |before|
    ensures SettleAll(before, n, at, data, grant)[i] == Settle(before[i], Want(before[i], Base(i, n), at, data), grant(i))
  {
  }

  /** A block that was denied memory is not what the write wanted. */
  lemma RefusedDiffers(before: seq<seq<byte>>, n: nat, at: nat, data: seq<byte>, grant: nat -> bool)
    requires !AllGranted(before, n, at, data, grant)
    ensures SettleAll(before, n, at, data, grant) != SettleAll(before, n, at, data, Always)
  {
    var i :| 0 <= i < |before| && Refused(before[i], Want(before[i], Base(i, n), at, data), grant(i));
    SettledAt(before, n, at, data, grant, i);
    SettledAt(before, n, at, data, Always, i);
    hide SettleAll, Want;
    assert SettleAll(before, n, at, data, grant)[i] != SettleAll(before, n, at, data, Always)[i];
  }

  /** Memory that is never denied. */
  predicate Always(i: nat) {
    true
  }

  /** DiskRead: inside the table it returns the slice of the (grown) flat disk. */
  lemma ReadSlices(d: Disk, offset: nat, size: nat)
    requires Valid(d)
    ensures var r := Read(d, offset, size);
            && (r.inTable <==> StaysInTable(Base(|d.blocks|, d.n), d.n, offset, size))
            && Valid(r.disk) && r.disk.n == d.n && r.disk.size >= d.size
            && |r.disk.blocks| >= |d.blocks| && r.disk.blocks == Pad(d.blocks, |r.disk.blocks|, d.n)
            && (r.inTable ==>
                  && offset + size <= |Flat(r.disk.blocks)|
                  && r.data == Flat(r.disk.blocks)[offset..offset + size])
  {
    var n, r := d.n, Read(d, offset, size);
    ReadPads(d, EntryOf(offset, n), Within(offset, n), size, offset);
    ReadWalks(d, EntryOf(offset, n), Within(offset, n), size, offset);
    WalkStaysInTable(d.size, n, offset, size);
    WalkKeepsCeil(d.size, n, EntryOf(offset, n), Within(offset, n), size, offset);
    CeilHolds(d.size, n, |r.disk.blocks|);
    FlatLength(r.disk.blocks, n);
    if r.inTable {
      Position(offset, n);
      ReadFromSlices(d, EntryOf(offset, n), Within(offset, n), size, offset);
    }
  }

  /** A read that stays in the table, a turn at a time. */
  lemma ReadFromTurn(d: Disk, index: nat, blockOffset: nat, size: nat, offset: nat)
    requires d.n > 0 && Blocky(d.blocks, d.n) && blockOffset < d.n
    requires ReadFrom(d, index, blockOffset, size, offset).inTable
    ensures var d0, r := Reach(d, index, offset + size), ReadFrom(d, index, blockOffset, size, offset);
            var chunk := ChunkSize(size, blockOffset, d.n);
            && index < |d0.blocks| && |d0.blocks[index]| == d.n && Blocky(d0.blocks, d.n)
            && var got := d0.blocks[index][blockOffset..blockOffset + chunk];
            && (chunk == size ==> r == Fetched(d0, got, true))
            && (chunk < size ==>
                  var rest := ReadFrom(d0, index + 1, 0, size - chunk, offset);
                  rest.inTable && r == rest.(data := got + rest.data))
  {
    hide Reach;
  }

  /** The blocks there are stay as they are. */
  lemma ReadKeepsBlock(d: Disk, index: nat, blockOffset: nat, size: nat, offset: nat)
    requires d.n > 0 && Blocky(d.blocks, d.n) && blockOffset < d.n
    requires ReadFrom(d, index, blockOffset, size, offset).inTable
    ensures var d0, r := Reach(d, index, offset + size), ReadFrom(d, index, blockOffset, size, offset);
            && r.disk.n == d.n && Blocky(r.disk.blocks, d.n) && index < |d0.blocks| <= |r.disk.blocks| && r.disk.blocks[index] == d0.blocks[index]
  {
    hide Pad, Reach, ReadFrom;
    var d0, r := Reach(d, index, offset + size), ReadFrom(d, index, blockOffset, size, offset);
    var chunk := ChunkSize(size, blockOffset, d.n);
    ReadFromTurn(d, index, blockOffset, size, offset);
    ReadPads(d, index, blockOffset, size, offset);
    if chunk < size { ReadPads(d0, index + 1, 0, size - chunk, offset); }
    PadPrefix(d.blocks, d0.blocks, r.disk.blocks, d.n, index);
  }

  lemma {:induction false} ReadFromSlices(d: Disk, index: nat, blockOffset: nat, size: nat, offset: nat)
    requires d.n > 0 && Blocky(d.blocks, d.n) && blockOffset < d.n
    requires ReadFrom(d, index, blockOffset, size, offset).inTable
    ensures var r := ReadFrom(d, index, blockOffset, size, offset);
            && Base(index, d.n) + blockOffset + size <= |Flat(r.disk.blocks)|
            && r.data == Flat(r.disk.blocks)[Base(index, d.n) + blockOffset..Base(index, d.n) + blockOffset + size]
    decreases size
  {
    hide Flat, Pad, Base, Reach, ReadFrom;
    var r := ReadFrom(d, index, blockOffset, size, offset);
    var d0 := Reach(d, index, offset + size);
    var chunk := ChunkSize(size, blockOffset, d.n);
    ReadFromTurn(d, index, blockOffset, size, offset);
    ReadKeepsBlock(d, index, blockOffset, size, offset);
    FlatSlice(r.disk.blocks, d.n, index, blockOffset, blockOffset + chunk);
    if chunk < size {
      ReadFromSlices(d0, index + 1, 0, size - chunk, offset);
      BlocksApart(index, index + 1, d.n);
      JoinSlices(Flat(r.disk.blocks), Base(index, d.n) + blockOffset, chunk, size);
    }
  }

  lemma PadPrefix(blocks: seq<seq<byte>>, some: seq<seq<byte>>, more: seq<seq<byte>>, n: nat, i: nat)
    requires some == Pad(blocks, |some|, n) && more == Pad(blocks, |more|, n)
    requires i < |some| <= |more|
    ensures some[i] == more[i]
  {
  }

  lemma JoinSlices(s: seq<byte>, at: nat, k: nat, size: nat)
    requires k <= size && at + size <= |s|
    ensures s[at..at + size] == s[at..at + k] + s[at + k..at + size]
  {
  }

  /** A write past the table touches no block of it. */
  lemma SettleBeyond(blocks: seq<seq<byte>>, n: nat, index: nat, at: nat, data: seq<byte>)
    requires Blocky(blocks, n) && |blocks| <= index && Base(index, n) <= at
    ensures SettleAll(blocks, n, at, data, Always) == blocks
  {
    forall i | 0 <= i < |blocks|
      ensures Settle(blocks[i], Want(blocks[i], Base(i, n), at, data), Always(i)) == blocks[i]
    {
      BlocksApart(i, index, n);
      SettleUntouched(blocks[i], Base(i, n), at, data, Always(i));
    }
  }

  /** TrimProcess on one range: zeros over the part of the range inside the table. */
  lemma {:induction false} TrimFromZeros(d: Disk, index: nat, blockOffset: nat, size: int)
    requires d.n > 0 && Blocky(d.blocks, d.n) && blockOffset < d.n
    ensures var r := TrimFrom(d, index, blockOffset, size);
            && r.n == d.n && r.size == d.size && |r.blocks| == |d.blocks| && Blocky(r.blocks, r.n)
            && r.blocks == SettleAll(d.blocks, d.n, Base(index, d.n) + blockOffset, Zeros(if size < 0 then 0 else size), Always)
    decreases size
  {
    hide SettleAll, AllGranted;
    var n, at := d.n, Base(index, d.n) + blockOffset;
    TrimFromKeepsShape(d, index, blockOffset, size);
    if size <= 0 {
      assert Zeros(if size < 0 then 0 else size) == [];
      SettleNothing(d.blocks, n, at, Always);
    } else if index >= |d.blocks| {
      SettleBeyond(d.blocks, n, index, at, Zeros(size));
    } else {
      var chunk := ChunkSize(size, blockOffset, n);
      var d1 := d.(blocks := d.blocks[index := Splice(d.blocks[index], blockOffset, Zeros(chunk))]);
      TrimFromZeros(d1, index + 1, 0, size - chunk);
      BlocksApart(index, index + 1, n);
      assert Zeros(size)[..chunk] == Zeros(chunk) && Zeros(size)[chunk..] == Zeros(size - chunk);
      SettleStep(d.blocks, n, index, blockOffset, Zeros(size), Always, at, chunk, d1.blocks);
      if chunk == size {
        assert Zeros(size - chunk) == [];
        SettleNothing(d1.blocks, n, at + chunk, Always);
        SettleNothing(d1.blocks, n, Base(index + 1, n), Always);
      }
    }
  }

  /** The ranges of one TrimProcess call, put on the flat disk one after the other. */
  ghost function ZeroRanges(flat: seq<byte>, ranges: seq<Range>): (r: seq<byte>)
    ensures |r| == |flat|
    decreases |ranges|
  {
    if ranges == [] then flat
    else ZeroRanges(Want(flat, 0, ranges[0].start, Zeros(if ranges[0].length < 0 then 0 else ranges[0].length)), ranges[1..])
  }

  lemma {:induction false} TrimZeros(d: Disk, ranges: seq<Range>)
    requires Valid(d)
    ensures var r := Trim(d, ranges);
            && Valid(r) && r.n == d.n && r.size == d.size && |r.blocks| == |d.blocks|
            && Flat(r.blocks) == ZeroRanges(Flat(d.blocks), ranges)
    decreases |ranges|
  {
    if ranges != [] {
      var n, g := d.n, ranges[0];
      var d1 := TrimFrom(d, EntryOf(g.start, n), Within(g.start, n), g.length);
      TrimFromZeros(d, EntryOf(g.start, n), Within(g.start, n), g.length);
      Position(g.start, n);
      SettledIsSpliced(d.blocks, n, g.start, Zeros(if g.length < 0 then 0 else g.length), Always);
      TrimZeros(d1, ranges[1..]);
    }
  }

  // ----- requests that straddle the end

  /** A disk of one block of 4096 bytes. */
  function OneBlock(): Disk {
    Disk(4096, 4096, [Zeros(4096)])
  }

  /** 8192 bytes from the start: the loop asks for no more than what is left, and runs past the table. */
  lemma StraddleRunsPast(data: seq<byte>, grant: nat -> bool)
    requires |data| == 8192
    ensures Valid(OneBlock()) && !Write(OneBlock(), 0, data, grant).inTable
  {
    OneBlockValid();
    WriteSplices(OneBlock(), 0, data, grant);
  }

  /** 1536 bytes from 3584 on are all stored, and the disk size then is 4608, although the last of them is at 5119. */
  lemma SizeFallsShort(data: seq<byte>, grant: nat -> bool)
    requires |data| == 1536
    ensures Valid(OneBlock())
    ensures var w := Write(OneBlock(), 3584, data, grant);
            w.inTable && |w.disk.blocks| == 2 && w.disk.size == 4608
  {
    OneBlockValid();
    WriteSplices(OneBlock(), 3584, data, grant);
    WriteWalks(OneBlock(), EntryOf(3584, 4096), Within(3584, 4096), data, 3584, grant);
    WalkStaysInTable(4096, 4096, 3584, 1536);
  }

  lemma OneBlockValid()
    ensures Valid(OneBlock()) && Base(1, 4096) == 4096 && Ceil(4096, 4096) == 1 && Ceil(5120, 4096) == 2
  {
  }
}
