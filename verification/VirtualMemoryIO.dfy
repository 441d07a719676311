/** CVirtualMemoryIO: the RAM disk whose blocks are separate allocations. */
module VirtualMemoryIO {
  import opened Bytes
  import DataSearch
  import opened SparseDisk
  import opened SparseDiskTable
  import opened LiveBlocks

  class VirtualMemoryIO {
    const n: nat                       // mem_block_size
    const width: DataSearch.Width      // which data_search the process picked
    var uSize: nat
    var table: seq<array?<byte>>       // ptr_table
    var nBlock: nat

    /** What a table entry reads as. */
    ghost function BlockAt(p: array?<byte>): seq<byte>
      reads p
    {
      if p == null then Zeros(n) else p[..]
    }

    ghost function Blocks(): (r: seq<seq<byte>>)
      reads this`table, table
      ensures |r| == |table|
    {
      var t := table;
      seq(|t|, i requires 0 <= i < |t| reads t => BlockAt(t[i]))
    }

    /** The disk the table stands for. */
    ghost function State(): (d: Disk)
      reads this`uSize, this`table, table
    {
      Disk(n, uSize, Blocks())
    }

    /** Every allocation in the table was in it before or is new. */
    twostate predicate OnlyGains(before: seq<array?<byte>>)
      reads this
    {
      forall i | 0 <= i < |table| :: table[i] == null || table[i] in before || fresh(table[i])
    }

    /**
     * An entry is allocated exactly when its block holds a nonzero byte, and
     * nBlock counts those blocks, so both are functions of the contents.
     */
    ghost predicate Valid()
      reads this, table
    {
      && Shaped()
      && |table| == Ceil(uSize, n)
      && (forall i | 0 <= i < |table| :: table[i] == null <==> AllZero(Blocks()[i]))
      && nBlock == Live(Blocks())
    }

    /** What the loops need to know of a valid store. */
    lemma ValidShape()
      requires Valid()
      ensures n > 0 && n % 32 == 0 && Blocky(Blocks(), n)
    {
    }

    /** Allocations have the block size, and no two entries share one. */
    ghost predicate Shaped()
      reads this`table, table
    {
      && n > 0 && n % 32 == 0
      && (forall i | 0 <= i < |table| && table[i] != null :: table[i].Length == n)
      && (forall i, k | 0 <= i < k < |table| && table[i] != null :: table[i] != table[k])
    }

    /** The constructor clamps the block size; Init makes the table. */
    constructor (size: nat, blockSizeShift: int, width: DataSearch.Width)
      ensures Valid() && uSize == size && this.width == width && n == Pow2(BlockShift(blockSizeShift))
      ensures Blocks() == seq(Ceil(size, n), _ => Zeros(n))
    {
      var blockSize := Pow2(BlockShift(blockSizeShift));
      Pow2Aligned(BlockShift(blockSizeShift));
      n := blockSize;
      this.width := width;
      uSize := size;
      table := seq(Ceil(size, blockSize), _ => null);
      nBlock := 0;
      new;
      NoLiveBlocks(Blocks());
      assert Blocks() == seq(Ceil(size, n), _ => Zeros(n));
    }

    method GetAllocSize() returns (r: nat)
      requires Valid()
      ensures r == Live(Blocks()) * n
    {
      r := nBlock * n;
    }

    method Expand(size: nat)
      requires Valid()
      modifies this`uSize, this`table
      ensures Valid() && OnlyGains(old(table))
      ensures State() == SparseDisk.Expand(old(State()), size)
    {
      if size <= uSize {
        return;
      }
      ghost var before := State();
      CeilHolds(uSize, n, Ceil(size, n));
      CeilHolds(size, n, Ceil(size, n));
      LivePad(before.blocks, Ceil(size, n), n);
      GrowTable(Ceil(size, n));
      uSize := size;
    }

    /** The old entries are copied to a longer table of null entries. */
    method GrowTable(count: nat)
      requires Shaped() && |table| <= count
      requires forall i | 0 <= i < |table| :: table[i] == null <==> AllZero(Blocks()[i])
      modifies this`table
      ensures Shaped() && OnlyGains(old(table))
      ensures State() == old(State()).(blocks := Pad(old(State()).blocks, count, n))
      ensures forall i | 0 <= i < |table| :: table[i] == null <==> AllZero(Blocks()[i])
    {
      ghost var before := State();
      table := table + seq(count - |table|, _ => null);
      assert Blocks() == Pad(before.blocks, count, n);
    }

    /** Sizes and offsets in whole words of the scan. */
    predicate Aligned(k: nat) {
      DataSearch.Aligned(width, k)
    }

    lemma PiecesAligned(size: nat, blockOffset: nat)
      requires n % 32 == 0 && blockOffset < n && Aligned(size) && Aligned(blockOffset)
      ensures Aligned(0)
      ensures var chunk := ChunkSize(size, blockOffset, n);
              Aligned(chunk) && Aligned(size - chunk) && Aligned(n - blockOffset - chunk)
    {
      ChunkAligned(width, n, size, blockOffset);
    }

    lemma WithinAligned(offset: nat)
      requires n > 0 && n % 32 == 0 && Aligned(offset)
      ensures Aligned(Within(offset, n))
    {
      StartAligned(width, n, offset);
    }

    /** Does any byte of the block outside the given range hold data? */
    method DataOutside(p: array<byte>, blockOffset: nat, size: nat) returns (found: bool)
      requires p.Length == n && blockOffset + size <= n
      requires Aligned(blockOffset) && Aligned(n - blockOffset - size)
      modifies p
      ensures p[..] == old(p[..])
      ensures found == !AllZero(Splice(p[..], blockOffset, Zeros(size)))
    {
      ghost var block := p[..];
      found := DataSearch.Search(p, 0, blockOffset, width);
      if !found {
        found := DataSearch.Search(p, blockOffset + size, n - blockOffset - size, width);
      }
      ZeroOutside(block, blockOffset, size);
    }

    /** memcpy into an allocated block. */
    method CopyInto(index: nat, blockOffset: nat, buf: array<byte>, pos: nat, size: nat)
      requires Shaped() && index < |table| && table[index] != null && buf !in table
      requires blockOffset + size <= n && pos + size <= buf.Length
      modifies table[index]
      ensures Shaped()
      ensures State() == PutTurn(old(State()), index, blockOffset, buf[pos..pos + size], true)
    {
      ghost var before := State();
      var p := table[index];
      CopyBytes(p, blockOffset, buf, pos, size);
      assert p[..] == Splice(before.blocks[index], blockOffset, buf[pos..pos + size]);
      assert Blocks() == before.blocks[index := p[..]];
    }

    /** ZeroMemory on part of an allocated block. */
    method ZeroMemory(index: nat, blockOffset: nat, size: nat)
      requires Shaped() && index < |table| && table[index] != null
      requires blockOffset + size <= n
      modifies table[index]
      ensures Shaped()
      ensures State() == PutTurn(old(State()), index, blockOffset, Zeros(size), true)
    {
      ghost var before := State();
      var p := table[index];
      ZeroBytes(p, blockOffset, size);
      assert p[..] == Splice(before.blocks[index], blockOffset, Zeros(size));
      assert Blocks() == before.blocks[index := p[..]];
    }

    /** NtFreeVirtualMemory on a block, whose entry then reads as zeros. */
    method FreeBlock(index: nat)
      requires Shaped() && index < |table|
      modifies this`table
      ensures Shaped() && table == old(table)[index := null]
      ensures State() == old(State()).(blocks := old(State()).blocks[index := Zeros(n)])
    {
      ghost var before := State();
      table := table[index := null];
      assert Blocks() == before.blocks[index := Zeros(n)];
    }

    /** NtAllocateVirtualMemory for an entry: the new memory is zero. */
    method NewBlock(index: nat)
      requires Shaped() && index < |table| && table[index] == null
      modifies this`table
      ensures Shaped() && State() == old(State())
      ensures table[index] != null && fresh(table[index])
      ensures table == old(table)[index := table[index]]
    {
      ghost var before := State();
      var p := new byte[n](_ => 0);
      assert p[..] == Zeros(n);
      table := table[index := p];
      assert Blocks() == before.blocks;
    }

    /** A change to one entry that keeps it canonical keeps the table canonical. */
    lemma Recount(before: Disk, index: nat, blockOffset: nat, chunk: seq<byte>, granted: bool)
      requires Shaped() && |table| == Ceil(uSize, n)
      requires index < |before.blocks| && blockOffset + |chunk| <= |before.blocks[index]|
      requires State() == PutTurn(before, index, blockOffset, chunk, granted)
      requires forall i | 0 <= i < |table| && i != index :: table[i] == null <==> AllZero(before.blocks[i])
      requires table[index] == null <==> AllZero(PutChunk(before.blocks[index], blockOffset, chunk, granted))
      requires nBlock + (if AllZero(before.blocks[index]) then 0 else 1)
            == Live(before.blocks) + (if table[index] == null then 0 else 1)
      ensures Valid()
    {
      PutTurnLive(before, index, blockOffset, chunk, granted);
    }

    /** Zeros into an entry that has memory, which is given back if nothing else is in it. */
    method ClearLive(index: nat, blockOffset: nat, size: nat)
      requires Valid() && index < |table| && table[index] != null
      requires blockOffset + size <= n
      requires Aligned(blockOffset) && Aligned(n - blockOffset - size)
      modifies this`table, this`nBlock, table[index]
      ensures Valid() && (table == old(table) || table == old(table)[index := null])
      ensures State() == PutTurn(old(State()), index, blockOffset, Zeros(size), true)
    {
      ghost var before := State();
      PutChunkLive(before.blocks[index], blockOffset, Zeros(size), true);
      var keep := DataOutside(table[index], blockOffset, size);
      assert Blocks() == before.blocks;
      if keep {
        ZeroMemory(index, blockOffset, size);
      } else {
        assert Splice(before.blocks[index], blockOffset, Zeros(size)) == Zeros(n);
        DropBlock(index);
      }
      Recount(before, index, blockOffset, Zeros(size), true);
    }

    /** The loop body on an entry that has memory. */
    method PutLive(index: nat, blockOffset: nat, buf: array<byte>, pos: nat, size: nat, data: bool)
      requires Valid() && index < |table| && buf !in table && table[index] != null
      requires blockOffset + size <= n && pos + size <= buf.Length
      requires Aligned(blockOffset) && Aligned(size) && Aligned(n - blockOffset - size)
      requires data == !AllZero(buf[pos..pos + size])
      modifies this`table, this`nBlock, table[index]
      ensures Valid() && (table == old(table) || table == old(table)[index := null])
      ensures State() == PutTurn(old(State()), index, blockOffset, buf[pos..pos + size], true)
    {
      ghost var before := State();
      ghost var chunk := buf[pos..pos + size];
      if data {
        PutChunkLive(before.blocks[index], blockOffset, chunk, true);
        CopyInto(index, blockOffset, buf, pos, size);
        Recount(before, index, blockOffset, chunk, true);
      } else {
        assert chunk == Zeros(size);
        ClearLive(index, blockOffset, size);
      }
    }

    /** Freeing a live block takes it off the count. */
    method DropBlock(index: nat)
      requires Valid() && index < |table| && table[index] != null
      modifies this`table, this`nBlock
      ensures Shaped() && table == old(table)[index := null]
      ensures nBlock + 1 == old(nBlock)
      ensures State() == old(State()).(blocks := old(State()).blocks[index := Zeros(n)])
    {
      LiveUpdate(Blocks(), index, Zeros(n));
      FreeBlock(index);
      nBlock := nBlock - 1;
    }

    /** The loop body on an entry without memory, given data. */
    method PutFresh(index: nat, blockOffset: nat, buf: array<byte>, pos: nat, size: nat)
      requires Valid() && index < |table| && buf !in table && table[index] == null
      requires blockOffset + size <= n && pos + size <= buf.Length
      requires !AllZero(buf[pos..pos + size])
      modifies this`table, this`nBlock
      ensures Valid() && table[index] != null && fresh(table[index]) && table == old(table)[index := table[index]]
      ensures State() == PutTurn(old(State()), index, blockOffset, buf[pos..pos + size], true)
    {
      ghost var before := State();
      ghost var chunk := buf[pos..pos + size];
      PutChunkLive(before.blocks[index], blockOffset, chunk, true);
      NewBlock(index);
      CopyInto(index, blockOffset, buf, pos, size);
      nBlock := nBlock + 1;
      Recount(before, index, blockOffset, chunk, true);
    }

    /** The body of the DiskWrite loop, on an entry inside the table. */
    method PutBlock(index: nat, blockOffset: nat, buf: array<byte>, pos: nat, size: nat, granted: bool) returns (ok: bool)
      requires Valid() && index < |table| && buf !in table
      requires blockOffset + size <= n && pos + size <= buf.Length
      requires Aligned(blockOffset) && Aligned(size) && Aligned(n - blockOffset - size)
      modifies this`table, this`nBlock, table, buf
      ensures Valid() && OnlyGains(old(table)) && buf[..] == old(buf[..])
      ensures State() == PutTurn(old(State()), index, blockOffset, buf[pos..pos + size], granted)
      ensures ok == !Refused(old(State()).blocks[index], buf[pos..pos + size], granted)
    {
      ghost var before := State();
      ghost var chunk := buf[pos..pos + size];
      ok := true;
      var data := DataSearch.Search(buf, pos, size, width);
      assert Blocks() == before.blocks && buf[pos..pos + size] == chunk;
      PutChunkLive(before.blocks[index], blockOffset, chunk, granted);
      if table[index] != null {
        PutLive(index, blockOffset, buf, pos, size, data);
      } else if data {
        if granted {
          PutFresh(index, blockOffset, buf, pos, size);
        } else {
          ok := false;
        }
      }
    }

    /** The table entry a loop is about to use, after Expand if need be. */
    method ReachEntry(index: nat, need: nat) returns (inside: bool)
      requires Valid()
      modifies this`uSize, this`table
      ensures Valid() && OnlyGains(old(table))
      ensures State() == Reach(old(State()), index, need)
      ensures inside == (index < |table|)
    {
      if index >= |table| {
        Expand(need);
      }
      inside := index < |table|;
    }

    /** One turn of the DiskWrite loop. */
    method WriteOne(index: nat, blockOffset: nat, buf: array<byte>, pos: nat, rest: nat, offset: nat, ghost data: seq<byte>, granted: bool)
      returns (inside: bool, chunk: nat, stored: bool)
      requires Valid() && buf !in table && blockOffset < n && pos + rest <= buf.Length && data == buf[..pos + rest]
      requires Aligned(blockOffset) && Aligned(rest)
      modifies this`uSize, this`table, this`nBlock, table, buf
      ensures Valid() && OnlyGains(old(table)) && buf[..] == old(buf[..])
      ensures inside == (index < |Reach(old(State()), index, offset + rest).blocks|)
      ensures !inside ==> State() == Reach(old(State()), index, offset + rest)
      ensures chunk == ChunkSize(rest, blockOffset, n) && Aligned(rest - chunk) && Aligned(0)
      ensures inside ==>
        var d0 := Reach(old(State()), index, offset + rest);
        && State() == PutTurn(d0, index, blockOffset, data[pos..pos + chunk], granted)
        && stored == !Refused(d0.blocks[index], data[pos..pos + chunk], granted)
    {
      hide Refused, Ceil, Aligned, PutTurn, Reach, Blocks, Valid;
      ValidShape();
      chunk := ChunkSize(rest, blockOffset, n);
      PiecesAligned(rest, blockOffset);
      PrefixSlice(buf[..], pos + rest, pos, pos + chunk);
      stored := false;
      inside := ReachEntry(index, offset + rest);
      if inside {
        stored := PutBlock(index, blockOffset, buf, pos, chunk, granted);
      }
    }

    method DiskWrite(buf: array<byte>, size: nat, offset: nat, grant: nat -> bool) returns (ok: bool, inTable: bool)
      requires Valid() && size <= buf.Length && buf !in table
      requires Aligned(size) && Aligned(offset)
      modifies this`uSize, this`table, this`nBlock, table, buf
      ensures Valid() && OnlyGains(old(table)) && buf[..] == old(buf[..])
      ensures Written(State(), ok, inTable) == Write(old(State()), offset, buf[..size], grant)
    {
      hide Onward, Write, Refused, Ceil, Reach, PutTurn, Aligned, Shaped, Blocks, Valid;
      ValidShape();
      ghost var data := buf[..size];
      ghost var whole := Onward(State(), EntryOf(offset, n), Within(offset, n), data, offset, grant, true);
      WriteStarts(State(), offset, data, grant);
      var index: nat, blockOffset: nat, pos: nat, rest: nat := EntryOf(offset, n), Within(offset, n), 0, size;
      WithinAligned(offset);
      assert data[0..] == data;
      ok := true;
      var more := true;
      while more
        invariant Valid() && OnlyGains(old(table)) && buf[..] == old(buf[..])
        invariant pos + rest == size && blockOffset < n && Aligned(rest) && Aligned(blockOffset)
        invariant Blocky(Blocks(), n)
        invariant more ==> whole == Onward(State(), index, blockOffset, data[pos..], offset, grant, ok)
        invariant !more ==> whole == Written(State(), ok, true)
        decreases more, rest
      {
        ValidShape();
        ghost var before := State();
        var inside, chunk, stored := WriteOne(index, blockOffset, buf, pos, rest, offset, data, grant(index));
        if !inside {
          WriteEnds(before, index, blockOffset, data[pos..], offset, grant, ok);
          return false, false;
        }
        WriteGoesOn(whole, before, index, blockOffset, data, pos, offset, grant, ok, State(), chunk, stored);
        ok := ok && stored;
        index, blockOffset, pos, rest := index + 1, 0, pos + chunk, rest - chunk;
        more := rest > 0;
      }
      return ok, true;
    }

    /** memcpy from an entry, or zeros if it has no memory. */
    method FetchBlock(index: nat, blockOffset: nat, buf: array<byte>, pos: nat, size: nat)
      requires Valid() && index < |table| && buf !in table
      requires blockOffset + size <= n && pos + size <= buf.Length
      modifies buf
      ensures Valid() && State() == old(State())
      ensures buf[..] == Splice(old(buf[..]), pos, Blocks()[index][blockOffset..blockOffset + size])
    {
      ghost var before := State();
      var p := table[index];
      if p != null {
        CopyBytes(buf, pos, p, blockOffset, size);
      } else {
        ZeroBytes(buf, pos, size);
      }
      assert Blocks() == before.blocks;
    }

    /** One turn of the DiskRead loop. */
    method ReadOne(index: nat, blockOffset: nat, buf: array<byte>, pos: nat, rest: nat, offset: nat) returns (inside: bool, chunk: nat)
      requires Valid() && buf !in table && blockOffset < n && pos + rest <= buf.Length
      modifies this`uSize, this`table, buf
      ensures Valid() && OnlyGains(old(table))
      ensures State() == Reach(old(State()), index, offset + rest) && inside == (index < |State().blocks|)
      ensures chunk == ChunkSize(rest, blockOffset, n)
      ensures inside ==> buf[..pos + chunk] == old(buf[..pos]) + State().blocks[index][blockOffset..blockOffset + chunk]
      ensures inside ==> buf[pos + chunk..] == old(buf[pos + chunk..])
    {
      hide Ceil, Reach, Shaped, Blocks, Valid;
      chunk := ChunkSize(rest, blockOffset, n);
      inside := ReachEntry(index, offset + rest);
      if inside {
        ValidShape();
        ghost var was := buf[..];
        ghost var block := Blocks()[index][blockOffset..blockOffset + chunk];
        FetchBlock(index, blockOffset, buf, pos, chunk);
        SpliceSlices(was, pos, block);
      }
    }

    method DiskRead(buf: array<byte>, size: nat, offset: nat) returns (ok: bool, inTable: bool)
      requires Valid() && size <= buf.Length && buf !in table
      modifies this`uSize, this`table, buf
      ensures Valid() && OnlyGains(old(table))
      ensures State() == Read(old(State()), offset, size).disk
      ensures inTable == Read(old(State()), offset, size).inTable
      ensures inTable ==> ok && |Read(old(State()), offset, size).data| == size
      ensures inTable ==> buf[..] == Splice(old(buf[..]), 0, Read(old(State()), offset, size).data)
    {
      hide Read, ReadOnward, Ceil, Reach, Shaped, Blocks, Valid;
      ValidShape();
      ghost var before := buf[..];
      ghost var whole := ReadOnward(State(), EntryOf(offset, n), Within(offset, n), size, offset, []);
      ReadStarts(State(), offset, size);
      var index: nat, blockOffset: nat, pos: nat, rest: nat := EntryOf(offset, n), Within(offset, n), 0, size;
      assert buf[..0] == [];
      var more := true;
      while more
        invariant Valid() && OnlyGains(old(table)) && buf !in table
        invariant pos + rest == size <= buf.Length && blockOffset < n && buf[pos..] == before[pos..]
        invariant Blocky(State().blocks, n)
        invariant more ==> whole == ReadOnward(State(), index, blockOffset, rest, offset, buf[..pos])
        invariant !more ==> pos == size && whole == Fetched(State(), buf[..size], true)
        decreases more, rest
      {
        ValidShape();
        ghost var d, got := State(), buf[..pos];
        ghost var was := buf[..];
        var inside, chunk := ReadOne(index, blockOffset, buf, pos, rest, offset);
        ValidShape();
        if !inside {
          ReadEnds(d, index, blockOffset, rest, offset, got);
          return false, false;
        }
        TailSlices(before, pos, chunk);
        TailSlices(was, pos, chunk);
        ReadGoesOn(whole, d, index, blockOffset, rest, offset, got, State(), chunk, buf[..pos + chunk]);
        index, blockOffset, pos, rest := index + 1, 0, pos + chunk, rest - chunk;
        more := rest > 0;
      }
      assert buf[..] == Splice(before, 0, buf[..size]);
      return true, true;
    }

    /** The body of the inner trim loop. */
    method TrimBlock(index: nat, blockOffset: nat, size: nat)
      requires Valid() && index < |table|
      requires blockOffset + size <= n
      requires Aligned(blockOffset) && Aligned(n - blockOffset - size)
      modifies this`table, this`nBlock, table
      ensures Valid() && OnlyGains(old(table))
      ensures State() == PutTurn(old(State()), index, blockOffset, Zeros(size), true)
    {
      if table[index] != null {
        ClearLive(index, blockOffset, size);
      } else {
        PutChunkLive(Blocks()[index], blockOffset, Zeros(size), true);
        assert Blocks()[index := Blocks()[index]] == Blocks();
      }
    }

    /** The inner trim loop, on one range. */
    method TrimRange(range: Range)
      requires Valid()
      requires Aligned(range.start) && (range.length > 0 ==> Aligned(range.length))
      modifies this`table, this`nBlock, table
      ensures Valid() && OnlyGains(old(table))
      ensures State() == TrimFrom(old(State()), EntryOf(range.start, n), Within(range.start, n), range.length)
    {
      hide Ceil, PutTurn, Aligned, Shaped, Blocks, Valid;
      ValidShape();
      var index: nat, blockOffset: nat, size: int := EntryOf(range.start, n), Within(range.start, n), range.length;
      ghost var after := TrimFrom(State(), index, blockOffset, size);
      WithinAligned(range.start);
      while size > 0 && index < |table|
        invariant Valid() && OnlyGains(old(table))
        invariant blockOffset < n && Aligned(blockOffset) && (size > 0 ==> Aligned(size))
        invariant Blocky(Blocks(), n)
        invariant after == TrimFrom(State(), index, blockOffset, size)
        decreases size
      {
        ValidShape();
        var chunk := ChunkSize(size, blockOffset, n);
        PiecesAligned(size, blockOffset);
        TrimTurn(State(), index, blockOffset, size);
        TrimBlock(index, blockOffset, chunk);
        ValidShape();
        index, blockOffset, size := index + 1, 0, size - chunk;
      }
    }

    method TrimProcess(ranges: seq<Range>)
      requires Valid()
      requires forall g | g in ranges :: Aligned(g.start) && (g.length > 0 ==> Aligned(g.length))
      modifies this`table, this`nBlock, table
      ensures Valid() && OnlyGains(old(table))
      ensures State() == Trim(old(State()), ranges)
    {
      ghost var whole := Trim(State(), ranges);
      var k := 0;
      while k < |ranges|
        invariant k <= |ranges| && Valid() && OnlyGains(old(table))
        invariant whole == Trim(State(), ranges[k..])
      {
        assert ranges[k] in ranges;
        TrimRange(ranges[k]);
        assert ranges[k..][1..] == ranges[k + 1..];
        k := k + 1;
      }
    }
  }
}
