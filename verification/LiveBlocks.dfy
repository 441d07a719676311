/** How many blocks of a table hold data, and the block sizes that occur. */
module LiveBlocks {
  import opened Bytes
  import opened SparseDisk
  import opened SparseDiskTable
  import DataSearch

  /** The blocks with a nonzero byte in them. */
  ghost function Live(blocks: seq<seq<byte>>): nat {
    if blocks == [] then 0
    else Live(blocks[..|blocks| - 1]) + if AllZero(blocks[|blocks| - 1]) then 0 else 1
  }

  lemma {:induction false} LiveUpdate(blocks: seq<seq<byte>>, i: nat, block: seq<byte>)
    requires i < |blocks|
    ensures Live(blocks[i := block]) + (if AllZero(blocks[i]) then 0 else 1)
         == Live(blocks) + (if AllZero(block) then 0 else 1)
  {
    var last := |blocks| - 1;
    if i < last {
      LiveUpdate(blocks[..last], i, block);
      assert blocks[i := block][..last] == blocks[..last][i := block];
    } else {
      assert blocks[i := block][..last] == blocks[..last];
    }
  }

  /** Nonzero data makes its block live; zero data leaves it as live as the bytes around it. */
  lemma PutChunkLive(block: seq<byte>, blockOffset: nat, chunk: seq<byte>, granted: bool)
    requires blockOffset + |chunk| <= |block|
    ensures AllZero(PutChunk(block, blockOffset, chunk, granted))
       <==> Refused(block, chunk, granted) || (AllZero(chunk) && AllZero(Splice(block, blockOffset, Zeros(|chunk|))))
    ensures AllZero(chunk) ==> Splice(block, blockOffset, chunk) == Splice(block, blockOffset, Zeros(|chunk|))
    ensures AllZero(block) && AllZero(chunk) ==> Splice(block, blockOffset, chunk) == block
  {
    var after := Splice(block, blockOffset, chunk);
    if AllZero(after) {
      forall i | 0 <= i < |chunk| ensures chunk[i] == 0 {
        assert after[blockOffset + i] == chunk[i];
      }
    }
  }

  lemma PutTurnLive(d: Disk, index: nat, blockOffset: nat, chunk: seq<byte>, granted: bool)
    requires index < |d.blocks| && blockOffset + |chunk| <= |d.blocks[index]|
    ensures Live(PutTurn(d, index, blockOffset, chunk, granted).blocks) + (if AllZero(d.blocks[index]) then 0 else 1)
         == Live(d.blocks) + (if AllZero(PutChunk(d.blocks[index], blockOffset, chunk, granted)) then 0 else 1)
  {
    LiveUpdate(d.blocks, index, PutChunk(d.blocks[index], blockOffset, chunk, granted));
  }

  lemma {:induction false} LivePad(blocks: seq<seq<byte>>, count: nat, n: nat)
    ensures Live(Pad(blocks, count, n)) == Live(blocks)
    decreases count
  {
    if |blocks| < count {
      var p := Pad(blocks, count, n);
      assert p[..count - 1] == Pad(blocks, count - 1, n);
      LivePad(blocks, count - 1, n);
    }
  }

  lemma {:induction false} NoLiveBlocks(blocks: seq<seq<byte>>)
    requires forall i | 0 <= i < |blocks| :: AllZero(blocks[i])
    ensures Live(blocks) == 0
  {
    if blocks != [] {
      NoLiveBlocks(blocks[..|blocks| - 1]);
    }
  }

  function Pow2(k: nat): (r: nat)
    ensures r > 0
  {
    if k == 0 then 1 else 2 * Pow2(k - 1)
  }

  /** The constructors take the block size asked for, and the nearest one between 4 KiB and 1 GiB instead of any other. */
  function BlockShift(k: int): (r: nat)
    ensures 12 <= r <= 30
    ensures 12 <= k <= 30 ==> r == k
    ensures (k < r ==> r == 12) && (k > r ==> r == 30)
  {
    if k < 12 then 12 else if k > 30 then 30 else k
  }

  lemma {:induction false} Pow2Sum(i: nat, k: nat)
    ensures Pow2(i + k) == Pow2(i) * Pow2(k)
    decreases i
  {
    if i > 0 {
      Pow2Sum(i - 1, k);
    }
  }

  /** A block is a whole number of the words data_search steps by. */
  lemma {:induction false} Pow2Aligned(k: nat)
    requires k >= 5
    ensures Pow2(k) % 32 == 0
  {
    if k > 5 {
      Pow2Aligned(k - 1);
      DoubleAligned(Pow2(k - 1));
    } else {
      assert Pow2(5) == 2 * Pow2(4) && Pow2(4) == 2 * Pow2(3) && Pow2(3) == 2 * Pow2(2) && Pow2(2) == 2 * Pow2(1);
    }
  }

  lemma DoubleAligned(m: nat)
    requires m % 32 == 0
    ensures 2 * m % 32 == 0
  {
  }

  // ----- whole words

  lemma BlockAligned(width: DataSearch.Width, n: nat, k: nat)
    requires n % 32 == 0
    ensures DataSearch.Aligned(width, Base(k, n))
  {
    var m := n / 32;
    assert n == 32 * m;
    assert Base(k, n) == 32 * (k * m);
    DataSearch.BlockAligned(width, k * m);
  }

  /** The pieces of a block that one turn of a loop searches are whole words. */
  lemma ChunkAligned(width: DataSearch.Width, n: nat, size: nat, blockOffset: nat)
    requires n % 32 == 0 && blockOffset < n
    requires DataSearch.Aligned(width, size) && DataSearch.Aligned(width, blockOffset)
    ensures DataSearch.Aligned(width, 0)
    ensures DataSearch.Aligned(width, ChunkSize(size, blockOffset, n))
    ensures DataSearch.Aligned(width, size - ChunkSize(size, blockOffset, n))
    ensures DataSearch.Aligned(width, n - blockOffset - ChunkSize(size, blockOffset, n))
  {
    BlockAligned(width, n, 1);
    DataSearch.AlignedDifference(width, n, blockOffset);
    if size + blockOffset >= n {
      DataSearch.AlignedDifference(width, size, n - blockOffset);
    } else {
      DataSearch.AlignedDifference(width, n - blockOffset, size);
    }
  }

  lemma StartAligned(width: DataSearch.Width, n: nat, offset: nat)
    requires n > 0 && n % 32 == 0 && DataSearch.Aligned(width, offset)
    ensures DataSearch.Aligned(width, Within(offset, n))
  {
    Position(offset, n);
    BlockAligned(width, n, EntryOf(offset, n));
    DataSearch.AlignedDifference(width, offset, Base(EntryOf(offset, n), n));
  }

  /** Searching before and after a range finds whether anything but the range is nonzero. */
  lemma ZeroOutside(block: seq<byte>, blockOffset: nat, size: nat)
    requires blockOffset + size <= |block|
    ensures AllZero(Splice(block, blockOffset, Zeros(size)))
       <==> AllZero(block[0..blockOffset]) && AllZero(block[blockOffset + size..blockOffset + size + (|block| - blockOffset - size)])
  {
    var after := Splice(block, blockOffset, Zeros(size));
    var tail := block[blockOffset + size..blockOffset + size + (|block| - blockOffset - size)];
    assert after == block[0..blockOffset] + Zeros(size) + tail;
  }
}
