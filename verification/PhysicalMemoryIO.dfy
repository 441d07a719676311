/**
 * CPhysicalMemoryIO: the same RAM disk over page frames that are reached through
 * one window, which shows the frames of one block at a time.
 */
module PhysicalMemoryIO {
  import opened Bytes
  import DataSearch
  import opened SparseDisk
  import opened SparseDiskTable
  import opened LiveBlocks
  import opened AddressWindow
  import FrameTable

  /** What the system answers when memory is wanted for a block. */
  datatype Memory = LowMemory | CallFails | Pages(count: nat)

  /** A block is granted when all its pages are; CVirtualMemoryIO sees only this. */
  function Granted(alloc: nat -> Memory, np: nat): nat -> bool {
    (i: nat) => alloc(i).Pages? && alloc(i).count >= np
  }

  const ERR_OK := 0
  const ERR_PRIVILEGE := 6
  const ERR_INTERNAL := 7

  class PhysicalMemoryIO {
    const n: nat                       // mem_block_size
    const np: nat                      // n_pages
    const width: DataSearch.Width
    const mem: Window
    var uSize: nat
    var live: seq<bool>                // allocated_block
    var pfn: seq<seq<nat>>
    var nBlock: nat

    ghost function T(): FrameTable.Table
      reads this`live, this`pfn
    {
      FrameTable.Table(live, pfn, np, mem.page)
    }

    /** Every allocated block has frames of its own, all held by the process. */
    ghost predicate Shaped()
      reads this`live, this`pfn, mem, mem.view
    {
      && n > 0 && n % 32 == 0 && n == Base(np, mem.page)
      && mem.Valid() && mem.view.Length == n
      && FrameTable.Sized(T()) && FrameTable.Owned(T(), mem.Frames())
    }

    ghost function Blocks(): (r: seq<seq<byte>>)
      requires Shaped()
      reads this`live, this`pfn, mem, mem.view
      ensures |r| == |live| && Blocky(r, n)
    {
      FrameTable.Blocks(T(), mem.Frames())
    }

    ghost function State(): (d: Disk)
      requires Shaped()
      reads this`uSize, this`live, this`pfn, mem, mem.view
    {
      Disk(n, uSize, Blocks())
    }

    /** As in CVirtualMemoryIO; and the frames held are exactly np for every live block. */
    ghost predicate Valid()
      reads this, mem, mem.view
    {
      && Shaped()
      && |live| == Ceil(uSize, n)
      && (forall i | 0 <= i < |live| :: live[i] <==> !AllZero(Blocks()[i]))
      && nBlock == Live(Blocks())
      && |mem.held| == Base(nBlock, np)
    }

    lemma ValidShape()
      requires Valid()
      ensures Shaped() && n > 0 && n % 32 == 0 && Blocky(State().blocks, n)
    {
    }

    predicate Aligned(k: nat) {
      DataSearch.Aligned(width, k)
    }

    lemma PiecesAligned(size: nat, blockOffset: nat)
      requires n % 32 == 0 && blockOffset < n && Aligned(size) && Aligned(blockOffset)
      ensures Aligned(0)
      ensures var chunk := ChunkSize(size, blockOffset, n);
              Aligned(chunk) && Aligned(size - chunk) && Aligned(n - blockOffset - chunk)
    {
      ChunkAligned(width, n, size, blockOffset);
    }

    lemma WithinAligned(offset: nat)
      requires n > 0 && n % 32 == 0 && Aligned(offset)
      ensures Aligned(Within(offset, n))
    {
      StartAligned(width, n, offset);
    }

    constructor (size: nat, blockSizeShift: int, pageShift: nat, width: DataSearch.Width)
      requires pageShift <= BlockShift(blockSizeShift)
      ensures Valid() && uSize == size && this.width == width && n == Pow2(BlockShift(blockSizeShift))
      ensures Blocks() == seq(Ceil(size, n), _ => Zeros(n))
      ensures fresh(mem) && fresh(mem.view)
    {
      var shift := BlockShift(blockSizeShift);
      var pages, page := Pow2(shift - pageShift), Pow2(pageShift);
      Pow2Aligned(shift);
      Pow2Sum(shift - pageShift, pageShift);
      n := Pow2(shift);
      np := pages;
      this.width := width;
      mem := new Window(page, Pow2(shift));
      uSize := size;
      live := seq(Ceil(size, Pow2(shift)), _ => false);
      pfn := seq(Ceil(size, Pow2(shift)), _ => seq(pages, _ => 0));
      nBlock := 0;
      new;
      hide Pow2, Window.Frames, Window.Valid;
      NewlyMade();
    }

    /** Tables in which nothing is allocated, and no frame held. */
    lemma NewlyMade()
      requires n > 0 && n % 32 == 0 && n == Base(np, mem.page) && np > 0
      requires mem.Valid() && mem.view.Length == n && mem.Frames() == map[]
      requires live == seq(Ceil(uSize, n), _ => false) && pfn == seq(Ceil(uSize, n), _ => seq(np, _ => 0)) && nBlock == 0
      ensures Valid() && Blocks() == seq(Ceil(uSize, n), _ => Zeros(n))
    {
      hide Window.Frames, Window.Valid, FrameTable.Blocks;
      assert |mem.held| == |mem.Frames()| == 0;
      FrameTable.NoneLive(T(), mem.Frames());
      NoLiveBlocks(Blocks());
    }

    /** Init: AWE needs a privilege and a block of at least one page. */
    static method Open(size: nat, blockSizeShift: int, pageShift: nat, width: DataSearch.Width, privileged: bool)
      returns (err: nat, io: PhysicalMemoryIO?)
      ensures err == if !privileged then ERR_PRIVILEGE else if pageShift > BlockShift(blockSizeShift) then ERR_INTERNAL else ERR_OK
      ensures err == ERR_OK <==> io != null
      ensures io != null ==> io.Valid() && io.uSize == size && io.Blocks() == seq(Ceil(size, io.n), _ => Zeros(io.n))
    {
      if !privileged {
        return ERR_PRIVILEGE, null;
      }
      if pageShift > BlockShift(blockSizeShift) {
        return ERR_INTERNAL, null;
      }
      io := new PhysicalMemoryIO(size, blockSizeShift, pageShift, width);
      err := ERR_OK;
    }

    /** MapUserPhysicalPages on a block's frames: the view then shows the block. */
    method MapEntry(index: nat)
      requires Shaped() && index < |live| && live[index]
      modifies mem, mem.view
      ensures Shaped() && Blocks() == old(Blocks()) && |mem.held| == old(|mem.held|)
      ensures mem.mapped == pfn[index] && mem.view[..] == Blocks()[index]
    {
      mem.FramesHeld();
      mem.Map(pfn[index]);
    }

    /** What the frames are while the view shows a block. */
    lemma FramesInView(index: nat)
      requires mem.Valid() && mem.view.Length == n > 0 && index < |pfn| && mem.mapped == pfn[index] != []
      ensures |mem.view[..]| == Base(|pfn[index]|, mem.page)
      ensures mem.Frames() == Scatter(mem.held, pfn[index], mem.page, mem.view[..])
    {
    }

    /** memcpy into the view. */
    method CopyInto(index: nat, blockOffset: nat, buf: array<byte>, pos: nat, size: nat)
      requires Shaped() && index < |live| && live[index] && mem.mapped == pfn[index] && mem.view[..] == Blocks()[index]
      requires buf != mem.view && blockOffset + size <= n && pos + size <= buf.Length
      modifies mem.view
      ensures Shaped() && Blocks() == old(Blocks())[index := Splice(old(mem.view[..]), blockOffset, buf[pos..pos + size])]
      ensures mem.view[..] == Blocks()[index]
    {
      ghost var block := mem.view[..];
      FramesInView(index);
      CopyBytes(mem.view, blockOffset, buf, pos, size);
      assert mem.view[..] == Splice(block, blockOffset, buf[pos..pos + size]);
      FramesInView(index);
      FrameTable.ViewChanges(T(), mem.held, index, block, mem.view[..]);
    }

    /** ZeroMemory in the view. */
    method ZeroMemory(index: nat, blockOffset: nat, size: nat)
      requires Shaped() && index < |live| && live[index] && mem.mapped == pfn[index] && mem.view[..] == Blocks()[index]
      requires blockOffset + size <= n
      modifies mem.view
      ensures Shaped() && Blocks() == old(Blocks())[index := Splice(old(mem.view[..]), blockOffset, Zeros(size))]
      ensures mem.view[..] == Blocks()[index]
    {
      ghost var block := mem.view[..];
      FramesInView(index);
      ZeroBytes(mem.view, blockOffset, size);
      assert mem.view[..] == Splice(block, blockOffset, Zeros(size));
      FramesInView(index);
      FrameTable.ViewChanges(T(), mem.held, index, block, mem.view[..]);
    }

    /** data_search in the view, which it leaves as it was. */
    method SearchView(index: nat, from: nat, size: nat) returns (found: bool)
      requires Shaped() && index < |live| && live[index] && mem.mapped == pfn[index]
      requires from + size <= n && Aligned(size)
      modifies mem.view
      ensures Shaped() && Blocks() == old(Blocks()) && mem.view[..] == old(mem.view[..])
      ensures found == !AllZero(old(mem.view[..])[from..from + size])
    {
      ghost var frames := mem.Frames();
      FramesInView(index);
      found := DataSearch.Search(mem.view, from, size, width);
      FramesInView(index);
      assert mem.Frames() == frames;
    }

    /** Does any byte of the block in the view, outside the given range, hold data? */
    method DataOutside(index: nat, blockOffset: nat, size: nat) returns (found: bool)
      requires Shaped() && index < |live| && live[index] && mem.mapped == pfn[index] && mem.view[..] == Blocks()[index]
      requires blockOffset + size <= n
      requires Aligned(blockOffset) && Aligned(n - blockOffset - size)
      modifies mem.view
      ensures Shaped() && Blocks() == old(Blocks()) && mem.view[..] == old(mem.view[..])
      ensures found == !AllZero(Splice(Blocks()[index], blockOffset, Zeros(size)))
    {
      hide Blocks, Shaped, AllZero, Splice, Aligned;
      ghost var block := mem.view[..];
      assert |block| == n;
      ZeroOutside(block, blockOffset, size);
      found := SearchView(index, 0, blockOffset);
      if !found {
        found := SearchView(index, blockOffset + size, n - blockOffset - size);
      }
    }

    /** FreeUserPhysicalPages on a block's frames. */
    method FreeBlock(index: nat)
      requires Shaped() && index < |live| && live[index]
      modifies this`live, mem
      ensures Shaped() && live == old(live)[index := false]
      ensures |mem.held| + np == old(|mem.held|)
      ensures Blocks() == old(Blocks())[index := Zeros(n)]
    {
      ghost var t := T();
      ghost var frames := mem.Frames();
      FrameTable.FreeKeepsOthers(t, frames, index);
      mem.Free(pfn[index]);
      live := live[index := false];
      assert T() == FrameTable.Freed(t, index);
      assert mem.Frames() == frames - Numbers(pfn[index]);
    }

    /** Freeing a live block takes it off the count. */
    method DropBlock(index: nat)
      requires Valid() && index < |live| && live[index]
      modifies this`live, this`nBlock, mem
      ensures Shaped() && live == old(live)[index := false]
      ensures nBlock + 1 == old(nBlock) && |mem.held| == Base(nBlock, np)
      ensures State() == old(State()).(blocks := old(State()).blocks[index := Zeros(n)])
    {
      hide Shaped, Blocks;
      LiveUpdate(Blocks(), index, Zeros(n));
      FreeBlock(index);
      nBlock := nBlock - 1;
      BlocksApart(nBlock, nBlock + 1, np);
    }

    /** A partial answer: its numbers are already in pfn, and its frames are given back. */
    method RollBack(index: nat, got: seq<nat>, ghost frames: map<nat, seq<byte>>)
      requires mem.Valid() && index < |live| && !live[index] && |got| <= np && FrameTable.Sized(T())
      requires FrameTable.Owned(T(), frames) && Gained(frames, got, mem.page, mem.Frames())
      modifies this`pfn, mem
      ensures mem.Valid() && mem.Frames() == frames && |mem.held| == |frames|
      ensures FrameTable.Sized(T()) && FrameTable.Owned(T(), frames)
      ensures FrameTable.Blocks(T(), frames) == old(FrameTable.Blocks(T(), frames))
    {
      hide FrameTable.Owned, FrameTable.Blocks, Gained, Window.Frames, Window.Valid;
      ghost var t := T();
      FrameTable.NumberingKeepsBlocks(t, frames, index, got);
      GivenBack(frames, got, mem.page, mem.Frames());
      pfn := pfn[index := got + pfn[index][|got|..]];
      mem.Free(got);
      assert T() == FrameTable.Numbered(t, index, got);
    }

    /** A full answer: the frames become the block's. */
    method Adopt(index: nat, got: seq<nat>, ghost frames: map<nat, seq<byte>>)
      requires mem.Valid() && index < |live| && !live[index] && |got| == np && FrameTable.Sized(T())
      requires FrameTable.Owned(T(), frames) && Gained(frames, got, mem.page, mem.Frames())
      modifies this`pfn, this`live
      ensures live == old(live)[index := true] && |mem.held| == |frames| + np
      ensures FrameTable.Sized(T()) && FrameTable.Owned(T(), mem.Frames())
      ensures FrameTable.Blocks(T(), mem.Frames()) == old(FrameTable.Blocks(T(), frames))
    {
      hide FrameTable.Owned, FrameTable.Blocks, FrameTable.BlockAt, Gained, Window.Frames, Window.Valid, Shaped, Blocks, Valid;
      ghost var t := T();
      FrameTable.AllocateKeepsBlocks(t, frames, index, got, mem.Frames());
      pfn, live := pfn[index := got], live[index := true];
      assert T() == FrameTable.Allocated(t, index, got);
    }

    /** AllocateUserPhysicalPages for a block, taking back a partial answer. */
    method NewBlock(index: nat, answer: Memory) returns (ok: bool)
      requires Shaped() && index < |live| && !live[index]
      modifies this`live, this`pfn, mem, mem.view
      ensures Shaped() && Blocks() == old(Blocks())
      ensures ok == (answer.Pages? && answer.count >= np)
      ensures !ok ==> live == old(live) && |mem.held| == old(|mem.held|)
      ensures ok ==>
        && live == old(live)[index := true] && |mem.held| == old(|mem.held|) + np
        && mem.mapped == pfn[index] && mem.view[..] == Blocks()[index]
    {
      hide FrameTable.Owned, FrameTable.Blocks, FrameTable.Sized, Gained;
      if !answer.Pages? {
        return false;
      }
      ghost var frames := mem.Frames();
      var count := if answer.count < np then answer.count else np;
      var got := mem.Allocate(count);
      if count != np {
        RollBack(index, got, frames);
        return false;
      }
      Adopt(index, got, frames);
      MapEntry(index);
      return true;
    }

    /** A change to one entry that keeps it canonical keeps the table canonical. */
    lemma Recount(before: Disk, index: nat, blockOffset: nat, chunk: seq<byte>, granted: bool)
      requires Shaped() && |live| == Ceil(uSize, n)
      requires index < |before.blocks| && blockOffset + |chunk| <= |before.blocks[index]|
      requires State() == PutTurn(before, index, blockOffset, chunk, granted)
      requires forall i | 0 <= i < |live| && i != index :: live[i] <==> !AllZero(before.blocks[i])
      requires live[index] <==> !AllZero(PutChunk(before.blocks[index], blockOffset, chunk, granted))
      requires nBlock + (if AllZero(before.blocks[index]) then 0 else 1)
            == Live(before.blocks) + (if live[index] then 1 else 0)
      requires |mem.held| == Base(nBlock, np)
      ensures Valid()
    {
      PutTurnLive(before, index, blockOffset, chunk, granted);
    }

    /** Zeros into an entry that has frames, which are given back if nothing else is in them. */
    method ClearLive(index: nat, blockOffset: nat, size: nat)
      requires Valid() && index < |live| && live[index]
      requires blockOffset + size <= n
      requires Aligned(blockOffset) && Aligned(n - blockOffset - size)
      modifies this`live, this`nBlock, mem, mem.view
      ensures Valid()
      ensures State() == PutTurn(old(State()), index, blockOffset, Zeros(size), true)
    {
      hide Shaped, Blocks;
      ghost var before := State();
      PutChunkLive(before.blocks[index], blockOffset, Zeros(size), true);
      MapEntry(index);
      var keep := DataOutside(index, blockOffset, size);
      if keep {
        ZeroMemory(index, blockOffset, size);
      } else {
        assert Splice(before.blocks[index], blockOffset, Zeros(size)) == Zeros(n);
        DropBlock(index);
      }
      Recount(before, index, blockOffset, Zeros(size), true);
    }

    /** The loop body on an entry that has frames. */
    method PutLive(index: nat, blockOffset: nat, buf: array<byte>, pos: nat, size: nat, data: bool)
      requires Valid() && index < |live| && live[index] && buf != mem.view
      requires blockOffset + size <= n && pos + size <= buf.Length
      requires Aligned(blockOffset) && Aligned(size) && Aligned(n - blockOffset - size)
      requires data == !AllZero(buf[pos..pos + size])
      modifies this`live, this`nBlock, mem, mem.view
      ensures Valid()
      ensures State() == PutTurn(old(State()), index, blockOffset, buf[pos..pos + size], true)
    {
      hide Shaped, Blocks;
      ghost var before := State();
      ghost var chunk := buf[pos..pos + size];
      if data {
        PutChunkLive(before.blocks[index], blockOffset, chunk, true);
        MapEntry(index);
        CopyInto(index, blockOffset, buf, pos, size);
        Recount(before, index, blockOffset, chunk, true);
      } else {
        assert chunk == Zeros(size);
        ClearLive(index, blockOffset, size);
      }
    }

    /** The loop body on an entry without frames, given data. */
    method PutFresh(index: nat, blockOffset: nat, buf: array<byte>, pos: nat, size: nat, answer: Memory) returns (ok: bool)
      requires Valid() && index < |live| && !live[index] && buf != mem.view
      requires blockOffset + size <= n && pos + size <= buf.Length
      requires !AllZero(buf[pos..pos + size])
      modifies this`live, this`pfn, this`nBlock, mem, mem.view
      ensures Valid() && ok == (answer.Pages? && answer.count >= np)
      ensures State() == PutTurn(old(State()), index, blockOffset, buf[pos..pos + size], ok)
    {
      hide Shaped, Blocks;
      ghost var before := State();
      ghost var chunk := buf[pos..pos + size];
      ok := NewBlock(index, answer);
      PutChunkLive(before.blocks[index], blockOffset, chunk, ok);
      if ok {
        CopyInto(index, blockOffset, buf, pos, size);
        nBlock := nBlock + 1;
        BlocksApart(nBlock - 1, nBlock, np);
        Recount(before, index, blockOffset, chunk, ok);
      } else {
        assert before.blocks[index := before.blocks[index]] == before.blocks;
      }
    }

    /** The body of the DiskWrite loop, on an entry inside the table. */
    method PutBlock(index: nat, blockOffset: nat, buf: array<byte>, pos: nat, size: nat, answer: Memory) returns (ok: bool)
      requires Valid() && index < |live| && buf != mem.view
      requires blockOffset + size <= n && pos + size <= buf.Length
      requires Aligned(blockOffset) && Aligned(size) && Aligned(n - blockOffset - size)
      modifies this`live, this`pfn, this`nBlock, mem, mem.view, buf
      ensures Valid() && buf[..] == old(buf[..])
      ensures var granted := answer.Pages? && answer.count >= np;
        && State() == PutTurn(old(State()), index, blockOffset, buf[pos..pos + size], granted)
        && ok == !Refused(old(State()).blocks[index], buf[pos..pos + size], granted)
    {
      hide Shaped, Blocks;
      ghost var before := State();
      ghost var chunk := buf[pos..pos + size];
      ok := true;
      var data := DataSearch.Search(buf, pos, size, width);
      assert buf[pos..pos + size] == chunk;
      PutChunkLive(before.blocks[index], blockOffset, chunk, answer.Pages? && answer.count >= np);
      if live[index] {
        PutLive(index, blockOffset, buf, pos, size, data);
      } else if data {
        ok := PutFresh(index, blockOffset, buf, pos, size, answer);
      } else {
        assert before.blocks[index := before.blocks[index]] == before.blocks;
      }
    }

    method Expand(size: nat)
      requires Valid()
      modifies this`uSize, this`live, this`pfn
      ensures Valid() && State() == SparseDisk.Expand(old(State()), size)
    {
      if size <= uSize {
        return;
      }
      hide Shaped, Blocks, Pad, Live, Window.Valid, Window.Frames, Base;
      ghost var before := Blocks();
      CeilHolds(uSize, n, Ceil(size, n));
      CeilHolds(size, n, Ceil(size, n));
      GrowTable(Ceil(size, n));
      uSize := size;
      Lengthened(before);
    }

    /** A table that has grown to its size is canonical if it was. */
    lemma Lengthened(before: seq<seq<byte>>)
      requires Shaped() && |live| == Ceil(uSize, n) && Blocks() == Pad(before, |live|, n)
      requires forall i | 0 <= i < |live| :: live[i] <==> !AllZero(Blocks()[i])
      requires nBlock == Live(before) && |mem.held| == Base(nBlock, np)
      ensures Valid()
    {
      LivePad(before, |live|, n);
    }

    /** The old entries are copied to longer tables of entries that are not allocated. */
    method GrowTable(count: nat)
      requires Shaped() && |live| <= count
      modifies this`live, this`pfn
      ensures Shaped() && |live| == count
      ensures Blocks() == Pad(old(Blocks()), count, n)
      ensures forall i | 0 <= i < |live| :: live[i] == (i < |old(live)| && old(live)[i])
      ensures forall i | 0 <= i < |live| :: if i < |old(live)| then Blocks()[i] == old(Blocks())[i] else AllZero(Blocks()[i])
    {
      hide FrameTable.Owned, FrameTable.Blocks, Window.Frames;
      FrameTable.LongerPads(T(), mem.Frames(), count);
      ghost var t := T();
      live := live + seq(count - |live|, _ => false);
      pfn := pfn + seq(count - |pfn|, _ => seq(np, _ => 0));
      assert T() == FrameTable.Longer(t, count);
    }

    /** The table entry a loop is about to use, after Expand if need be. */
    method ReachEntry(index: nat, need: nat) returns (inside: bool)
      requires Valid()
      modifies this`uSize, this`live, this`pfn
      ensures Valid()
      ensures State() == Reach(old(State()), index, need)
      ensures inside == (index < |live|)
    {
      if index >= |live| {
        Expand(need);
      }
      inside := index < |live|;
    }

    /** One turn of the DiskWrite loop. */
    method WriteOne(index: nat, blockOffset: nat, buf: array<byte>, pos: nat, rest: nat, offset: nat, ghost data: seq<byte>, answer: Memory)
      returns (inside: bool, chunk: nat, stored: bool)
      requires Valid() && buf != mem.view && blockOffset < n && pos + rest <= buf.Length && data == buf[..pos + rest]
      requires Aligned(blockOffset) && Aligned(rest)
      modifies this`uSize, this`live, this`pfn, this`nBlock, mem, mem.view, buf
      ensures Valid() && buf[..] == old(buf[..])
      ensures inside == (index < |Reach(old(State()), index, offset + rest).blocks|)
      ensures !inside ==> State() == Reach(old(State()), index, offset + rest)
      ensures chunk == ChunkSize(rest, blockOffset, n) && Aligned(rest - chunk) && Aligned(0)
      ensures inside ==>
        var d0 := Reach(old(State()), index, offset + rest);
        var granted := answer.Pages? && answer.count >= np;
        && State() == PutTurn(d0, index, blockOffset, data[pos..pos + chunk], granted)
        && stored == !Refused(d0.blocks[index], data[pos..pos + chunk], granted)
    {
      hide Refused, Ceil, Aligned, PutTurn, Reach, Blocks, Shaped;
      ValidShape();
      chunk := ChunkSize(rest, blockOffset, n);
      PiecesAligned(rest, blockOffset);
      PrefixSlice(buf[..], pos + rest, pos, pos + chunk);
      stored := false;
      inside := ReachEntry(index, offset + rest);
      if inside {
        stored := PutBlock(index, blockOffset, buf, pos, chunk, answer);
      }
    }

    method DiskWrite(buf: array<byte>, size: nat, offset: nat, alloc: nat -> Memory) returns (ok: bool, inTable: bool)
      requires Valid() && size <= buf.Length && buf != mem.view
      requires Aligned(size) && Aligned(offset)
      modifies this`uSize, this`live, this`pfn, this`nBlock, mem, mem.view, buf
      ensures Valid() && buf[..] == old(buf[..])
      ensures Written(State(), ok, inTable) == Write(old(State()), offset, buf[..size], Granted(alloc, np))
    {
      hide Onward, Write, Refused, Ceil, Reach, PutTurn, Aligned, Shaped, Blocks, Valid;
      ValidShape();
      ghost var data := buf[..size];
      ghost var grant := Granted(alloc, np);
      ghost var whole := Onward(State(), EntryOf(offset, n), Within(offset, n), data, offset, grant, true);
      WriteStarts(State(), offset, data, grant);
      var index: nat, blockOffset: nat, pos: nat, rest: nat := EntryOf(offset, n), Within(offset, n), 0, size;
      WithinAligned(offset);
      assert data[0..] == data;
      ok := true;
      var more := true;
      while more
        invariant Valid() && Shaped() && buf[..] == old(buf[..])
        invariant pos + rest == size && blockOffset < n && Aligned(rest) && Aligned(blockOffset)
        invariant Blocky(State().blocks, n)
        invariant more ==> whole == Onward(State(), index, blockOffset, data[pos..], offset, grant, ok)
        invariant !more ==> whole == Written(State(), ok, true)
        decreases more, rest
      {
        ValidShape();
        ghost var before := State();
        var inside, chunk, stored := WriteOne(index, blockOffset, buf, pos, rest, offset, data, alloc(index));
        ValidShape();
        if !inside {
          WriteEnds(before, index, blockOffset, data[pos..], offset, grant, ok);
          return false, false;
        }
        WriteGoesOn(whole, before, index, blockOffset, data, pos, offset, grant, ok, State(), chunk, stored);
        ok := ok && stored;
        index, blockOffset, pos, rest := index + 1, 0, pos + chunk, rest - chunk;
        more := rest > 0;
      }
      return ok, true;
    }

    /** memcpy from the view of an entry, or zeros if it has no frames. */
    method FetchBlock(index: nat, blockOffset: nat, buf: array<byte>, pos: nat, size: nat)
      requires Valid() && index < |live| && buf != mem.view
      requires blockOffset + size <= n && pos + size <= buf.Length
      modifies mem, mem.view, buf
      ensures Valid() && State() == old(State())
      ensures buf[..] == Splice(old(buf[..]), pos, State().blocks[index][blockOffset..blockOffset + size])
    {
      hide Shaped, Blocks;
      ghost var block := Blocks()[index];
      if live[index] {
        MapEntry(index);
        CopyBytes(buf, pos, mem.view, blockOffset, size);
      } else {
        ZeroBytes(buf, pos, size);
      }
      assert buf[..] == Splice(old(buf[..]), pos, block[blockOffset..blockOffset + size]);
    }

    /** One turn of the DiskRead loop. */
    method ReadOne(index: nat, blockOffset: nat, buf: array<byte>, pos: nat, rest: nat, offset: nat) returns (inside: bool, chunk: nat)
      requires Valid() && buf != mem.view && blockOffset < n && pos + rest <= buf.Length
      modifies this`uSize, this`live, this`pfn, mem, mem.view, buf
      ensures Valid()
      ensures State() == Reach(old(State()), index, offset + rest) && inside == (index < |State().blocks|)
      ensures chunk == ChunkSize(rest, blockOffset, n)
      ensures inside ==> buf[..pos + chunk] == old(buf[..pos]) + State().blocks[index][blockOffset..blockOffset + chunk]
      ensures inside ==> buf[pos + chunk..] == old(buf[pos + chunk..])
    {
      hide Ceil, Reach, Shaped, Blocks, Valid;
      chunk := ChunkSize(rest, blockOffset, n);
      inside := ReachEntry(index, offset + rest);
      if inside {
        ValidShape();
        ghost var was := buf[..];
        ghost var block := Blocks()[index][blockOffset..blockOffset + chunk];
        FetchBlock(index, blockOffset, buf, pos, chunk);
        SpliceSlices(was, pos, block);
      }
    }

    method DiskRead(buf: array<byte>, size: nat, offset: nat) returns (ok: bool, inTable: bool)
      requires Valid() && size <= buf.Length && buf != mem.view
      modifies this`uSize, this`live, this`pfn, mem, mem.view, buf
      ensures Valid()
      ensures State() == Read(old(State()), offset, size).disk
      ensures inTable == Read(old(State()), offset, size).inTable
      ensures inTable ==> ok && |Read(old(State()), offset, size).data| == size
      ensures inTable ==> buf[..] == Splice(old(buf[..]), 0, Read(old(State()), offset, size).data)
    {
      hide Read, ReadOnward, Ceil, Reach, Shaped, Blocks, Valid;
      ValidShape();
      ghost var before := buf[..];
      ghost var whole := ReadOnward(State(), EntryOf(offset, n), Within(offset, n), size, offset, []);
      ReadStarts(State(), offset, size);
      var index: nat, blockOffset: nat, pos: nat, rest: nat := EntryOf(offset, n), Within(offset, n), 0, size;
      assert buf[..0] == [];
      var more := true;
      while more
        invariant Valid() && Shaped()
        invariant pos + rest == size <= buf.Length && blockOffset < n && buf[pos..] == before[pos..]
        invariant Blocky(State().blocks, n)
        invariant more ==> whole == ReadOnward(State(), index, blockOffset, rest, offset, buf[..pos])
        invariant !more ==> pos == size && whole == Fetched(State(), buf[..size], true)
        decreases more, rest
      {
        ValidShape();
        ghost var d, got := State(), buf[..pos];
        ghost var was := buf[..];
        var inside, chunk := ReadOne(index, blockOffset, buf, pos, rest, offset);
        ValidShape();
        if !inside {
          ReadEnds(d, index, blockOffset, rest, offset, got);
          return false, false;
        }
        TailSlices(before, pos, chunk);
        TailSlices(was, pos, chunk);
        ReadGoesOn(whole, d, index, blockOffset, rest, offset, got, State(), chunk, buf[..pos + chunk]);
        index, blockOffset, pos, rest := index + 1, 0, pos + chunk, rest - chunk;
        more := rest > 0;
      }
      assert buf[..] == Splice(before, 0, buf[..size]);
      return true, true;
    }

    /** The body of the inner trim loop. */
    method TrimBlock(index: nat, blockOffset: nat, size: nat)
      requires Valid() && index < |live|
      requires blockOffset + size <= n
      requires Aligned(blockOffset) && Aligned(n - blockOffset - size)
      modifies this`live, this`nBlock, mem, mem.view
      ensures Valid()
      ensures State() == PutTurn(old(State()), index, blockOffset, Zeros(size), true)
    {
      hide Shaped, Blocks;
      if live[index] {
        ClearLive(index, blockOffset, size);
      } else {
        PutChunkLive(Blocks()[index], blockOffset, Zeros(size), true);
        assert Blocks()[index := Blocks()[index]] == Blocks();
      }
    }

    /** The inner trim loop, on one range. */
    method TrimRange(range: Range)
      requires Valid()
      requires Aligned(range.start) && (range.length > 0 ==> Aligned(range.length))
      modifies this`live, this`nBlock, mem, mem.view
      ensures Valid()
      ensures State() == TrimFrom(old(State()), EntryOf(range.start, n), Within(range.start, n), range.length)
    {
      hide Ceil, PutTurn, Aligned, Shaped, Blocks, Valid;
      ValidShape();
      var index: nat, blockOffset: nat, size: int := EntryOf(range.start, n), Within(range.start, n), range.length;
      ghost var after := TrimFrom(State(), index, blockOffset, size);
      WithinAligned(range.start);
      while size > 0 && index < |live|
        invariant Valid() && Shaped()
        invariant blockOffset < n && Aligned(blockOffset) && (size > 0 ==> Aligned(size))
        invariant Blocky(State().blocks, n)
        invariant after == TrimFrom(State(), index, blockOffset, size)
        decreases size
      {
        var chunk := ChunkSize(size, blockOffset, n);
        PiecesAligned(size, blockOffset);
        TrimTurn(State(), index, blockOffset, size);
        TrimBlock(index, blockOffset, chunk);
        ValidShape();
        index, blockOffset, size := index + 1, 0, size - chunk;
      }
    }

    method TrimProcess(ranges: seq<Range>)
      requires Valid()
      requires forall g | g in ranges :: Aligned(g.start) && (g.length > 0 ==> Aligned(g.length))
      modifies this`live, this`nBlock, mem, mem.view
      ensures Valid()
      ensures State() == Trim(old(State()), ranges)
    {
      hide Shaped, Blocks, Valid;
      ValidShape();
      ghost var whole := Trim(State(), ranges);
      var k := 0;
      while k < |ranges|
        invariant k <= |ranges| && Valid() && Shaped() && Blocky(State().blocks, n) && n > 0
        invariant whole == Trim(State(), ranges[k..])
      {
        assert ranges[k] in ranges;
        TrimRange(ranges[k]);
        ValidShape();
        assert ranges[k..][1..] == ranges[k + 1..];
        k := k + 1;
      }
    }

    method GetAllocSize() returns (r: nat)
      requires Valid()
      ensures r == Live(Blocks()) * n
    {
      r := nBlock * n;
    }
  }
}
